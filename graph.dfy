/** The parsed graph, the deterministic order of its nodes and its
    rendering in the Graphviz DOT language. */
module Graphs {
  import Nodes
  import opened Options

  const GraphvizHeader: string := "digraph g{\nrankdir=LR;\nratio=fill;\nnode [style=filled];\n"
  const GraphvizFooter: string := "}\n"

  /** The node table and the selected options, in the order they were read. */
  datatype Graph = Graph(nodes: Nodes.Table, options: seq<Option>)

  // ----- ascending integer sequences -----

  predicate Sorted(s: seq<int>) {
    forall i, j :: 0 <= i < j < |s| ==> s[i] <= s[j]
  }

  predicate StrictlyIncreasing(s: seq<int>) {
    forall i, j :: 0 <= i < j < |s| ==> s[i] < s[j]
  }

  predicate Distinct(s: seq<int>) {
    forall i, j :: 0 <= i < j < |s| ==> s[i] != s[j]
  }

  /** Inserts `x` into a sorted sequence, before the first larger-or-equal element. */
  function Insert(x: int, s: seq<int>): (r: seq<int>)
    requires Sorted(s)
    ensures Sorted(r) && multiset(r) == multiset(s) + multiset{x}
  {
    if s == [] || x <= s[0] then [x] + s
    else
      var tail := Insert(x, s[1..]);
      InsertBehindHead(x, s, tail);
      [s[0]] + tail
  }

  /** Keeping the head of `s` in front of the insertion into the rest of
      `s` is sorted and holds every element once more. */
  lemma InsertBehindHead(x: int, s: seq<int>, tail: seq<int>)
    requires Sorted(s) && s != [] && s[0] < x
    requires Sorted(tail) && multiset(tail) == multiset(s[1..]) + multiset{x}
    ensures Sorted([s[0]] + tail) && multiset([s[0]] + tail) == multiset(s) + multiset{x}
  {
    assert s == [s[0]] + s[1..];
    forall i | 0 <= i < |tail| ensures s[0] <= tail[i] {
      assert tail[i] in multiset(tail);
    }
  }

  /** Ascending sort of integers, as the host library's integer sort does. */
  function Sort(s: seq<int>): (r: seq<int>)
    ensures Sorted(r) && multiset(r) == multiset(s)
  {
    if s == [] then []
    else
      assert s == [s[0]] + s[1..];
      Insert(s[0], Sort(s[1..]))
  }

  /** A sequence is free of repetitions exactly when no element has
      multiplicity above one. */
  lemma {:induction false} DistinctMultiplicity(s: seq<int>)
    ensures Distinct(s) <==> forall x :: multiset(s)[x] <= 1
  {
    if s != [] {
      var rest := s[1..];
      assert s == [s[0]] + rest;
      DistinctMultiplicity(rest);
      if Distinct(s) {
        assert Distinct(rest) by {
          forall i, j | 0 <= i < j < |rest| ensures rest[i] != rest[j] {
            assert rest[i] == s[i + 1] && rest[j] == s[j + 1];
          }
        }
        assert s[0] !in rest by {
          forall j | 0 <= j < |rest| ensures rest[j] != s[0] {
            assert rest[j] == s[j + 1];
          }
        }
      } else {
        var i, j :| 0 <= i < j < |s| && s[i] == s[j];
        if i == 0 {
          assert s[j] in rest by { assert s[j] == rest[j - 1]; }
          assert multiset(s)[s[0]] >= 2;
        } else {
          assert !Distinct(rest) by { assert rest[i - 1] == rest[j - 1]; }
          var x :| multiset(rest)[x] > 1;
          assert multiset(s)[x] >= multiset(rest)[x];
        }
      }
    }
  }

  /** `m` is an element of `s` and no element of `s` is below it. */
  ghost predicate Least(m: int, s: set<int>) {
    m in s && forall x :: x in s ==> m <= x
  }

  /** The least element of a non-empty finite set. */
  ghost function Min(s: set<int>): (m: int)
    requires s != {}
    ensures m in s && forall x :: x in s ==> m <= x
  {
    MinExists(s);
    var m :| Least(m, s);
    m
  }

  lemma {:induction false} MinExists(s: set<int>)
    requires s != {}
    ensures exists m :: Least(m, s)
    decreases |s|
  {
    assert (forall x :: x !in s) ==> s == {};
    var y :| y in s;
    var rest := s - {y};
    if rest == {} {
      assert Least(y, s) by {
        forall x | x in s ensures y <= x {
          assert x !in rest;
        }
      }
    } else {
      MinExists(rest);
      var m :| Least(m, rest);
      var least := if y < m then y else m;
      assert Least(least, s) by {
        forall x | x in s ensures least <= x {
          if x != y {
            assert x in rest;
          }
        }
      }
    }
  }

  /** The elements of a finite set of integers in ascending order. */
  ghost function SortedKeys(s: set<int>): (r: seq<int>)
    ensures StrictlyIncreasing(r)
    ensures forall k :: k in r <==> k in s
    decreases s
  {
    if s == {} then []
    else
      var m := Min(s);
      var tail := SortedKeys(s - {m});
      assert forall k :: k in tail ==> m < k;
      [m] + tail
  }

  /** The first element of an increasing sequence is its least. */
  lemma HeadIsLeast(a: seq<int>, k: int)
    requires StrictlyIncreasing(a) && k in a
    ensures a[0] <= k
  {
    var j :| 0 <= j < |a| && a[j] == k;
    if j > 0 {
      assert a[0] < a[j];
    }
  }

  /** An ascending enumeration of a set is unique: the order of the nodes
      depends on nothing but their numbers. */
  lemma {:induction false} IncreasingUnique(a: seq<int>, b: seq<int>)
    requires StrictlyIncreasing(a) && StrictlyIncreasing(b)
    requires forall k :: k in a <==> k in b
    ensures a == b
  {
    if a != [] {
      assert a[0] in a;
    }
    if b != [] {
      assert b[0] in b;
    }
    if a != [] && b != [] {
      HeadIsLeast(a, b[0]);
      HeadIsLeast(b, a[0]);
      forall k ensures k in a[1..] <==> k in b[1..] {
        TailMember(a, k);
        TailMember(b, k);
      }
      IncreasingUnique(a[1..], b[1..]);
      assert a == [a[0]] + a[1..] && b == [b[0]] + b[1..];
    }
  }

  /** The rest of an ascending sequence holds everything but its head. */
  lemma TailMember(a: seq<int>, k: int)
    requires StrictlyIncreasing(a) && a != []
    ensures k in a[1..] <==> k in a && k != a[0]
  {
    if k in a[1..] {
      var i :| 0 <= i < |a| - 1 && a[1..][i] == k;
      assert a[0] < a[i + 1];
    }
    if k in a && k != a[0] {
      var j :| 0 <= j < |a| && a[j] == k;
      assert a[1..][j - 1] == k;
    }
  }

  /** The node numbers in ascending order: every key of the table exactly
      once. The keys are gathered in whatever order the table yields them
      and then sorted. */
  method OrderNodes(g: Graph) returns (keys: seq<int>)
    ensures StrictlyIncreasing(keys)
    ensures forall k :: k in keys <==> k in g.nodes
    ensures keys == SortedKeys(g.nodes.Keys)
  {
    keys := [];
    var rest := g.nodes.Keys;
    while rest != {}
      invariant rest <= g.nodes.Keys
      invariant forall k :: k in keys <==> k in g.nodes && k !in rest
      invariant Distinct(keys)
      decreases rest
    {
      assert (forall x :: x !in rest) ==> rest == {};
      var k :| k in rest;
      keys := keys + [k];
      rest := rest - {k};
    }
    DistinctMultiplicity(keys);
    var gathered := keys;
    keys := Sort(keys);
    assert forall k :: k in keys <==> k in gathered by {
      forall k ensures k in keys <==> k in gathered {
        assert k in keys <==> multiset(keys)[k] > 0;
        assert k in gathered <==> multiset(gathered)[k] > 0;
      }
    }
    DistinctMultiplicity(keys);
    IncreasingUnique(keys, SortedKeys(g.nodes.Keys));
  }

  // ----- rendering -----

  /** Every node's provides resolve in the table, so every node can be rendered. */
  predicate Renderable(t: Nodes.Table) {
    forall a :: a in t ==> Nodes.Resolves(t, t[a].provisions)
  }

  lemma LinkedIsRenderable(t: Nodes.Table)
    requires Nodes.Linked(t)
    ensures Renderable(t)
  {
    forall a, i | a in t && 0 <= i < |t[a].provisions| ensures t[a].provisions[i] in t {
      assert Nodes.EdgesResolve(t, a);
      var x := t[a].provisions[i];
      assert x in t[a].provisions;
    }
  }

  /** The renderings of the nodes at `keys`, concatenated in order; the
      text is empty exactly when there are no keys. */
  function Body(t: Nodes.Table, keys: seq<int>): (r: string)
    requires Renderable(t)
    requires forall i :: 0 <= i < |keys| ==> keys[i] in t
    ensures r == "" <==> keys == []
  {
    if keys == [] then ""
    else
      var last := keys[|keys| - 1];
      assert last in t;
      Body(t, keys[..|keys| - 1]) + t[last].ToGraphviz(t)
  }

  /** The DOT text of a graph: the fixed header, each node in ascending
      number order, the fixed footer. */
  ghost function Dot(g: Graph): (r: string)
    requires Renderable(g.nodes)
    ensures |r| >= |GraphvizHeader| + |GraphvizFooter|
    ensures r[..|GraphvizHeader|] == GraphvizHeader
    ensures r[|r| - |GraphvizFooter|..] == GraphvizFooter
  {
    GraphvizHeader + Body(g.nodes, SortedKeys(g.nodes.Keys)) + GraphvizFooter
  }

  /** Renders the graph by walking the nodes in the order `OrderNodes` gives. */
  method ToGraphviz(g: Graph) returns (dot: string)
    requires Renderable(g.nodes)
    ensures dot == Dot(g)
  {
    var body := "";
    var ordering := OrderNodes(g);
    for i := 0 to |ordering|
      invariant body == Body(g.nodes, ordering[..i])
    {
      BodySnoc(g.nodes, ordering, i);
      body := body + g.nodes[ordering[i]].ToGraphviz(g.nodes);
    }
    assert ordering[..|ordering|] == ordering;
    dot := GraphvizHeader + body + GraphvizFooter;
  }

  /** Rendering one more key of `keys` appends that node's text. */
  lemma BodySnoc(t: Nodes.Table, keys: seq<int>, i: int)
    requires Renderable(t) && 0 <= i < |keys|
    requires forall j :: 0 <= j < |keys| ==> keys[j] in t
    ensures keys[i] in t && Nodes.Resolves(t, t[keys[i]].provisions)
    ensures Body(t, keys[..i + 1]) == Body(t, keys[..i]) + t[keys[i]].ToGraphviz(t)
  {
    var init := keys[..i + 1];
    assert init[..i] == keys[..i] && init[i] == keys[i];
  }
}
