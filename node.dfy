/** Graph vertices and the edge operations that keep both endpoints of an
    edge in step.

    The node table is an arena: a map from node number to node, and each
    edge list holds the numbers of the nodes at its other end. */
module Nodes {

  /** A vertex: its label, its identifier, the nodes it depends on
      (`requires`) and the nodes that depend on it (`provides`). */
  datatype Node = Node(name: string, number: int, requirements: seq<int>, provisions: seq<int>)
  {
    /** The node's quoted name on a line of its own, then one arrow line per
        node it provides, in the order of `provides`. */
    function ToGraphviz(t: Table): (r: string)
      requires Resolves(t, provisions)
      ensures |r| >= |name| + 3 && r[..|name| + 3] == "\"" + name + "\"\n"
      ensures provisions == [] ==> r == "\"" + name + "\"\n"
    {
      Quote(name) + "\n" + Arrows(name, provisions, t)
    }
  }

  /** Node number to node. */
  type Table = map<int, Node>

  /** The node without its edges. */
  function Unlinked(n: Node): Node {
    n.(requirements := [], provisions := [])
  }

  /** Equality by name and number; the edges play no part. */
  function Equal(a: Node, b: Node): (r: bool)
    ensures r <==> Unlinked(a) == Unlinked(b)
  {
    a.name == b.name && a.number == b.number
  }

  // ----- rendering one node as DOT text -----

  function Quote(s: string): string {
    "\"" + s + "\""
  }

  function Arrow(from: string, to: string): string {
    Quote(from) + " -> " + Quote(to) + "\n"
  }

  /** Every number in `targets` is a key of the table. */
  predicate Resolves(t: Table, targets: seq<int>) {
    forall i :: 0 <= i < |targets| ==> targets[i] in t
  }

  /** One arrow line from `from` to each target, in order: no text for no
      targets, and otherwise whole lines. */
  function Arrows(from: string, targets: seq<int>, t: Table): (r: string)
    requires Resolves(t, targets)
    ensures r == "" <==> targets == []
    ensures r != "" ==> r[|r| - 1] == '\n'
  {
    if targets == [] then "" else Arrow(from, t[targets[0]].name) + Arrows(from, targets[1..], t)
  }

  /** No name among `from` and the targets holds a line break. */
  predicate SingleLineNames(from: string, targets: seq<int>, t: Table)
    requires Resolves(t, targets)
  {
    '\n' !in from && forall i :: 0 <= i < |targets| ==> '\n' !in t[targets[i]].name
  }

  lemma ArrowLineCount(from: string, to: string)
    requires '\n' !in from && '\n' !in to
    ensures multiset(Arrow(from, to))['\n'] == 1
  {
    var q, arrow, nl := "\"", " -> ", "\n";
    assert multiset(q)['\n'] == 0 && multiset(arrow)['\n'] == 0 && multiset(nl)['\n'] == 1;
    assert multiset(from)['\n'] == 0 && multiset(to)['\n'] == 0;
    assert Arrow(from, to) == q + from + q + arrow + q + to + q + nl;
  }

  lemma {:induction false} ArrowsLineCount(from: string, targets: seq<int>, t: Table)
    requires Resolves(t, targets) && SingleLineNames(from, targets, t)
    ensures multiset(Arrows(from, targets, t))['\n'] == |targets|
  {
    if targets != [] {
      var to := t[targets[0]].name;
      ArrowLineCount(from, to);
      ArrowsLineCount(from, targets[1..], t);
      assert Arrows(from, targets, t) == Arrow(from, to) + Arrows(from, targets[1..], t);
    }
  }

  /** One more provided node adds its arrow line after all the others, so
      the arrow lines follow the order of `provides`. */
  lemma {:induction false} ArrowsSnoc(from: string, targets: seq<int>, x: int, t: Table)
    requires Resolves(t, targets) && x in t
    ensures Resolves(t, targets + [x])
    ensures Arrows(from, targets + [x], t) == Arrows(from, targets, t) + Arrow(from, t[x].name)
  {
    var all := targets + [x];
    assert Resolves(t, all) by {
      forall i | 0 <= i < |all| ensures all[i] in t {
        if i < |targets| { assert all[i] == targets[i]; }
      }
    }
    if targets != [] {
      var rest := targets[1..];
      assert all[0] == targets[0] && all[1..] == rest + [x];
      ArrowsSnoc(from, rest, x, t);
      var head := Arrow(from, t[targets[0]].name);
      assert Arrows(from, all, t) == head + Arrows(from, rest + [x], t);
      assert Arrows(from, targets, t) == head + Arrows(from, rest, t);
    } else {
      assert all == [x] && all[1..] == [];
    }
  }

  /** A node renders as exactly one line for itself plus one line per
      entry of `provides`. */
  lemma NodeLineCount(node: Node, t: Table)
    requires Resolves(t, node.provisions) && SingleLineNames(node.name, node.provisions, t)
    ensures multiset(node.ToGraphviz(t))['\n'] == |node.provisions| + 1
  {
    ArrowsLineCount(node.name, node.provisions, t);
  }

  // ----- edges -----

  /** `left` provides `right` and `right` requires `left`, unless `right`
      already appears among `left`'s provides, in which case nothing changes. */
  function WithProvide(t: Table, left: int, right: int): (t': Table)
    requires left in t && right in t && left != right
    ensures t'.Keys == t.Keys
    ensures t' == t <==> right in t[left].provisions
    ensures right in t'[left].provisions
    ensures forall k :: k in t ==> Unlinked(t'[k]) == Unlinked(t[k])
    ensures forall k :: k in t && k != left && k != right ==> t'[k] == t[k]
    ensures forall k :: k in t ==> t[k].provisions <= t'[k].provisions && t[k].requirements <= t'[k].requirements
  {
    if right in t[left].provisions then t
    else
      t[left := t[left].(provisions := t[left].provisions + [right])]
       [right := t[right].(requirements := t[right].requirements + [left])]
  }

  /** `left` requires `right` and `right` provides `left`, unless `right`
      already appears among `left`'s requires, in which case nothing changes. */
  function WithRequire(t: Table, left: int, right: int): (t': Table)
    requires left in t && right in t && left != right
    ensures t'.Keys == t.Keys
    ensures t' == t <==> right in t[left].requirements
    ensures right in t'[left].requirements
    ensures forall k :: k in t ==> Unlinked(t'[k]) == Unlinked(t[k])
    ensures forall k :: k in t && k != left && k != right ==> t'[k] == t[k]
    ensures forall k :: k in t ==> t[k].provisions <= t'[k].provisions && t[k].requirements <= t'[k].requirements
  {
    if right in t[left].requirements then t
    else
      t[left := t[left].(requirements := t[left].requirements + [right])]
       [right := t[right].(provisions := t[right].provisions + [left])]
  }

  /** Every edge of node `a` names another node of the table. */
  predicate EdgesResolve(t: Table, a: int)
    requires a in t
  {
    (forall x :: x in t[a].provisions ==> x in t && x != a) &&
    (forall x :: x in t[a].requirements ==> x in t && x != a)
  }

  /** `b` occurs among `a`'s provides exactly as often as `a` occurs among
      `b`'s requires, and at most once. */
  predicate EdgeAgrees(t: Table, a: int, b: int)
    requires a in t && b in t
  {
    multiset(t[a].provisions)[b] == multiset(t[b].requirements)[a] <= 1
  }

  /** The table's edge invariant: every edge is recorded once at each end,
      no edge leaves the table and no node is linked to itself. */
  predicate Linked(t: Table) {
    && (forall a :: a in t ==> EdgesResolve(t, a))
    && (forall a, b :: a in t && b in t ==> EdgeAgrees(t, a, b))
  }

  /** A table without edges. */
  predicate Unconnected(t: Table) {
    forall a :: a in t ==> t[a].provisions == [] && t[a].requirements == []
  }

  lemma UnconnectedIsLinked(t: Table)
    requires Unconnected(t)
    ensures Linked(t)
  {
  }

  /** Adding a provide edge keeps the edge invariant. */
  lemma ProvideKeepsLinked(t: Table, left: int, right: int)
    requires Linked(t) && left in t && right in t && left != right
    ensures Linked(WithProvide(t, left, right))
  {
    var t' := WithProvide(t, left, right);
    if right !in t[left].provisions {
      forall a, b | a in t' && b in t' ensures EdgeAgrees(t', a, b) {
        ProvideAgrees(t, left, right, a, b);
      }
      forall a | a in t' ensures EdgesResolve(t', a) {
        assert EdgesResolve(t, a);
      }
    }
  }

  /** A new provide edge adds one to the two counts for its own pair of
      nodes and leaves every other pair as it was. */
  lemma ProvideAgrees(t: Table, left: int, right: int, a: int, b: int)
    requires Linked(t) && left in t && right in t && left != right
    requires right !in t[left].provisions && a in t && b in t
    ensures EdgeAgrees(WithProvide(t, left, right), a, b)
  {
    var t' := WithProvide(t, left, right);
    assert EdgeAgrees(t, a, b);
    assert multiset(t'[a].provisions)[b] == multiset(t[a].provisions)[b] + (if a == left && b == right then 1 else 0);
    assert multiset(t'[b].requirements)[a] == multiset(t[b].requirements)[a] + (if a == left && b == right then 1 else 0);
  }

  /** Adding a require edge keeps the edge invariant. */
  lemma RequireKeepsLinked(t: Table, left: int, right: int)
    requires Linked(t) && left in t && right in t && left != right
    ensures Linked(WithRequire(t, left, right))
  {
    var t' := WithRequire(t, left, right);
    if right !in t[left].requirements {
      forall a, b | a in t' && b in t' ensures EdgeAgrees(t', a, b) {
        RequireAgrees(t, left, right, a, b);
      }
      forall a | a in t' ensures EdgesResolve(t', a) {
        assert EdgesResolve(t, a);
      }
    }
  }

  /** A new require edge is the provide edge the other way round: it adds
      one to the two counts for that pair and leaves every other pair. */
  lemma RequireAgrees(t: Table, left: int, right: int, a: int, b: int)
    requires Linked(t) && left in t && right in t && left != right
    requires right !in t[left].requirements && a in t && b in t
    ensures EdgeAgrees(WithRequire(t, left, right), a, b)
  {
    var t' := WithRequire(t, left, right);
    assert EdgeAgrees(t, a, b);
    assert multiset(t'[a].provisions)[b] == multiset(t[a].provisions)[b] + (if a == right && b == left then 1 else 0);
    assert multiset(t'[b].requirements)[a] == multiset(t[b].requirements)[a] + (if a == right && b == left then 1 else 0);
  }

  /** Adding the same provide edge twice is the same as adding it once. */
  lemma ProvideIdempotent(t: Table, left: int, right: int)
    requires left in t && right in t && left != right
    ensures WithProvide(WithProvide(t, left, right), left, right) == WithProvide(t, left, right)
  {
  }

  /** Adding the same require edge twice is the same as adding it once. */
  lemma RequireIdempotent(t: Table, left: int, right: int)
    requires left in t && right in t && left != right
    ensures WithRequire(WithRequire(t, left, right), left, right) == WithRequire(t, left, right)
  {
  }

  /** In a linked table, `left` requiring `right` is the same edge as
      `right` providing `left`: each end records it exactly once and the
      reverse edge is not created. */
  lemma RequireMirrorsProvide(t: Table, left: int, right: int)
    requires Linked(t) && left in t && right in t && left != right
    ensures WithRequire(t, left, right) == WithProvide(t, right, left)
  {
    assert right in t[left].requirements <==> left in t[right].provisions by {
      assert EdgeAgrees(t, right, left);
    }
    if right !in t[left].requirements {
      var l := t[left].(requirements := t[left].requirements + [right]);
      var r := t[right].(provisions := t[right].provisions + [left]);
      assert WithRequire(t, left, right) == t[left := l][right := r];
      assert WithProvide(t, right, left) == t[right := r][left := l];
    }
  }

  /** After adding a provide edge to a linked table, `right` occurs exactly
      once among `left`'s provides and `left` exactly once among `right`'s
      requires; whether `right` provides `left` is left as it was. */
  lemma ProvideRecordsEdge(t: Table, left: int, right: int)
    requires Linked(t) && left in t && right in t && left != right
    ensures var t' := WithProvide(t, left, right);
      && multiset(t'[left].provisions)[right] == 1
      && multiset(t'[right].requirements)[left] == 1
      && (left in t'[right].provisions <==> left in t[right].provisions)
  {
    var t' := WithProvide(t, left, right);
    ProvideKeepsLinked(t, left, right);
    assert EdgeAgrees(t', left, right);
  }

  /** The mutable node table that the parser fills and links. */
  class NodeTable {
    var nodes: Table

    constructor ()
      ensures nodes == map[]
    {
      nodes := map[];
    }

    /** Records that `left` provides `right`, unless a node with `right`'s
        number is already among `left`'s provides. */
    method AddProvide(left: int, right: int)
      requires left in nodes && right in nodes && left != right
      modifies this
      ensures nodes == WithProvide(old(nodes), left, right)
    {
      var provisions := nodes[left].provisions;
      var i := 0;
      while i < |provisions|
        invariant 0 <= i <= |provisions|
        invariant right !in provisions[..i]
      {
        if provisions[i] == right {
          return;
        }
        i := i + 1;
      }
      assert provisions[..i] == provisions;
      var l, r := nodes[left], nodes[right];
      nodes := nodes[left := l.(provisions := l.provisions + [right])];
      nodes := nodes[right := r.(requirements := r.requirements + [left])];
    }

    /** Records that `left` requires `right`, unless a node with `right`'s
        number is already among `left`'s requires. */
    method AddRequire(left: int, right: int)
      requires left in nodes && right in nodes && left != right
      modifies this
      ensures nodes == WithRequire(old(nodes), left, right)
    {
      var requirements := nodes[left].requirements;
      var i := 0;
      while i < |requirements|
        invariant 0 <= i <= |requirements|
        invariant right !in requirements[..i]
      {
        if requirements[i] == right {
          return;
        }
        i := i + 1;
      }
      assert requirements[..i] == requirements;
      var l, r := nodes[left], nodes[right];
      nodes := nodes[left := l.(requirements := l.requirements + [right])];
      nodes := nodes[right := r.(provisions := r.provisions + [left])];
    }
  }
}
