/** Worked inputs: the dependency lines and the small description that the
    repository's tests read, each with the table or the DOT text it gives. */
module Scenarios {
  import opened Errors
  import opened Text
  import Nodes
  import Graphs
  import Parser
  import Options

  /** A node as a declaration makes it: no edges yet. */
  function Fresh(name: string, number: int): Nodes.Node {
    Nodes.Node(name, number, [], [])
  }

  /** Nodes 1, 2 and 3 with the given names, without edges. */
  function ThreeNodes(a: string, b: string, c: string): Nodes.Table {
    map[1 := Fresh(a, 1), 2 := Fresh(b, 2), 3 := Fresh(c, 3)]
  }

  lemma Spelled()
    ensures IntToString(1) == "1" && IntToString(2) == "2" && IntToString(3) == "3"
    ensures IntToString(5) == "5" && IntToString(22) == "22" && IntToString(99) == "99"
  {
    assert NatToString(9) == "9";
    assert NatToString(2) == "2";
  }

  lemma SpelledList(a: int, b: int)
    ensures Join(Parser.Spellings([a, b]), ",") == IntToString(a) + "," + IntToString(b)
    ensures Join(Parser.Spellings([a]), ",") == IntToString(a)
  {
    assert [a, b][..1] == [a];
    assert Parser.Spellings([a, b]) == [IntToString(a), IntToString(b)];
  }

  /** Nodes 1 and 2 with the given names, without edges. */
  function TwoNodes(a: string, b: string): Nodes.Table {
    map[1 := Fresh(a, 1), 2 := Fresh(b, 2)]
  }

  /** The runs of white space the test lines are padded with. */
  lemma Pads()
    ensures Parser.Blanks("") && Parser.Blanks(" ") && Parser.Blanks("  ")
  {
  }

  /** One or two padded spellings joined by commas. */
  lemma PaddedList(x: int, y: int, p: (string, string), q: (string, string))
    ensures Join(Parser.PaddedSpellings([x], [p]), ",") == p.0 + IntToString(x) + p.1
    ensures Join(Parser.PaddedSpellings([x, y], [p, q]), ",") == p.0 + IntToString(x) + p.1 + "," + (q.0 + IntToString(y) + q.1)
  {
    var one := Parser.PaddedSpellings([x], [p]);
    var two := Parser.PaddedSpellings([x, y], [p, q]);
    assert one == [one[0]];
    assert two[1..] == [two[1]];
  }

  /** ` 1 -> 2,3 `: node 1 provides 2 and then 3, and both 2 and 3 require
      1; nothing else changes. */
  lemma ProvideTwo(line: string, a: string, b: string, c: string)
    requires line == " 1 -> 2,3 "
    ensures var (t, err) := Parser.DependencyLine(line, ThreeNodes(a, b, c));
      && err == Pass && t.Keys == {1, 2, 3}
      && t[1] == Nodes.Node(a, 1, [], [2, 3])
      && t[2] == Nodes.Node(b, 2, [1], [])
      && t[3] == Nodes.Node(c, 3, [1], [])
  {
    var pads := [(" ", ""), ("", " ")];
    Spelled();
    Pads();
    PaddedList(2, 3, pads[0], pads[1]);
    assert pads[0] == (" ", "") && pads[1] == ("", " ");
    var list := Join(Parser.PaddedSpellings([2, 3], pads), ",");
    assert list == " 2,3 ";
    assert " 1 " + "->" + " 2,3 " == " 1 -> 2,3 ";
    assert line == " " + IntToString(1) + " " + Parser.ArrowText(Parser.Provide) + list;
    Parser.DependencyPadded(ThreeNodes(a, b, c), Parser.Provide, " ", 1, " ", [2, 3], pads);
    ProvideTwoLinks(a, b, c);
  }

  lemma ProvideTwoLinks(a: string, b: string, c: string)
    ensures var (t, err) := Parser.Link(ThreeNodes(a, b, c), Parser.Provide, 1, [2, 3]);
      && err == Pass && t.Keys == {1, 2, 3}
      && t[1] == Nodes.Node(a, 1, [], [2, 3])
      && t[2] == Nodes.Node(b, 2, [1], [])
      && t[3] == Nodes.Node(c, 3, [1], [])
  {
    var t := ThreeNodes(a, b, c);
    ProvideFirst(a, b, c);
    ProvideSecond(Parser.AddEdge(t, Parser.Provide, 1, 2), a, b, c);
    LinkTwo(t, Parser.Provide, 1, 2, 3);
  }

  /** Node 1 of three fresh nodes provides 2. */
  lemma ProvideFirst(a: string, b: string, c: string)
    ensures var t1 := Parser.AddEdge(ThreeNodes(a, b, c), Parser.Provide, 1, 2);
      && t1.Keys == {1, 2, 3} && t1[1] == Nodes.Node(a, 1, [], [2])
      && t1[2] == Nodes.Node(b, 2, [1], []) && t1[3] == Fresh(c, 3)
  {
    ProvideEdge(ThreeNodes(a, b, c), 1, 2);
  }

  /** Node 1, which provides 2, then provides 3 as well. */
  lemma ProvideSecond(t1: Nodes.Table, a: string, b: string, c: string)
    requires t1.Keys == {1, 2, 3} && t1[1] == Nodes.Node(a, 1, [], [2])
    requires t1[2] == Nodes.Node(b, 2, [1], []) && t1[3] == Fresh(c, 3)
    ensures var t2 := Parser.AddEdge(t1, Parser.Provide, 1, 3);
      && t2.Keys == {1, 2, 3} && t2[1] == Nodes.Node(a, 1, [], [2, 3])
      && t2[2] == Nodes.Node(b, 2, [1], []) && t2[3] == Nodes.Node(c, 3, [1], [])
  {
    assert [2] + [3] == [2, 3];
    ProvideEdge(t1, 1, 3);
  }

  /** A new provide edge appends to the provides of `left` and to the
      requires of `right`, and leaves every other node as it was. */
  lemma ProvideEdge(t: Nodes.Table, left: int, right: int)
    requires left in t && right in t && left != right && right !in t[left].provisions
    ensures var t' := Parser.AddEdge(t, Parser.Provide, left, right);
      && t'.Keys == t.Keys
      && t'[left] == t[left].(provisions := t[left].provisions + [right])
      && t'[right] == t[right].(requirements := t[right].requirements + [left])
      && forall k :: k in t && k != left && k != right ==> t'[k] == t[k]
  {
  }

  /** Linking to two targets is linking to the first, then to the second. */
  lemma LinkTwo(t: Nodes.Table, dir: Parser.Direction, left: int, v: int, w: int)
    requires left in t
    ensures var (t1, err) := Parser.Link(t, dir, left, [v]);
      Parser.Link(t, dir, left, [v, w]) ==
        if err.Fail? then (t1, err)
        else if w !in t1 then (t1, Fail(ReferenceError(w)))
        else if t1[left].number == t1[w].number then (t1, Fail(SelfReferenceError(t1[left].number)))
        else (Parser.AddEdge(t1, dir, left, w), Pass)
    ensures Parser.Link(t, dir, left, [v]) ==
        if v !in t then (t, Fail(ReferenceError(v)))
        else if t[left].number == t[v].number then (t, Fail(SelfReferenceError(t[left].number)))
        else (Parser.AddEdge(t, dir, left, v), Pass)
  {
    assert [v, w][..1] == [v] && [v][..0] == [];
  }

  /** ` 1 <- 2,3 `: node 1 requires 2 and then 3, and both 2 and 3 provide
      1; nothing else changes. */
  lemma RequireTwo(line: string, a: string, b: string, c: string)
    requires line == " 1 <- 2,3 "
    ensures var (t, err) := Parser.DependencyLine(line, ThreeNodes(a, b, c));
      && err == Pass && t.Keys == {1, 2, 3}
      && t[1] == Nodes.Node(a, 1, [2, 3], [])
      && t[2] == Nodes.Node(b, 2, [], [1])
      && t[3] == Nodes.Node(c, 3, [], [1])
  {
    var pads := [(" ", ""), ("", " ")];
    Spelled();
    Pads();
    PaddedList(2, 3, pads[0], pads[1]);
    assert pads[0] == (" ", "") && pads[1] == ("", " ");
    var list := Join(Parser.PaddedSpellings([2, 3], pads), ",");
    assert list == " 2,3 ";
    assert " 1 " + "<-" + " 2,3 " == " 1 <- 2,3 ";
    assert line == " " + IntToString(1) + " " + Parser.ArrowText(Parser.Require) + list;
    Parser.DependencyPadded(ThreeNodes(a, b, c), Parser.Require, " ", 1, " ", [2, 3], pads);
    RequireTwoLinks(a, b, c);
  }

  lemma RequireTwoLinks(a: string, b: string, c: string)
    ensures var (t, err) := Parser.Link(ThreeNodes(a, b, c), Parser.Require, 1, [2, 3]);
      && err == Pass && t.Keys == {1, 2, 3}
      && t[1] == Nodes.Node(a, 1, [2, 3], [])
      && t[2] == Nodes.Node(b, 2, [], [1])
      && t[3] == Nodes.Node(c, 3, [], [1])
  {
    var t := ThreeNodes(a, b, c);
    RequireFirst(a, b, c);
    RequireSecond(Parser.AddEdge(t, Parser.Require, 1, 2), a, b, c);
    LinkTwo(t, Parser.Require, 1, 2, 3);
  }

  /** Node 1 of three fresh nodes requires 2. */
  lemma RequireFirst(a: string, b: string, c: string)
    ensures var t1 := Parser.AddEdge(ThreeNodes(a, b, c), Parser.Require, 1, 2);
      && t1.Keys == {1, 2, 3} && t1[1] == Nodes.Node(a, 1, [2], [])
      && t1[2] == Nodes.Node(b, 2, [], [1]) && t1[3] == Fresh(c, 3)
  {
    RequireEdge(ThreeNodes(a, b, c), 1, 2);
  }

  /** Node 1, which requires 2, then requires 3 as well. */
  lemma RequireSecond(t1: Nodes.Table, a: string, b: string, c: string)
    requires t1.Keys == {1, 2, 3} && t1[1] == Nodes.Node(a, 1, [2], [])
    requires t1[2] == Nodes.Node(b, 2, [], [1]) && t1[3] == Fresh(c, 3)
    ensures var t2 := Parser.AddEdge(t1, Parser.Require, 1, 3);
      && t2.Keys == {1, 2, 3} && t2[1] == Nodes.Node(a, 1, [2, 3], [])
      && t2[2] == Nodes.Node(b, 2, [], [1]) && t2[3] == Nodes.Node(c, 3, [], [1])
  {
    assert [2] + [3] == [2, 3];
    RequireEdge(t1, 1, 3);
  }

  /** A new require edge appends to the requires of `left` and to the
      provides of `right`, and leaves every other node as it was. */
  lemma RequireEdge(t: Nodes.Table, left: int, right: int)
    requires left in t && right in t && left != right && right !in t[left].requirements
    ensures var t' := Parser.AddEdge(t, Parser.Require, left, right);
      && t'.Keys == t.Keys
      && t'[left] == t[left].(requirements := t[left].requirements + [right])
      && t'[right] == t[right].(provisions := t[right].provisions + [left])
      && forall k :: k in t && k != left && k != right ==> t'[k] == t[k]
  {
  }

  /** ` 1  <- 1 `: a node cannot require itself; the table is left as it was. */
  lemma RequireSelf(line: string, a: string, b: string)
    requires line == " 1  <- 1 "
    ensures Parser.DependencyLine(line, TwoNodes(a, b)) == (TwoNodes(a, b), Fail(SelfReferenceError(1)))
  {
    var t := TwoNodes(a, b);
    var pads := [(" ", " ")];
    Spelled();
    Pads();
    PaddedList(1, 1, pads[0], pads[0]);
    assert line == " " + IntToString(1) + "  " + Parser.ArrowText(Parser.Require) + Join(Parser.PaddedSpellings([1], pads), ",");
    Parser.DependencyPadded(t, Parser.Require, " ", 1, "  ", [1], pads);
    assert [1][..0] == [];
    assert Parser.Link(t, Parser.Require, 1, []) == (t, Pass);
  }

  /** ` 1 -> 2, 99 ` with no node 99: the edge to 2 is added before the
      missing reference is found, and it stays. */
  lemma ProvideMissing(line: string, a: string, b: string)
    requires line == " 1 -> 2, 99 "
    ensures var (t, err) := Parser.DependencyLine(line, TwoNodes(a, b));
      && err == Fail(ReferenceError(99)) && t.Keys == {1, 2}
      && t[1] == Nodes.Node(a, 1, [], [2])
      && t[2] == Nodes.Node(b, 2, [1], [])
  {
    var pads := [(" ", ""), (" ", " ")];
    Spelled();
    Pads();
    PaddedList(2, 99, pads[0], pads[1]);
    assert pads[0] == (" ", "") && pads[1] == (" ", " ");
    var list := Join(Parser.PaddedSpellings([2, 99], pads), ",");
    assert list == " 2, 99 ";
    assert " 1 " + "->" + " 2, 99 " == " 1 -> 2, 99 ";
    assert line == " " + IntToString(1) + " " + Parser.ArrowText(Parser.Provide) + list;
    Parser.DependencyPadded(TwoNodes(a, b), Parser.Provide, " ", 1, " ", [2, 99], pads);
    ProvideMissingLinks(a, b);
  }

  lemma ProvideMissingLinks(a: string, b: string)
    ensures var (t, err) := Parser.Link(TwoNodes(a, b), Parser.Provide, 1, [2, 99]);
      && err == Fail(ReferenceError(99)) && t.Keys == {1, 2}
      && t[1] == Nodes.Node(a, 1, [], [2])
      && t[2] == Nodes.Node(b, 2, [1], [])
  {
    var t := TwoNodes(a, b);
    LinkTwo(t, Parser.Provide, 1, 2, 99);
    var t1 := Nodes.WithProvide(t, 1, 2);
    assert Parser.Link(t, Parser.Provide, 1, [2]) == (t1, Pass) by {
      assert Parser.AddEdge(t, Parser.Provide, 1, 2) == t1;
    }
    assert t1.Keys == {1, 2} && 99 !in t1;
    assert t1[1] == Nodes.Node(a, 1, [], [2]) && t1[2] == Nodes.Node(b, 2, [1], []);
  }

  // ----- malformed dependency lines -----

  /** ` junk `: neither arrow, a format error. */
  lemma NoArrow(line: string, t: Nodes.Table)
    requires line == " junk "
    ensures Parser.DependencyLine(line, t) == (t, Fail(FormatError(line)))
  {
    assert '>' !in line && '<' !in line;
    NoOccurrence(line, "->");
    NoOccurrenceHead(line, "<-");
  }

  /** ` a -> b -> c `: three parts around the arrow, a format error. */
  lemma ThreeParts(line: string, t: Nodes.Table)
    requires line == " a -> b -> c "
    ensures Parser.DependencyLine(line, t) == (t, Fail(FormatError(line)))
  {
    var a, b, c := " a ", " b ", " c ";
    assert line == a + "->" + (b + "->" + c);
    assert '>' !in a && '>' !in b && '>' !in c;
    ThreeAround(line, a, b, c);
  }

  /** Three arrowless parts joined by `->` split into three. */
  lemma ThreeAround(line: string, a: string, b: string, c: string)
    requires line == a + "->" + (b + "->" + c)
    requires '>' !in a && '>' !in b && '>' !in c
    ensures |Parser.SplitArrow(line).1| == 3
  {
    assert '>' !in a + "-";
    SplitFirst(a, "->", b + "->" + c);
    assert '>' !in b + "-";
    SplitTwo(b, "->", c);
  }

  /** A line `left -> right` whose left side holds no '>' splits into those two parts. */
  lemma ProvideParts(line: string, left: string, right: string)
    requires line == left + "->" + right && '>' !in left && '>' !in right
    ensures Parser.SplitArrow(line) == (Parser.Provide, [left, right])
  {
    assert '>' !in left + "-";
    SplitTwo(left, "->", right);
  }

  /** ` junk -> 1,  2, 3,4`: the left side is no number, a value error
      naming it. */
  lemma LeftNotNumber(line: string, t: Nodes.Table)
    requires line == " junk -> 1,  2, 3,4"
    ensures Parser.DependencyLine(line, t) == (t, Fail(ValueError("junk")))
  {
    var word, right := "junk", " 1,  2, 3,4";
    assert line == " " + word + " " + "->" + right;
    assert word[0] == 'j' && word[|word| - 1] == 'k' && '>' !in word;
    assert Atoi(word).Err? by {
      assert !IsDigit(word[0]) && word[0] != '+' && word[0] != '-';
    }
    WordLeft(line, word, right, t);
  }

  /** A line `word -> right` with one space around a word that is no
      number is a value error naming the word. */
  lemma WordLeft(line: string, word: string, right: string, t: Nodes.Table)
    requires line == " " + word + " " + "->" + right && '>' !in word && '>' !in right
    requires word != [] && !IsSpace(word[0]) && !IsSpace(word[|word| - 1]) && Atoi(word).Err?
    ensures Parser.DependencyLine(line, t) == (t, Fail(ValueError(word)))
  {
    ProvideParts(line, " " + word + " ", right);
    TrimPadded(" ", word, " ");
  }

  /** ` 99 -> 1,2 ` with no node 99: a reference error. */
  lemma LeftMissing(line: string, t: Nodes.Table)
    requires line == " 99 -> 1,2 " && 99 !in t
    ensures Parser.DependencyLine(line, t) == (t, Fail(ReferenceError(99)))
  {
    var right := " 1,2 ";
    assert line == " " + IntToString(99) + " " + "->" + right by {
      Spelled();
    }
    NumberedLeft(line, 99, right);
    LeftOutcome(line, " " + IntToString(99) + " ", right, t, 99);
  }

  /** A line `n -> right` with one space around n splits at the arrow, and
      its left side reads as n. */
  lemma NumberedLeft(line: string, n: int, right: string)
    requires line == " " + IntToString(n) + " " + "->" + right && '>' !in right
    ensures Parser.SplitArrow(line) == (Parser.Provide, [" " + IntToString(n) + " ", right])
    ensures Atoi(TrimSpace(" " + IntToString(n) + " ")) == Ok(n)
  {
    Pads();
    Parser.PaddedNumber(" ", n, " ");
    AtoiIntToString(n);
    ProvideParts(line, " " + IntToString(n) + " ", right);
  }

  /** A line that splits into two parts around `->` and whose left side
      reads as a number missing from the table is a reference error. */
  lemma LeftOutcome(line: string, left: string, right: string, t: Nodes.Table, n: int)
    requires Parser.SplitArrow(line) == (Parser.Provide, [left, right])
    requires Atoi(TrimSpace(left)) == Ok(n) && n !in t
    ensures Parser.DependencyLine(line, t) == (t, Fail(ReferenceError(n)))
  {
  }

  /** ` 1 -> 2,junk `: a target is no number, a value error naming the
      item as written. */
  lemma RightNotNumbers(line: string, t: Nodes.Table)
    requires line == " 1 -> 2,junk " && 1 in t
    ensures Parser.DependencyLine(line, t) == (t, Fail(ValueError("junk ")))
  {
    var left, right := " " + IntToString(1) + " ", " 2,junk ";
    assert Parser.SplitArrow(line) == (Parser.Provide, [left, right]) && Atoi(TrimSpace(left)) == Ok(1) by {
      assert line == " " + IntToString(1) + " " + "->" + right by {
        Spelled();
      }
      NumberedLeft(line, 1, right);
    }
    assert Parser.NumberList(right) == ([2], Fail(ValueError("junk "))) by {
      TwoItems(right);
    }
    RightOutcome(line, left, right, t, 1);
  }

  /** A line that splits into two parts around `->`, whose left side reads
      as a node of the table and whose right side fails to read, gives
      that failure and leaves the table as it was. */
  lemma RightOutcome(line: string, left: string, right: string, t: Nodes.Table, n: int)
    requires Parser.SplitArrow(line) == (Parser.Provide, [left, right])
    requires Atoi(TrimSpace(left)) == Ok(n) && n in t && Parser.NumberList(right).1.Fail?
    ensures Parser.DependencyLine(line, t) == (t, Parser.NumberList(right).1)
  {
  }

  /** The right side ` 2,junk ` reads 2 and then stops at `junk `. */
  lemma TwoItems(right: string)
    requires right == " 2,junk "
    ensures Parser.NumberList(right) == ([2], Fail(ValueError("junk ")))
  {
    var pads, junk := [(" ", "")], "junk ";
    Pads();
    assert Parser.BlankPads(pads);
    TwoItemsText(right, pads, junk);
    JunkItem(junk);
    Parser.NumbersThenJunk([2], pads, junk);
  }

  /** ` 2,junk ` is the padded spelling of 2, a comma and `junk `. */
  lemma TwoItemsText(right: string, pads: seq<(string, string)>, junk: string)
    requires right == " 2,junk " && pads == [(" ", "")] && junk == "junk "
    ensures right == Join(Parser.PaddedSpellings([2], pads) + [junk], ",")
  {
    Spelled();
    var spelled := Parser.PaddedSpellings([2], pads);
    assert |spelled| == 1 && spelled[0] == " " + IntToString(2) + "";
    assert " " + IntToString(2) + "" == " 2";
    assert spelled == [" 2"];
    assert spelled + [junk] == [" 2", junk];
    assert " 2" + "," + junk == " 2,junk ";
  }

  /** `junk ` is a non-empty item without a comma that reads as no number. */
  lemma JunkItem(junk: string)
    requires junk == "junk "
    ensures junk != "" && ',' !in junk && Atoi(TrimSpace(junk)).Err?
  {
    var word := "junk";
    assert junk == word + " ";
    assert word[0] == 'j' && word[|word| - 1] == 'k' && ',' !in word;
    WordItem(word, " ");
  }

  /** A word that starts with a letter, followed by white space, is an item
      without a comma that trims to the word and reads as no number. */
  lemma WordItem(word: string, after: string)
    requires word != [] && !IsSpace(word[0]) && !IsSpace(word[|word| - 1]) && ',' !in word
    requires !IsDigit(word[0]) && word[0] != '+' && word[0] != '-' && Parser.Blanks(after)
    ensures var item := word + after;
      item != "" && ',' !in item && Atoi(TrimSpace(item)) == Err(ValueError(word))
  {
    assert "" + word + after == word + after;
    TrimPadded("", word, after);
    Parser.BlanksExclude(after);
    LeadingNonDigit(word);
  }

  // ----- option lines and number lists -----

  /** Joining two or three words: the separator between neighbours. */
  lemma JoinThree(a: string, b: string, c: string, sep: string)
    ensures Join([a, b], sep) == a + sep + b
    ensures Join([a, b, c], sep) == a + sep + (b + sep + c)
  {
    assert [a, b][1..] == [b];
    assert [a, b, c][1..] == [b, c];
    assert [b, c][1..] == [c];
    assert Join([b, c], sep) == b + sep + c;
  }

  /** Joining five words: the separator between neighbours. */
  lemma JoinFive(a: string, b: string, c: string, d: string, e: string, sep: string)
    ensures Join([a, b, c, d, e], sep) == a + sep + (b + sep + (c + sep + (d + sep + e)))
  {
    assert [a, b, c, d, e][1..] == [b, c, d, e];
    assert [b, c, d, e][1..] == [c, d, e];
    JoinThree(c, d, e, sep);
    assert Join([b, c, d, e], sep) == b + sep + (c + sep + (d + sep + e));
  }

  /** One more blank word selects nothing more. */
  lemma BlankSnoc(words: seq<string>)
    ensures Parser.Selected(words + [""]) == Parser.Selected(words)
  {
    assert (words + [""])[..|words|] == words;
  }

  /** One more catalogue keyword adds the option it names. */
  lemma KeySnoc(words: seq<string>, o: Options.Option)
    requires o in Options.Registry
    ensures Parser.Selected(words + [o.name]) == Parser.Selected(words) + [o]
  {
    Parser.RegisteredKeyword(o);
    assert (words + [o.name])[..|words|] == words;
  }

  /** Two blank words, then a catalogue keyword, then two more blank words
      select just the option the keyword names. */
  lemma KeyBetweenBlanks(o: Options.Option)
    requires o in Options.Registry
    ensures Parser.Selected(["", "", o.name, "", ""]) == [o]
  {
    var key := o.name;
    var w2, w3, w4, w5 := ["", ""], ["", "", key], ["", "", key, ""], ["", "", key, "", ""];
    assert w3 == w2 + [key] && w4 == w3 + [""] && w5 == w4 + [""];
    TwoBlanksSelected();
    KeySnoc(w2, o);
    BlankSnoc(w3);
    BlankSnoc(w4);
  }

  /** Five words, each blank or a keyword, are all recognised. */
  lemma FiveRecognised(a: string, b: string, c: string, d: string, e: string)
    requires !Parser.Classify(a).Unknown? && !Parser.Classify(b).Unknown? && !Parser.Classify(c).Unknown?
    requires !Parser.Classify(d).Unknown? && !Parser.Classify(e).Unknown?
    ensures forall w :: w in [a, b, c, d, e] ==> !Parser.Classify(w).Unknown?
  {
    forall w | w in [a, b, c, d, e] ensures !Parser.Classify(w).Unknown? {
      assert w == a || w == b || w == c || w == d || w == e;
    }
  }

  /** Two blank words select nothing. */
  lemma TwoBlanksSelected()
    ensures Parser.Selected([""]) == [] && Parser.Selected(["", ""]) == []
    ensures forall v :: v in ["", ""] ==> !Parser.Classify(v).Unknown?
  {
    var one, two := [""], ["", ""];
    assert one == [] + [""] && two == one + [""];
    BlankSnoc([]);
    BlankSnoc(one);
  }

  /** `  color_next  `: the keyword between runs of spaces selects the
      option it names. */
  lemma OptionPadded(line: string)
    requires line == "  color_next  "
    ensures Parser.OptionLine(line) == ([Options.OptionNext], Pass)
  {
    var key := Options.OptionNext.name;
    var words := ["", "", key, "", ""];
    assert line == Join(words, " ") by {
      JoinFive("", "", key, "", "", " ");
      assert line == "" + " " + ("" + " " + (key + " " + ("" + " " + "")));
    }
    KeyBetweenBlanks(Options.OptionNext);
    Parser.RegisteredKeyword(Options.OptionNext);
    FiveRecognised("", "", key, "", "");
    Parser.OptionsSpaced(words);
  }

  /** `  color_next  color_complete`: both keywords select their options,
      in order. */
  lemma OptionsTwo(line: string)
    requires line == "  color_next  color_complete"
    ensures Parser.OptionLine(line) == ([Options.OptionNext, Options.OptionComplete], Pass)
  {
    TwoKeysText(line, Options.OptionNext.name, Options.OptionComplete.name);
    TwoKeys(line, Options.OptionNext, Options.OptionComplete);
  }

  /** The line `  color_next  color_complete` is its two keywords, each
      after two spaces. */
  lemma TwoKeysText(line: string, next: string, complete: string)
    requires line == "  color_next  color_complete"
    requires next == "color_next" && complete == "color_complete"
    ensures line == Join(["", "", next, "", complete], " ")
  {
    JoinFive("", "", next, "", complete, " ");
    assert line == "" + " " + ("" + " " + (next + " " + ("" + " " + complete)));
  }

  /** Two catalogue keywords, each after two spaces, select their options. */
  lemma TwoKeys(line: string, o1: Options.Option, o2: Options.Option)
    requires o1 in Options.Registry && o2 in Options.Registry
    requires line == Join(["", "", o1.name, "", o2.name], " ")
    ensures Parser.OptionLine(line) == ([o1, o2], Pass)
  {
    TwoKeysSelected(o1, o2);
    Parser.RegisteredKeyword(o1);
    Parser.RegisteredKeyword(o2);
    FiveRecognised("", "", o1.name, "", o2.name);
    Parser.OptionsSpaced(["", "", o1.name, "", o2.name]);
  }

  /** Blank words around two catalogue keywords select their two options,
      in order. */
  lemma TwoKeysSelected(o1: Options.Option, o2: Options.Option)
    requires o1 in Options.Registry && o2 in Options.Registry
    ensures Parser.Selected(["", "", o1.name, "", o2.name]) == [o1, o2]
  {
    var k1, k2 := o1.name, o2.name;
    var w2, w3, w4, w5 := ["", ""], ["", "", k1], ["", "", k1, ""], ["", "", k1, "", k2];
    assert w3 == w2 + [k1] && w4 == w3 + [""] && w5 == w4 + [k2];
    assert Parser.Selected(w4) == [o1] by {
      TwoBlanksSelected();
      KeySnoc(w2, o1);
      BlankSnoc(w3);
    }
    KeySnoc(w4, o2);
    assert [o1] + [o2] == [o1, o2];
  }

  /** `  junk`: an unknown word, an error naming it and no options. */
  lemma OptionJunk(line: string)
    requires line == "  junk"
    ensures Parser.OptionLine(line) == ([], Fail(UnknownOptionError("junk")))
  {
    var junk := "junk";
    assert line == Join(["", ""] + [junk], " ") by {
      assert ["", ""] + [junk] == ["", "", junk];
      JoinThree("", "", junk, " ");
      assert line == "" + " " + ("" + " " + junk);
    }
    JunkWord(junk);
    BlanksThenWord(line, junk);
  }

  /** A word that is no option after two spaces: no options, and the error
      names the word. */
  lemma BlanksThenWord(line: string, w: string)
    requires ' ' !in w && TrimSpace(w) == w && Parser.Classify(w).Unknown?
    requires line == Join(["", ""] + [w], " ")
    ensures Parser.OptionLine(line) == ([], Fail(UnknownOptionError(w)))
  {
    TwoBlanksSelected();
    Parser.OptionsSpacedThenUnknown(["", ""], w);
  }

  /** `junk` is a single word with nothing to trim that names no option. */
  lemma JunkWord(junk: string)
    requires junk == "junk"
    ensures ' ' !in junk && TrimSpace(junk) == junk && Parser.Classify(junk) == Parser.Unknown
  {
    assert junk[0] == 'j' && junk[|junk| - 1] == 'k';
    Parser.OtherWord(junk);
  }

  /** `  circular   junk`: the option before the unknown word is kept, and
      the error names the word. */
  lemma OptionsThenJunk(line: string)
    requires line == "  circular   junk"
    ensures Parser.OptionLine(line) == ([Options.OptionCircular], Fail(UnknownOptionError("junk")))
  {
    var key, junk := "circular", "junk";
    assert line == Join(["", "", key, "", "", junk], " ") by {
      assert ["", "", key, "", "", junk] == [""] + ["", key, "", "", junk];
      JoinCons("", ["", key, "", "", junk], " ");
      JoinFive("", key, "", "", junk, " ");
      assert line == "" + " " + ("" + " " + (key + " " + ("" + " " + ("" + " " + junk))));
    }
    JunkWord(junk);
    KeyThenWord(line, Options.OptionCircular, junk);
  }

  /** A catalogue keyword after two spaces, then a word that is no option
      after three: the option is kept and the error names the word. */
  lemma KeyThenWord(line: string, o: Options.Option, w: string)
    requires o in Options.Registry
    requires ' ' !in w && TrimSpace(w) == w && Parser.Classify(w).Unknown?
    requires line == Join(["", "", o.name, "", "", w], " ")
    ensures Parser.OptionLine(line) == ([o], Fail(UnknownOptionError(w)))
  {
    var words := ["", "", o.name, "", ""];
    KeyBetweenBlanks(o);
    Parser.RegisteredKeyword(o);
    FiveRecognised("", "", o.name, "", "");
    Parser.OptionsSpacedThenUnknown(words, w);
    assert words + [w] == ["", "", o.name, "", "", w];
  }

  /** Joining a word in front of a non-empty list. */
  lemma JoinCons(a: string, rest: seq<string>, sep: string)
    requires rest != []
    ensures Join([a] + rest, sep) == a + sep + Join(rest, sep)
  {
    assert ([a] + rest)[1..] == rest;
  }

  /** `  1, 22  `: the padded numbers read back as 1 and 22. */
  lemma NumbersPadded(line: string)
    requires line == "  1, 22  "
    ensures Parser.NumberList(line) == ([1, 22], Pass)
  {
    var pads := [("  ", ""), (" ", "  ")];
    Spelled();
    Pads();
    PaddedList(1, 22, pads[0], pads[1]);
    assert pads[0] == ("  ", "") && pads[1] == (" ", "  ");
    assert "  " + "1" + "" + "," + (" " + "22" + "  ") == line;
    Parser.NumberListSpaced([1, 22], pads);
  }

  /** `1,junk`: the number before the bad item is kept, and the error
      names the item. */
  lemma NumbersJunk(line: string)
    requires line == "1,junk"
    ensures Parser.NumberList(line) == ([1], Fail(ValueError("junk")))
  {
    var junk := "junk";
    assert line == IntToString(1) + "," + junk by {
      Spelled();
    }
    assert junk[0] == 'j' && junk[|junk| - 1] == 'k' && ',' !in junk;
    assert Atoi(junk).Err? by {
      assert !IsDigit(junk[0]) && junk[0] != '+' && junk[0] != '-';
    }
    NumberThenWord(line, 1, junk);
  }

  /** A number, a comma and a word that is no number: the number is kept
      and the error names the word. */
  lemma NumberThenWord(line: string, n: int, w: string)
    requires line == IntToString(n) + "," + w && ',' !in w
    requires w != [] && !IsSpace(w[0]) && !IsSpace(w[|w| - 1]) && Atoi(w).Err?
    ensures Parser.NumberList(line) == ([n], Fail(ValueError(w)))
  {
    var pads := [("", "")];
    assert Parser.BlankPads(pads) by {
      Pads();
    }
    UnpaddedThenWord(line, n, w, pads);
    assert TrimSpace(w) == w by {
      TrimPadded("", w, "");
      assert "" + w + "" == w;
    }
    Parser.NumbersThenJunk([n], pads, w);
  }

  /** A number, a comma and a word are the unpadded spelling of the number
      and the word, joined by a comma. */
  lemma UnpaddedThenWord(line: string, n: int, w: string, pads: seq<(string, string)>)
    requires line == IntToString(n) + "," + w && pads == [("", "")]
    ensures line == Join(Parser.PaddedSpellings([n], pads) + [w], ",")
  {
    var spelled := Parser.PaddedSpellings([n], pads);
    assert spelled == [IntToString(n)] by {
      assert |spelled| == 1 && spelled[0] == pads[0].0 + IntToString(n) + pads[0].1;
      assert pads[0].0 + IntToString(n) + pads[0].1 == IntToString(n);
    }
    assert spelled + [w] == [IntToString(n), w];
    JoinThree(IntToString(n), w, w, ",");
  }

  // ----- a whole description, read and rendered -----

  /** A trimmed line that is neither blank, a comment nor a section
      header is read as the current section says. */
  lemma StepContent(st: Parser.State, raw: string, line: string)
    requires TrimSpace(raw) == line && line != [] && line[0] != '#'
    requires line != "options" && line != "dependencies"
    ensures Parser.Step(st, raw) == match st.position
      case Declaration =>
        (match Parser.ParseDeclaration(line)
         case Err(e) => Err(e)
         case Ok(node) => Ok(st.(nodes := st.nodes[node.number := node])))
      case OptionSection =>
        var (os, err) := Parser.OptionLine(line);
        if err.Fail? then Err(err.error) else Ok(st.(options := st.options + os))
      case Dependency =>
        var (t, err) := Parser.DependencyLine(line, st.nodes);
        if err.Fail? then Err(err.error) else Ok(st.(nodes := t))
  {
  }

  /** A line that starts with a digit is no comment and no section header. */
  lemma DigitLead(line: string)
    requires line != [] && IsDigit(line[0])
    ensures line[0] != '#' && line != "options" && line != "dependencies"
  {
  }

  /** The decimal spelling of a natural number starts with a digit and ends with one. */
  lemma NatSpelling(n: int)
    requires n >= 0
    ensures var s := IntToString(n); s != [] && IsDigit(s[0]) && IsDigit(s[|s| - 1]) && !IsSpace(s[0])
  {
    assert AllDigits(IntToString(n));
  }

  /** `n: name` reads as a node without edges. */
  lemma DeclarationText(n: int, name: string)
    requires n >= 1 && Parser.PlainName(name)
    ensures Parser.ParseDeclaration(IntToString(n) + ": " + name) == Ok(Fresh(name, n))
  {
    assert "" + IntToString(n) + "" + ":" + " " + name + "" == IntToString(n) + ": " + name;
    Parser.DeclarationRoundTrip("", n, "", " ", name, "");
  }

  lemma TrimDeclaration(raw: string, pad: string, n: int, name: string, trail: string)
    requires n >= 1 && Parser.Blanks(pad) && Parser.Blanks(trail) && Parser.PlainName(name)
    requires raw == pad + IntToString(n) + ": " + name + trail
    ensures TrimSpace(raw) == IntToString(n) + ": " + name
  {
    var line := IntToString(n) + ": " + name;
    NatSpelling(n);
    assert line[0] == IntToString(n)[0] && line[|line| - 1] == name[|name| - 1];
    assert raw == pad + line + trail;
    TrimPadded(pad, line, trail);
  }

  /** A declaration line `n: name`, padded with white space, files a node
      without edges under n. */
  lemma DeclarationStep(st: Parser.State, raw: string, pad: string, n: int, name: string, trail: string)
    requires st.position == Parser.Declaration && n >= 1
    requires Parser.Blanks(pad) && Parser.Blanks(trail) && Parser.PlainName(name)
    requires raw == pad + IntToString(n) + ": " + name + trail
    ensures Parser.Step(st, raw) == Ok(st.(nodes := st.nodes[n := Fresh(name, n)]))
  {
    var line := IntToString(n) + ": " + name;
    TrimDeclaration(raw, pad, n, name, trail);
    NatSpelling(n);
    DigitLead(line);
    DeclarationText(n, name);
    StepContent(st, raw, line);
  }

  /** `n -> m` links node n to node m as `Link` does. */
  lemma ProvideText(t: Nodes.Table, n: int, m: int)
    requires n in t
    ensures Parser.DependencyLine(IntToString(n) + " -> " + IntToString(m), t) == Parser.Link(t, Parser.Provide, n, [m])
  {
    var a, b := IntToString(n), IntToString(m);
    var list := Join(Parser.PaddedSpellings([m], [(" ", "")]), ",");
    assert list == " " + b + "" by {
      PaddedList(m, m, (" ", ""), (" ", ""));
    }
    assert a + " -> " + b == "" + a + " " + Parser.ArrowText(Parser.Provide) + list by {
      assert a + " -> " + b == a + " " + "->" + (" " + b);
    }
    Pads();
    Parser.DependencyPadded(t, Parser.Provide, "", n, " ", [m], [(" ", "")]);
  }

  lemma TrimProvide(raw: string, pad: string, n: int, m: int)
    requires n >= 0 && m >= 0 && Parser.Blanks(pad)
    requires raw == pad + IntToString(n) + " -> " + IntToString(m)
    ensures TrimSpace(raw) == IntToString(n) + " -> " + IntToString(m)
  {
    var line := IntToString(n) + " -> " + IntToString(m);
    NatSpelling(n);
    NatSpelling(m);
    assert line[0] == IntToString(n)[0] && line[|line| - 1] == IntToString(m)[|IntToString(m)| - 1];
    assert raw == pad + line + "";
    TrimPadded(pad, line, "");
  }

  /** A dependency line `n -> m`, padded in front, links node n to node m
      as `Link` does. The numbers are natural only because the fruit chain
      below needs no more; `Parser.DependencyPadded` covers every sign. */
  lemma ProvideStep(st: Parser.State, raw: string, pad: string, n: int, m: int)
    requires st.position == Parser.Dependency && n in st.nodes && n >= 0 && m >= 0
    requires Parser.Blanks(pad)
    requires raw == pad + IntToString(n) + " -> " + IntToString(m)
    ensures var (t, err) := Parser.Link(st.nodes, Parser.Provide, n, [m]);
      Parser.Step(st, raw) == if err.Fail? then Err(err.error) else Ok(st.(nodes := t))
  {
    var line := IntToString(n) + " -> " + IntToString(m);
    TrimProvide(raw, pad, n, m);
    NatSpelling(n);
    DigitLead(line);
    ProvideText(st.nodes, n, m);
    StepContent(st, raw, line);
  }

  /** A dependency line `n -> m` between two nodes with different numbers
      adds that one edge. A step of the fruit chain, so the numbers are
      natural; `Parser.DependencyPadded` covers every sign. */
  lemma ProvideStepOk(st: Parser.State, raw: string, pad: string, n: int, m: int)
    requires st.position == Parser.Dependency && n in st.nodes && m in st.nodes && n >= 0 && m >= 0
    requires st.nodes[n].number != st.nodes[m].number
    requires Parser.Blanks(pad)
    requires raw == pad + IntToString(n) + " -> " + IntToString(m)
    ensures Parser.Step(st, raw) == Ok(st.(nodes := Nodes.WithProvide(st.nodes, n, m)))
  {
    ProvideStep(st, raw, pad, n, m);
    assert [m][..0] == [];
    assert Parser.AddEdge(st.nodes, Parser.Provide, n, m) == Nodes.WithProvide(st.nodes, n, m);
  }

  /** The description the rendering test reads: three declarations, a
      blank line, the `dependencies` header and two provide lines. */
  predicate FruitLines(lines: seq<string>) {
    lines == ["  1: apple", "  2: blueberry", "  5: cranberry ", "", "dependencies", " 1 -> 2", " 2 -> 5"]
  }

  /** The table that description gives: apple provides blueberry, which
      provides cranberry. */
  function FruitTable(): Nodes.Table {
    map[1 := Nodes.Node("apple", 1, [], [2]),
        2 := Nodes.Node("blueberry", 2, [1], [5]),
        5 := Nodes.Node("cranberry", 5, [2], [])]
  }

  lemma FruitNames()
    ensures Parser.PlainName("apple") && Parser.PlainName("blueberry") && Parser.PlainName("cranberry")
    ensures Parser.Blanks("  ") && Parser.Blanks(" ") && Parser.Blanks("")
  {
    assert ':' !in "apple" && ':' !in "blueberry" && ':' !in "cranberry";
  }

  /** The lines of the description, spelled as the step lemmas take them. */
  lemma FruitSpellings()
    ensures "  1: apple" == "  " + IntToString(1) + ": " + "apple" + ""
    ensures "  2: blueberry" == "  " + IntToString(2) + ": " + "blueberry" + ""
    ensures "  5: cranberry " == "  " + IntToString(5) + ": " + "cranberry" + " "
    ensures " 1 -> 2" == " " + IntToString(1) + " -> " + IntToString(2)
    ensures " 2 -> 5" == " " + IntToString(2) + " -> " + IntToString(5)
  {
    Spelled();
  }

  /** The declarations alone: three nodes without edges. */
  function FruitDeclared(): Nodes.Table {
    map[1 := Fresh("apple", 1), 2 := Fresh("blueberry", 2), 5 := Fresh("cranberry", 5)]
  }

  /** Reading one more line: `Run` over a longer prefix unfolded. */
  lemma RunSnoc(ls: seq<string>, st: Parser.State)
    requires ls != [] && Parser.Run(ls[..|ls| - 1]) == Ok(st)
    ensures Parser.Run(ls) == Parser.Step(st, ls[|ls| - 1])
  {
  }

  lemma FruitDeclaration1(ls: seq<string>)
    requires ls == ["  1: apple"]
    ensures Parser.Run(ls) == Ok(Parser.State(Parser.Declaration, map[1 := Fresh("apple", 1)], []))
  {
    FruitSpellings();
    FruitNames();
    assert ls[..0] == [];
    RunSnoc(ls, Parser.Start);
    DeclarationStep(Parser.Start, ls[0], "  ", 1, "apple", "");
  }

  lemma FruitDeclaration2(ls: seq<string>)
    requires ls == ["  1: apple", "  2: blueberry"]
    ensures Parser.Run(ls) ==
      Ok(Parser.State(Parser.Declaration, map[1 := Fresh("apple", 1), 2 := Fresh("blueberry", 2)], []))
  {
    FruitSpellings();
    FruitNames();
    var st := Parser.State(Parser.Declaration, map[1 := Fresh("apple", 1)], []);
    FruitDeclaration1(ls[..1]);
    RunSnoc(ls, st);
    DeclarationStep(st, ls[1], "  ", 2, "blueberry", "");
  }

  /** The three declaration lines file apple, blueberry and cranberry. */
  lemma FruitDeclaration3(ls: seq<string>)
    requires ls == ["  1: apple", "  2: blueberry", "  5: cranberry "]
    ensures Parser.Run(ls) == Ok(Parser.State(Parser.Declaration, FruitDeclared(), []))
  {
    FruitSpellings();
    FruitNames();
    var st := Parser.State(Parser.Declaration, map[1 := Fresh("apple", 1), 2 := Fresh("blueberry", 2)], []);
    FruitDeclaration2(ls[..2]);
    RunSnoc(ls, st);
    DeclarationStep(st, ls[2], "  ", 5, "cranberry", " ");
  }

  /** The blank line after the declarations changes nothing. */
  lemma FruitBlank(ls: seq<string>)
    requires ls == ["  1: apple", "  2: blueberry", "  5: cranberry ", ""]
    ensures Parser.Run(ls) == Ok(Parser.State(Parser.Declaration, FruitDeclared(), []))
  {
    var st := Parser.State(Parser.Declaration, FruitDeclared(), []);
    FruitDeclaration3(ls[..3]);
    RunSnoc(ls, st);
    StepBlank(st, ls[3]);
  }

  /** The header switches to the dependency section. */
  lemma FruitHeader(ls: seq<string>)
    requires ls == ["  1: apple", "  2: blueberry", "  5: cranberry ", "", "dependencies"]
    ensures Parser.Run(ls) == Ok(Parser.State(Parser.Dependency, FruitDeclared(), []))
  {
    var st := Parser.State(Parser.Declaration, FruitDeclared(), []);
    FruitBlank(ls[..4]);
    RunSnoc(ls, st);
    StepDependencies(st, ls[4]);
  }

  /** A blank line changes nothing. */
  lemma StepBlank(st: Parser.State, raw: string)
    requires raw == ""
    ensures Parser.Step(st, raw) == Ok(st)
  {
    assert TrimSpace(raw) == "";
  }

  /** The line `dependencies` only switches to the dependency section. */
  lemma StepDependencies(st: Parser.State, raw: string)
    requires raw == "dependencies"
    ensures Parser.Step(st, raw) == Ok(st.(position := Parser.Dependency))
  {
    assert raw[0] == 'd' && raw[|raw| - 1] == 's';
    assert TrimSpace(raw) == raw;
    assert !Parser.Skipped(raw) && raw != "options";
  }

  /** Apple provides blueberry. */
  lemma FruitFirstEdge(ls: seq<string>)
    requires ls == ["  1: apple", "  2: blueberry", "  5: cranberry ", "", "dependencies", " 1 -> 2"]
    ensures Parser.Run(ls) == Ok(Parser.State(Parser.Dependency, Nodes.WithProvide(FruitDeclared(), 1, 2), []))
  {
    FruitSpellings();
    FruitNames();
    var st := Parser.State(Parser.Dependency, FruitDeclared(), []);
    FruitHeader(ls[..5]);
    ProvideStepOk(st, ls[5], " ", 1, 2);
    RunSnoc(ls, st);
  }

  /** Reading the description ends in the dependency section with the
      fruit table and no options. */
  lemma FruitRun(lines: seq<string>)
    requires FruitLines(lines)
    ensures Parser.Run(lines) == Ok(Parser.State(Parser.Dependency, FruitTable(), []))
  {
    FruitSpellings();
    FruitNames();
    var t5 := Nodes.WithProvide(FruitDeclared(), 1, 2);
    var st := Parser.State(Parser.Dependency, t5, []);
    FruitFirstEdge(lines[..6]);
    assert t5[2] == Fresh("blueberry", 2).(requirements := [1]);
    ProvideStepOk(st, lines[6], " ", 2, 5);
    RunSnoc(lines, st);
    FruitEdges();
  }

  // ----- the whole-file reading test -----

  /** The description the whole-file test reads: a comment, a blank line,
      the three fruit declarations, an option section over two lines and
      the two provide lines. */
  predicate FileLines(lines: seq<string>) {
    lines == ["# comment", "  ", "  1: apple", "  2: blueberry", "  5: cranberry ", "",
              "options", " circular color_next", " color_complete  ", "",
              "dependencies", " 1 -> 2", " 2 -> 5"]
  }

  /** The options of the first option line of that description. */
  function FirstOptions(): seq<Options.Option> {
    [Options.OptionCircular, Options.OptionNext]
  }

  /** The options that description selects, in the order it names them. */
  function FileOptions(): seq<Options.Option> {
    [Options.OptionCircular, Options.OptionNext, Options.OptionComplete]
  }

  /** The comment and the blank line that open the description. */
  lemma FileHead(head: seq<string>)
    requires head == ["# comment", "  "]
    ensures forall i :: 0 <= i < |head| ==> Parser.Skipped(TrimSpace(head[i]))
  {
    var blank := head[1];
    assert TrimSpace(head[0]) == head[0] && head[0][0] == '#';
    assert TrimSpace(blank) == "" by {
      assert blank[1..][1..] == [] && IsSpace(blank[0]) && IsSpace(blank[1]);
    }
  }

  /** The line `options` only switches to the option section. */
  lemma StepOptions(st: Parser.State, raw: string)
    requires raw == "options"
    ensures Parser.Step(st, raw) == Ok(st.(position := Parser.OptionSection))
  {
    assert raw[0] == 'o' && raw[|raw| - 1] == 's';
    assert TrimSpace(raw) == raw;
  }

  /** In the option section, a line of two catalogue keywords after a
      space appends their two options. */
  lemma TwoKeysStep(st: Parser.State, raw: string, o1: Options.Option, o2: Options.Option)
    requires st.position == Parser.OptionSection && o1 in Options.Registry && o2 in Options.Registry
    requires o1.name != "" && o1.name[0] != '#' && o2.name != ""
    requires raw == " " + o1.name + " " + o2.name
    ensures Parser.Step(st, raw) == Ok(st.(options := st.options + [o1, o2]))
  {
    var a, b := o1.name, o2.name;
    var line := a + " " + b;
    assert TrimSpace(a) == a && TrimSpace(b) == b by {
      Parser.RegisteredKeyword(o1);
      Parser.RegisteredKeyword(o2);
    }
    PaddedPair(raw, a, b);
    SpacedLine(a, b);
    TwoNamesLine(o1, o2);
    Parser.StepOptionLine(st, raw);
  }

  /** Two catalogue keywords around a space read as their two options. */
  lemma TwoNamesLine(o1: Options.Option, o2: Options.Option)
    requires o1 in Options.Registry && o2 in Options.Registry
    ensures Parser.OptionLine(o1.name + " " + o2.name) == ([o1, o2], Pass)
  {
    var a, b := o1.name, o2.name;
    assert Join(Parser.Names([o1, o2]), " ") == a + " " + b by {
      assert Parser.Names([o1, o2]) == [a, b];
      JoinThree(a, b, "", " ");
    }
    Parser.OptionsRoundTrip([o1, o2]);
  }

  /** Two trimmed words after a space trim to the words around the space. */
  lemma PaddedPair(raw: string, a: string, b: string)
    requires a != "" && b != "" && TrimSpace(a) == a && TrimSpace(b) == b
    requires raw == " " + a + " " + b
    ensures TrimSpace(raw) == a + " " + b
  {
    var line := a + " " + b;
    assert line[0] == a[0] && line[|line| - 1] == b[|b| - 1];
    assert raw == " " + line + "";
    TrimPadded(" ", line, "");
  }

  /** The first option line of the whole-file test, spelled by its keywords. */
  lemma FirstOptionText(raw: string)
    requires raw == " circular color_next"
    ensures raw == " " + Options.OptionCircular.name + " " + Options.OptionNext.name
    ensures Options.OptionCircular in Options.Registry && Options.OptionNext in Options.Registry
    ensures Options.OptionCircular.name != "" && Options.OptionCircular.name[0] != '#' && Options.OptionNext.name != ""
  {
  }

  /** The second option line of the whole-file test, spelled by its keyword. */
  lemma SecondOptionText(raw: string, trail: string)
    requires raw == " color_complete  " && trail == "  "
    ensures raw == " " + Options.OptionComplete.name + trail && Parser.Blanks(trail)
    ensures Options.OptionComplete in Options.Registry
    ensures Options.OptionComplete.name != "" && Options.OptionComplete.name[0] != '#'
    ensures Options.OptionComplete.name != "options" && Options.OptionComplete.name != "dependencies"
  {
  }

  /** Two words around a space, the first not led by `#`, make a line with
      content that is no section header. */
  lemma SpacedLine(a: string, b: string)
    requires a != "" && a[0] != '#'
    ensures var line := a + " " + b; !Parser.Skipped(line) && line != "options" && line != "dependencies"
  {
    var line := a + " " + b;
    assert line[|a|] == ' ';
    assert ' ' !in "options" && ' ' !in "dependencies";
  }

  /** In the option section, one catalogue keyword between a space and
      trailing spaces appends its option. */
  lemma OneKeyStep(st: Parser.State, raw: string, o: Options.Option, trail: string)
    requires st.position == Parser.OptionSection && o in Options.Registry
    requires o.name != "" && o.name[0] != '#' && o.name != "options" && o.name != "dependencies"
    requires Parser.Blanks(trail) && raw == " " + o.name + trail
    ensures Parser.Step(st, raw) == Ok(st.(options := st.options + [o]))
  {
    Parser.RegisteredKeyword(o);
    var a := o.name;
    assert raw == " " + a + trail;
    TrimPadded(" ", a, trail);
    assert Parser.Names([o]) == [a];
    Parser.OptionsRoundTrip([o]);
    Parser.StepOptionLine(st, raw);
  }

  /** The declarations, the blank line and the `options` header. */
  lemma FileOptionsHeader(ls: seq<string>)
    requires ls == ["  1: apple", "  2: blueberry", "  5: cranberry ", "", "options"]
    ensures Parser.Run(ls) == Ok(Parser.State(Parser.OptionSection, FruitDeclared(), []))
  {
    var st := Parser.State(Parser.Declaration, FruitDeclared(), []);
    FruitBlank(ls[..4]);
    RunSnoc(ls, st);
    StepOptions(st, ls[4]);
  }

  /** The first option line, read in the option section, appends its two
      options. */
  lemma FirstOptionsStep(st: Parser.State, raw: string)
    requires st.position == Parser.OptionSection && st.options == []
    requires raw == " circular color_next"
    ensures Parser.Step(st, raw) == Ok(st.(options := FirstOptions()))
  {
    FirstOptionText(raw);
    TwoKeysStep(st, raw, Options.OptionCircular, Options.OptionNext);
    assert st.options + [Options.OptionCircular, Options.OptionNext] == FirstOptions();
  }

  /** The second option line, read in the option section, appends its
      option after the first two. */
  lemma SecondOptionsStep(st: Parser.State, raw: string)
    requires st.position == Parser.OptionSection && st.options == FirstOptions()
    requires raw == " color_complete  "
    ensures Parser.Step(st, raw) == Ok(st.(options := FileOptions()))
  {
    var trail := "  ";
    SecondOptionText(raw, trail);
    OneKeyStep(st, raw, Options.OptionComplete, trail);
    assert FirstOptions() + [Options.OptionComplete] == FileOptions();
  }

  /** The first option line appends its two options. */
  lemma FileFirstOptions(ls: seq<string>)
    requires ls == ["  1: apple", "  2: blueberry", "  5: cranberry ", "", "options", " circular color_next"]
    ensures Parser.Run(ls) == Ok(Parser.State(Parser.OptionSection, FruitDeclared(), FirstOptions()))
  {
    var st := Parser.State(Parser.OptionSection, FruitDeclared(), []);
    FileOptionsHeader(ls[..5]);
    RunSnoc(ls, st);
    FirstOptionsStep(st, ls[5]);
  }

  /** The second option line appends its option after the first two. */
  lemma FileSecondOptions(ls: seq<string>)
    requires ls == ["  1: apple", "  2: blueberry", "  5: cranberry ", "", "options", " circular color_next",
                    " color_complete  "]
    ensures Parser.Run(ls) == Ok(Parser.State(Parser.OptionSection, FruitDeclared(), FileOptions()))
  {
    var st := Parser.State(Parser.OptionSection, FruitDeclared(), FirstOptions());
    FileFirstOptions(ls[..6]);
    RunSnoc(ls, st);
    SecondOptionsStep(st, ls[6]);
  }

  /** The blank line after the options changes nothing. */
  lemma FileSecondBlank(ls: seq<string>)
    requires ls == ["  1: apple", "  2: blueberry", "  5: cranberry ", "", "options", " circular color_next",
                    " color_complete  ", ""]
    ensures Parser.Run(ls) == Ok(Parser.State(Parser.OptionSection, FruitDeclared(), FileOptions()))
  {
    var st := Parser.State(Parser.OptionSection, FruitDeclared(), FileOptions());
    FileSecondOptions(ls[..7]);
    RunSnoc(ls, st);
    StepBlank(st, ls[7]);
  }

  /** The `dependencies` header after the options. */
  lemma FileDependencyHeader(ls: seq<string>)
    requires ls == ["  1: apple", "  2: blueberry", "  5: cranberry ", "", "options", " circular color_next",
                    " color_complete  ", "", "dependencies"]
    ensures Parser.Run(ls) == Ok(Parser.State(Parser.Dependency, FruitDeclared(), FileOptions()))
  {
    var st := Parser.State(Parser.OptionSection, FruitDeclared(), FileOptions());
    FileSecondBlank(ls[..8]);
    RunSnoc(ls, st);
    StepDependencies(st, ls[8]);
  }

  /** Apple provides blueberry, after the options. */
  lemma FileFirstEdge(ls: seq<string>)
    requires ls == ["  1: apple", "  2: blueberry", "  5: cranberry ", "", "options", " circular color_next",
                    " color_complete  ", "", "dependencies", " 1 -> 2"]
    ensures Parser.Run(ls) ==
      Ok(Parser.State(Parser.Dependency, Nodes.WithProvide(FruitDeclared(), 1, 2), FileOptions()))
  {
    FruitSpellings();
    FruitNames();
    var st := Parser.State(Parser.Dependency, FruitDeclared(), FileOptions());
    FileDependencyHeader(ls[..9]);
    ProvideStepOk(st, ls[9], " ", 1, 2);
    RunSnoc(ls, st);
  }

  /** The description after its comment and blank line: the fruit table
      with the options of both option lines. */
  lemma FileBody(ls: seq<string>)
    requires ls == ["  1: apple", "  2: blueberry", "  5: cranberry ", "", "options", " circular color_next",
                    " color_complete  ", "", "dependencies", " 1 -> 2", " 2 -> 5"]
    ensures Parser.Run(ls) == Ok(Parser.State(Parser.Dependency, FruitTable(), FileOptions()))
  {
    FruitSpellings();
    FruitNames();
    var t := Nodes.WithProvide(FruitDeclared(), 1, 2);
    var st := Parser.State(Parser.Dependency, t, FileOptions());
    FileFirstEdge(ls[..10]);
    assert t[2] == Fresh("blueberry", 2).(requirements := [1]);
    ProvideStepOk(st, ls[10], " ", 2, 5);
    RunSnoc(ls, st);
    FruitEdges();
  }

  /** The whole-file test: the comment and the blank line change nothing,
      and the rest reads into the fruit table with the options of both
      option lines, in line order and then word order. */
  lemma FileRun(lines: seq<string>)
    requires FileLines(lines)
    ensures Parser.Run(lines) == Ok(Parser.State(Parser.Dependency, FruitTable(), FileOptions()))
  {
    FileHead(lines[..2]);
    assert lines == lines[..2] + lines[2..];
    Parser.RunAfterSkipped(lines[..2], lines[2..]);
    FileBody(lines[2..]);
  }

  /** `ParseFile` on the whole-file test passes and returns the fruit
      table with the circular, next-colour and complete-colour options. */
  method ReadFile(lines: seq<string>) returns (graph: Graphs.Graph, err: Outcome)
    requires FileLines(lines)
    ensures err == Pass && graph == Graphs.Graph(FruitTable(), FileOptions())
  {
    FileRun(lines);
    graph, err := Parser.ParseFile(lines);
  }

  /** Apple providing blueberry and then blueberry providing cranberry
      gives the fruit table. */
  lemma FruitEdges()
    ensures Nodes.WithProvide(Nodes.WithProvide(FruitDeclared(), 1, 2), 2, 5) == FruitTable()
  {
    var t5 := Nodes.WithProvide(FruitDeclared(), 1, 2);
    var t6 := Nodes.WithProvide(t5, 2, 5);
    assert t5[2] == Nodes.Node("blueberry", 2, [1], []);
    assert t6[1] == FruitTable()[1] && t6[2] == FruitTable()[2] && t6[5] == FruitTable()[5];
  }

  /** A node that provides one other node renders as two lines. */
  lemma OneArrow(node: Nodes.Node, t: Nodes.Table, other: int)
    requires node.provisions == [other] && other in t
    ensures node.ToGraphviz(t) == ("\"" + node.name + "\"\n") + ("\"" + node.name + "\" -> \"" + t[other].name + "\"\n")
  {
    var q, name, to := "\"", node.name, t[other].name;
    assert node.provisions[1..] == [];
    assert Nodes.Arrows(name, node.provisions, t) == Nodes.Arrow(name, to);
    assert Nodes.Arrow(name, to) == q + name + q + " -> " + q + to + q + "\n";
    assert node.ToGraphviz(t) == q + name + q + "\n" + (q + name + q + " -> " + q + to + q + "\n");
  }

  /** Each fruit renders as its own line and one arrow line per node it
      provides. */
  lemma FruitNodeTexts(t: Nodes.Table)
    requires t == FruitTable()
    ensures Graphs.Renderable(t)
    ensures t[1].ToGraphviz(t) == "\"apple\"\n" + "\"apple\" -> \"blueberry\"\n"
    ensures t[2].ToGraphviz(t) == "\"blueberry\"\n" + "\"blueberry\" -> \"cranberry\"\n"
    ensures t[5].ToGraphviz(t) == "\"cranberry\"\n"
  {
    assert t[1].name == "apple" && t[2].name == "blueberry" && t[5].name == "cranberry";
    assert t[1].provisions == [2] && t[2].provisions == [5] && t[5].provisions == [];
    OneArrow(t[1], t, 2);
    OneArrow(t[2], t, 5);
    NameLines();
    ArrowLines();
  }

  /** The fruit names quoted on lines of their own. */
  lemma NameLines()
    ensures "\"" + "apple" + "\"\n" == "\"apple\"\n"
    ensures "\"" + "blueberry" + "\"\n" == "\"blueberry\"\n"
    ensures "\"" + "cranberry" + "\"\n" == "\"cranberry\"\n"
  {
  }

  /** The two arrow lines of the fruit graph. */
  lemma ArrowLines()
    ensures "\"" + "apple" + "\" -> \"" + "blueberry" + "\"\n" == "\"apple\" -> \"blueberry\"\n"
    ensures "\"" + "blueberry" + "\" -> \"" + "cranberry" + "\"\n" == "\"blueberry\" -> \"cranberry\"\n"
  {
  }

  /** Three nodes rendered one after the other. */
  lemma BodyThree(t: Nodes.Table, a: int, b: int, c: int)
    requires Graphs.Renderable(t) && a in t && b in t && c in t
    ensures Graphs.Body(t, [a, b, c]) == t[a].ToGraphviz(t) + t[b].ToGraphviz(t) + t[c].ToGraphviz(t)
  {
    var keys := [a, b, c];
    assert keys[..0] == [] && keys[..1] == [a] && keys[..2] == [a, b] && keys[..3] == keys;
    Graphs.BodySnoc(t, keys, 0);
    Graphs.BodySnoc(t, keys, 1);
    Graphs.BodySnoc(t, keys, 2);
  }

  /** The fruit table's nodes in ascending order. */
  lemma FruitOrder()
    ensures Graphs.SortedKeys(FruitTable().Keys) == [1, 2, 5]
  {
    var keys := FruitTable().Keys;
    assert keys == {1, 2, 5};
    Graphs.IncreasingUnique([1, 2, 5], Graphs.SortedKeys(keys));
  }

  /** The DOT text the rendering test expects for the fruit table. */
  lemma FruitDot(t: Nodes.Table)
    requires t == FruitTable()
    ensures Graphs.Renderable(t)
    ensures Graphs.Dot(Graphs.Graph(t, [])) ==
      Graphs.GraphvizHeader +
      ("\"apple\"\n" + "\"apple\" -> \"blueberry\"\n" + "\"blueberry\"\n" + "\"blueberry\" -> \"cranberry\"\n" + "\"cranberry\"\n") +
      Graphs.GraphvizFooter
  {
    FruitBody(t);
    var g := Graphs.Graph(t, []);
    DotIs(g, Graphs.Body(t, Graphs.SortedKeys(t.Keys)));
  }

  lemma DotIs(g: Graphs.Graph, body: string)
    requires Graphs.Renderable(g.nodes) && body == Graphs.Body(g.nodes, Graphs.SortedKeys(g.nodes.Keys))
    ensures Graphs.Dot(g) == Graphs.GraphvizHeader + body + Graphs.GraphvizFooter
  {
  }

  /** The fruit nodes rendered in ascending order. */
  lemma FruitBody(t: Nodes.Table)
    requires t == FruitTable()
    ensures Graphs.Renderable(t)
    ensures Graphs.Body(t, Graphs.SortedKeys(t.Keys)) ==
      "\"apple\"\n" + "\"apple\" -> \"blueberry\"\n" + "\"blueberry\"\n" + "\"blueberry\" -> \"cranberry\"\n" + "\"cranberry\"\n"
  {
    FruitNodeTexts(t);
    FruitOrder();
    BodyThree(t, 1, 2, 5);
    Regroup(t[1].ToGraphviz(t), t[2].ToGraphviz(t), t[5].ToGraphviz(t),
      "\"apple\"\n", "\"apple\" -> \"blueberry\"\n", "\"blueberry\"\n", "\"blueberry\" -> \"cranberry\"\n", "\"cranberry\"\n");
  }

  lemma Regroup(x: string, y: string, z: string, a: string, b: string, c: string, d: string, e: string)
    requires x == a + b && y == c + d && z == e
    ensures x + y + z == a + b + c + d + e
  {
  }

  /** The rendering test end to end: the description is read by `ParseFile`
      and rendered by `ToGraphviz`, giving the expected DOT text. */
  method RenderFruit(lines: seq<string>) returns (dot: string, err: Outcome)
    requires FruitLines(lines)
    ensures err == Pass
    ensures dot == Graphs.GraphvizHeader +
      ("\"apple\"\n" + "\"apple\" -> \"blueberry\"\n" + "\"blueberry\"\n" + "\"blueberry\" -> \"cranberry\"\n" + "\"cranberry\"\n") +
      Graphs.GraphvizFooter
  {
    FruitRun(lines);
    FruitDot(FruitTable());
    var graph;
    graph, err := Parser.ParseFile(lines);
    dot := Graphs.ToGraphviz(graph);
  }
}
