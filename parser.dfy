/** The line-oriented reader of a graph description. A description is a
    list of declarations `number: name`, then optionally a section headed
    `options` holding option keywords, and a section headed `dependencies`
    holding lines `n -> m, ...` (n provides each m) or `n <- m, ...` (n
    requires each m). Blank lines and lines starting with `#` are ignored. */
module Parser {
  import opened Errors
  import opened Text
  import opened Options
  import Nodes
  import Graphs

  /** The section of the input being read. */
  datatype Position = Declaration | OptionSection | Dependency

  // ----- declarations -----

  /** Reads `number: name`. The line must hold exactly one ':'; the trimmed
      left part must be a decimal integer of at least 1; the name is the
      trimmed right part. The new node has no edges. */
  function ParseDeclaration(line: string): (r: Result<Nodes.Node>)
    ensures multiset(line)[':'] != 1 ==> r == Err(FormatError(line))
    ensures r.Err? ==> r.error.FormatError? || r.error.ValueError?
    ensures r.Ok? ==> r.value.number >= 1 && r.value.requirements == [] && r.value.provisions == []
    ensures r.Ok? ==> ':' !in r.value.name && TrimSpace(r.value.name) == r.value.name
  {
    var items := Split(line, ":");
    SplitCount(line, ':');
    if |items| != 2 then Err(FormatError(line))
    else
      var item := TrimSpace(items[0]);
      match Atoi(item)
      case Err(e) => Err(e)
      case Ok(number) =>
        if number < 1 then Err(ValueError(IntToString(number)))
        else
          SplitPartsExclude(line, ':');
          TrimSpaceKeepsOut(items[1], ':');
          Ok(Nodes.Node(TrimSpace(items[1]), number, [], []))
  }

  /** A run of white space. */
  predicate Blanks(s: string) {
    forall k :: 0 <= k < |s| ==> IsSpace(s[k])
  }

  /** A name that trimming leaves as it is and that holds no ':'. */
  predicate PlainName(name: string) {
    name != [] && !IsSpace(name[0]) && !IsSpace(name[|name| - 1]) && ':' !in name
  }

  /** An integer's decimal spelling is a plain name holding none of the
      separators `,`, `<`, `>` and space. */
  lemma IntToStringPlain(n: int)
    ensures PlainName(IntToString(n)) && ',' !in IntToString(n) && '>' !in IntToString(n)
    ensures '<' !in IntToString(n) && ' ' !in IntToString(n)
  {
    AtoiIntToString(n);
    var s := IntToString(n);
    var digits := NatToString(if n < 0 then -n else n);
    assert s == digits || s == "-" + digits;
    forall k | 0 <= k < |s| ensures s[k] != ':' && s[k] != ',' && s[k] != '>' && s[k] != '<' && s[k] != ' ' {
      if s == "-" + digits && k > 0 {
        assert s[k] == digits[k - 1];
      }
    }
  }

  /** A declaration whose line splits into two parts reads as its parts say. */
  lemma DeclarationParts(line: string, left: string, right: string, n: int)
    requires Split(line, ":") == [left, right] && Atoi(TrimSpace(left)) == Ok(n)
    ensures ParseDeclaration(line) == if n >= 1 then Ok(Nodes.Node(TrimSpace(right), n, [], [])) else Err(ValueError(IntToString(n)))
  {
  }

  lemma DeclarationSplit(b1: string, num: string, a1: string, b2: string, name: string, a2: string)
    requires Blanks(b1) && Blanks(a1) && Blanks(b2) && Blanks(a2) && ':' !in num && ':' !in name
    ensures Split(b1 + num + a1 + ":" + b2 + name + a2, ":") == [b1 + num + a1, b2 + name + a2]
  {
    var left, right := b1 + num + a1, b2 + name + a2;
    assert ':' !in b1 && ':' !in a1 && ':' !in b2 && ':' !in a2 by {
      assert !IsSpace(':');
    }
    assert ':' !in left && ':' !in right;
    SplitTwo(left, ":", right);
    assert b1 + num + a1 + ":" + b2 + name + a2 == left + ":" + right;
  }

  /** A declaration written out with any white space around the number and
      the name reads back as the node it describes, or as a value error
      when the number is below 1. */
  lemma DeclarationRoundTrip(b1: string, n: int, a1: string, b2: string, name: string, a2: string)
    requires Blanks(b1) && Blanks(a1) && Blanks(b2) && Blanks(a2) && PlainName(name)
    ensures var line := b1 + IntToString(n) + a1 + ":" + b2 + name + a2;
      ParseDeclaration(line) == if n >= 1 then Ok(Nodes.Node(name, n, [], [])) else Err(ValueError(IntToString(n)))
  {
    var num := IntToString(n);
    IntToStringPlain(n);
    DeclarationSplit(b1, num, a1, b2, name, a2);
    TrimPadded(b1, num, a1);
    TrimPadded(b2, name, a2);
    AtoiIntToString(n);
    DeclarationParts(b1 + num + a1 + ":" + b2 + name + a2, b1 + num + a1, b2 + name + a2, n);
  }

  /** A declaration is read exactly when the line holds one ':' and the
      trimmed text before it is an integer of at least 1; the node then has
      that number, the trimmed text after the ':' as its name, and no edges.
      Otherwise a left side that is no integer is a value error naming that
      text, and a number below 1 a value error naming the number. */
  lemma DeclarationAccepted(line: string)
    ensures var items := Split(line, ":");
      var n := Atoi(TrimSpace(items[0]));
      && (ParseDeclaration(line).Ok? <==> multiset(line)[':'] == 1 && n.Ok? && n.value >= 1)
      && (ParseDeclaration(line).Ok? ==> ParseDeclaration(line).value == Nodes.Node(TrimSpace(items[1]), n.value, [], []))
      && (multiset(line)[':'] == 1 && n.Err? ==> ParseDeclaration(line) == Err(ValueError(TrimSpace(items[0]))))
      && (multiset(line)[':'] == 1 && n.Ok? && n.value < 1 ==> ParseDeclaration(line) == Err(ValueError(IntToString(n.value))))
  {
    assert |Split(line, ":")| == multiset(line)[':'] + 1 by {
      assert [':'] == ":";
      SplitCount(line, ':');
    }
  }

  lemma DeclarationExample()
    ensures ParseDeclaration("   1:  some name      ") == Ok(Nodes.Node("some name", 1, [], []))
  {
    assert "   " + IntToString(1) + "" + ":" + "  " + "some name" + "      " == "   1:  some name      " by {
      assert IntToString(1) == "1";
    }
    assert PlainName("some name") by {
      assert ':' !in "some name";
    }
    DeclarationRoundTrip("   ", 1, "", "  ", "some name", "      ");
  }

  lemma DeclarationWithoutColon()
    ensures ParseDeclaration("   1  some name      ") == Err(FormatError("   1  some name      "))
  {
    assert multiset("   1  some name      ")[':'] == 0 by {
      assert ':' !in "   1  some name      ";
    }
  }

  lemma DeclarationBelowOne()
    ensures ParseDeclaration("   -1  : some name      ") == Err(ValueError("-1"))
  {
    var num := IntToString(-1);
    assert num == "-1" by {
      assert NatToString(1) == "1";
    }
    assert "   " + num + "  " + ":" + " " + "some name" + "      " == "   -1  : some name      ";
    assert PlainName("some name") by {
      assert ':' !in "some name";
    }
    DeclarationRoundTrip("   ", -1, "  ", " ", "some name", "      ");
  }

  // ----- options -----

  /** What a trimmed word of an options line stands for. */
  datatype Keyword = Blank | Known(option: Option) | Unknown

  /** The keyword switch: the empty word is skipped, a word naming one of
      the catalogued options selects that option, anything else is unknown.
      The switch's five cases are the catalogue's five names, which are
      distinct, so trying them in catalogue order decides the same way. */
  function Classify(item: string): (k: Keyword)
    ensures k.Blank? <==> item == ""
    ensures k.Known? ==> k.option in Registry && k.option.name == item
  {
    if item == "" then Blank else Lookup(item, Registry)
  }

  /** The first of `cases` that `item` names, or unknown when it names none. */
  function Lookup(item: string, cases: seq<Option>): (k: Keyword)
    ensures !k.Blank?
    ensures k.Known? ==> k.option in cases && k.option.name == item
  {
    if cases == [] then Unknown
    else if cases[0].name == item then Known(cases[0])
    else Lookup(item, cases[1..])
  }

  /** A word naming the i-th case and none before it selects that case. */
  lemma {:induction false} LookupFinds(item: string, cases: seq<Option>, i: int)
    requires 0 <= i < |cases| && cases[i].name == item
    requires forall j :: 0 <= j < i ==> cases[j].name != item
    ensures Lookup(item, cases) == Known(cases[i])
    decreases i
  {
    if i > 0 {
      assert cases[0].name != item;
      LookupFinds(item, cases[1..], i - 1);
    }
  }

  /** A word naming no case is unknown. */
  lemma {:induction false} LookupMisses(item: string, cases: seq<Option>)
    requires forall j :: 0 <= j < |cases| ==> cases[j].name != item
    ensures Lookup(item, cases) == Unknown
    decreases |cases|
  {
    if cases != [] {
      assert cases[0].name != item;
      LookupMisses(item, cases[1..]);
    }
  }

  /** Keyword lookup is the inverse of an option's name: a word selects an
      option exactly when it is that option's name. */
  lemma KeywordLookup(item: string, o: Option)
    ensures Classify(item) == Known(o) <==> o in Registry && o.name == item
  {
    if o in Registry && o.name == item {
      RegistryNamesDistinct();
      var i :| 0 <= i < |Registry| && Registry[i] == o;
      LookupFinds(item, Registry, i);
    }
  }

  /** A non-empty word that is none of the five keywords is unknown. */
  lemma OtherWord(item: string)
    requires item != "" && item != "cleanup" && item != "circular" && item != "color_next"
    requires item != "color_urgent" && item != "color_complete"
    ensures Classify(item) == Unknown
  {
    assert Registry == [OptionCleanup, OptionCircular, OptionNext, OptionComplete, OptionUrgent];
    LookupMisses(item, Registry);
  }

  /** Every word, once trimmed, is empty or a catalogue keyword. */
  predicate AllRecognised(words: seq<string>) {
    words == [] ||
      (AllRecognised(words[..|words| - 1]) && !Classify(TrimSpace(words[|words| - 1])).Unknown?)
  }

  /** The options selected by the words read so far, and whether reading
      stopped at an unknown word. */
  function CollectOptions(words: seq<string>): (r: (seq<Option>, Outcome))
    ensures r.1.Pass? <==> AllRecognised(words)
    ensures r.1.Fail? ==> r.1.error.UnknownOptionError? && Classify(r.1.error.token).Unknown?
    ensures |r.0| <= |words|
  {
    if words == [] then ([], Pass)
    else
      var (options, err) := CollectOptions(words[..|words| - 1]);
      if err.Fail? then (options, err)
      else
        var item := TrimSpace(words[|words| - 1]);
        match Classify(item)
        case Blank => (options, Pass)
        case Known(o) => (options + [o], Pass)
        case Unknown => (options, Fail(UnknownOptionError(item)))
  }

  /** The options of one line: its words are the pieces between single spaces. */
  function OptionLine(line: string): (r: (seq<Option>, Outcome))
    ensures r.1.Pass? <==> AllRecognised(Split(line, " "))
    ensures r.1.Fail? ==> r.1.error.UnknownOptionError? && r.1.error.token != "" && Classify(r.1.error.token).Unknown?
    ensures forall o :: o in r.0 ==> o in Registry
  {
    OptionsInRegistry(Split(line, " "));
    CollectOptions(Split(line, " "))
  }

  /** Only catalogue options are ever read. */
  lemma {:induction false} OptionsInRegistry(words: seq<string>)
    ensures forall o :: o in CollectOptions(words).0 ==> o in Registry
  {
    if words != [] {
      OptionsInRegistry(words[..|words| - 1]);
    }
  }

  /** Once a word is unknown, later words change nothing: the options read
      before it are returned with the error. */
  lemma {:induction false} OptionsStopAtUnknown(words: seq<string>, i: int)
    requires 0 <= i <= |words| && CollectOptions(words[..i]).1.Fail?
    ensures CollectOptions(words) == CollectOptions(words[..i])
    decreases |words|
  {
    if i == |words| {
      assert words[..i] == words;
    } else {
      var init := words[..|words| - 1];
      assert init[..i] == words[..i];
      OptionsStopAtUnknown(init, i);
    }
  }

  /** The names of the given options. */
  function Names(os: seq<Option>): (names: seq<string>)
    ensures |names| == |os| && forall i :: 0 <= i < |os| ==> names[i] == os[i].name
  {
    if os == [] then [] else Names(os[..|os| - 1]) + [os[|os| - 1].name]
  }

  /** A catalogued option's name is a single word that selects that option. */
  lemma RegisteredKeyword(o: Option)
    requires o in Registry
    ensures TrimSpace(o.name) == o.name && ' ' !in o.name && Classify(o.name) == Known(o)
  {
    KeywordLookup(o.name, o);
    KeywordTrimmed(o);
    RegistryNamesDistinct();
    var i :| 0 <= i < |Registry| && Registry[i] == o;
  }

  /** No keyword of the catalogue starts or ends with white space. */
  lemma KeywordTrimmed(o: Option)
    requires o in Registry
    ensures TrimSpace(o.name) == o.name
  {
    var name := o.name;
    if o == OptionCleanup {
      assert name == "cleanup";
    } else if o == OptionCircular {
      assert name == "circular";
    } else if o == OptionNext {
      assert name == "color_next";
    } else if o == OptionComplete {
      assert name == "color_complete";
    } else {
      assert name == "color_urgent";
    }
    assert name != [] && !IsSpace(name[0]) && !IsSpace(name[|name| - 1]);
  }

  lemma {:induction false} CollectNames(os: seq<Option>)
    requires forall i :: 0 <= i < |os| ==> os[i] in Registry
    ensures CollectOptions(Names(os)) == (os, Pass)
  {
    if os != [] {
      var init := os[..|os| - 1];
      var o := os[|os| - 1];
      assert init + [o] == os;
      assert Names(os) == Names(init) + [o.name];
      CollectNames(init);
      RegisteredKeyword(o);
      CollectKnown(Names(init), o.name, init, o);
    }
  }

  /** Writing options out as their names separated by single spaces and
      reading the line back gives the same options, in order. */
  lemma OptionsRoundTrip(os: seq<Option>)
    requires forall i :: 0 <= i < |os| ==> os[i] in Registry
    ensures OptionLine(Join(Names(os), " ")) == (os, Pass)
  {
    if os == [] {
      EmptyOptionLine();
    } else {
      SpacelessNames(os);
      SpacedSplit(Names(os));
      CollectNames(os);
    }
  }

  /** An empty option line selects nothing. */
  lemma EmptyOptionLine()
    ensures OptionLine("") == ([], Pass)
  {
    assert Split("", " ") == [""];
  }

  /** Splitting words without spaces joined by spaces gives the words back. */
  lemma SpacedSplit(words: seq<string>)
    requires words != [] && forall k :: 0 <= k < |words| ==> ' ' !in words[k]
    ensures Split(Join(words, " "), " ") == words
  {
    JoinSplit(words, ' ');
  }

  /** No name of a catalogue option holds a space. */
  lemma SpacelessNames(os: seq<Option>)
    requires forall i :: 0 <= i < |os| ==> os[i] in Registry
    ensures forall k :: 0 <= k < |Names(os)| ==> ' ' !in Names(os)[k]
  {
    forall k | 0 <= k < |os| ensures ' ' !in Names(os)[k] {
      RegisteredKeyword(os[k]);
    }
  }

  /** One more word: `CollectOptions` over the first i + 1 words unfolded. */
  lemma OptionsExtend(words: seq<string>, i: int)
    requires 0 <= i < |words|
    ensures var (options, err) := CollectOptions(words[..i]);
      var item := TrimSpace(words[i]);
      CollectOptions(words[..i + 1]) ==
        if err.Fail? then (options, err)
        else match Classify(item)
          case Blank => (options, Pass)
          case Known(o) => (options + [o], Pass)
          case Unknown => (options, Fail(UnknownOptionError(item)))
  {
    assert words[..i + 1][..i] == words[..i];
  }

  /** One word read by the loop, given its keyword: a blank keeps the
      options, a known keyword appends its option, and an unknown word ends
      the line with the options read so far. */
  lemma OptionsStep(words: seq<string>, i: int, options: seq<Option>, k: Keyword)
    requires 0 <= i < |words| && CollectOptions(words[..i]) == (options, Pass)
    requires k == Classify(TrimSpace(words[i]))
    ensures k.Blank? ==> CollectOptions(words[..i + 1]) == (options, Pass)
    ensures k.Known? ==> CollectOptions(words[..i + 1]) == (options + [k.option], Pass)
    ensures k.Unknown? ==> CollectOptions(words) == (options, Fail(UnknownOptionError(TrimSpace(words[i]))))
  {
    OptionsExtend(words, i);
    if k.Unknown? {
      OptionsStopAtUnknown(words, i + 1);
    }
  }

  /** The switch on one trimmed word: empty words are skipped, each
      catalogue keyword selects its option, anything else is unknown. */
  method ClassifyWord(item: string) returns (k: Keyword)
    ensures k == Classify(item)
  {
    if item == "" {
      // extra white space between words
      k := Blank;
    } else if item == "cleanup" {
      RegisteredKeyword(OptionCleanup);
      k := Known(OptionCleanup);
    } else if item == "circular" {
      RegisteredKeyword(OptionCircular);
      k := Known(OptionCircular);
    } else if item == "color_next" {
      RegisteredKeyword(OptionNext);
      k := Known(OptionNext);
    } else if item == "color_urgent" {
      RegisteredKeyword(OptionUrgent);
      k := Known(OptionUrgent);
    } else if item == "color_complete" {
      RegisteredKeyword(OptionComplete);
      k := Known(OptionComplete);
    } else {
      OtherWord(item);
      k := Unknown;
    }
  }

  /** Reads the option keywords of one line, stopping at the first unknown
      word with the options read before it. */
  method ParseOption(line: string) returns (options: seq<Option>, err: Outcome)
    ensures (options, err) == OptionLine(line)
  {
    var words := Split(line, " ");
    options := [];
    var i := 0;
    while i < |words|
      invariant 0 <= i <= |words|
      invariant CollectOptions(words[..i]) == (options, Pass)
    {
      var item := TrimSpace(words[i]);
      var k := ClassifyWord(item);
      OptionsStep(words, i, options, k);
      match k {
        case Blank =>
        case Known(o) =>
          options := options + [o];
        case Unknown =>
          return options, Fail(UnknownOptionError(item));
      }
      i := i + 1;
    }
    assert words[..i] == words;
    err := Pass;
  }

  /** The options that the keywords among `words` select, in order; empty
      words, left by runs of spaces, select nothing. */
  function Selected(words: seq<string>): seq<Option>
  {
    if words == [] then []
    else
      var last := words[|words| - 1];
      Selected(words[..|words| - 1]) + (if Classify(last).Known? then [Classify(last).option] else [])
  }

  /** A word that is empty or a catalogue keyword holds no space and has
      nothing to trim. */
  lemma KnownWord(w: string)
    requires !Classify(w).Unknown?
    ensures ' ' !in w && TrimSpace(w) == w
  {
    if w != "" {
      var o := Classify(w).option;
      KeywordLookup(w, o);
      RegisteredKeyword(o);
    }
  }

  /** An empty word after words read without error adds no option. */
  lemma CollectBlank(init: seq<string>, last: string, options: seq<Option>)
    requires Classify(last).Blank? && TrimSpace(last) == last
    requires CollectOptions(init) == (options, Pass)
    ensures CollectOptions(init + [last]) == (options, Pass)
  {
    var words := init + [last];
    assert words[..|words| - 1] == init;
    assert TrimSpace(words[|words| - 1]) == last;
  }

  /** A keyword after words read without error adds its option. */
  lemma CollectKnown(init: seq<string>, last: string, options: seq<Option>, o: Option)
    requires Classify(last) == Known(o) && TrimSpace(last) == last
    requires CollectOptions(init) == (options, Pass)
    ensures CollectOptions(init + [last]) == (options + [o], Pass)
  {
    var words := init + [last];
    assert words[..|words| - 1] == init;
    assert words[|words| - 1] == last;
  }

  /** One more empty word or keyword: the selection grows as the reading does. */
  lemma CollectSelectedStep(init: seq<string>, last: string)
    requires !Classify(last).Unknown?
    requires CollectOptions(init) == (Selected(init), Pass)
    ensures CollectOptions(init + [last]) == (Selected(init + [last]), Pass)
  {
    var words := init + [last];
    assert words[..|words| - 1] == init;
    var tail := if Classify(last).Known? then [Classify(last).option] else [];
    assert Selected(words) == Selected(init) + tail;
    KnownWord(last);
    if Classify(last).Blank? {
      CollectBlank(init, last, Selected(init));
      assert tail == [] && Selected(init) + tail == Selected(init);
    } else {
      CollectKnown(init, last, Selected(init), Classify(last).option);
    }
  }

  /** A word that is no option, after words read without error, stops the
      reading with an error naming it. */
  lemma CollectUnknown(init: seq<string>, last: string, options: seq<Option>)
    requires Classify(last).Unknown? && TrimSpace(last) == last
    requires CollectOptions(init) == (options, Pass)
    ensures CollectOptions(init + [last]) == (options, Fail(UnknownOptionError(last)))
  {
    var words := init + [last];
    assert words[..|words| - 1] == init;
    assert TrimSpace(words[|words| - 1]) == last;
  }

  /** Words that are empty or catalogue keywords read as the options they
      select. */
  lemma {:induction false} CollectSelected(words: seq<string>)
    requires forall w :: w in words ==> !Classify(w).Unknown?
    ensures CollectOptions(words) == (Selected(words), Pass)
  {
    if words != [] {
      var init := words[..|words| - 1];
      assert words == init + [words[|words| - 1]];
      assert forall w :: w in init ==> w in words;
      CollectSelected(init);
      CollectSelectedStep(init, words[|words| - 1]);
    }
  }

  /** Keywords separated by runs of spaces, with spaces before and after,
      read back as the options they name, in order. */
  lemma OptionsSpaced(words: seq<string>)
    requires words != [] && forall w :: w in words ==> !Classify(w).Unknown?
    ensures OptionLine(Join(words, " ")) == (Selected(words), Pass)
  {
    assert Split(Join(words, " "), " ") == words by {
      SpacelessWords(words);
      JoinSplit(words, ' ');
    }
    CollectSelected(words);
  }

  /** Spaced keywords followed by a word that is no option read back as the
      options before it together with an error naming the word. */
  lemma OptionsSpacedThenUnknown(words: seq<string>, w: string)
    requires forall v :: v in words ==> !Classify(v).Unknown?
    requires ' ' !in w && TrimSpace(w) == w && Classify(w).Unknown?
    ensures OptionLine(Join(words + [w], " ")) == (Selected(words), Fail(UnknownOptionError(w)))
  {
    assert Split(Join(words + [w], " "), " ") == words + [w] by {
      SpacelessWords(words);
      SpacedThenWordSplit(words, w);
    }
    CollectSelected(words);
    CollectUnknown(words, w, Selected(words));
  }

  /** Splitting spaceless words followed by one more spaceless word at single
      spaces gives those words back. */
  lemma SpacedThenWordSplit(words: seq<string>, w: string)
    requires forall k :: 0 <= k < |words| ==> ' ' !in words[k]
    requires ' ' !in w
    ensures Split(Join(words + [w], " "), " ") == words + [w]
  {
    var all := words + [w];
    forall k | 0 <= k < |all| ensures ' ' !in all[k] {
      if k < |words| {
        assert all[k] == words[k];
      }
    }
    JoinSplit(all, ' ');
  }

  /** Empty words and catalogue keywords hold no space. */
  lemma SpacelessWords(words: seq<string>)
    requires forall w :: w in words ==> !Classify(w).Unknown?
    ensures forall k :: 0 <= k < |words| ==> ' ' !in words[k]
  {
    forall k | 0 <= k < |words| ensures ' ' !in words[k] {
      assert words[k] in words;
      KnownWord(words[k]);
    }
  }


  // ----- number lists -----

  /** An item that is exactly empty, or that reads as a number once trimmed. */
  predicate Numeral(item: string) {
    item != "" ==> Atoi(TrimSpace(item)).Ok?
  }

  /** The numbers of the comma-separated items read so far, and whether
      reading stopped at an item that is not a number. Exactly empty items
      are skipped; the others are trimmed before conversion. */
  function CollectNumbers(items: seq<string>): (r: (seq<int>, Outcome))
    ensures r.1.Fail? ==> r.1.error.ValueError? && r.1.error.text in items && r.1.error.text != ""
    ensures |r.0| <= |items|
  {
    if items == [] then ([], Pass)
    else
      var prefix := items[..|items| - 1];
      var (numbers, err) := CollectNumbers(prefix);
      var item := items[|items| - 1];
      if err.Fail? then (numbers, err)
      else if item == "" then (numbers, Pass)
      else match Atoi(TrimSpace(item))
        case Err(_) => (numbers, Fail(ValueError(item)))
        case Ok(n) => (numbers + [n], Pass)
  }

  /** Every non-empty item of a sequence reads as a number exactly when
      this holds for every item but the last, and for the last. */
  /** The items read without error exactly when each is empty or a number. */
  lemma {:induction false} NumbersPass(items: seq<string>)
    ensures CollectNumbers(items).1.Pass? <==> forall w :: w in items ==> Numeral(w)
  {
    if items != [] {
      var prefix := items[..|items| - 1];
      NumbersPass(prefix);
      NumeralsSnoc(prefix, items);
    }
  }

  lemma NumeralsSnoc(prefix: seq<string>, items: seq<string>)
    requires items != [] && prefix == items[..|items| - 1]
    ensures (forall w :: w in items ==> Numeral(w)) <==>
      (forall w :: w in prefix ==> Numeral(w)) && Numeral(items[|items| - 1])
  {
    assert items == prefix + [items[|items| - 1]];
  }

  /** The numbers of a comma-separated list. */
  function NumberList(line: string): (r: (seq<int>, Outcome))
    ensures r.1.Fail? ==> r.1.error.ValueError? && r.1.error.text != "" && ',' !in r.1.error.text
    ensures |r.0| <= |Split(line, ",")|
  {
    SplitPartsExclude(line, ',');
    CollectNumbers(Split(line, ","))
  }

  /** Once an item is not a number, later items change nothing: the
      numbers read before it are returned with the error. */
  lemma {:induction false} NumbersStopAtError(items: seq<string>, i: int)
    requires 0 <= i <= |items| && CollectNumbers(items[..i]).1.Fail?
    ensures CollectNumbers(items) == CollectNumbers(items[..i])
    decreases |items|
  {
    if i < |items| {
      var init := items[..|items| - 1];
      assert init[..i] == items[..i];
      NumbersStopAtError(init, i);
      NumbersStayFailed(items);
    } else {
      assert items[..i] == items;
    }
  }

  /** Once the items but the last have failed, the last changes nothing. */
  lemma NumbersStayFailed(items: seq<string>)
    requires items != [] && CollectNumbers(items[..|items| - 1]).1.Fail?
    ensures CollectNumbers(items) == CollectNumbers(items[..|items| - 1])
  {
  }

  /** The decimal spellings of the given numbers. */
  function Spellings(ns: seq<int>): (r: seq<string>)
    ensures |r| == |ns| && forall i :: 0 <= i < |ns| ==> r[i] == IntToString(ns[i])
  {
    seq(|ns|, i requires 0 <= i < |ns| => IntToString(ns[i]))
  }

  lemma {:induction false} CollectSpellings(ns: seq<int>)
    ensures CollectNumbers(Spellings(ns)) == (ns, Pass)
  {
    if ns != [] {
      var init := ns[..|ns| - 1];
      var last := ns[|ns| - 1];
      SpellingsSnoc(ns);
      CollectSpellings(init);
      AtoiIntToString(last);
      CollectNumber(Spellings(init), IntToString(last), init, last);
      assert init + [last] == ns;
    }
  }

  /** The spellings of a sequence are those of all but its last number,
      then the last number's. */
  lemma SpellingsSnoc(ns: seq<int>)
    requires ns != []
    ensures Spellings(ns) == Spellings(ns[..|ns| - 1]) + [IntToString(ns[|ns| - 1])]
  {
    var last := |ns| - 1;
    var whole, init := Spellings(ns), Spellings(ns[..last]);
    forall i | 0 <= i < |whole| ensures whole[i] == (init + [IntToString(ns[last])])[i] {
      if i < last {
        assert init[i] == IntToString(ns[..last][i]);
      }
    }
  }

  /** An item that reads as a number, after items read without error,
      adds that number. */
  lemma CollectNumber(init: seq<string>, last: string, numbers: seq<int>, n: int)
    requires Atoi(TrimSpace(last)) == Ok(n) && CollectNumbers(init) == (numbers, Pass)
    ensures CollectNumbers(init + [last]) == (numbers + [n], Pass)
  {
    assert (init + [last])[..|init|] == init;
  }

  /** Writing numbers out in decimal separated by commas and reading the
      list back gives the same numbers, in order. */
  lemma NumberListRoundTrip(ns: seq<int>)
    ensures NumberList(Join(Spellings(ns), ",")) == (ns, Pass)
  {
    if ns == [] {
      assert Split("", ",") == [""];
    } else {
      forall k | 0 <= k < |ns| ensures ',' !in Spellings(ns)[k] {
        IntToStringPlain(ns[k]);
      }
      JoinSplit(Spellings(ns), ',');
      CollectSpellings(ns);
    }
  }

  /** One more item: `CollectNumbers` over the first i + 1 items unfolded. */
  lemma NumbersExtend(items: seq<string>, i: int)
    requires 0 <= i < |items|
    ensures var (numbers, err) := CollectNumbers(items[..i]);
      var item := items[i];
      CollectNumbers(items[..i + 1]) ==
        if err.Fail? then (numbers, err)
        else if item == "" then (numbers, Pass)
        else match Atoi(TrimSpace(item))
          case Err(_) => (numbers, Fail(ValueError(item)))
          case Ok(n) => (numbers + [n], Pass)
  {
    assert items[..i + 1][..i] == items[..i];
  }

  /** Reads a comma-separated list of numbers, stopping at the first item
      that is not a number with the numbers read before it. */
  method ParseNumberList(line: string) returns (numbers: seq<int>, err: Outcome)
    ensures (numbers, err) == NumberList(line)
  {
    var items := Split(line, ",");
    numbers := [];
    var i := 0;
    while i < |items|
      invariant 0 <= i <= |items|
      invariant CollectNumbers(items[..i]) == (numbers, Pass)
    {
      NumbersExtend(items, i);
      var item := items[i];
      if item != "" {
        var number := Atoi(TrimSpace(item));
        if number.Err? {
          NumbersStopAtError(items, i + 1);
          return numbers, Fail(ValueError(item));
        }
        numbers := numbers + [number.value];
      }
      i := i + 1;
    }
    assert items[..i] == items;
    err := Pass;
  }

  // ----- dependencies -----

  /** Which way a dependency line points: `->` (provide) or `<-` (require). */
  datatype Direction = Provide | Require

  /** `left` has an edge to `v` in the given direction. */
  predicate Recorded(t: Nodes.Table, dir: Direction, left: int, v: int)
    requires left in t
  {
    if dir == Provide then v in t[left].provisions else v in t[left].requirements
  }

  /** Adds the edge from `left` to `right` in the given direction. */
  function AddEdge(t: Nodes.Table, dir: Direction, left: int, right: int): (t': Nodes.Table)
    requires left in t && right in t && left != right
    ensures t'.Keys == t.Keys && Recorded(t', dir, left, right)
    ensures forall k :: k in t ==> Nodes.Unlinked(t'[k]) == Nodes.Unlinked(t[k])
    ensures t[left].provisions <= t'[left].provisions && t[left].requirements <= t'[left].requirements
  {
    if dir == Provide then Nodes.WithProvide(t, left, right) else Nodes.WithRequire(t, left, right)
  }

  /** Links `left` to each of `vs` in turn. Every target must be in the table
      and must not have `left`'s number; at the first that fails, the edges
      added so far stay and the error is returned. Nodes are never added or
      removed, names and numbers never change, and edge lists only grow. */
  function Link(t: Nodes.Table, dir: Direction, left: int, vs: seq<int>): (r: (Nodes.Table, Outcome))
    requires left in t
    ensures r.0.Keys == t.Keys
    ensures forall k :: k in t ==> Nodes.Unlinked(r.0[k]) == Nodes.Unlinked(t[k])
    ensures t[left].provisions <= r.0[left].provisions && t[left].requirements <= r.0[left].requirements
  {
    if vs == [] then (t, Pass)
    else
      var (t1, err) := Link(t, dir, left, vs[..|vs| - 1]);
      var v := vs[|vs| - 1];
      if err.Fail? then (t1, err)
      else if v !in t1 then (t1, Fail(ReferenceError(v)))
      else if t1[left].number == t1[v].number then (t1, Fail(SelfReferenceError(t1[left].number)))
      else (AddEdge(t1, dir, left, v), Pass)
  }

  /** Every target is a node of the table with a number other than `left`'s. */
  predicate ValidTargets(t: Nodes.Table, left: int, vs: seq<int>)
    requires left in t
  {
    forall i :: 0 <= i < |vs| ==> vs[i] in t && t[vs[i]].number != t[left].number
  }

  lemma ValidTargetsSnoc(t: Nodes.Table, left: int, vs: seq<int>, v: int)
    requires left in t
    ensures ValidTargets(t, left, vs + [v]) <==> ValidTargets(t, left, vs) && v in t && t[v].number != t[left].number
  {
    var ws := vs + [v];
    assert forall i :: 0 <= i < |vs| ==> ws[i] == vs[i];
    assert ws[|vs|] == v;
  }

  /** Linking succeeds exactly when every target is a node of the table
      with a number other than `left`'s; otherwise the error names a missing
      target or `left`'s number. */
  lemma {:induction false} LinkOutcome(t: Nodes.Table, dir: Direction, left: int, vs: seq<int>)
    requires left in t
    ensures var r := Link(t, dir, left, vs);
      && (r.1.Pass? <==> ValidTargets(t, left, vs))
      && (r.1.Fail? ==> r.1.error == SelfReferenceError(t[left].number) ||
                        (r.1.error.ReferenceError? && r.1.error.number in vs && r.1.error.number !in t))
  {
    if vs != [] {
      var prefix := vs[..|vs| - 1];
      var v := vs[|vs| - 1];
      assert vs == prefix + [v];
      LinkOutcome(t, dir, left, prefix);
      LinkLastOutcome(t, dir, left, vs);
      var err := Link(t, dir, left, prefix).1;
      ValidTargetsSnoc(t, left, prefix, v);
      assert err.Fail? && err.error.ReferenceError? ==> err.error.number in vs by {
        if err.Fail? && err.error.ReferenceError? {
          var i :| 0 <= i < |prefix| && prefix[i] == err.error.number;
          assert vs[i] == prefix[i];
        }
      }
    }
  }

  /** After a successful link, `left` has an edge to every target. */
  lemma {:induction false} LinkRecords(t: Nodes.Table, dir: Direction, left: int, vs: seq<int>)
    requires left in t && Link(t, dir, left, vs).1.Pass?
    ensures forall i :: 0 <= i < |vs| ==> Recorded(Link(t, dir, left, vs).0, dir, left, vs[i])
  {
    if vs != [] {
      var prefix := vs[..|vs| - 1];
      LinkRecords(t, dir, left, prefix);
      RecordedSnoc(Link(t, dir, left, prefix).0, Link(t, dir, left, vs).0, dir, left, prefix, vs);
    }
  }

  lemma RecordedSnoc(t1: Nodes.Table, t2: Nodes.Table, dir: Direction, left: int, prefix: seq<int>, vs: seq<int>)
    requires left in t1 && left in t2 && vs != [] && prefix == vs[..|vs| - 1]
    requires forall i :: 0 <= i < |prefix| ==> Recorded(t1, dir, left, prefix[i])
    requires Recorded(t2, dir, left, vs[|vs| - 1])
    requires t1[left].provisions <= t2[left].provisions && t1[left].requirements <= t2[left].requirements
    ensures forall i :: 0 <= i < |vs| ==> Recorded(t2, dir, left, vs[i])
  {
    forall i | 0 <= i < |vs| - 1 ensures Recorded(t2, dir, left, vs[i]) {
      assert prefix[i] == vs[i];
      RecordedPersists(t1, t2, dir, left, vs[i]);
    }
  }

  /** Edges only grow, so an edge once recorded stays recorded. */
  lemma RecordedPersists(t1: Nodes.Table, t2: Nodes.Table, dir: Direction, left: int, v: int)
    requires left in t1 && left in t2 && Recorded(t1, dir, left, v)
    requires t1[left].provisions <= t2[left].provisions && t1[left].requirements <= t2[left].requirements
    ensures Recorded(t2, dir, left, v)
  {
    var edges1 := if dir == Provide then t1[left].provisions else t1[left].requirements;
    var edges2 := if dir == Provide then t2[left].provisions else t2[left].requirements;
    var j :| 0 <= j < |edges1| && edges1[j] == v;
    assert edges2[j] == v;
  }

  /** The text of a direction's arrow. */
  function ArrowText(dir: Direction): string {
    if dir == Provide then "->" else "<-"
  }

  /** Splits a dependency line at its arrow; `->` is looked for first. A
      line with neither arrow gives no parts; otherwise the parts joined
      with the arrow found give the line back. */
  function SplitArrow(line: string): (r: (Direction, seq<string>))
    ensures r.1 == [] <==> !Contains(line, "->") && !Contains(line, "<-")
    ensures r.0 == Require ==> !Contains(line, "->") && Contains(line, "<-")
    ensures r.1 != [] ==> Join(r.1, ArrowText(r.0)) == line
  {
    if Contains(line, "->") then
      SplitJoin(line, "->");
      (Provide, Split(line, "->"))
    else if Contains(line, "<-") then
      SplitJoin(line, "<-");
      (Require, Split(line, "<-"))
    else (Provide, [])
  }

  /** Reads `n -> m, ...` or `n <- m, ...` and links node n to each m.
      Checks run in order: two parts around the arrow, a number on the
      left, a node with that number, a list of numbers on the right, then
      each target as `Link` does. Every check before the targets leaves the
      table as it was. */
  function DependencyLine(line: string, t: Nodes.Table): (r: (Nodes.Table, Outcome))
    ensures r.0.Keys == t.Keys
    ensures forall k :: k in t ==> Nodes.Unlinked(r.0[k]) == Nodes.Unlinked(t[k])
    ensures !Contains(line, "->") && !Contains(line, "<-") ==> r == (t, Fail(FormatError(line)))
    ensures r.1.Fail? && r.1.error.FormatError? ==> r.0 == t
    ensures var (dir, items) := SplitArrow(line);
      && (|items| != 2 ==> r == (t, Fail(FormatError(line))))
      && (|items| == 2 && Atoi(TrimSpace(items[0])).Err? ==> r == (t, Fail(ValueError(TrimSpace(items[0])))))
      && (|items| == 2 && Atoi(TrimSpace(items[0])).Ok? && Atoi(TrimSpace(items[0])).value !in t ==>
            r == (t, Fail(ReferenceError(Atoi(TrimSpace(items[0])).value))))
      && ((|items| == 2 && Atoi(TrimSpace(items[0])).Ok? && Atoi(TrimSpace(items[0])).value in t &&
           NumberList(items[1]).1.Fail?) ==> r == (t, NumberList(items[1]).1))
      && ((|items| == 2 && Atoi(TrimSpace(items[0])).Ok? && Atoi(TrimSpace(items[0])).value in t &&
           NumberList(items[1]).1.Pass?) ==> r == Link(t, dir, Atoi(TrimSpace(items[0])).value, NumberList(items[1]).0))
  {
    var (dir, items) := SplitArrow(line);
    if |items| != 2 then (t, Fail(FormatError(line)))
    else
      var item := TrimSpace(items[0]);
      match Atoi(item)
      case Err(_) => (t, Fail(ValueError(item)))
      case Ok(left) =>
        if left !in t then (t, Fail(ReferenceError(left)))
        else
          var (right, err) := NumberList(items[1]);
          if err.Fail? then (t, err)
          else
            LinkOutcome(t, dir, left, right);
            Link(t, dir, left, right)
  }

  /** Once a target fails, later targets change nothing: the edges added
      before it stay and the error is returned. */
  lemma {:induction false} LinkStopsAtError(t: Nodes.Table, dir: Direction, left: int, vs: seq<int>, i: int)
    requires left in t && 0 <= i <= |vs| && Link(t, dir, left, vs[..i]).1.Fail?
    ensures Link(t, dir, left, vs) == Link(t, dir, left, vs[..i])
    decreases |vs|
  {
    if i == |vs| {
      assert vs[..i] == vs;
    } else {
      var init := vs[..|vs| - 1];
      assert init[..i] == vs[..i];
      LinkStopsAtError(t, dir, left, init, i);
    }
  }

  /** The outcome after one more target, in terms of the table before any
      edge was added: a link never changes a node's number. */
  lemma LinkLastOutcome(t: Nodes.Table, dir: Direction, left: int, vs: seq<int>)
    requires left in t && vs != []
    ensures var err := Link(t, dir, left, vs[..|vs| - 1]).1;
      var v := vs[|vs| - 1];
      Link(t, dir, left, vs).1 ==
        if err.Fail? then err
        else if v !in t then Fail(ReferenceError(v))
        else if t[left].number == t[v].number then Fail(SelfReferenceError(t[left].number))
        else Pass
  {
    var t1 := Link(t, dir, left, vs[..|vs| - 1]).0;
    var v := vs[|vs| - 1];
    assert Nodes.Unlinked(t1[left]) == Nodes.Unlinked(t[left]);
    if v in t1 {
      assert Nodes.Unlinked(t1[v]) == Nodes.Unlinked(t[v]);
    }
  }

  /** One more target: `Link` over the first i + 1 targets unfolded. */
  lemma LinkExtend(t: Nodes.Table, dir: Direction, left: int, vs: seq<int>, i: int)
    requires left in t && 0 <= i < |vs|
    ensures var (t1, err) := Link(t, dir, left, vs[..i]);
      var v := vs[i];
      Link(t, dir, left, vs[..i + 1]) ==
        if err.Fail? then (t1, err)
        else if v !in t1 then (t1, Fail(ReferenceError(v)))
        else if t1[left].number == t1[v].number then (t1, Fail(SelfReferenceError(t1[left].number)))
        else (AddEdge(t1, dir, left, v), Pass)
  {
    assert vs[..i + 1][..i] == vs[..i];
  }

  /** A target that is missing, or is the left node itself, ends the
      linking with the table as it was before that target. */
  lemma LinkFailsAt(t: Nodes.Table, dir: Direction, left: int, vs: seq<int>, i: int, before: Nodes.Table)
    requires left in t && 0 <= i < |vs| && (before, Pass) == Link(t, dir, left, vs[..i])
    requires vs[i] !in before || before[left].number == before[vs[i]].number
    ensures vs[i] !in before ==> Link(t, dir, left, vs) == (before, Fail(ReferenceError(vs[i])))
    ensures vs[i] in before ==> Link(t, dir, left, vs) == (before, Fail(SelfReferenceError(before[left].number)))
  {
    LinkExtend(t, dir, left, vs, i);
    LinkStopsAtError(t, dir, left, vs, i + 1);
  }

  /** A target that exists and is a different node adds its edge. */
  lemma LinkAdvance(t: Nodes.Table, dir: Direction, left: int, vs: seq<int>, i: int, before: Nodes.Table)
    requires left in t && 0 <= i < |vs| && (before, Pass) == Link(t, dir, left, vs[..i])
    requires vs[i] in before && before[left].number != before[vs[i]].number
    ensures Link(t, dir, left, vs[..i + 1]) == (AddEdge(before, dir, left, vs[i]), Pass)
  {
    LinkExtend(t, dir, left, vs, i);
  }

  /** Reads one dependency line and links the nodes of `table` as it says,
      one target at a time; at the first target that fails, the edges added
      before it stay. */
  method ParseDependency(line: string, table: Nodes.NodeTable) returns (err: Outcome)
    modifies table
    ensures (table.nodes, err) == DependencyLine(line, old(table.nodes))
  {
    var dir := Provide;
    var items: seq<string> := [];
    if Contains(line, "->") {
      items := Split(line, "->");
    } else if Contains(line, "<-") {
      dir := Require;
      items := Split(line, "<-");
    }
    if |items| != 2 {
      return Fail(FormatError(line));
    }
    var item := TrimSpace(items[0]);
    var parsed := Atoi(item);
    if parsed.Err? {
      return Fail(ValueError(item));
    }
    var left := parsed.value;
    if left !in table.nodes {
      return Fail(ReferenceError(left));
    }
    var right, listErr := ParseNumberList(items[1]);
    if listErr.Fail? {
      return listErr;
    }
    err := LinkTargets(table, dir, left, right);
  }

  /** Links node `left` of `table` to each of `vs` in turn, stopping at the
      first target that is missing or has `left`'s number. */
  method LinkTargets(table: Nodes.NodeTable, dir: Direction, left: int, vs: seq<int>) returns (err: Outcome)
    requires left in table.nodes
    modifies table
    ensures (table.nodes, err) == Link(old(table.nodes), dir, left, vs)
  {
    ghost var t := table.nodes;
    var i := 0;
    while i < |vs|
      invariant 0 <= i <= |vs|
      invariant left in table.nodes
      invariant (table.nodes, Pass) == Link(t, dir, left, vs[..i])
    {
      var v := vs[i];
      if v !in table.nodes {
        err := Fail(ReferenceError(v));
        LinkFailsAt(t, dir, left, vs, i, table.nodes);
        return;
      }
      if table.nodes[left].number == table.nodes[v].number {
        err := Fail(SelfReferenceError(table.nodes[left].number));
        LinkFailsAt(t, dir, left, vs, i, table.nodes);
        return;
      }
      ghost var before := table.nodes;
      LinkAdvance(t, dir, left, vs, i, before);
      if dir == Provide {
        table.AddProvide(left, v);
      } else {
        table.AddRequire(left, v);
      }
      assert table.nodes == AddEdge(before, dir, left, v);
      i := i + 1;
    }
    assert vs[..i] == vs;
    err := Pass;
  }

  /** Linking keeps the edge invariant of the table. */
  lemma {:induction false} LinkKeepsLinked(t: Nodes.Table, dir: Direction, left: int, vs: seq<int>)
    requires left in t && Nodes.Linked(t)
    ensures Nodes.Linked(Link(t, dir, left, vs).0)
  {
    if vs != [] {
      var prefix := vs[..|vs| - 1];
      var v := vs[|vs| - 1];
      LinkKeepsLinked(t, dir, left, prefix);
      var (t1, err) := Link(t, dir, left, prefix);
      if err.Pass? && v in t1 && t1[left].number != t1[v].number {
        if dir == Provide {
          Nodes.ProvideKeepsLinked(t1, left, v);
        } else {
          Nodes.RequireKeepsLinked(t1, left, v);
        }
      }
    }
  }

  /** A dependency line keeps the edge invariant of the table. */
  lemma DependencyKeepsLinked(line: string, t: Nodes.Table)
    requires Nodes.Linked(t)
    ensures Nodes.Linked(DependencyLine(line, t).0)
  {
    var (dir, items) := SplitArrow(line);
    if |items| == 2 && Atoi(TrimSpace(items[0])).Ok? && Atoi(TrimSpace(items[0])).value in t && NumberList(items[1]).1.Pass? {
      LinkKeepsLinked(t, dir, Atoi(TrimSpace(items[0])).value, NumberList(items[1]).0);
    } else {
      assert DependencyLine(line, t).0 == t;
    }
  }

  /** The decimal spellings of `ns`, each with the white space `pads`
      gives before and after it. */
  function PaddedSpellings(ns: seq<int>, pads: seq<(string, string)>): (r: seq<string>)
    requires |pads| == |ns|
    ensures |r| == |ns| && forall i :: 0 <= i < |ns| ==> r[i] == pads[i].0 + IntToString(ns[i]) + pads[i].1
  {
    seq(|ns|, i requires 0 <= i < |ns| => pads[i].0 + IntToString(ns[i]) + pads[i].1)
  }

  /** Every pad is a run of white space. */
  predicate BlankPads(pads: seq<(string, string)>) {
    forall i :: 0 <= i < |pads| ==> Blanks(pads[i].0) && Blanks(pads[i].1)
  }

  /** White space holds none of the separators. */
  lemma BlanksExclude(b: string)
    requires Blanks(b)
    ensures ',' !in b && '<' !in b && '>' !in b && ':' !in b
  {
    forall k | 0 <= k < |b| ensures b[k] != ',' && b[k] != '<' && b[k] != '>' && b[k] != ':' {
      assert IsSpace(b[k]);
    }
  }

  /** A number's spelling with white space around it holds no separator
      and trims to the spelling. */
  lemma PaddedNumber(b1: string, n: int, b2: string)
    requires Blanks(b1) && Blanks(b2)
    ensures var p := b1 + IntToString(n) + b2;
      && p != "" && ',' !in p && '<' !in p && '>' !in p
      && TrimSpace(p) == IntToString(n)
  {
    IntToStringPlain(n);
    BlanksExclude(b1);
    BlanksExclude(b2);
    TrimPadded(b1, IntToString(n), b2);
  }

  /** A comma-separated list of numbers, each with any white space around
      it, reads back as those numbers, in order. */
  lemma NumberListSpaced(ns: seq<int>, pads: seq<(string, string)>)
    requires |pads| == |ns| && BlankPads(pads)
    ensures NumberList(Join(PaddedSpellings(ns, pads), ",")) == (ns, Pass)
  {
    var padded := PaddedSpellings(ns, pads);
    if ns == [] {
      assert Split("", ",") == [""];
    } else {
      PaddedSpellingsExclude(ns, pads);
      JoinSplit(padded, ',');
      CollectPadded(ns, pads);
    }
  }

  /** Padded spellings hold no comma. */
  lemma PaddedSpellingsExclude(ns: seq<int>, pads: seq<(string, string)>)
    requires |pads| == |ns| && BlankPads(pads)
    ensures forall k :: 0 <= k < |ns| ==> ',' !in PaddedSpellings(ns, pads)[k]
  {
    forall k | 0 <= k < |ns| ensures ',' !in PaddedSpellings(ns, pads)[k] {
      PaddedNumber(pads[k].0, ns[k], pads[k].1);
    }
  }

  /** Numbers spelled with white space around each read back as those
      numbers, in order. */
  lemma CollectPadded(ns: seq<int>, pads: seq<(string, string)>)
    requires |pads| == |ns| && BlankPads(pads)
    ensures CollectNumbers(PaddedSpellings(ns, pads)) == (ns, Pass)
  {
    var padded := PaddedSpellings(ns, pads);
    var items := Spellings(ns);
    forall k | 0 <= k < |ns|
      ensures items[k] != "" && padded[k] != "" && TrimSpace(padded[k]) == TrimSpace(items[k])
      ensures Atoi(TrimSpace(items[k])).Ok?
    {
      PaddedNumber(pads[k].0, ns[k], pads[k].1);
      AtoiIntToString(ns[k]);
    }
    CollectSpellings(ns);
    CollectFirstTrimmed(items, padded);
  }

  /** An item that is no number, after items read without error, stops the
      reading with a value error naming the item as written. */
  lemma CollectJunk(init: seq<string>, last: string, numbers: seq<int>)
    requires last != "" && Atoi(TrimSpace(last)).Err?
    requires CollectNumbers(init) == (numbers, Pass)
    ensures CollectNumbers(init + [last]) == (numbers, Fail(ValueError(last)))
  {
    assert (init + [last])[..|init|] == init;
  }

  /** Numbers, each with any white space around it, followed by an item
      that is not a number read back as those numbers together with an
      error naming the item. */
  lemma NumbersThenJunk(ns: seq<int>, pads: seq<(string, string)>, w: string)
    requires |pads| == |ns| && BlankPads(pads)
    requires w != "" && ',' !in w && Atoi(TrimSpace(w)).Err?
    ensures NumberList(Join(PaddedSpellings(ns, pads) + [w], ",")) == (ns, Fail(ValueError(w)))
  {
    var padded := PaddedSpellings(ns, pads);
    var items := padded + [w];
    PaddedSpellingsExclude(ns, pads);
    forall k | 0 <= k < |items| ensures ',' !in items[k] {
      if k < |ns| {
        assert items[k] == padded[k];
      }
    }
    JoinSplit(items, ',');
    CollectPadded(ns, pads);
    CollectJunk(padded, w, ns);
  }

  /** A dependency line, `n -> list` or `n <- list`, with any white space
      around the node number and around each listed number, links node n
      to the listed numbers in order exactly as `Link` does. */
  lemma DependencyPadded(t: Nodes.Table, dir: Direction, b1: string, n: int, b2: string, ns: seq<int>, pads: seq<(string, string)>)
    requires n in t && Blanks(b1) && Blanks(b2) && |pads| == |ns| && BlankPads(pads)
    ensures DependencyLine(b1 + IntToString(n) + b2 + ArrowText(dir) + Join(PaddedSpellings(ns, pads), ","), t) == Link(t, dir, n, ns)
  {
    var left := b1 + IntToString(n) + b2;
    var list := Join(PaddedSpellings(ns, pads), ",");
    var line := left + ArrowText(dir) + list;
    assert b1 + IntToString(n) + b2 + ArrowText(dir) + list == line;
    PaddedNumber(b1, n, b2);
    PaddedListArrowless(ns, pads);
    ArrowSplit(left, dir, list);
    AtoiIntToString(n);
    NumberListSpaced(ns, pads);
    DependencyParts(line, t, dir, left, list, n, ns);
  }

  /** A list of padded numbers holds neither arrow character. */
  lemma PaddedListArrowless(ns: seq<int>, pads: seq<(string, string)>)
    requires |pads| == |ns| && BlankPads(pads)
    ensures var list := Join(PaddedSpellings(ns, pads), ",");
      '<' !in list && '>' !in list
  {
    var padded := PaddedSpellings(ns, pads);
    forall k | 0 <= k < |ns| ensures '<' !in padded[k] && '>' !in padded[k] {
      PaddedNumber(pads[k].0, ns[k], pads[k].1);
    }
    JoinExcludes(padded, ",", '<');
    JoinExcludes(padded, ",", '>');
  }

  /** Two sides without arrow characters around one arrow split at it. */
  lemma ArrowSplit(left: string, dir: Direction, right: string)
    requires '<' !in left && '>' !in left && '<' !in right && '>' !in right
    ensures SplitArrow(left + ArrowText(dir) + right) == (dir, [left, right])
  {
    var line := left + ArrowText(dir) + right;
    if dir == Provide {
      assert '>' !in left + "-";
      SplitTwo(left, "->", right);
    } else {
      assert !Contains(line, "->") by {
        assert '>' !in line;
        NoOccurrence(line, "->");
      }
      SplitTwoHead(left, "<-", right);
    }
  }

  /** A line that splits at its arrow into a readable node number and a
      readable list links that node to the list in that direction. */
  lemma DependencyParts(line: string, t: Nodes.Table, dir: Direction, left: string, right: string, n: int, ns: seq<int>)
    requires SplitArrow(line) == (dir, [left, right])
    requires Atoi(TrimSpace(left)) == Ok(n) && n in t && NumberList(right) == (ns, Pass)
    ensures DependencyLine(line, t) == Link(t, dir, n, ns)
  {
  }

  /** Replacing an item by one that trims to the same non-empty text
      changes nothing in the numbers read. */
  lemma {:induction false} CollectFirstTrimmed(items: seq<string>, padded: seq<string>)
    requires |items| == |padded|
    requires forall k :: 0 <= k < |items| ==> items[k] != "" && padded[k] != "" && TrimSpace(padded[k]) == TrimSpace(items[k])
    requires forall k :: 0 <= k < |items| ==> Atoi(TrimSpace(items[k])).Ok?
    ensures CollectNumbers(padded) == CollectNumbers(items)
  {
    if items != [] {
      var n := |items| - 1;
      CollectFirstTrimmed(items[..n], padded[..n]);
    }
  }

  // ----- whole files -----

  /** What has been read so far: the current section, the node table and
      the options in the order they were read. */
  datatype State = State(position: Position, nodes: Nodes.Table, options: seq<Option>)

  const Start: State := State(Declaration, map[], [])

  /** Lines that carry nothing: empty once trimmed, or a `#` comment. */
  predicate Skipped(line: string) {
    line == "" || line[0] == '#'
  }

  /** Reads one raw line. The trimmed line is skipped if empty or a comment,
      switches the section if it is `options` or `dependencies`, and is
      otherwise read as the current section says. Declaring a number again
      replaces the node. */
  function Step(st: State, raw: string): (r: Result<State>)
    ensures Skipped(TrimSpace(raw)) ==> r == Ok(st)
    ensures TrimSpace(raw) == "options" ==> r == Ok(st.(position := OptionSection))
    ensures TrimSpace(raw) == "dependencies" ==> r == Ok(st.(position := Dependency))
  {
    var line := TrimSpace(raw);
    if Skipped(line) then Ok(st)
    else if line == "options" then Ok(st.(position := OptionSection))
    else if line == "dependencies" then Ok(st.(position := Dependency))
    else match st.position
      case Declaration =>
        (match ParseDeclaration(line)
         case Err(e) => Err(e)
         case Ok(node) => Ok(st.(nodes := st.nodes[node.number := node])))
      case OptionSection =>
        var (os, err) := OptionLine(line);
        if err.Fail? then Err(err.error) else Ok(st.(options := st.options + os))
      case Dependency =>
        var (t, err) := DependencyLine(line, st.nodes);
        if err.Fail? then Err(err.error) else Ok(st.(nodes := t))
  }

  /** Reads the lines in order from `Start`; the first error ends the read. */
  function Run(lines: seq<string>): Result<State> {
    if lines == [] then Ok(Start)
    else match Run(lines[..|lines| - 1])
      case Err(e) => Err(e)
      case Ok(st) => Step(st, lines[|lines| - 1])
  }

  /** A file of blank and comment lines reads as the empty graph, so a read
      fails only at a line that has content. */
  lemma {:induction false} RunOfSkipped(lines: seq<string>)
    requires forall i :: 0 <= i < |lines| ==> Skipped(TrimSpace(lines[i]))
    ensures Run(lines) == Ok(Start)
  {
    if lines != [] {
      var init := lines[..|lines| - 1];
      assert forall i :: 0 <= i < |init| ==> init[i] == lines[i];
      RunOfSkipped(init);
    }
  }

  /** Blank and comment lines ahead of a file change nothing that is read
      after them. */
  lemma {:induction false} RunAfterSkipped(skipped: seq<string>, lines: seq<string>)
    requires forall i :: 0 <= i < |skipped| ==> Skipped(TrimSpace(skipped[i]))
    ensures Run(skipped + lines) == Run(lines)
    decreases |lines|
  {
    if lines == [] {
      assert skipped + lines == skipped;
      RunOfSkipped(skipped);
    } else {
      var init, last := lines[..|lines| - 1], lines[|lines| - 1];
      var all := skipped + lines;
      assert all[..|all| - 1] == skipped + init && all[|all| - 1] == last;
      RunAfterSkipped(skipped, init);
      RunLast(all);
      RunLast(lines);
    }
  }

  /** `Run` unfolded once: the last line is read after the others. */
  lemma RunLast(lines: seq<string>)
    requires lines != []
    ensures Run(lines) == match Run(lines[..|lines| - 1])
      case Err(e) => Err(e)
      case Ok(st) => Step(st, lines[|lines| - 1])
  {
  }

  /** In the option section a line with content appends the options it
      names, in the order of its words, after the options of earlier lines;
      a line holding an unknown word ends the read with an error naming it. */
  lemma StepOptionLine(st: State, raw: string)
    requires st.position == OptionSection
    requires !Skipped(TrimSpace(raw)) && TrimSpace(raw) != "options" && TrimSpace(raw) != "dependencies"
    ensures var (os, err) := OptionLine(TrimSpace(raw));
      && (err.Pass? ==> Step(st, raw) == Ok(st.(options := st.options + os)))
      && (err.Fail? ==> Step(st, raw) == Err(UnknownOptionError(err.error.token)) && Classify(err.error.token).Unknown?)
  {
  }

  /** Once a line fails, the lines after it are not read. */
  lemma {:induction false} RunStopsAtError(lines: seq<string>, i: int)
    requires 0 <= i <= |lines| && Run(lines[..i]).Err?
    ensures Run(lines) == Run(lines[..i])
    decreases |lines|
  {
    if i == |lines| {
      assert lines[..i] == lines;
    } else {
      var init := lines[..|lines| - 1];
      assert init[..i] == lines[..i];
      RunStopsAtError(init, i);
    }
  }

  /** Blank lines and comments may be added anywhere without effect. */
  lemma RunSkips(lines: seq<string>, raw: string)
    requires Skipped(TrimSpace(raw))
    ensures Run(lines + [raw]) == Run(lines)
  {
    assert (lines + [raw])[..|lines|] == lines;
  }

  /** The state invariant: every node is filed under its own number, which
      is at least 1; the edge invariant holds; and while declarations are
      still being read there are no edges. */
  predicate Good(st: State) {
    && (forall k :: k in st.nodes ==> st.nodes[k].number == k && k >= 1)
    && Nodes.Linked(st.nodes)
    && (st.position == Declaration ==> Nodes.Unconnected(st.nodes))
  }

  /** A line never removes a node or an option: the table's numbers and
      the options read so far are kept, and a line that is skipped never
      fails. */
  lemma StepGrows(st: State, raw: string)
    ensures Step(st, raw).Err? ==> !Skipped(TrimSpace(raw))
    ensures Step(st, raw).Ok? ==> st.options <= Step(st, raw).value.options
    ensures Step(st, raw).Ok? ==> Step(st, raw).value.nodes.Keys >= st.nodes.Keys
  {
    var line := TrimSpace(raw);
    if !Skipped(line) && line != "options" && line != "dependencies" {
      match st.position
      case Declaration =>
        if ParseDeclaration(line).Ok? {
          var node := ParseDeclaration(line).value;
          assert Step(st, raw) == Ok(st.(nodes := st.nodes[node.number := node]));
        }
      case OptionSection =>
        var (os, err) := OptionLine(line);
        if err.Pass? {
          assert Step(st, raw) == Ok(st.(options := st.options + os));
          assert st.options <= st.options + os;
        }
      case Dependency =>
        var (t, err) := DependencyLine(line, st.nodes);
        if err.Pass? {
          assert Step(st, raw) == Ok(st.(nodes := t));
        }
    }
  }

  /** Once the declarations are over the reader never returns to them. */
  lemma StepNeverReturns(st: State, raw: string)
    requires st.position != Declaration && Step(st, raw).Ok?
    ensures Step(st, raw).value.position != Declaration
  {
  }

  lemma StepKeepsGood(st: State, raw: string)
    requires Good(st) && Step(st, raw).Ok?
    ensures Good(Step(st, raw).value)
  {
    var line, r := TrimSpace(raw), Step(st, raw).value;
    if Skipped(line) || line == "options" || line == "dependencies" {
      assert r.nodes == st.nodes;
    } else if st.position == Declaration {
      var node := ParseDeclaration(line).value;
      assert r == st.(nodes := st.nodes[node.number := node]);
      DeclarationKeepsGood(st, node);
    } else if st.position == OptionSection {
      assert r.nodes == st.nodes && r.position == st.position;
    } else {
      assert r == st.(nodes := DependencyLine(line, st.nodes).0);
      DependencyKeepsGood(st, line);
    }
  }

  /** A declaration files a node without edges under its number, at least 1. */
  lemma DeclarationKeepsGood(st: State, node: Nodes.Node)
    requires Good(st) && st.position == Declaration
    requires node.number >= 1 && node.provisions == [] && node.requirements == []
    ensures Good(st.(nodes := st.nodes[node.number := node]))
  {
    var t := st.nodes[node.number := node];
    assert Nodes.Unconnected(t);
    Nodes.UnconnectedIsLinked(t);
  }

  /** A dependency line that succeeds keeps every node under its number
      and keeps the edge invariant. */
  lemma DependencyKeepsGood(st: State, line: string)
    requires Good(st) && st.position == Dependency
    ensures Good(st.(nodes := DependencyLine(line, st.nodes).0))
  {
    DependencyKeepsLinked(line, st.nodes);
    var t := DependencyLine(line, st.nodes).0;
    forall k | k in t ensures t[k].number == k && k >= 1 {
      assert Nodes.Unlinked(t[k]) == Nodes.Unlinked(st.nodes[k]);
    }
  }

  /** Every state the reader reaches satisfies the invariant. */
  lemma {:induction false} RunGood(lines: seq<string>)
    requires Run(lines).Ok?
    ensures Good(Run(lines).value)
  {
    if lines != [] {
      var init := lines[..|lines| - 1];
      RunGood(init);
      StepKeepsGood(Run(init).value, lines[|lines| - 1]);
    }
  }

  /** A graph read without error can be rendered. */
  lemma RunRenderable(lines: seq<string>)
    requires Run(lines).Ok?
    ensures Graphs.Renderable(Run(lines).value.nodes)
  {
    RunGood(lines);
    Graphs.LinkedIsRenderable(Run(lines).value.nodes);
  }

  /** Reads a whole description. On the first error the partial graph is
      dropped and an empty graph is returned with the error. */
  method ParseFile(lines: seq<string>) returns (graph: Graphs.Graph, err: Outcome)
    ensures Run(lines).Ok? ==> err == Pass && graph == Graphs.Graph(Run(lines).value.nodes, Run(lines).value.options)
    ensures Run(lines).Err? ==> err == Fail(Run(lines).error) && graph == Graphs.Graph(map[], [])
  {
    var table := new Nodes.NodeTable();
    var options: seq<Option> := [];
    var position := Declaration;
    var i := 0;
    while i < |lines|
      invariant 0 <= i <= |lines|
      invariant Run(lines[..i]) == Ok(State(position, table.nodes, options))
    {
      RunExtend(lines, i);
      var failed;
      position, options, failed := ReadLine(table, position, options, lines[i]);
      if failed.Fail? {
        RunStopsAtError(lines, i + 1);
        return Graphs.Graph(map[], []), failed;
      }
      i := i + 1;
    }
    assert lines[..i] == lines;
    graph := Graphs.Graph(table.nodes, options);
    err := Pass;
  }

  /** The body of the reading loop: one raw line read into `table`, the
      current section and the options read so far. */
  method ReadLine(table: Nodes.NodeTable, position: Position, options: seq<Option>, raw: string)
    returns (position': Position, options': seq<Option>, failed: Outcome)
    modifies table
    ensures var r := Step(State(position, old(table.nodes), options), raw);
      if failed.Fail? then r == Err(failed.error) else r == Ok(State(position', table.nodes, options'))
  {
    position', options', failed := position, options, Pass;
    var line := TrimSpace(raw);
    if Skipped(line) {
    } else if line == "options" {
      position' := OptionSection;
    } else if line == "dependencies" {
      position' := Dependency;
    } else if position == Declaration {
      var node := ParseDeclaration(line);
      if node.Err? {
        failed := Fail(node.error);
      } else {
        table.nodes := table.nodes[node.value.number := node.value];
      }
    } else if position == OptionSection {
      var more, e := ParseOption(line);
      if e.Fail? {
        failed := e;
      } else {
        options' := options + more;
      }
    } else {
      failed := ParseDependency(line, table);
    }
  }

  /** One more line: `Run` over the first i + 1 lines unfolded. */
  lemma RunExtend(lines: seq<string>, i: int)
    requires 0 <= i < |lines|
    ensures Run(lines[..i + 1]) == match Run(lines[..i])
      case Err(e) => Err(e)
      case Ok(st) => Step(st, lines[i])
  {
    assert lines[..i + 1][..i] == lines[..i];
  }
}
