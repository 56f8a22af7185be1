/** The string and integer conversions the parser relies on: whitespace
    trimming, substring search, splitting around a separator and decimal
    integer conversion, with the semantics of the host library restricted to
    ASCII and to unbounded integers. */
module Text {
  import opened Errors

  /** ASCII white space: space, tab, line feed, vertical tab, form feed, carriage return. */
  predicate IsSpace(c: char) {
    c == ' ' || '\t' <= c <= '\r'
  }

  /** Drops leading white space. */
  function TrimLeft(s: string): (r: string)
    ensures |r| <= |s| && r == s[|s| - |r|..]
    ensures forall k :: 0 <= k < |s| - |r| ==> IsSpace(s[k])
    ensures r == [] || !IsSpace(r[0])
  {
    if |s| > 0 && IsSpace(s[0]) then TrimLeft(s[1..]) else s
  }

  /** Drops trailing white space. */
  function TrimRight(s: string): (r: string)
    ensures |r| <= |s| && r == s[..|r|]
    ensures forall k :: |r| <= k < |s| ==> IsSpace(s[k])
    ensures r == [] || !IsSpace(r[|r| - 1])
  {
    if |s| > 0 && IsSpace(s[|s| - 1]) then TrimRight(s[..|s| - 1]) else s
  }

  /** Drops leading and trailing white space; a string that neither starts
      nor ends with white space is its own trimming. */
  function TrimSpace(s: string): (r: string)
    ensures r == [] || (!IsSpace(r[0]) && !IsSpace(r[|r| - 1]))
    ensures (s == [] || (!IsSpace(s[0]) && !IsSpace(s[|s| - 1]))) ==> r == s
  {
    TrimmedEnds(s);
    TrimmedClean(s);
    TrimRight(TrimLeft(s))
  }

  lemma TrimmedEnds(s: string)
    ensures var r := TrimRight(TrimLeft(s));
      r == [] || (!IsSpace(r[0]) && !IsSpace(r[|r| - 1]))
  {
    var l := TrimLeft(s);
    var r := TrimRight(l);
    if r != [] {
      assert r[0] == l[0];
    }
  }

  lemma TrimmedClean(s: string)
    ensures (s == [] || (!IsSpace(s[0]) && !IsSpace(s[|s| - 1]))) ==> TrimRight(TrimLeft(s)) == s
  {
    if s == [] || (!IsSpace(s[0]) && !IsSpace(s[|s| - 1])) {
      assert TrimLeft(s) == s;
    }
  }

  /** Trimming only removes characters: it introduces none that were absent. */
  lemma TrimSpaceKeepsOut(s: string, c: char)
    requires c !in s
    ensures c !in TrimSpace(s)
  {
    var l := TrimLeft(s);
    var r := TrimRight(l);
    forall k | 0 <= k < |r| ensures r[k] != c {
      assert r[k] == l[k] == s[|s| - |l| + k];
    }
  }

  /** Trimming removes any run of leading white space. */
  lemma {:induction false} TrimLeftPad(pad: string, s: string)
    requires forall k :: 0 <= k < |pad| ==> IsSpace(pad[k])
    requires s == [] || !IsSpace(s[0])
    ensures TrimLeft(pad + s) == s
  {
    if pad == [] {
      assert pad + s == s;
    } else {
      assert (pad + s)[1..] == pad[1..] + s;
      TrimLeftPad(pad[1..], s);
    }
  }

  /** Trimming removes any run of trailing white space. */
  lemma {:induction false} TrimRightPad(s: string, pad: string)
    requires forall k :: 0 <= k < |pad| ==> IsSpace(pad[k])
    requires s == [] || !IsSpace(s[|s| - 1])
    ensures TrimRight(s + pad) == s
  {
    if pad == [] {
      assert s + pad == s;
    } else {
      var n := |s + pad| - 1;
      assert (s + pad)[..n] == s + pad[..|pad| - 1];
      TrimRightPad(s, pad[..|pad| - 1]);
    }
  }

  /** Trimming a non-empty word padded with white space on both sides gives the word. */
  lemma TrimPadded(before: string, s: string, after: string)
    requires forall k :: 0 <= k < |before| ==> IsSpace(before[k])
    requires forall k :: 0 <= k < |after| ==> IsSpace(after[k])
    requires s != [] && !IsSpace(s[0]) && !IsSpace(s[|s| - 1])
    ensures TrimSpace(before + s + after) == s
  {
    assert before + s + after == before + (s + after);
    TrimLeftPad(before, s + after);
    TrimRightPad(s, after);
  }

  /** `sep` occurs in `s` starting at position `i`. */
  predicate OccursAt(s: string, sep: string, i: int) {
    0 <= i && i + |sep| <= |s| && s[i..i + |sep|] == sep
  }

  /** The position of the first occurrence of `sep` in `s`, or -1. */
  function Index(s: string, sep: string): (i: int)
    requires |sep| > 0
    ensures i == -1 || OccursAt(s, sep, i)
    ensures forall j :: 0 <= j < (if i < 0 then |s| else i) ==> !OccursAt(s, sep, j)
    decreases |s|
  {
    if |s| < |sep| then -1
    else if s[..|sep|] == sep then 0
    else
      var k := Index(s[1..], sep);
      forall j | 1 <= j <= |s| - |sep|
        ensures OccursAt(s, sep, j) <==> OccursAt(s[1..], sep, j - 1)
      {
        var here, there := s[j..j + |sep|], s[1..][j - 1..j - 1 + |sep|];
        forall m | 0 <= m < |sep| ensures here[m] == there[m] {
          assert here[m] == s[j + m] == s[1..][j - 1 + m];
        }
        assert here == there;
      }
      if k < 0 then -1 else k + 1
  }

  /** `sep` occurs somewhere in `s`. */
  function Contains(s: string, sep: string): (b: bool)
    requires |sep| > 0
    ensures b <==> exists j :: OccursAt(s, sep, j)
  {
    Index(s, sep) >= 0
  }

  /** Splits `s` around every non-overlapping occurrence of `sep`, scanning
      from the left; a string without `sep` gives one part. */
  function Split(s: string, sep: string): (parts: seq<string>)
    requires |sep| > 0
    ensures |parts| >= 1
    decreases |s|
  {
    var i := Index(s, sep);
    if i < 0 then [s] else [s[..i]] + Split(s[i + |sep|..], sep)
  }

  /** Concatenates `parts` with `sep` between neighbours. */
  function Join(parts: seq<string>, sep: string): string {
    if |parts| == 0 then ""
    else if |parts| == 1 then parts[0]
    else parts[0] + sep + Join(parts[1..], sep)
  }

  /** Joining the parts of a split restores the string. */
  lemma {:induction false} SplitJoin(s: string, sep: string)
    requires |sep| > 0
    ensures Join(Split(s, sep), sep) == s
    decreases |s|
  {
    var i := Index(s, sep);
    if i >= 0 {
      var head, rest := s[..i], s[i + |sep|..];
      assert s == head + sep + rest by {
        assert s[i..i + |sep|] == sep;
        assert s == head + s[i..i + |sep|] + rest;
      }
      var tail := Split(rest, sep);
      SplitJoin(rest, sep);
      assert Split(s, sep) == [head] + tail;
      assert Join([head] + tail, sep) == head + sep + Join(tail, sep) by {
        assert ([head] + tail)[1..] == tail;
      }
    }
  }

  /** A string without the last character of `sep` holds no occurrence of `sep`. */
  lemma NoOccurrence(s: string, sep: string)
    requires |sep| > 0 && sep[|sep| - 1] !in s
    ensures Index(s, sep) == -1
  {
    forall j | 0 <= j && j + |sep| <= |s| ensures !OccursAt(s, sep, j) {
      var c := s[j + |sep| - 1];
      assert c in s;
      assert s[j..j + |sep|][|sep| - 1] == c;
    }
  }

  /** `sep` is first found right after `p` when the last character of `sep`
      occurs neither in `p` nor earlier in `sep`. */
  lemma IndexAt(p: string, sep: string, q: string)
    requires |sep| > 0 && sep[|sep| - 1] !in p + sep[..|sep| - 1]
    ensures Index(p + sep + q, sep) == |p|
  {
    var s := p + sep + q;
    var head := p + sep[..|sep| - 1];
    assert s[|p|..|p| + |sep|] == sep;
    forall j | 0 <= j < |p| ensures !OccursAt(s, sep, j) {
      var c := s[j + |sep| - 1];
      assert c == head[j + |sep| - 1];
      assert c in head;
      assert s[j..j + |sep|][|sep| - 1] == c;
    }
    assert OccursAt(s, sep, |p|);
  }

  /** Under the same condition, and with no occurrence in `q`, splitting
      `p + sep + q` gives exactly `p` and `q`. */
  lemma SplitTwo(p: string, sep: string, q: string)
    requires |sep| > 0 && sep[|sep| - 1] !in p + sep[..|sep| - 1] && sep[|sep| - 1] !in q
    ensures Split(p + sep + q, sep) == [p, q]
    ensures Contains(p + sep + q, sep)
  {
    var s := p + sep + q;
    IndexAt(p, sep, q);
    assert s[..|p|] == p;
    assert s[|p| + |sep|..] == q;
    NoOccurrence(q, sep);
  }

  /** Under the condition of `IndexAt`, splitting `p + sep + q` gives `p`
      and then the parts of `q`. */
  lemma SplitFirst(p: string, sep: string, q: string)
    requires |sep| > 0 && sep[|sep| - 1] !in p + sep[..|sep| - 1]
    ensures Split(p + sep + q, sep) == [p] + Split(q, sep)
    ensures Contains(p + sep + q, sep)
  {
    var s := p + sep + q;
    IndexAt(p, sep, q);
    assert s[..|p|] == p;
    assert s[|p| + |sep|..] == q;
  }

  /** A string without the first character of `sep` holds no occurrence of `sep`. */
  lemma NoOccurrenceHead(s: string, sep: string)
    requires |sep| > 0 && sep[0] !in s
    ensures Index(s, sep) == -1
  {
    forall j | 0 <= j && j + |sep| <= |s| ensures !OccursAt(s, sep, j) {
      assert s[j] in s;
      assert s[j..j + |sep|][0] == s[j];
    }
  }

  /** `sep` is first found right after `p` when `p` lacks the first
      character of `sep`. */
  lemma IndexAtHead(p: string, sep: string, q: string)
    requires |sep| > 0 && sep[0] !in p
    ensures Index(p + sep + q, sep) == |p|
  {
    var s := p + sep + q;
    assert s[|p|..|p| + |sep|] == sep;
    forall j | 0 <= j < |p| ensures !OccursAt(s, sep, j) {
      assert s[j] == p[j];
      assert p[j] in p;
      assert s[j..j + |sep|][0] == s[j];
    }
    assert OccursAt(s, sep, |p|);
  }

  /** When neither `p` nor `q` holds the first character of `sep`,
      splitting `p + sep + q` gives exactly `p` and `q`. */
  lemma SplitTwoHead(p: string, sep: string, q: string)
    requires |sep| > 0 && sep[0] !in p && sep[0] !in q
    ensures Split(p + sep + q, sep) == [p, q]
    ensures Contains(p + sep + q, sep)
  {
    var s := p + sep + q;
    IndexAtHead(p, sep, q);
    assert s[..|p|] == p;
    assert s[|p| + |sep|..] == q;
    NoOccurrenceHead(q, sep);
  }

  /** Joining introduces no character that neither the parts nor the separator hold. */
  lemma {:induction false} JoinExcludes(parts: seq<string>, sep: string, c: char)
    requires c !in sep && forall k :: 0 <= k < |parts| ==> c !in parts[k]
    ensures c !in Join(parts, sep)
  {
    if |parts| > 1 {
      JoinExcludes(parts[1..], sep, c);
    }
  }

  /** The first occurrence of a single character `c` in `p + [c] + t` is at `|p|` when `p` has none. */
  lemma IndexAfterPrefix(p: string, c: char, t: string)
    requires c !in p
    ensures Index(p + [c] + t, [c]) == |p|
  {
    var s := p + [c] + t;
    assert OccursAt(s, [c], |p|);
    forall j | 0 <= j < |p| ensures !OccursAt(s, [c], j) {
      assert s[j..j + 1] == [p[j]];
    }
  }

  /** Splitting a join around a one-character separator that no part
      contains gives the parts back. */
  lemma {:induction false} JoinSplit(parts: seq<string>, c: char)
    requires |parts| >= 1
    requires forall k :: 0 <= k < |parts| ==> c !in parts[k]
    ensures Split(Join(parts, [c]), [c]) == parts
  {
    if |parts| == 1 {
      SplitWhole(parts[0], c);
    } else {
      JoinSplit(parts[1..], c);
      JoinSplitStep(parts, c);
    }
  }

  /** A string without `c` splits into itself alone. */
  lemma SplitWhole(s: string, c: char)
    requires c !in s
    ensures Split(s, [c]) == [s]
  {
    forall j | 0 <= j < |s| ensures !OccursAt(s, [c], j) {
      assert s[j..j + 1] == [s[j]];
    }
  }

  /** Splitting a join at its first separator: the first part, then the
      split of the rest. */
  lemma JoinSplitStep(parts: seq<string>, c: char)
    requires |parts| >= 2 && c !in parts[0]
    requires Split(Join(parts[1..], [c]), [c]) == parts[1..]
    ensures Split(Join(parts, [c]), [c]) == parts
  {
    var rest := Join(parts[1..], [c]);
    var s := parts[0] + [c] + rest;
    assert Join(parts, [c]) == s;
    IndexAfterPrefix(parts[0], c, rest);
    assert s[..|parts[0]|] == parts[0];
    assert s[|parts[0]| + 1..] == rest;
    assert parts == [parts[0]] + parts[1..];
  }

  /** No part of a split around a one-character separator holds the separator. */
  lemma {:induction false} SplitPartsExclude(s: string, c: char)
    ensures forall k :: 0 <= k < |Split(s, [c])| ==> c !in Split(s, [c])[k]
    decreases |s|
  {
    var i := Index(s, [c]);
    var n := if i < 0 then |s| else i;
    forall j | 0 <= j < n ensures s[j] != c {
      assert s[j..j + 1] == [s[j]];
      assert !OccursAt(s, [c], j);
    }
    if i >= 0 {
      var rest := s[i + 1..];
      SplitPartsExclude(rest, c);
      assert Split(s, [c]) == [s[..i]] + Split(rest, [c]);
      assert forall j :: 0 <= j < i ==> s[..i][j] == s[j];
    }
  }

  /** Splitting around a one-character separator gives one part more than
      the separator has occurrences. */
  lemma {:induction false} SplitCount(s: string, c: char)
    ensures |Split(s, [c])| == multiset(s)[c] + 1
    decreases |s|
  {
    var i := Index(s, [c]);
    if i < 0 {
      if c in s {
        var j :| 0 <= j < |s| && s[j] == c;
        assert s[j..j + 1] == [c];
        assert OccursAt(s, [c], j);
      }
    } else {
      var rest := s[i + 1..];
      SplitCount(rest, c);
      assert s[i..i + 1] == [c];
      assert s == s[..i] + [c] + rest;
      if c in s[..i] {
        var j :| 0 <= j < i && s[..i][j] == c;
        assert s[j..j + 1] == [c];
        assert OccursAt(s, [c], j);
      }
      assert multiset(s) == multiset(s[..i]) + multiset{c} + multiset(rest);
    }
  }

  // ----- decimal integers -----

  predicate IsDigit(c: char) {
    '0' <= c <= '9'
  }

  predicate AllDigits(s: string) {
    forall k :: 0 <= k < |s| ==> IsDigit(s[k])
  }

  /** The value of a string of decimal digits, most significant first. */
  function DigitsValue(s: string): nat
    requires AllDigits(s)
  {
    if s == [] then 0 else DigitsValue(s[..|s| - 1]) * 10 + (s[|s| - 1] as int - '0' as int)
  }

  /** Decimal conversion: an optional '+' or '-' followed by one or more
      ASCII digits, and nothing else. */
  function Atoi(s: string): (r: Result<int>)
    ensures r.Err? ==> r.error == ValueError(s)
    ensures r.Ok? ==> s != [] && !IsSpace(s[0]) && !IsSpace(s[|s| - 1])
  {
    var negative := |s| > 0 && s[0] == '-';
    var digits := if |s| > 0 && (s[0] == '+' || s[0] == '-') then s[1..] else s;
    if |digits| == 0 || !AllDigits(digits) then Err(ValueError(s))
    else
      assert IsDigit(digits[|digits| - 1]);
      var v: int := DigitsValue(digits);
      Ok(if negative then -v else v)
  }

  /** A string that starts with neither a digit nor a sign is no number. */
  lemma LeadingNonDigit(s: string)
    requires s != [] && !IsDigit(s[0]) && s[0] != '+' && s[0] != '-'
    ensures Atoi(s) == Err(ValueError(s))
  {
    assert !AllDigits(s);
  }

  function DigitChar(d: nat): char
    requires d < 10
  {
    (('0' as int) + d) as char
  }

  /** The shortest decimal spelling of a natural number. */
  function NatToString(n: nat): (s: string)
    ensures |s| >= 1 && AllDigits(s) && DigitsValue(s) == n
  {
    if n < 10 then [DigitChar(n)]
    else
      var s := NatToString(n / 10) + [DigitChar(n % 10)];
      assert s[..|s| - 1] == NatToString(n / 10);
      s
  }

  /** The decimal spelling of an integer, with '-' for negatives. */
  function IntToString(n: int): string {
    if n < 0 then "-" + NatToString(-n) else NatToString(n)
  }

  /** Decimal conversion reads back every integer it is shown. */
  lemma AtoiIntToString(n: int)
    ensures Atoi(IntToString(n)) == Ok(n)
    ensures TrimSpace(IntToString(n)) == IntToString(n)
  {
    var s := IntToString(n);
    if n < 0 {
      assert s[1..] == NatToString(-n);
    } else {
      assert IsDigit(s[0]);
    }
    assert IsDigit(s[|s| - 1]);
  }
}
