// Which attributes can be asked for, and under which names they can be read back:
// dpip/dpip.c:77-186.
module DpipQueries {
  import opened Common
  import opened Dpip
  import opened DpipAttr

  predicate StartsName(c: char) {
    c == ' ' || c == '<'
  }

  // ----- what can stand before an equals sign in a command ------------------------------------

  // Whether a text can go on like this within a value, and then with an equals sign.
  predicate FitsValue(s: string)
    decreases |s|
  {
    if s == [] then true
    else if s[0] != QUOTE then FitsValue(s[1..])
    else if |s| == 1 then false
    else if s[1] == QUOTE then FitsValue(s[2..])
    else s[1] == ' ' && FitsName(s[2..])
  }

  // The same from the start of a name on.
  predicate FitsName(s: string)
    decreases |s|
  {
    var name := BeforeEquals(s);
    BeforeEqualsShort(s);
    IsName(name) && (|name| == |s| || (|name| + 1 < |s| && s[|name| + 1] == QUOTE && FitsValue(s[|name| + 2..])))
  }

  lemma {:induction false} BeforeEqualsShort(s: string)
    ensures |BeforeEquals(s)| <= |s| && BeforeEquals(s) == s[..|BeforeEquals(s)|] && '=' !in BeforeEquals(s)
    ensures |BeforeEquals(s)| < |s| ==> s[|BeforeEquals(s)|] == '='
  {
    if s != [] && s[0] != '=' {
      BeforeEqualsShort(s[1..]);
      assert s == [s[0]] + s[1..];
    }
  }

  // The queries that can be found in a place where no attribute starts.
  predicate IsMistaken(s: string) {
    '=' in s && IsName(BeforeEquals(s)) && (FitsValue(s) || FitsName(s))
  }

  predicate IsQuery(s: string) {
    s != [] && NUL !in s && !IsMistaken(s)
  }

  lemma {:induction false} UnquotedFits(s: string)
    requires QUOTE !in s
    ensures FitsValue(s)
  {
    if s != [] {
      assert s[0] in s;
      UnquotedFits(s[1..]);
    }
  }

  // ----- a query with quotes is not found elsewhere ----------------------------------------------

  // What follows a name that has been found.
  predicate Ends(c: char) {
    c == '=' || c == NUL
  }

  predicate Begins(t: string, s: string, c: char) {
    |s| < |t| && t[|s|] == c && forall k {:trigger t[k]} {:trigger s[k]} :: 0 <= k < |s| ==> t[k] == s[k]
  }

  // A text from within a value on, and one from a name on.
  function ValueText(v: string, names: seq<string>, values: seq<string>): (r: string)
    requires |names| == |values|
    ensures |r| > 0
  {
    Stuffed(v) + [QUOTE] + AttrText(names, values)
  }

  function NameText(names: seq<string>, values: seq<string>): string
    requires |names| == |values| > 0
  {
    Attr(names[0], values[0]) + AttrText(names[1..], values[1..])
  }

  lemma ValueTextStep(v: string, names: seq<string>, values: seq<string>)
    requires |names| == |values| && v != []
    ensures ValueText(v, names, values) == (if v[0] == QUOTE then [QUOTE, QUOTE] else [v[0]]) + ValueText(v[1..], names, values)
  {
    var first, rest := if v[0] == QUOTE then [QUOTE, QUOTE] else [v[0]], Stuffed(v[1..]);
    assert Stuffed(v) == first + rest;
    Associate(first, rest, [QUOTE]);
    Associate(first, rest + [QUOTE], AttrText(names, values));
  }

  lemma ValueTextEnd(names: seq<string>, values: seq<string>)
    requires |names| == |values|
    ensures ValueText("", names, values) == [QUOTE, ' '] + (if names == [] then "'>" else NameText(names, values))
  {
    if names == [] {
      assert TAG_END == " " + "'>";
    }
  }

  lemma NameTextIs(names: seq<string>, values: seq<string>)
    requires |names| == |values| > 0
    ensures NameText(names, values) == names[0] + "='" + ValueText(values[0], names[1..], values[1..])
  {
    var name, st, rest := names[0], Stuffed(values[0]), AttrText(names[1..], values[1..]);
    assert Attr(name, values[0]) == name + "='" + st + [QUOTE];
    Associate(name + "='", st + [QUOTE], rest);
    Associate(name + "='", st, [QUOTE]);
  }

  lemma BeginsRest(a: string, t: string, s: string, c: char)
    requires Begins(a + t, s, c) && |a| <= |s|
    ensures s[..|a|] == a && Begins(t, s[|a|..], c)
  {
    var rest := s[|a|..];
    assert forall k {:trigger rest[k]} :: 0 <= k < |rest| ==> rest[k] == s[|a| + k] == (a + t)[|a| + k];
    assert (a + t)[|s|] == t[|rest|];
  }

  lemma {:induction false} ValueFits(s: string, c: char, v: string, names: seq<string>, values: seq<string>)
    requires |names| == |values| && AreNames(names) && Ends(c) && Begins(ValueText(v, names, values), s, c)
    ensures FitsValue(s)
    decreases |s|
  {
    if s != [] {
      if v == [] {
        ValueTextEnd(names, values);
        EndFits(s, c, names, values);
      } else {
        ValueTextStep(v, names, values);
        var first := if v[0] == QUOTE then [QUOTE, QUOTE] else [v[0]];
        BeginsRest(first, ValueText(v[1..], names, values), s, c);
        ValueFits(s[|first|..], c, v[1..], names, values);
      }
    }
  }

  lemma {:induction false} EndFits(s: string, c: char, names: seq<string>, values: seq<string>)
    requires |names| == |values| && AreNames(names) && Ends(c) && s != []
    requires Begins([QUOTE, ' '] + (if names == [] then "'>" else NameText(names, values)), s, c)
    ensures FitsValue(s)
    decreases |s|, 0
  {
    var t := if names == [] then "'>" else NameText(names, values);
    assert ([QUOTE, ' '] + t)[0] == QUOTE && ([QUOTE, ' '] + t)[1] == ' ';
    BeginsRest([QUOTE, ' '], t, s, c);
    if names != [] {
      NameFits(s[2..], c, names, values);
    }
  }

  // A name is read completely, and if more is read, then the quote too.
  lemma NameEnds(s: string, c: char, name: string, rest: string)
    requires IsName(name) && Ends(c) && Begins(name + "='" + rest, s, c)
    ensures BeforeEquals(s) == name && |name| <= |s|
    ensures |name| < |s| ==> |name| + 1 < |s| && s[|name| + 1] == QUOTE
  {
    var t := name + "='" + rest;
    assert t[|name|] == '=' && t[|name| + 1] == QUOTE;
    assert forall i {:trigger name[i]} :: 0 <= i < |name| ==> name[i] in name && t[i] == name[i];
    assert |name| <= |s|;
    assert s[..|name|] == name;
    if |name| < |s| {
      BeforeEqualsIs(s, |name|);
    } else {
      NoEquals(s);
    }
  }

  lemma {:induction false} NoEquals(s: string)
    requires '=' !in s
    ensures BeforeEquals(s) == s
  {
    if s != [] {
      NoEquals(s[1..]);
    }
  }

  lemma {:induction false} NameFits(s: string, c: char, names: seq<string>, values: seq<string>)
    requires |names| == |values| > 0 && AreNames(names) && Ends(c) && Begins(NameText(names, values), s, c)
    ensures FitsName(s)
    decreases |s|
  {
    var name, rest := names[0], ValueText(values[0], names[1..], values[1..]);
    NameTextIs(names, values);
    assert name in names;
    NameEnds(s, c, name, rest);
    if |name| < |s| {
      BeginsRest(name + "='", rest, s, c);
      ValueFits(s[|name| + 2..], c, values[0], names[1..], values[1..]);
    }
  }

  // ----- where a match can start ---------------------------------------------------------------------

  // A text of one of the three kinds.
  ghost predicate IsText(t: string) {
    || (exists v, names, values {:trigger ValueText(v, names, values)} ::
          |names| == |values| && AreNames(names) && t == ValueText(v, names, values))
    || (exists names, values {:trigger NameText(names, values)} ::
          |names| == |values| > 0 && AreNames(names) && t == NameText(names, values))
    || t == "'>"
  }

  lemma TextFits(t: string, s: string, c: char)
    requires IsText(t) && Ends(c) && Begins(t, s, c) && s != [] && s[0] != QUOTE
    ensures FitsValue(s) || FitsName(s)
  {
    if v, names, values :| |names| == |values| && AreNames(names) && t == ValueText(v, names, values) {
      ValueFits(s, c, v, names, values);
    } else if names, values :| |names| == |values| > 0 && AreNames(names) && t == NameText(names, values) {
      NameFits(s, c, names, values);
    }
  }

  // Within a command, a space or an angle bracket stands only in a value or before a name.
  lemma {:induction false} TextInValue(v: string, names: seq<string>, values: seq<string>, p: nat)
    requires |names| == |values| && AreNames(names) && p < |ValueText(v, names, values)|
    requires p > 0 ==> StartsName(ValueText(v, names, values)[p - 1])
    ensures IsText(ValueText(v, names, values)[p..])
    decreases |names|, 1, |v|
  {
    var t := ValueText(v, names, values);
    if p == 0 {
      assert t[0..] == t;
    } else if v == [] {
      ValueTextEnd(names, values);
      if names == [] {
        assert t == "'" + " '>";
        assert p == 2 && t[2..] == "'>";
      } else {
        assert t[2..] == NameText(names, values) && t[p..] == t[2..][p - 2..];
        TextInName(names, values, p - 2);
      }
    } else {
      ValueTextStep(v, names, values);
      var d := if v[0] == QUOTE then 2 else 1;
      assert d <= p;
      assert t[d..] == ValueText(v[1..], names, values) && t[p..] == t[d..][p - d..];
      if d < p {
        assert t[p - 1] == t[d..][p - 1 - d];
        TextInValue(v[1..], names, values, p - d);
      } else {
        TextInValue(v[1..], names, values, 0);
      }
    }
  }

  lemma {:induction false} TextInName(names: seq<string>, values: seq<string>, p: nat)
    requires |names| == |values| > 0 && AreNames(names) && p < |NameText(names, values)|
    requires p > 0 ==> StartsName(NameText(names, values)[p - 1])
    ensures IsText(NameText(names, values)[p..])
    decreases |names|, 0
  {
    var t, name, rest := NameText(names, values), names[0], ValueText(values[0], names[1..], values[1..]);
    if p == 0 {
      assert t[0..] == t;
    } else {
      NameTextIs(names, values);
      assert name in names;
      assert forall i {:trigger name[i]} :: 0 <= i < |name| ==> name[i] in name && t[i] == name[i];
      assert t[|name|] == '=' && t[|name| + 1] == QUOTE;
      var d := |name| + 2;
      assert d < p;
      assert t[d..] == rest && t[p..] == rest[p - d..] && t[p - 1] == rest[p - 1 - d];
      TextInValue(values[0], names[1..], values[1..], p - d);
    }
  }

  // ----- what is not there is not found --------------------------------------------------------------

  // The query stands at p, as if it were a name.
  predicate IsPlace(tag: string, attr: string, p: nat) {
    0 < p <= |tag| && StartsName(tag[p - 1]) && exists c {:trigger Ends(c)} :: Ends(c) && Begins(tag[p..], attr, c)
  }

  predicate IsMatching(tag: string, attr: string, i: nat, n: nat) {
    0 < n < i <= |tag| && n <= |attr| && StartsName(tag[i - n - 1]) && forall k {:trigger attr[k]} :: 0 <= k < n ==> tag[i - n + k] == attr[k]
  }

  lemma MatchIsPlace(tag: string, attr: string, i: nat)
    requires IsMatching(tag, attr, i, |attr|) && i < |tag| && Ends(tag[i])
    ensures IsPlace(tag, attr, i - |attr|)
  {
    var p := i - |attr|;
    var t := tag[p..];
    assert forall k {:trigger t[k]} :: 0 <= k < |t| ==> t[k] == tag[p + k];
    assert forall k {:trigger attr[k]} :: 0 <= k < |attr| ==> tag[p + k] == attr[k];
    assert Begins(t, attr, tag[i]);
  }

  lemma {:induction false} NoPlace(tag: string, attr: string, i: nat, state: TagParsingState, n: nat)
    requires 0 < i && attr != [] && NUL !in attr && state != FOUND
    requires state == MATCH_NAME ==> IsMatching(tag, attr, i, n)
    requires forall p: nat {:trigger IsPlace(tag, attr, p)} :: !IsPlace(tag, attr, p)
    ensures Scan(tag, |tag|, attr, i, state, n) == None
    decreases |tag| - i
  {
    if i < |tag| {
      var next := Step(tag, attr, i, state, n);
      if state == MATCH_NAME {
        if n == |attr| {
          NoEndHere(tag, attr, i);
        } else {
          assert attr[n] in attr;
        }
      }
      NoPlace(tag, attr, i + 1, next.0, next.1);
    }
  }

  lemma NoEndHere(tag: string, attr: string, i: nat)
    requires IsMatching(tag, attr, i, |attr|) && i < |tag|
    requires forall p: nat {:trigger IsPlace(tag, attr, p)} :: !IsPlace(tag, attr, p)
    ensures !Ends(tag[i])
  {
    if Ends(tag[i]) {
      MatchIsPlace(tag, attr, i);
    }
  }

  // ----- reading what has been written ---------------------------------------------------------------

  lemma CommandIsText(names: seq<string>, values: seq<string>)
    requires |names| == |values| > 0
    ensures Command(AttrLiterals(names, ""), values) == "<" + NameText(names, values)
  {
    AttrBody(names, values, "");
    assert "" + Attr(names[0], values[0]) == Attr(names[0], values[0]);
    Associate("<", Body(AttrLiterals(names, ""), values), TAG_END);
  }

  lemma NotFound(names: seq<string>, values: seq<string>, attr: string)
    requires |names| == |values| > 0 && AreNames(names) && attr != [] && NUL !in attr && attr[0] != QUOTE
    requires !FitsValue(attr) && !FitsName(attr)
    ensures ReadBack(names, values, attr) == None
  {
    var tag, text := Command(AttrLiterals(names, ""), values), NameText(names, values);
    CommandIsText(names, values);
    forall p: nat {:trigger IsPlace(tag, attr, p)} ensures !IsPlace(tag, attr, p) {
      if IsPlace(tag, attr, p) {
        assert tag[p..] == text[p - 1..] && (p > 1 ==> tag[p - 1] == text[p - 2]);
        TextInName(names, values, p - 1);
        var c :| Ends(c) && Begins(tag[p..], attr, c);
        TextFits(tag[p..], attr, c);
      }
    }
    NoPlace(tag, attr, 1, SEEK_NAME, 0);
  }

  lemma {:induction false} NotLookedUp(names: seq<string>, values: seq<string>, attr: string)
    requires |names| == |values| && attr !in names
    ensures Lookup(names, values, attr) == None
  {
    if names != [] {
      assert names[0] in names;
      NotLookedUp(names[1..], values[1..], attr);
    }
  }

  lemma CommandRoundTrip(names: seq<string>, values: seq<string>, attr: string)
    requires |names| == |values| > 0 && AreNames(names) && IsQuery(attr)
    ensures ReadBack(names, values, attr) == Lookup(names, values, attr)
  {
    if IsPlainQuery(attr) {
      PlainRoundTrip(names, values, attr);
    } else {
      assert attr[0] in BeforeEquals(attr) by {
        assert BeforeEquals(attr)[0] == attr[0];
      }
      NotFound(names, values, attr);
      NotLookedUp(names, values, attr);
    }
  }

  // Reading undoes building: each attribute has its value, and there is no other one.
  // The left side is what GetAttrL answers for the result of BuildCmd.
  lemma AttributesRoundTrip(format: string, names: seq<string>, values: seq<string>, attr: string)
    requires |names| == |values| > 0 && AreNames(names) && IsQuery(attr)
    requires Literals(format) == AttrLiterals(names, "")
    ensures var tag := "<" + Expanded(format, values) + TAG_END;
            Finish(tag, Scan(tag, |tag|, attr, 1, SEEK_NAME, 0)) == Lookup(names, values, attr)
  {
    assert values[..|names|] == values;
    CommandRoundTrip(names, values, attr);
  }

  // ----- mistaken queries ------------------------------------------------------------------------------

  // What follows a mistaken query.
  predicate IsEnd(e: string) {
    e == "=x' '>" || e == "='x' '>"
  }

  datatype Completion = Completion(value: string, names: seq<string>, values: seq<string>)

  // Attributes in which a text occurs, from within a value on.
  function CompleteValue(s: string): (r: Completion)
    requires FitsValue(s)
    ensures |r.names| == |r.values|
    decreases |s|
  {
    if s == [] then Completion("=x", [], [])
    else if s[0] == QUOTE && s[1] == ' ' then CompleteName(s[2..]).(value := "")
    else
      var r := CompleteValue(if s[0] == QUOTE then s[2..] else s[1..]);
      r.(value := [s[0]] + r.value)
  }

  // The same from the start of a name on.
  function CompleteName(s: string): (r: Completion)
    requires FitsName(s)
    ensures |r.names| == |r.values| > 0
    decreases |s|
  {
    var name := BeforeEquals(s);
    BeforeEqualsShort(s);
    if |name| == |s| then Completion("", [name], ["x"])
    else
      var r := CompleteValue(s[|name| + 2..]);
      Completion("", [name] + r.names, [r.value] + r.values)
  }

  lemma StepText(s: string, d: nat, v: string, names: seq<string>, values: seq<string>, e: string)
    requires |names| == |values| && v != [] && d <= |s| && s[..d] == if v[0] == QUOTE then [QUOTE, QUOTE] else [v[0]]
    requires ValueText(v[1..], names, values) == s[d..] + e
    ensures ValueText(v, names, values) == s + e
  {
    ValueTextStep(v, names, values);
    assert s == s[..d] + s[d..];
    Associate(s[..d], s[d..], e);
  }

  lemma {:induction false} CompleteValueIs(s: string) returns (e: string)
    requires FitsValue(s)
    ensures var r := CompleteValue(s); AreNames(r.names) && IsEnd(e) && ValueText(r.value, r.names, r.values) == s + e
    ensures QUOTE !in s ==> CompleteValue(s).names == []
    decreases |s|
  {
    var r := CompleteValue(s);
    if s == [] {
      e := "=x' '>";
      assert Stuffed("x") == "x" && Stuffed("=x") == "=x";
    } else if s[0] == QUOTE && s[1] == ' ' {
      e := CompleteNameIs(s[2..]);
      ValueTextEnd(r.names, r.values);
      assert s == [QUOTE, ' '] + s[2..];
    } else {
      var d := if s[0] == QUOTE then 2 else 1;
      e := CompleteValueIs(s[d..]);
      assert r.value[1..] == CompleteValue(s[d..]).value;
      StepText(s, d, r.value, r.names, r.values, e);
    }
  }

  lemma {:induction false} CompleteNameIs(s: string) returns (e: string)
    requires FitsName(s)
    ensures var r := CompleteName(s); AreNames(r.names) && IsEnd(e) && NameText(r.names, r.values) == s + e
    decreases |s|
  {
    var name, r := BeforeEquals(s), CompleteName(s);
    BeforeEqualsShort(s);
    NameTextIs(r.names, r.values);
    if |name| == |s| {
      e := "='x' '>";
      assert Stuffed("x") == "x" && ValueText("x", [], []) == "x" + "' '>";
      assert r.names[1..] == [] && r.values[1..] == [];
    } else {
      var s' := s[|name| + 2..];
      e := CompleteValueIs(s');
      assert r.names[1..] == CompleteValue(s').names && r.values[1..] == CompleteValue(s').values;
      assert s == name + "='" + s';
      Associate(name + "='", s', e);
    }
  }

  lemma EndIsRead(tag: string, p: nat, attr: string, e: string)
    requires p <= |tag| && tag[p..] == attr + e && IsEnd(e)
    ensures p + |attr| + 1 < |tag| && tag[p + |attr|] == '=' && HasAt(tag, attr, p)
    ensures ValueFrom(tag, p + |attr| + 2).Some?
  {
    var q := p + |attr|;
    assert tag[q..] == e && tag[p..q] == attr;
    assert forall k {:trigger e[k]} :: 0 <= k < |e| ==> tag[q + k] == e[k];
    var start := q + 2;
    if e[2] == QUOTE {
      assert e[3] == ' ';
      assert ClosingQuote(tag, start) == Some(start);
    } else {
      assert e[2] == 'x' && e[3] == QUOTE && e[4] == ' ';
      assert ClosingQuote(tag, start) == ClosingQuote(tag, start + 1) == Some(start + 1);
    }
  }

  lemma {:induction false} MatchPrefix(tag: string, attr: string, i: nat, n: nat)
    requires 0 < i && 0 < n <= |attr| && HasAt(tag, attr, i)
    requires i + |attr| + 1 < |tag| && tag[i + |attr|] == '='
    ensures Scan(tag, |tag|, attr, i + n, MATCH_NAME, n) == Some(i + |attr| + 2)
    decreases |attr| - n
  {
    if n < |attr| {
      assert tag[i..i + |attr|][n] == tag[i + n];
      MatchPrefix(tag, attr, i, n + 1);
    } else {
      assert Scan(tag, |tag|, attr, i + n, MATCH_NAME, n) == Scan(tag, |tag|, attr, i + n + 1, FOUND, n);
    }
  }

  lemma FinishSome(tag: string, scanned: Option<nat>, start: nat)
    requires scanned == Some(start) && ValueFrom(tag, start).Some?
    ensures Finish(tag, scanned).Some?
  {
  }

  lemma FirstChar(tag: string, attr: string, p: nat)
    requires HasAt(tag, attr, p) && attr != []
    ensures p < |tag| && tag[p] == attr[0]
  {
    assert tag[p..p + |attr|][0] == tag[p];
  }

  lemma ReadFrom(tag: string, p: nat, attr: string)
    requires 0 < p && attr != [] && HasAt(tag, attr, p) && p + |attr| + 1 < |tag| && tag[p + |attr|] == '='
    requires ValueFrom(tag, p + |attr| + 2).Some?
    ensures Finish(tag, Scan(tag, |tag|, attr, p + 1, MATCH_NAME, 1)).Some?
  {
    MatchPrefix(tag, attr, p, 1);
    FinishSome(tag, Scan(tag, |tag|, attr, p + 1, MATCH_NAME, 1), p + |attr| + 2);
  }

  // A query that fits from a name on is answered in place of this name.
  lemma MistakenForName(attr: string) returns (names: seq<string>, values: seq<string>)
    requires FitsName(attr) && NUL !in attr
    ensures |names| == |values| > 0 && AreNames(names) && ReadBack(names, values, attr).Some?
  {
    var r := CompleteName(attr);
    var e := CompleteNameIs(attr);
    names, values := r.names, r.values;
    var tag := Command(AttrLiterals(names, ""), values);
    CommandIsText(names, values);
    assert tag[0] == '<' && tag[1..] == attr + e;
    BeforeEqualsShort(attr);
    ReadAtBegin(tag, attr, e);
  }

  lemma ReadAtBegin(tag: string, attr: string, e: string)
    requires attr != [] && IsEnd(e) && |tag| > 0 && tag[0] == '<' && tag[1..] == attr + e
    ensures Finish(tag, Scan(tag, |tag|, attr, 1, SEEK_NAME, 0)).Some?
  {
    EndIsRead(tag, 1, attr, e);
    FirstChar(tag, attr, 1);
    ReadFrom(tag, 1, attr);
    FirstName(tag, attr);
  }

  lemma FirstName(tag: string, attr: string)
    requires |tag| > 1 && tag[0] == '<' && attr != [] && tag[1] == attr[0]
    ensures Scan(tag, |tag|, attr, 1, SEEK_NAME, 0) == Scan(tag, |tag|, attr, 2, MATCH_NAME, 1)
  {
  }

  lemma {:induction false} MatchUpTo(tag: string, attr: string, k: nat, n: nat)
    requires 0 < n <= k + 1 <= |attr| && k + 2 < |tag| && forall j :: 0 <= j <= k ==> tag[1 + j] == attr[j]
    ensures Scan(tag, |tag|, attr, 1 + n, MATCH_NAME, n) == Scan(tag, |tag|, attr, k + 2, MATCH_NAME, k + 1)
    decreases k - n
  {
    if n <= k {
      MatchUpTo(tag, attr, k, n + 1);
    }
  }

  // The tag in which a query, from its first part on, is taken for a name.
  lemma MistakenTag(first: string, c: char, r: Completion, text: string) returns (tag: string)
    requires |r.names| == |r.values| && ValueText(r.value, r.names, r.values) == text && c != QUOTE
    ensures tag == Command(AttrLiterals([first] + r.names, ""), [[c, ' '] + r.value] + r.values)
    ensures tag == "<" + first + ("='" + ([c] + (" " + text)))
  {
    var names, values := [first] + r.names, [[c, ' '] + r.value] + r.values;
    tag := Command(AttrLiterals(names, ""), values);
    CommandIsText(names, values);
    NameTextIs(names, values);
    assert names[1..] == r.names && values[1..] == r.values;
    ValueTextStep([c, ' '] + r.value, r.names, r.values);
    assert ([c, ' '] + r.value)[1..] == " " + r.value;
    ValueTextStep(" " + r.value, r.names, r.values);
    assert (" " + r.value)[1..] == r.value;
    Associate("<", first + "='", [c] + (" " + text));
    Associate(first, "='", [c] + (" " + text));
    Associate("<", first, "='" + ([c] + (" " + text)));
  }

  lemma TagChars(tag: string, first: string, c: char, text: string)
    requires tag == "<" + first + ("='" + ([c] + (" " + text)))
    ensures var k := |first|; |tag| == k + 5 + |text| && tag[0] == '<' && tag[1..k + 1] == first && tag[k + 5..] == text
    ensures var k := |first|; tag[k + 1] == '=' && tag[k + 2] == QUOTE && tag[k + 3] == c && tag[k + 4] == ' '
  {
    var k := |first|;
    assert "='"[0] == '=' && "='"[1] == QUOTE;
    var rest := "='" + ([c] + (" " + text));
    assert tag[k + 1..] == rest && rest[4..] == text && tag[k + 5..] == rest[4..];
    assert forall j {:trigger rest[j]} :: 0 <= j < |rest| ==> tag[k + 1 + j] == rest[j];
    assert rest[0] == '=' && rest[1] == QUOTE && rest[2] == c && rest[3] == ' ';
  }

  // The query matches the name and the equals sign, perhaps the quote too, but not c.
  lemma MatchOver(tag: string, attr: string, k: nat, c: char)
    requires NUL !in attr && 0 < k < |attr| && attr[k] == '=' && attr[0] != ' ' && k + 5 < |tag|
    requires tag[0] == '<' && tag[1..k + 1] == attr[..k] && tag[k + 1] == '=' && tag[k + 2] == QUOTE && tag[k + 3] == c && tag[k + 4] == ' '
    requires tag[k + 5] == attr[0] && c != CharAt(attr, k + 2) && c != '=' && c != QUOTE && c != NUL
    ensures Scan(tag, |tag|, attr, 1, SEEK_NAME, 0) == Scan(tag, |tag|, attr, k + 6, MATCH_NAME, 1)
  {
    forall j | 0 <= j <= k ensures tag[1 + j] == attr[j] {
      assert j < k ==> tag[1..k + 1][j] == attr[..k][j];
    }
    MatchUpTo(tag, attr, k, 1);
    SeekAfterQuote(tag, attr, k, c);
  }

  lemma SeekAfterQuote(tag: string, attr: string, k: nat, c: char)
    requires 0 < k < |attr| && attr[0] != ' ' && k + 5 < |tag|
    requires tag[k + 2] == QUOTE && tag[k + 3] == c && tag[k + 4] == ' ' && tag[k + 5] == attr[0]
    requires c != CharAt(attr, k + 2) && c != '=' && c != QUOTE
    ensures Scan(tag, |tag|, attr, k + 2, MATCH_NAME, k + 1) == Scan(tag, |tag|, attr, k + 6, MATCH_NAME, 1)
  {
    var next := Step(tag, attr, k + 2, MATCH_NAME, k + 1);
    var n := next.1;
    assert Step(tag, attr, k + 3, next.0, n) == (SEEK_NAME, n);
    assert Step(tag, attr, k + 4, SEEK_NAME, n) == (SEEK_NAME, n);
    assert Step(tag, attr, k + 5, SEEK_NAME, n) == (MATCH_NAME, 1);
    assert Scan(tag, |tag|, attr, k + 4, SEEK_NAME, n) == Scan(tag, |tag|, attr, k + 5, SEEK_NAME, n);
    assert Scan(tag, |tag|, attr, k + 3, next.0, n) == Scan(tag, |tag|, attr, k + 4, SEEK_NAME, n);
  }

  lemma Misread(tag: string, k: nat, attr: string, c: char, e: string)
    requires NUL !in attr && 0 < k < |attr| && attr[k] == '=' && attr[0] != ' ' && k + 5 < |tag| && IsEnd(e) && tag[k + 5..] == attr + e
    requires tag[0] == '<' && tag[1..k + 1] == attr[..k] && tag[k + 1] == '=' && tag[k + 2] == QUOTE && tag[k + 3] == c && tag[k + 4] == ' '
    requires c != CharAt(attr, k + 2) && (c == 'x' || c == 'y')
    ensures Finish(tag, Scan(tag, |tag|, attr, 1, SEEK_NAME, 0)).Some?
  {
    EndIsRead(tag, k + 5, attr, e);
    FirstChar(tag, attr, k + 5);
    ReadFrom(tag, k + 5, attr);
    MatchOver(tag, attr, k, c);
  }

  // A query that fits within a value is answered from there, after its start has been taken for
  // the name before the value.
  lemma MistakenInValue(first: string, attr: string) returns (names: seq<string>, values: seq<string>)
    requires first != [] && first < attr && attr[|first|] == '=' && FitsValue(attr) && NUL !in attr && attr[0] != ' ' && QUOTE !in first
    ensures |names| == |values| > 0 && names[0] == first && AreNames(names[1..]) && ReadBack(names, values, attr).Some?
    ensures QUOTE !in attr ==> names == [first]
  {
    var r, k := CompleteValue(attr), |first|;
    var e := CompleteValueIs(attr);
    var c := if CharAt(attr, k + 2) == 'x' then 'y' else 'x';
    names, values := [first] + r.names, [[c, ' '] + r.value] + r.values;
    var tag := MistakenTag(first, c, r, attr + e);
    TagChars(tag, first, c, attr + e);
    Misread(tag, k, attr, c, e);
    assert names[1..] == r.names;
  }

  // ----- names that can be read back -------------------------------------------------------

  // A tag with one attribute whose value is a space.
  lemma BlankTag(name: string) returns (tag: string)
    requires name != [] && QUOTE !in name
    ensures tag == Command(AttrLiterals([name], ""), [" "])
    ensures |tag| == |name| + 8 && tag[0] == '<' && HasAt(tag, name, 1) && tag[|name| + 1] == '='
    ensures forall k {:trigger tag[k]} {:trigger name[k - 1]} :: 1 <= k <= |name| ==> tag[k] == name[k - 1] && tag[k] != QUOTE
    ensures forall start {:trigger ValueFrom(tag, start)} :: 0 < start <= |name| + 3 ==> ValueFrom(tag, start).Some?
  {
    tag := Command(AttrLiterals([name], ""), [" "]);
    assert AttrLiterals([name], "")[1..] == AttrLiterals([], " ") == [""];
    assert Stuffed(" ") == " ";
    assert tag == "<" + name + "=" + [QUOTE] + " " + [QUOTE] + TAG_END;
    forall k {:trigger tag[k]} | 1 <= k <= |name| ensures tag[k] == name[k - 1] && tag[k] != QUOTE {
      assert name[k - 1] in name;
    }
    var open := |name| + 2;
    assert ClosingQuote(tag, open) == Some(open);
    assert ClosingQuote(tag, open + 1) == ClosingQuote(tag, open + 2) == Some(open + 2);
    forall start {:trigger ValueFrom(tag, start)} | 0 < start <= open + 1 ensures ValueFrom(tag, start).Some? {
      if start <= open {
        ClosingQuoteSkip(tag, start, open);
      }
    }
  }

  // A name with an equals sign in it is found under its first part.
  lemma EqualsEndsName(name: string, k: nat) returns (attr: string)
    requires QUOTE !in name && NUL !in name && 0 < k < |name| && name[k] == '=' && '=' !in name[..k]
    ensures IsQuery(attr) && attr != name && ReadBack([name], [" "], attr).Some?
  {
    attr := name[..k];
    var tag := BlankTag(name);
    assert tag[1] == name[0] && tag[1 + k] == name[k];
    assert tag[1..1 + k] == tag[1..1 + |name|][..k] == attr;
    MatchPrefix(tag, attr, 1, 1);
    assert Scan(tag, |tag|, attr, 1, SEEK_NAME, 0) == Scan(tag, |tag|, attr, 2, MATCH_NAME, 1);
  }

  // The scan looks for a name again after a space.
  lemma {:induction false} SeekAfterSpace(tag: string, attr: string, i: nat, t: nat, state: TagParsingState, n: nat) returns (n': nat)
    requires 0 < i <= t < |tag| && StartsName(tag[t]) && (state == SEEK_NAME || state == MATCH_NAME)
    requires attr != [] && forall c :: c in attr ==> !StartsName(c)
    requires forall k {:trigger tag[k]} :: i <= k <= t ==> tag[k] != QUOTE && tag[k] != '='
    ensures Scan(tag, |tag|, attr, i, state, n) == Scan(tag, |tag|, attr, t + 1, SEEK_NAME, n')
    decreases t - i
  {
    var next := Step(tag, attr, i, state, n);
    n' := next.1;
    if i < t {
      n' := SeekAfterSpace(tag, attr, i + 1, t, next.0, next.1);
    } else {
      assert attr[0] in attr && (n < |attr| ==> attr[n] in attr);
    }
  }

  // A name with a space in it is found under its last part.
  lemma SpaceStartsName(name: string, t: nat) returns (attr: string)
    requires QUOTE !in name && NUL !in name && '=' !in name && t + 1 < |name| && StartsName(name[t])
    requires forall k :: t < k < |name| ==> !StartsName(name[k])
    ensures IsQuery(attr) && attr != name && ReadBack([name], [" "], attr).Some?
  {
    attr := name[t + 1..];
    var tag := BlankTag(name);
    assert tag[t + 1] == name[t] && tag[t + 2] == name[t + 1];
    forall k {:trigger tag[k]} | 1 <= k <= t + 1 ensures tag[k] != QUOTE && tag[k] != '=' {
      assert tag[k] == name[k - 1] && name[k - 1] in name;
    }
    var n' := SeekAfterSpace(tag, attr, 1, t + 1, SEEK_NAME, 0);
    assert tag[t + 2..t + 2 + |attr|] == tag[1..1 + |name|][t + 1..] == attr;
    MatchPrefix(tag, attr, t + 2, 1);
    assert Scan(tag, |tag|, attr, t + 2, SEEK_NAME, n') == Scan(tag, |tag|, attr, t + 3, MATCH_NAME, 1);
  }

  lemma {:induction false} LastStart(s: string, n: nat) returns (t: nat)
    requires n <= |s| && exists k :: 0 <= k < n && StartsName(s[k])
    ensures t < n && StartsName(s[t]) && forall k :: t < k < n ==> !StartsName(s[k])
    decreases n
  {
    if StartsName(s[n - 1]) {
      t := n - 1;
    } else {
      t := LastStart(s, n - 1);
    }
  }

  lemma {:induction false} FirstEquals(s: string, n: nat) returns (k: nat)
    requires n < |s| && s[n] == '='
    ensures k <= n && s[k] == '=' && '=' !in s[..k]
    decreases n
  {
    if '=' in s[..n] {
      var m :| 0 <= m < n && s[..n][m] == '=';
      k := FirstEquals(s, m);
    } else {
      k := n;
    }
  }

  // A name that starts with an equals sign: the query is the name with another one.
  lemma EqualsStartsName(name: string) returns (attr: string, value: string)
    requires QUOTE !in name && NUL !in name && name != [] && name[0] == '='
    ensures IsQuery(attr) && attr != name && ReadBack([name], [value], attr).Some?
  {
    attr := name + "=";
    assert attr[..|name|] == name && attr[0] == '=' && BeforeEquals(attr) == [];
    UnquotedFits(attr);
    var names, values := MistakenInValue(name, attr);
    value := values[0];
    assert names == [name] && values == [value];
  }

  // Nothing starts before the first equals sign.
  lemma {:induction false} SeekEquals(tag: string, i: nat, j: nat, n: nat)
    requires 0 < i <= j <= |tag| && forall k {:trigger tag[k]} :: i <= k < j ==> tag[k] != '=' && tag[k] != QUOTE
    ensures Scan(tag, |tag|, "=", i, SEEK_NAME, n) == Scan(tag, |tag|, "=", j, SEEK_NAME, n)
    decreases j - i
  {
    if i < j {
      SeekEquals(tag, i + 1, j, n);
    }
  }

  lemma EndTag(name: string) returns (tag: string)
    requires QUOTE !in name
    ensures tag == Command(AttrLiterals([name], ""), [" ==x"])
    ensures |tag| == |name| + 11 && tag[0] == '<' && tag[1..|name| + 1] == name && tag[|name| + 1..] == "='" + " ==x" + "' '>"
  {
    tag := Command(AttrLiterals([name], ""), [" ==x"]);
    assert AttrLiterals([name], "")[1..] == AttrLiterals([], " ") == [""];
    StuffedUnquoted(" ==x");
    assert "" + name + "=" == name + "=";
    assert Body(AttrLiterals([name], ""), [" ==x"]) == (name + "=" + [QUOTE] + " ==x" + [QUOTE]) + "";
    assert tag == "<" + name + ("='" + " ==x" + "' '>");
  }

  // A name that ends with a space: the equals sign behind it is taken for a name.
  lemma SpaceEndsName(name: string)
    requires name != [] && QUOTE !in name && NUL !in name && '=' !in name && StartsName(name[|name| - 1])
    ensures ReadBack([name], [" ==x"], "=").Some?
  {
    var tag := EndTag(name);
    var s, e := "='" + " ==x" + "' '>", |name| + 1;
    forall k {:trigger tag[k]} | 1 <= k < e ensures tag[k] == name[k - 1] && tag[k] != '=' && tag[k] != QUOTE {
      assert tag[k] == tag[1..e][k - 1] && name[k - 1] in name;
    }
    assert forall k {:trigger s[k]} :: 0 <= k < 10 ==> tag[e + k] == tag[e..][k] == s[k];
    assert s[0] == '=' && s[1] == QUOTE && s[2] == ' ' && s[3] == '=' && s[4] == '=' && s[5] == 'x' && s[6] == QUOTE && s[7] == ' ';
    SeekEquals(tag, 1, e, 0);
    assert Scan(tag, |tag|, "=", e, SEEK_NAME, 0) == Scan(tag, |tag|, "=", e + 1, MATCH_NAME, 1);
    assert Scan(tag, |tag|, "=", e + 1, MATCH_NAME, 1) == Scan(tag, |tag|, "=", e + 2, SEEK_NAME, 1);
    assert Scan(tag, |tag|, "=", e + 2, SEEK_NAME, 1) == Scan(tag, |tag|, "=", e + 3, SEEK_NAME, 1);
    assert Scan(tag, |tag|, "=", e + 3, SEEK_NAME, 1) == Scan(tag, |tag|, "=", e + 4, MATCH_NAME, 1);
    assert Scan(tag, |tag|, "=", e + 4, MATCH_NAME, 1) == Scan(tag, |tag|, "=", e + 5, FOUND, 1) == Some(e + 6);
    assert ClosingQuote(tag, e + 6) == Some(e + 6);
  }

  // The source asks only that names have no quotes; but exactly those are read back,
  // for all values and queries, that have no space, '=' or '<' in them.
  lemma NameIsReadable(name: string)
    requires name != [] && QUOTE !in name && NUL !in name
    ensures IsName(name) <==>
            forall value, attr {:trigger ReadBack([name], [value], attr)} ::
              IsQuery(attr) ==> ReadBack([name], [value], attr) == Lookup([name], [value], attr)
  {
    if IsName(name) {
      forall value, attr | IsQuery(attr) ensures ReadBack([name], [value], attr) == Lookup([name], [value], attr) {
        CommandRoundTrip([name], [value], attr);
      }
    } else if name[0] == '=' {
      var attr, value := EqualsStartsName(name);
      assert Lookup([name], [value], attr) == None;
    } else if '=' in name {
      var n :| 0 <= n < |name| && name[n] == '=';
      var k := FirstEquals(name, n);
      var attr := EqualsEndsName(name, k);
      assert Lookup([name], [" "], attr) == None;
    } else if StartsName(name[|name| - 1]) {
      SpaceEndsName(name);
      assert BeforeEquals("=") == [] && IsQuery("=");
      assert Lookup([name], [" ==x"], "=") == None;
    } else {
      var t := LastStart(name, |name|);
      var attr := SpaceStartsName(name, t);
      assert Lookup([name], [" "], attr) == None;
    }
  }

  lemma MisreadExample(attr: string) returns (names: seq<string>, values: seq<string>)
    requires IsMistaken(attr) && NUL !in attr
    ensures |names| == |values| > 0 && AreNames(names) && attr !in names && ReadBack(names, values, attr).Some?
  {
    if FitsName(attr) {
      names, values := MistakenForName(attr);
    } else {
      var name := BeforeEquals(attr);
      BeforeEqualsShort(attr);
      NoEqualsShort(attr);
      assert attr[0] == name[0] && name[0] in name;
      names, values := MistakenInValue(name, attr);
      assert names == [name] + names[1..];
    }
  }

  lemma NoEqualsShort(s: string)
    requires '=' in s
    ensures |BeforeEquals(s)| < |s|
  {
    BeforeEqualsShort(s);
    assert s[..|s|] == s;
  }

  // Exactly these queries are answered well for all names and values.
  lemma QueryIsAnswered(attr: string)
    requires attr != [] && NUL !in attr
    ensures IsQuery(attr) <==>
            forall names, values {:trigger ReadBack(names, values, attr)} ::
              |names| == |values| > 0 && AreNames(names) ==> ReadBack(names, values, attr) == Lookup(names, values, attr)
  {
    if IsQuery(attr) {
      forall names, values | |names| == |values| > 0 && AreNames(names)
        ensures ReadBack(names, values, attr) == Lookup(names, values, attr)
      {
        CommandRoundTrip(names, values, attr);
      }
    } else {
      var names, values := MisreadExample(attr);
      NotLookedUp(names, values, attr);
    }
  }
}
