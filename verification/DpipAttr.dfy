// Reading an attribute of a tag: dpip/dpip.c:134-186.
module DpipAttr {
  import opened Common
  import opened Dpip

  datatype TagParsingState = SEEK_NAME | MATCH_NAME | SKIP_VALUE | SKIP_QUOTE | FOUND

  // One character of the tag; n counts the characters of the name that match.
  function Step(tag: string, attr: string, i: nat, state: TagParsingState, n: nat): (TagParsingState, nat)
    requires 0 < i < |tag| && attr != []
  {
    match state
    case SEEK_NAME =>
      if tag[i] == attr[0] && (tag[i - 1] == ' ' || tag[i - 1] == '<') then (MATCH_NAME, 1)
      else if tag[i] == QUOTE && tag[i - 1] == '=' then (SKIP_VALUE, n)
      else (SEEK_NAME, n)
    case MATCH_NAME =>
      if tag[i] == CharAt(attr, n) then (MATCH_NAME, n + 1)
      else if tag[i] == '=' && CharAt(attr, n) == NUL then (FOUND, n)
      else (SEEK_NAME, n)
    case SKIP_VALUE =>
      if tag[i] != QUOTE then (SKIP_VALUE, n)
      else if CharAt(tag, i + 1) == QUOTE then (SKIP_QUOTE, n)
      else (SEEK_NAME, n)
    case SKIP_QUOTE => (SKIP_VALUE, n)
    case FOUND => (FOUND, n)
  }

  // Where the value of the attribute starts, when the scan is at i.
  ghost function Scan(tag: string, size: nat, attr: string, i: nat, state: TagParsingState, n: nat): Option<nat>
    requires 0 < i && size <= |tag| && attr != []
    decreases |tag| - i
  {
    if i >= size then None
    else if state == FOUND then Some(i + 1)
    else
      var (state', n') := Step(tag, attr, i, state, n);
      Scan(tag, size, attr, i + 1, state', n')
  }

  // The first quote from p on that is not followed by another one.
  ghost function ClosingQuote(tag: string, p: nat): Option<nat>
    decreases |tag| - p
  {
    if p >= |tag| then None
    else if tag[p] != QUOTE then ClosingQuote(tag, p + 1)
    else if CharAt(tag, p + 1) == QUOTE then ClosingQuote(tag, p + 2)
    else Some(p)
  }

  ghost function ValueFrom(tag: string, start: nat): Option<string> {
    match ClosingQuote(tag, start)
    case None => None
    case Some(q) =>
      if start <= q < |tag| && CharAt(tag, q + 1) == ' ' then Some(Unstuffed(tag[start..q])) else None
  }

  ghost function Finish(tag: string, start: Option<nat>): Option<string> {
    if start.None? then None else ValueFrom(tag, start.value)
  }

  // strchr
  method StrChr(s: string, c: char, from: nat) returns (r: Option<nat>)
    requires from <= |s|
    ensures r.Some? ==> from <= r.value < |s| && s[r.value] == c && forall k :: from <= k < r.value ==> s[k] != c
    ensures r.None? ==> forall k :: from <= k < |s| ==> s[k] != c
  {
    for i := from to |s|
      invariant forall k :: from <= k < i ==> s[k] != c
    {
      if s[i] == c {
        return Some(i);
      }
    }
    r := None;
  }

  lemma {:induction false} ClosingQuoteSkip(tag: string, p: nat, q: nat)
    requires p <= q <= |tag| && forall k :: p <= k < q ==> tag[k] != QUOTE
    ensures ClosingQuote(tag, p) == ClosingQuote(tag, q)
    decreases q - p
  {
    if p < q {
      ClosingQuoteSkip(tag, p + 1, q);
    }
  }

  // How far the reading cursor moves.
  function NextIndex(v: string, s: nat): nat
    requires s < |v|
  {
    if v[s] == QUOTE && CharAt(v, s + 1) == QUOTE then s + 2 else s + 1
  }

  lemma UnstuffedStep(v: string, s: nat, done: string)
    requires s < |v|
    ensures NextIndex(v, s) <= |v|
    ensures (done + [v[s]]) + Unstuffed(v[NextIndex(v, s)..]) == done + Unstuffed(v[s..])
  {
    assert v[s..][1..] == v[s + 1..];
    assert s + 2 <= |v| ==> v[s..][2..] == v[s + 2..];
    assert Unstuffed(v[s..]) == [v[s]] + Unstuffed(v[NextIndex(v, s)..]);
  }

  // The value is unstuffed in place; val is a C string with its terminator.
  method UnstuffInPlace(val: array<char>) returns (len: nat)
    requires val.Length > 0 && val[val.Length - 1] == NUL && NUL !in val[..val.Length - 1]
    modifies val
    ensures len < val.Length && val[len] == NUL
    ensures val[..len] == Unstuffed(old(val[..val.Length - 1]))
  {
    ghost var v, done := val[..val.Length - 1], "";
    var r, s := 0, 0;
    val[r] := val[s];
    assert v[0..] == v && "" + Unstuffed(v) == Unstuffed(v);
    while val[r] != NUL
      invariant r <= s <= |v| == val.Length - 1
      invariant val[r] == if s < |v| then v[s] else NUL
      invariant val[val.Length - 1] == NUL
      invariant forall k :: s <= k < |v| ==> val[k] == v[k]
      invariant val[..r] == done && done + Unstuffed(v[s..]) == Unstuffed(v)
      decreases |v| - s
    {
      UnstuffedStep(v, s, done);
      ghost var next := NextIndex(v, s);
      done := done + [v[s]];
      if val[s] == QUOTE && val[s] == val[s + 1] {
        s := s + 1;
      }
      r, s := r + 1, s + 1;
      assert s == next;
      val[r] := val[s];
    }
    len := r;
    assert v[s..] == [] && done + [] == done;
  }

  method GetAttrL(tag: string, tagsize: nat, attrname: string) returns (val: Option<string>)
    requires NUL !in tag && tagsize <= |tag|
    ensures val == if tagsize == 0 || attrname == [] then None
                   else Finish(tag, Scan(tag, tagsize, attrname, 1, SEEK_NAME, 0))
  {
    if tagsize == 0 || attrname == [] {
      return None;
    }
    var state, n, found, i := SEEK_NAME, 0, false, 1;
    ghost var result := Scan(tag, tagsize, attrname, 1, SEEK_NAME, 0);
    while i < tagsize && !found
      invariant 1 <= i <= tagsize
      invariant !found ==> result == Scan(tag, tagsize, attrname, i, state, n)
      invariant found ==> result == Some(i)
    {
      if state == FOUND {
        found := true;
      } else {
        var next := Step(tag, attrname, i, state, n);
        state, n := next.0, next.1;
      }
      i := i + 1;
    }
    if !found {
      return None;
    }
    var start, p := i, i;
    var q := StrChr(tag, QUOTE, p);
    while q.Some? && CharAt(tag, q.value + 1) == QUOTE
      invariant start <= p <= |tag| && ClosingQuote(tag, start) == ClosingQuote(tag, p)
      invariant q.Some? ==> p <= q.value < |tag| && tag[q.value] == QUOTE && forall k :: p <= k < q.value ==> tag[k] != QUOTE
      invariant q.None? ==> forall k :: p <= k < |tag| ==> tag[k] != QUOTE
      decreases |tag| - p
    {
      ClosingQuoteSkip(tag, p, q.value);
      p := q.value + 2;
      q := StrChr(tag, QUOTE, p);
    }
    ClosingQuoteSkip(tag, p, if q.Some? then q.value else |tag|);
    if q.Some? && CharAt(tag, q.value + 1) == ' ' {
      var s := tag[start..q.value];
      var a := new char[|s| + 1](k requires 0 <= k <= |s| => if k < |s| then s[k] else NUL);
      assert a[..|s|] == s;
      var len := UnstuffInPlace(a);
      return Some(a[..len]);
    }
    return None;
  }

  // ----- reading what has been written -------------------------------------------------

  // The names of the protocol: no quote, no space, and nothing that ends a name.
  predicate IsName(s: string) {
    s != [] && QUOTE !in s && ' ' !in s && '=' !in s && '<' !in s && NUL !in s
  }

  // What is asked for: it must not consist of a name, an equals sign and anything else.
  predicate IsPlainQuery(s: string) {
    s != [] && NUL !in s && (IsName(BeforeEquals(s)) ==> '=' !in s)
  }

  function BeforeEquals(s: string): string {
    if s == [] || s[0] == '=' then [] else [s[0]] + BeforeEquals(s[1..])
  }

  lemma {:induction false} BeforeEqualsIs(s: string, n: nat)
    requires n < |s| && s[n] == '=' && '=' !in s[..n]
    ensures BeforeEquals(s) == s[..n]
  {
    if n > 0 {
      assert s[..n][0] == s[0];
      assert s[1..][..n - 1] == s[..n][1..];
      BeforeEqualsIs(s[1..], n - 1);
    }
  }

  ghost predicate AreNames(names: seq<string>) {
    forall name :: name in names ==> IsName(name)
  }

  // tag is seen from position i on as: name='value' followed by something else
  // than a quote.
  ghost predicate AttributeAt(tag: string, i: nat, name: string, value: string) {
    && 0 < i && i + |name| + 3 + |Stuffed(value)| < |tag|
    && HasAt(tag, name, i)
    && tag[i + |name|] == '=' && tag[i + |name| + 1] == QUOTE
    && HasAt(tag, Stuffed(value), i + |name| + 2)
    && tag[i + |name| + 2 + |Stuffed(value)|] == QUOTE
    && tag[i + |name| + 3 + |Stuffed(value)|] == ' '
  }

  // Position k neither starts a name nor a value.
  predicate Inside(tag: string, k: nat) {
    0 < k < |tag| && tag[k] != QUOTE && tag[k - 1] != ' ' && tag[k - 1] != '<'
  }

  lemma {:induction false} SeekRest(tag: string, attr: string, i: nat, j: nat, n: nat)
    requires 0 < i <= j <= |tag| && attr != []
    requires forall k :: i <= k < j ==> Inside(tag, k)
    ensures Scan(tag, |tag|, attr, i, SEEK_NAME, n) == Scan(tag, |tag|, attr, j, SEEK_NAME, n)
    decreases j - i
  {
    if i < j {
      assert Inside(tag, i);
      SeekRest(tag, attr, i + 1, j, n);
    }
  }

  lemma NameChar(tag: string, i: nat, name: string, k: nat)
    requires HasAt(tag, name, i) && k < |name| && IsName(name)
    ensures tag[i + k] == name[k]
    ensures name[k] != QUOTE && name[k] != ' ' && name[k] != '=' && name[k] != '<' && name[k] != NUL
  {
    assert tag[i..i + |name|][k] == tag[i + k];
    assert name[k] in name;
  }

  // Once the name is known not to match, the scan goes on to the value.
  lemma SeekToValue(tag: string, attr: string, i: nat, name: string, value: string, j: nat, n: nat)
    requires IsPlainQuery(attr) && IsName(name) && AttributeAt(tag, i, name, value) && i < j <= i + |name| + 1
    ensures Scan(tag, |tag|, attr, j, SEEK_NAME, n) == Scan(tag, |tag|, attr, i + |name| + 2, SKIP_VALUE, n)
  {
    var e := i + |name| + 1;
    forall k | j <= k < e ensures Inside(tag, k) {
      NameChar(tag, i, name, k - 1 - i);
      if k < e - 1 {
        NameChar(tag, i, name, k - i);
      }
    }
    SeekRest(tag, attr, j, e, n);
    assert attr[0] in attr;
  }

  // What the scan does with an attribute whose name has matched in n characters.
  lemma {:induction false} MatchName(tag: string, attr: string, i: nat, name: string, value: string, n: nat) returns (n': nat)
    requires IsPlainQuery(attr) && IsName(name) && AttributeAt(tag, i, name, value)
    requires 0 < n <= |name| && n <= |attr| && attr[..n] == name[..n]
    ensures name == attr ==> Scan(tag, |tag|, attr, i + n, MATCH_NAME, n) == Some(i + |name| + 2)
    ensures name != attr ==>
              Scan(tag, |tag|, attr, i + n, MATCH_NAME, n) == Scan(tag, |tag|, attr, i + |name| + 2, SKIP_VALUE, n')
    decreases |name| - n
  {
    n' := n;
    if n < |attr| {
      assert attr[n] in attr;
    }
    if n < |name| {
      NameChar(tag, i, name, n);
      if n < |attr| && attr[n] == name[n] {
        n' := MatchName(tag, attr, i, name, value, n + 1);
      } else {
        assert name != attr by {
          assert n < |attr| ==> attr[n] != name[n];
        }
        SeekToValue(tag, attr, i, name, value, i + n + 1, n);
      }
    } else if n < |attr| {
      assert attr[..n] == name;
      if attr[n] == '=' {
        BeforeEqualsIs(attr, n);
        assert false;
      }
      SeekToValue(tag, attr, i, name, value, i + n + 1, n);
    } else {
      assert name == name[..n] == attr[..n] == attr;
      assert Scan(tag, |tag|, attr, i + n, MATCH_NAME, n) == Scan(tag, |tag|, attr, i + n + 1, FOUND, n);
    }
  }

  lemma ScanAttribute(tag: string, attr: string, i: nat, name: string, value: string, n: nat) returns (n': nat)
    requires IsPlainQuery(attr) && IsName(name) && AttributeAt(tag, i, name, value)
    requires tag[i - 1] == ' ' || tag[i - 1] == '<'
    ensures name == attr ==> Scan(tag, |tag|, attr, i, SEEK_NAME, n) == Some(i + |name| + 2)
    ensures name != attr ==>
              Scan(tag, |tag|, attr, i, SEEK_NAME, n) == Scan(tag, |tag|, attr, i + |name| + 2, SKIP_VALUE, n')
  {
    NameChar(tag, i, name, 0);
    n' := n;
    if name[0] == attr[0] {
      assert attr[..1] == name[..1];
      n' := MatchName(tag, attr, i, name, value, 1);
    } else {
      SeekToValue(tag, attr, i, name, value, i + 1, n);
    }
  }

  // A value is skipped up to its closing quote, whatever it contains.
  lemma {:induction false} ScanValue(tag: string, attr: string, i: nat, v: string, n: nat)
    requires 0 < i && attr != [] && HasAt(tag, Stuffed(v), i)
    requires i + |Stuffed(v)| + 1 < |tag| && tag[i + |Stuffed(v)|] == QUOTE && tag[i + |Stuffed(v)| + 1] != QUOTE
    ensures Scan(tag, |tag|, attr, i, SKIP_VALUE, n) == Scan(tag, |tag|, attr, i + |Stuffed(v)| + 1, SEEK_NAME, n)
    ensures ClosingQuote(tag, i) == Some(i + |Stuffed(v)|)
    decreases |v|
  {
    if v != [] {
      var s, rest := Stuffed(v), Stuffed(v[1..]);
      var d := |s| - |rest|;
      assert rest == s[d..] == tag[i + d..i + |s|];
      assert tag[i] == s[0] && (d == 2 ==> tag[i + 1] == s[1]);
      ScanValue(tag, attr, i + d, v[1..], n);
      if d == 2 {
        assert Scan(tag, |tag|, attr, i, SKIP_VALUE, n) == Scan(tag, |tag|, attr, i + 1, SKIP_QUOTE, n);
      }
    }
  }

  // ----- whole commands --------------------------------------------------------------------

  // A command with these attributes, from the space before the first name on.
  function AttrText(names: seq<string>, values: seq<string>): (r: string)
    requires |names| == |values|
    ensures |r| > 0 && r[0] == ' '
  {
    if names == [] then TAG_END else " " + Attr(names[0], values[0]) + AttrText(names[1..], values[1..])
  }

  function Attr(name: string, value: string): string {
    Piece(name + "=", value)
  }

  function Lookup(names: seq<string>, values: seq<string>, attr: string): Option<string>
    requires |names| == |values|
  {
    if names == [] then None
    else if names[0] == attr then Some(values[0])
    else Lookup(names[1..], values[1..], attr)
  }

  lemma AttributeIsAt(tag: string, i: nat, name: string, value: string, rest: string)
    requires 0 < i <= |tag| && tag[i..] == Attr(name, value) + rest && |rest| > 0 && rest[0] == ' '
    ensures AttributeAt(tag, i, name, value)
    ensures tag[i + |name| + 3 + |Stuffed(value)|..] == rest
  {
    var st := Stuffed(value);
    var t := tag[i..];
    assert t == name + "=" + [QUOTE] + st + [QUOTE] + rest;
    assert tag[i..i + |name|] == t[..|name|] == name;
    assert tag[i + |name| + 2..i + |name| + 2 + |st|] == t[|name| + 2..|name| + 2 + |st|] == st;
    assert tag[i + |name| + 3 + |st|..] == t[|name| + 3 + |st|..] == rest;
    assert tag[i + |name|] == t[|name|] && tag[i + |name| + 1] == t[|name| + 1];
    assert tag[i + |name| + 2 + |st|] == t[|name| + 2 + |st|] && tag[i + |name| + 3 + |st|] == t[|name| + 3 + |st|];
  }

  lemma FoundValue(tag: string, i: nat, name: string, value: string)
    requires AttributeAt(tag, i, name, value)
    ensures ValueFrom(tag, i + |name| + 2) == Some(value)
  {
    var start := i + |name| + 2;
    ScanValue(tag, "x", start, value, 0);
    UnstuffedStuffed(value);
    assert tag[start..start + |Stuffed(value)|] == Stuffed(value);
  }

  // One attribute is answered, or skipped.
  lemma ReadOne(tag: string, attr: string, i: nat, name: string, value: string, rest: string, n: nat) returns (n': nat)
    requires IsPlainQuery(attr) && IsName(name) && 0 < i <= |tag| && (tag[i - 1] == ' ' || tag[i - 1] == '<')
    requires tag[i..] == Attr(name, value) + rest && |rest| > 0 && rest[0] == ' '
    ensures name == attr ==> Finish(tag, Scan(tag, |tag|, attr, i, SEEK_NAME, n)) == Some(value)
    ensures name != attr ==>
              var next := i + |name| + 3 + |Stuffed(value)|;
              && next <= |tag| && tag[next - 1] == QUOTE && tag[next..] == rest
              && Scan(tag, |tag|, attr, i, SEEK_NAME, n) == Scan(tag, |tag|, attr, next, SEEK_NAME, n')
  {
    AttributeIsAt(tag, i, name, value, rest);
    n' := ScanAttribute(tag, attr, i, name, value, n);
    if name == attr {
      FoundValue(tag, i, name, value);
    } else {
      ScanValue(tag, attr, i + |name| + 2, value, n');
    }
  }

  lemma {:induction false} ReadAttribute(tag: string, attr: string, i: nat, names: seq<string>, values: seq<string>, n: nat)
    requires |names| == |values| > 0 && AreNames(names) && IsPlainQuery(attr)
    requires 0 < i <= |tag| && (tag[i - 1] == ' ' || tag[i - 1] == '<')
    requires tag[i..] == Attr(names[0], values[0]) + AttrText(names[1..], values[1..])
    ensures Finish(tag, Scan(tag, |tag|, attr, i, SEEK_NAME, n)) == Lookup(names, values, attr)
    decreases |names|, 0
  {
    assert names[0] in names;
    var n' := ReadOne(tag, attr, i, names[0], values[0], AttrText(names[1..], values[1..]), n);
    if names[0] != attr {
      ReadRest(tag, attr, i + |names[0]| + 3 + |Stuffed(values[0])|, names[1..], values[1..], n');
    }
  }

  lemma {:induction false} ReadRest(tag: string, attr: string, i: nat, names: seq<string>, values: seq<string>, n: nat)
    requires |names| == |values| && AreNames(names) && IsPlainQuery(attr)
    requires 0 < i <= |tag| && tag[i - 1] == QUOTE && tag[i..] == AttrText(names, values)
    ensures Finish(tag, Scan(tag, |tag|, attr, i, SEEK_NAME, n)) == Lookup(names, values, attr)
    decreases |names|, 1
  {
    assert tag[i] == tag[i..][0] == ' ';
    assert attr[0] in attr;
    if names == [] {
      assert |tag| == i + 3 && tag[i + 1] == tag[i..][1] == QUOTE && tag[i + 2] == tag[i..][2] == '>';
      ScanEnd(tag, attr, i, n);
    } else {
      assert tag[i + 1..] == tag[i..][1..];
      ReadAttribute(tag, attr, i + 1, names, values, n);
    }
  }

  // The end of a command is too short for a name.
  lemma ScanEnd(tag: string, attr: string, i: nat, n: nat)
    requires 0 < i && |tag| == i + 3 && tag[i] == ' ' && tag[i + 1] == QUOTE && tag[i + 2] == '>' && attr != []
    requires tag[i - 1] == QUOTE
    ensures Scan(tag, |tag|, attr, i, SEEK_NAME, n) == None
  {
    var next := Step(tag, attr, i + 1, SEEK_NAME, n);
    assert next.0 == SEEK_NAME || next.0 == MATCH_NAME;
    var last := Step(tag, attr, i + 2, next.0, next.1);
    assert Scan(tag, |tag|, attr, i + 2, next.0, next.1) == Scan(tag, |tag|, attr, i + 3, last.0, last.1) == None;
  }

  // The literal parts of a format like "cmd=%s url=%s".
  function AttrLiterals(names: seq<string>, before: string): (r: seq<string>)
    ensures |r| == |names| + 1
  {
    if names == [] then [""] else [before + names[0] + "="] + AttrLiterals(names[1..], " ")
  }

  lemma {:induction false} AttrBody(names: seq<string>, values: seq<string>, before: string)
    requires |names| == |values|
    ensures names != [] ==>
              Body(AttrLiterals(names, before), values) + TAG_END == before + Attr(names[0], values[0]) + AttrText(names[1..], values[1..])
    ensures names == [] ==> Body(AttrLiterals(names, before), values) + TAG_END == TAG_END
    decreases |names|
  {
    if names != [] {
      AttrBody(names[1..], values[1..], " ");
      var tail := Body(AttrLiterals(names[1..], " "), values[1..]);
      assert AttrLiterals(names, before)[1..] == AttrLiterals(names[1..], " ");
      Associate(Piece(before + names[0] + "=", values[0]), tail, TAG_END);
      NextAttrText(names[1..], values[1..]);
      PieceAfter(before, names[0], values[0]);
    }
  }

  lemma NextAttrText(names: seq<string>, values: seq<string>)
    requires |names| == |values|
    ensures names != [] ==> AttrText(names, values) == " " + Attr(names[0], values[0]) + AttrText(names[1..], values[1..])
  {
  }

  lemma PieceAfter(before: string, name: string, value: string)
    ensures Piece(before + name + "=", value) == before + Attr(name, value)
  {
    assert before + name + "=" == before + (name + "=");
    Associate(before, name + "=", [QUOTE] + Stuffed(value) + [QUOTE]);
    assert Piece(before + name + "=", value) == (before + (name + "=")) + ([QUOTE] + Stuffed(value) + [QUOTE]);
    assert Attr(name, value) == (name + "=") + ([QUOTE] + Stuffed(value) + [QUOTE]);
  }

  // The format for these attributes.
  function FormatOf(names: seq<string>, before: string): string {
    if names == [] then "" else before + names[0] + "=%s" + FormatOf(names[1..], " ")
  }

  // A name that contains "%s" would be taken for a place of an argument.
  ghost predicate HasPlace(s: string) {
    exists k: nat :: HasAt(s, "%s", k)
  }

  lemma PlaceIs(s: string, k: nat)
    ensures HasAt(s, "%s", k) <==> k + 2 <= |s| && s[k] == '%' && s[k + 1] == 's'
  {
    if k + 2 <= |s| {
      assert s[k..k + 2] == [s[k], s[k + 1]];
    }
  }

  lemma PlaceInMiddle(before: string, name: string)
    requires before == "" || before == " "
    ensures HasPlace(before + name + "=") <==> HasPlace(name)
  {
    var lit := before + name + "=";
    forall k: nat ensures HasAt(name, "%s", k) <==> HasAt(lit, "%s", |before| + k) {
      PlaceIs(name, k);
      PlaceIs(lit, |before| + k);
    }
    if HasPlace(lit) {
      var k: nat :| HasAt(lit, "%s", k);
      PlaceIs(lit, k);
      var j: nat := k - |before|;
      PlaceIs(name, j);
      assert HasAt(name, "%s", j);
    }
  }

  lemma FirstPlace(lit: string, rest: string)
    requires lit != "" && lit[|lit| - 1] == '=' && !HasPlace(lit)
    ensures Find(lit + "%s" + rest, "%s") == Some(|lit|)
  {
    var s := lit + "%s" + rest;
    assert s[|lit|..|lit| + 2] == "%s";
    forall j: nat | j < |lit| ensures !HasAt(s, "%s", j) {
      PlaceIs(s, j);
      PlaceIs(lit, j);
      assert !HasAt(lit, "%s", j);
    }
    FindIs(s, "%s", |lit|);
  }

  lemma {:induction false} LiteralsHaveNoPlace(format: string)
    ensures forall l :: l in Literals(format) ==> !HasPlace(l)
    decreases |format|
  {
    match Find(format, "%s")
    case None =>
    case Some(k) =>
      forall j: nat ensures !HasAt(format[..k], "%s", j) {
        PlaceIs(format, j);
        PlaceIs(format[..k], j);
      }
      LiteralsHaveNoPlace(format[k + 2..]);
  }

  // The format means these attributes, if and only if no name contains "%s".
  lemma FormatLiterals(names: seq<string>)
    ensures Literals(FormatOf(names, "")) == AttrLiterals(names, "") <==> forall name :: name in names ==> !HasPlace(name)
  {
    if forall name :: name in names ==> !HasPlace(name) {
      FormatWithoutPlaces(names, "");
    } else {
      LiteralsHaveNoPlace(FormatOf(names, ""));
      NameWithPlace(names, "");
    }
  }

  lemma {:induction false} FormatWithoutPlaces(names: seq<string>, before: string)
    requires (before == "" || before == " ") && forall name :: name in names ==> !HasPlace(name)
    ensures Literals(FormatOf(names, before)) == AttrLiterals(names, before)
    decreases |names|
  {
    var format := FormatOf(names, before);
    if names == [] {
      forall j: nat ensures !HasAt(format, "%s", j) {
      }
    } else {
      var lit, rest := before + names[0] + "=", FormatOf(names[1..], " ");
      assert names[0] in names;
      PlaceInMiddle(before, names[0]);
      assert format == lit + "%s" + rest;
      FirstPlace(lit, rest);
      assert format[..|lit|] == lit && format[|lit| + 2..] == rest;
      FormatWithoutPlaces(names[1..], " ");
    }
  }

  lemma {:induction false} NameWithPlace(names: seq<string>, before: string)
    requires (before == "" || before == " ") && exists name :: name in names && HasPlace(name)
    ensures exists l :: l in AttrLiterals(names, before) && HasPlace(l)
    decreases |names|
  {
    PlaceInMiddle(before, names[0]);
    var lit := before + names[0] + "=";
    assert lit in AttrLiterals(names, before);
    if !HasPlace(names[0]) {
      assert forall name :: name in names ==> name == names[0] || name in names[1..];
      NameWithPlace(names[1..], " ");
      assert AttrLiterals(names, before) == [lit] + AttrLiterals(names[1..], " ");
    }
  }

  // The text of a tag with two attributes.
  lemma AttrIs(name: string, value: string)
    ensures Attr(name, value) == name + "='" + Stuffed(value) + "'"
  {
    assert name + "=" + "'" == name + "='";
  }

  lemma TwoAttributes(names: seq<string>, values: seq<string>, a: string, b: string)
    requires |names| == |values| == 2 && a == Attr(names[0], values[0]) && b == Attr(names[1], values[1])
    ensures Command(AttrLiterals(names, ""), values) == "<" + a + " " + b + " '>"
  {
    AttrBody(names, values, "");
    NextAttrText(names[1..], values[1..]);
    assert "" + a == a;
    Joining(a, b, Body(AttrLiterals(names, ""), values));
  }

  lemma Joining(a: string, b: string, body: string)
    requires body + TAG_END == a + (" " + b + TAG_END)
    ensures "<" + body + TAG_END == "<" + a + " " + b + " '>"
  {
    Associate("<", body, TAG_END);
  }

  lemma TagExample(name: string, value: string, name2: string, value2: string)
    ensures Command(AttrLiterals([name, name2], ""), [value, value2])
            == "<" + (name + "='" + Stuffed(value) + "'") + " " + (name2 + "='" + Stuffed(value2) + "'") + " '>"
  {
    AttrIs(name, value);
    AttrIs(name2, value2);
    TwoAttributes([name, name2], [value, value2], Attr(name, value), Attr(name2, value2));
  }

  // What GetAttrL answers for a command with these attributes.
  ghost function ReadBack(names: seq<string>, values: seq<string>, attr: string): Option<string>
    requires |names| == |values| && attr != []
  {
    var tag := Command(AttrLiterals(names, ""), values);
    Finish(tag, Scan(tag, |tag|, attr, 1, SEEK_NAME, 0))
  }

  lemma PlainRoundTrip(names: seq<string>, values: seq<string>, attr: string)
    requires |names| == |values| > 0 && AreNames(names) && IsPlainQuery(attr)
    ensures ReadBack(names, values, attr) == Lookup(names, values, attr)
  {
    var tag := Command(AttrLiterals(names, ""), values);
    AttrBody(names, values, "");
    var text := Attr(names[0], values[0]) + AttrText(names[1..], values[1..]);
    assert "" + Attr(names[0], values[0]) == Attr(names[0], values[0]);
    assert tag == "<" + (Body(AttrLiterals(names, ""), values) + TAG_END) == "<" + text;
    assert tag[1..] == text;
    ReadAttribute(tag, attr, 1, names, values, 0);
  }

  lemma {:induction false} LookupIs(names: seq<string>, values: seq<string>, k: nat)
    requires |names| == |values| && k < |names|
    requires forall i, j :: 0 <= i < j < |names| ==> names[i] != names[j]
    ensures Lookup(names, values, names[k]) == Some(values[k])
  {
    if k > 0 {
      LookupIs(names[1..], values[1..], k - 1);
    }
  }
}
