// The tags of the dillo plugin protocol: dpip/dpip.c:77-186.
module Dpip {
  import opened Common

  const QUOTE: char := '\''
  const NUL: char := '\0'
  const TAG_END: string := " '>"

  // ----- strings ---------------------------------------------------------------

  predicate HasAt(s: string, pattern: string, i: nat) {
    i + |pattern| <= |s| && s[i..i + |pattern|] == pattern
  }

  ghost predicate IsFirst(s: string, pattern: string, k: nat) {
    HasAt(s, pattern, k) && forall j :: 0 <= j < k ==> !HasAt(s, pattern, j)
  }

  // strstr: the first place of a pattern
  ghost function Find(s: string, pattern: string): (r: Option<nat>)
    ensures r.Some? ==> IsFirst(s, pattern, r.value)
    ensures r.None? ==> forall j: nat :: !HasAt(s, pattern, j)
  {
    if exists k: nat :: IsFirst(s, pattern, k) then
      var k: nat :| IsFirst(s, pattern, k);
      Some(k)
    else
      NoFirst(s, pattern);
      None
  }

  lemma NoFirst(s: string, pattern: string)
    requires forall k: nat :: !IsFirst(s, pattern, k)
    ensures forall j: nat :: !HasAt(s, pattern, j)
  {
    forall j: nat ensures !HasAt(s, pattern, j) {
      NoneUpTo(s, pattern, j);
    }
  }

  lemma {:induction false} NoneUpTo(s: string, pattern: string, j: nat)
    requires forall k: nat :: !IsFirst(s, pattern, k)
    ensures forall i: nat :: i <= j ==> !HasAt(s, pattern, i)
  {
    if j > 0 {
      NoneUpTo(s, pattern, j - 1);
    }
    assert !IsFirst(s, pattern, j);
  }

  lemma FindIs(s: string, pattern: string, k: nat)
    requires IsFirst(s, pattern, k)
    ensures Find(s, pattern) == Some(k)
  {
    var r := Find(s, pattern);
    assert HasAt(s, pattern, k) && r.Some?;
    assert HasAt(s, pattern, r.value);
  }

  method StrStr(s: string, pattern: string) returns (r: Option<nat>)
    ensures r == Find(s, pattern)
  {
    var i := 0;
    while i + |pattern| <= |s|
      invariant forall j :: 0 <= j < i ==> !HasAt(s, pattern, j)
    {
      if HasAt(s, pattern, i) {
        FindIs(s, pattern, i);
        return Some(i);
      }
      i := i + 1;
    }
    r := None;
  }

  // A C string ends at the first NUL; reading its terminator is allowed.
  function CharAt(s: string, i: nat): char {
    if i < |s| then s[i] else NUL
  }

  // ----- stuffing ----------------------------------------------------------------

  // Quotes within a value are written twice.
  function Stuffed(v: string): string {
    if v == [] then []
    else if v[0] == QUOTE then [QUOTE, QUOTE] + Stuffed(v[1..])
    else [v[0]] + Stuffed(v[1..])
  }

  // for (r = s = val; (*r = *s); ++r, ++s) if (s[0] == Quote && s[0] == s[1]) ++s;
  function Unstuffed(s: string): string {
    if s == [] then []
    else if s[0] == QUOTE && |s| > 1 && s[1] == QUOTE then [QUOTE] + Unstuffed(s[2..])
    else [s[0]] + Unstuffed(s[1..])
  }

  lemma {:induction false} UnstuffedStuffed(v: string)
    ensures Unstuffed(Stuffed(v)) == v
  {
    if v != [] {
      var s := Stuffed(v);
      UnstuffedStuffed(v[1..]);
      assert s[if v[0] == QUOTE then 2 else 1..] == Stuffed(v[1..]);
    }
  }

  lemma {:induction false} StuffedUnquoted(s: string)
    requires Unquoted(s)
    ensures Stuffed(s) == s
  {
    if s != [] {
      StuffedUnquoted(s[1..]);
    }
  }

  // Stuffing doubles each quote and keeps every other character.
  lemma {:induction false} StuffedParts(a: string, b: string, c: char)
    ensures Stuffed(a + b) == Stuffed(a) + Stuffed(b)
    ensures Stuffed([c]) == if c == '\'' then "\'\'" else [c]
  {
    if a == [] {
      assert a + b == b;
    } else {
      StuffedParts(a[1..], b, c);
      assert (a + b)[1..] == a[1..] + b;
    }
    assert [c][1..] == [];
  }

  // In a stuffed value each quote has another one beside it.
  ghost predicate Paired(s: string) {
    forall i {:trigger s[i]} :: 0 <= i < |s| && s[i] == QUOTE ==>
      (i + 1 < |s| && s[i + 1] == QUOTE) || (i > 0 && s[i - 1] == QUOTE)
  }

  lemma {:induction false} StuffedPaired(v: string)
    ensures Paired(Stuffed(v))
  {
    if v != [] {
      var s, rest := Stuffed(v), Stuffed(v[1..]);
      StuffedPaired(v[1..]);
      var n := |s| - |rest|;
      assert s[n..] == rest;
      forall i {:trigger s[i]} | 0 <= i < |s| && s[i] == QUOTE
        ensures (i + 1 < |s| && s[i + 1] == QUOTE) || (i > 0 && s[i - 1] == QUOTE)
      {
        if i >= n {
          assert rest[i - n] == s[i];
        }
      }
    }
  }

  // ----- building a command --------------------------------------------------------

  // A format consists of literal parts with "%s" between them.
  ghost function Literals(format: string): (r: seq<string>)
    ensures |r| > 0
    decreases |format|
  {
    match Find(format, "%s")
    case None => [format]
    case Some(k) => [format[..k]] + Literals(format[k + 2..])
  }

  // The literal parts with the quoted and stuffed arguments between them.
  function Body(lits: seq<string>, args: seq<string>): string
    requires |lits| == |args| + 1
    decreases |args|
  {
    if args == [] then lits[0]
    else Piece(lits[0], args[0]) + Body(lits[1..], args[1..])
  }

  function Command(lits: seq<string>, args: seq<string>): string
    requires |lits| == |args| + 1
  {
    "<" + Body(lits, args) + TAG_END
  }

  predicate Unquoted(s: string) {
    QUOTE !in s
  }

  method AppendStuffed(cmd0: string, s: string) returns (cmd: string)
    ensures cmd == cmd0 + Stuffed(s)
  {
    cmd := cmd0;
    for i := 0 to |s|
      invariant cmd + Stuffed(s[i..]) == cmd0 + Stuffed(s)
    {
      assert s[i..][1..] == s[i + 1..];
      cmd := cmd + [s[i]];
      if s[i] == QUOTE {
        cmd := cmd + [s[i]];
      }
    }
    assert s[|s|..] == [];
  }

  // A literal part and the quoted, stuffed argument after it.
  function Piece(lit: string, arg: string): string {
    lit + [QUOTE] + Stuffed(arg) + [QUOTE]
  }

  method AppendPiece(cmd0: string, lit: string, arg: string) returns (cmd: string)
    ensures cmd == cmd0 + Piece(lit, arg)
  {
    cmd := cmd0 + lit;
    cmd := cmd + [QUOTE];
    cmd := AppendStuffed(cmd, arg);
    cmd := cmd + [QUOTE];
  }

  lemma Associate(a: string, b: string, c: string)
    ensures (a + b) + c == a + (b + c)
  {
  }

  // What a format and the arguments from the first one on expand to.
  ghost function Expanded(format: string, args: seq<string>): string
    requires |Literals(format)| <= |args| + 1
  {
    Body(Literals(format), args[..|Literals(format)| - 1])
  }

  lemma ExpandedStep(format: string, args: seq<string>)
    requires |Literals(format)| <= |args| + 1
    ensures match Find(format, "%s")
            case None => Expanded(format, args) == format
            case Some(k) =>
              && |args| > 0 && |Literals(format[k + 2..])| <= |args|
              && Expanded(format, args) == Piece(format[..k], args[0]) + Expanded(format[k + 2..], args[1..])
  {
    match Find(format, "%s")
    case None =>
    case Some(k) =>
      var n := |Literals(format)| - 1;
      assert args[..n][1..] == args[1..][..n - 1];
  }

  // a_Dpip_build_cmd: the caller passes at least one argument for each "%s".
  method BuildCmd(format: string, args: seq<string>) returns (r: Option<string>)
    requires |Literals(format)| <= |args| + 1
    ensures r == if Unquoted(format) then Some("<" + Expanded(format, args) + TAG_END) else None
  {
    if !Unquoted(format) {
      return None;
    }
    var cmd, q, argp := "<", format, args;
    while q != []
      invariant |Literals(q)| <= |argp| + 1
      invariant cmd + Expanded(q, argp) == "<" + Expanded(format, args)
      decreases |q|
    {
      ExpandedStep(q, argp);
      var p := StrStr(q, "%s");
      if p.None? {
        return Some(cmd + q + TAG_END);
      }
      Associate(cmd, Piece(q[..p.value], argp[0]), Expanded(q[p.value + 2..], argp[1..]));
      cmd := AppendPiece(cmd, q[..p.value], argp[0]);
      q, argp := q[p.value + 2..], argp[1..];
    }
    ExpandedStep([], argp);
    assert cmd + [] == cmd;
    r := Some(cmd + TAG_END);
  }

  // ----- where a command ends --------------------------------------------------------

  // No argument follows a space, and no '>' follows an argument.
  ghost predicate Delimited(lits: seq<string>) {
    forall k {:trigger lits[k]} :: 0 <= k < |lits| ==>
      && (k + 1 < |lits| && lits[k] != [] ==> lits[k][|lits[k]| - 1] != ' ')
      && (k > 0 && lits[k] != [] ==> lits[k][0] != '>')
  }

  ghost predicate AllUnquoted(lits: seq<string>) {
    forall lit :: lit in lits ==> Unquoted(lit)
  }

  // The rest of a command, with one character before it.
  function Tail(c: char, lits: seq<string>, args: seq<string>): string
    requires |lits| == |args| + 1
  {
    [c] + Body(lits, args) + TAG_END
  }

  lemma EndChars(s: string, i: nat)
    ensures HasAt(s, TAG_END, i) <==> i + 3 <= |s| && s[i] == ' ' && s[i + 1] == '\'' && s[i + 2] == '>'
  {
    if i + 3 <= |s| {
      assert s[i..i + 3] == [s[i], s[i + 1], s[i + 2]];
    }
  }

  // The quote of an end mark does not lie within a piece.
  lemma NoEndInPiece(c: char, lit: string, arg: string, rest: string, i: nat)
    requires Unquoted(lit) && (if lit == [] then c != ' ' else lit[|lit| - 1] != ' ')
    requires |rest| > 0 && rest[0] != '>'
    requires i < 1 + |lit| + 1 + |Stuffed(arg)|
    ensures !HasAt([c] + Piece(lit, arg) + rest, TAG_END, i)
  {
    var st := Stuffed(arg);
    var s := [c] + Piece(lit, arg) + rest;
    StuffedPaired(arg);
    EndChars(s, i);
    var open := 1 + |lit|;
    if i + 1 < open {
      assert s[i + 1] == lit[i] && lit[i] in lit;
    } else if i + 1 == open {
      assert s[i] == if lit == [] then c else lit[|lit| - 1];
    } else if i - open < |st| {
      var t := i - open;
      assert st[t] == s[i + 1];
      assert t + 1 < |st| ==> st[t + 1] == s[i + 2];
      assert t > 0 ==> st[t - 1] == s[i];
    } else {
      assert s[i + 2] == rest[0];
    }
  }

  // A tail is the text up to the end of its first argument, and the next tail.
  lemma TailStep(c: char, lits: seq<string>, args: seq<string>)
    requires |lits| == |args| + 1 && args != []
    ensures var rest := Tail(QUOTE, lits[1..], args[1..]);
            && Tail(c, lits, args) == ([c] + lits[0] + [QUOTE] + Stuffed(args[0])) + rest
            && Tail(c, lits, args) == [c] + Piece(lits[0], args[0]) + rest[1..]
            && |rest| > 1 && (lits[1] != [] ==> rest[1] == lits[1][0]) && (lits[1] == [] ==> rest[1] != '>')
  {
  }

  lemma {:induction false} EndOnlyAtEnd(c: char, lits: seq<string>, args: seq<string>, i: nat)
    requires |lits| == |args| + 1 && AllUnquoted(lits) && Delimited(lits)
    requires lits[0] == [] && args != [] ==> c != ' '
    requires HasAt(Tail(c, lits, args), TAG_END, i)
    ensures i == |Tail(c, lits, args)| - 3
    decreases |args|
  {
    var s := Tail(c, lits, args);
    assert s[i + 1] == s[i..i + 3][1] == QUOTE;
    assert lits[0] in lits;
    if args != [] {
      TailStep(c, lits, args);
      var p := [c] + lits[0] + [QUOTE] + Stuffed(args[0]);
      var rest := Tail(QUOTE, lits[1..], args[1..]);
      if i + 1 <= |p| {
        NoEndInPiece(c, lits[0], args[0], rest[1..], i);
        assert false;
      } else {
        assert s[i..i + 3] == rest[i - |p|..i - |p| + 3];
        assert forall k {:trigger lits[1..][k]} :: 0 <= k < |lits| - 1 ==> lits[1..][k] == lits[k + 1];
        EndOnlyAtEnd(QUOTE, lits[1..], args[1..], i - |p|);
      }
    }
  }

  // A body, seen from its argument k.
  lemma {:induction false} BodySplit(lits: seq<string>, args: seq<string>, k: nat) returns (before: string)
    requires |lits| == |args| + 1 && k < |args|
    ensures Body(lits, args) == before + Piece(lits[k], args[k]) + Body(lits[k + 1..], args[k + 1..])
  {
    if k == 0 {
      before := "";
    } else {
      var b := BodySplit(lits[1..], args[1..], k - 1);
      before := Piece(lits[0], args[0]) + b;
      assert lits[1..][k..] == lits[k + 1..] && args[1..][k..] == args[k + 1..];
      assert Piece(lits[0], args[0]) + (b + Piece(lits[k], args[k]) + Body(lits[k + 1..], args[k + 1..]))
          == before + Piece(lits[k], args[k]) + Body(lits[k + 1..], args[k + 1..]);
    }
  }

  // The first end mark of a command is its end.
  predicate EndsOnce(cmd: string) {
    |cmd| >= 3 && forall i :: 0 <= i < |cmd| - 3 ==> !HasAt(cmd, TAG_END, i)
  }

  lemma EarlyEndAfterSpace(lits: seq<string>, k: nat) returns (args: seq<string>)
    requires k + 1 < |lits| && lits[k] != [] && lits[k][|lits[k]| - 1] == ' '
    ensures |args| == |lits| - 1 && !EndsOnce(Command(lits, args))
  {
    args := seq(|lits| - 1, _ => ">");
    var before := BodySplit(lits, args, k);
    var rest := Body(lits[k + 1..], args[k + 1..]);
    var i := 1 + |before| + |lits[k]| - 1;
    assert Stuffed(">") == ">";
    assert Command(lits, args) == "<" + (before + (lits[k] + [QUOTE] + ">" + [QUOTE]) + rest) + TAG_END;
    EndChars(Command(lits, args), i);
    assert HasAt(Command(lits, args), TAG_END, i);
  }

  lemma EarlyEndBeforeBracket(lits: seq<string>, k: nat) returns (args: seq<string>)
    requires 0 < k < |lits| && lits[k] != [] && lits[k][0] == '>'
    ensures |args| == |lits| - 1 && !EndsOnce(Command(lits, args))
  {
    args := seq(|lits| - 1, _ => " ");
    var before := BodySplit(lits, args, k - 1);
    var rest := Body(lits[k..], args[k..]);
    assert rest[0] == lits[k][0];
    var i := 1 + |before| + |lits[k - 1]| + 1;
    assert Stuffed(" ") == " ";
    assert Command(lits, args) == "<" + (before + (lits[k - 1] + [QUOTE] + " " + [QUOTE]) + rest) + TAG_END;
    EndChars(Command(lits, args), i);
    assert HasAt(Command(lits, args), TAG_END, i);
  }

  // Exactly the delimited formats have, whatever the arguments are, their end mark
  // only at the end.
  lemma CommandEnds(lits: seq<string>)
    requires |lits| > 0 && AllUnquoted(lits)
    ensures Delimited(lits) <==> forall args {:trigger Command(lits, args)} :: |args| == |lits| - 1 ==> EndsOnce(Command(lits, args))
  {
    if Delimited(lits) {
      forall args, i | |args| == |lits| - 1 && 0 <= i < |Command(lits, args)| - 3
        ensures !HasAt(Command(lits, args), TAG_END, i)
      {
        if HasAt(Command(lits, args), TAG_END, i) {
          EndOnlyAtEnd('<', lits, args, i);
          assert false;
        }
      }
    } else {
      var k :| 0 <= k < |lits| && !((k + 1 < |lits| && lits[k] != [] ==> lits[k][|lits[k]| - 1] != ' ')
                                    && (k > 0 && lits[k] != [] ==> lits[k][0] != '>'));
      if k + 1 < |lits| && lits[k] != [] && lits[k][|lits[k]| - 1] == ' ' {
        var args := EarlyEndAfterSpace(lits, k);
      } else {
        var args := EarlyEndBeforeBracket(lits, k);
      }
    }
  }

  lemma {:induction false} LiteralsUnquoted(format: string)
    requires Unquoted(format)
    ensures AllUnquoted(Literals(format))
    decreases |format|
  {
    match Find(format, "%s")
    case None =>
    case Some(k) => LiteralsUnquoted(format[k + 2..]);
  }
}
