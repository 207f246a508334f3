// In-place decoding of base64 data: dpi/datauri.c:38-110, 268-271.
//
// The bit operations on values below 64 are written as arithmetic: their operands of "|"
// have no bits in common.
module Base64 {
  import opened Common

  type Digit = d: int | 0 <= d < 64

  // ----- the alphabet ----------------------------------------------------------------------

  // RFC 4648, section 4; -1 for all other characters, also for the padding.
  function Table(c: Byte): (d: int)
    ensures -1 <= d < 64
  {
    if 65 <= c <= 90 then c - 65
    else if 97 <= c <= 122 then c - 71
    else if 48 <= c <= 57 then c + 4
    else if c == 43 then 62
    else if c == 47 then 63
    else -1
  }

  function Letter(d: Digit): (c: Byte)
    ensures Table(c) == d && c != 0
  {
    if d < 26 then d + 65 else if d < 52 then d + 71 else if d < 62 then d - 4 else if d == 62 then 43 else 47
  }

  // Letters, digits, "+", "/" and "=".
  predicate IsLegal(c: Byte) {
    65 <= c <= 90 || 97 <= c <= 122 || 48 <= c <= 57 || c == 43 || c == 47 || c == 61
  }

  // Table 1 of RFC 4648: upper case letters, lower case letters, digits, "+" and "/".
  lemma LetterIs(d: Digit)
    ensures d < 26 ==> Letter(d) == 'A' as int + d
    ensures 26 <= d < 52 ==> Letter(d) == 'a' as int + (d - 26)
    ensures 52 <= d < 62 ==> Letter(d) == '0' as int + (d - 52)
    ensures d == 62 ==> Letter(d) == '+' as int
    ensures d == 63 ==> Letter(d) == '/' as int
  {
  }

  // Exactly the letters of the alphabet and "=" are kept.
  lemma WhenLegal(c: Byte)
    ensures IsLegal(c) <==> c == '=' as int || exists d: Digit {:trigger Letter(d)} :: Letter(d) == c
    ensures Table(c) == -1 <==> forall d: Digit {:trigger Letter(d)} :: Letter(d) != c
  {
    if Table(c) != -1 {
      assert Letter(Table(c)) == c;
    }
  }

  // ----- encoding ------------------------------------------------------------------------------

  // Three bytes make four digits; one or two bytes at the end make two or three.
  function Digits(bytes: seq<Byte>): (ds: seq<Digit>)
    ensures |ds| == (4 * |bytes| + 2) / 3
  {
    if bytes == [] then []
    else if |bytes| == 1 then [bytes[0] / 4, bytes[0] % 4 * 16]
    else if |bytes| == 2 then [bytes[0] / 4, bytes[0] % 4 * 16 + bytes[1] / 16, bytes[1] % 16 * 4]
    else [bytes[0] / 4, bytes[0] % 4 * 16 + bytes[1] / 16, bytes[1] % 16 * 4 + bytes[2] / 64, bytes[2] % 64] + Digits(bytes[3..])
  }

  // The digits in a text, in which other characters may stand anywhere.
  function DigitsIn(text: seq<Byte>): seq<Digit> {
    if text == [] then []
    else if Table(text[0]) == -1 then DigitsIn(text[1..])
    else [Table(text[0])] + DigitsIn(text[1..])
  }

  function Encode(bytes: seq<Byte>): (r: seq<Byte>)
    ensures |r| == |Digits(bytes)|
  {
    seq(|Digits(bytes)|, i requires 0 <= i < |Digits(bytes)| => Letter(Digits(bytes)[i]))
  }

  // Three bytes are read as one number in base 256, and written in base 64.
  lemma GroupIsNumber(bytes: seq<Byte>)
    requires |bytes| >= 3
    ensures var d0: int, d1: int, d2: int, d3: int := Digits(bytes)[0], Digits(bytes)[1], Digits(bytes)[2], Digits(bytes)[3];
            var b0: int, b1: int, b2: int := bytes[0], bytes[1], bytes[2];
            d0 * 262144 + d1 * 4096 + d2 * 64 + d3 == b0 * 65536 + b1 * 256 + b2
    ensures Digits(bytes)[4..] == Digits(bytes[3..])
  {
  }

  // At the end the missing bytes are read as zero.
  lemma LastGroup(a: Byte, b: Byte)
    ensures Digits([a]) == Digits([a, 0, 0])[..2]
    ensures Digits([a, b]) == Digits([a, b, 0])[..3]
  {
    OneGroup(a, 0, 0);
    OneGroup(a, b, 0);
  }

  lemma OneGroup(a: Byte, b: Byte, c: Byte)
    ensures Digits([a, b, c]) == [a / 4, a % 4 * 16 + b / 16, b % 16 * 4 + c / 64, c % 64]
  {
    var three: seq<Byte> := [a, b, c];
    assert three[3..] == [] && Digits(three[3..]) == [];
  }

  // "=" up to a multiple of four letters.
  lemma PaddedLength(bytes: seq<Byte>)
    ensures (|Encode(bytes)| + |Padding(|bytes|)|) % 4 == 0 && |Padding(|bytes|)| < 3
    ensures forall c :: c in Padding(|bytes|) ==> c == '=' as int
  {
  }

  // The test vectors of section 10 of RFC 4648.
  lemma TestVectors()
    ensures var text: seq<Byte> := [102, 111, 111, 98, 97, 114];
            && Encode(text[..1]) + Padding(1) == [90, 103, 61, 61] && Encode(text[..2]) + Padding(2) == [90, 109, 56, 61]
            && Encode(text[..3]) + Padding(3) == [90, 109, 57, 118] && Encode(text) + Padding(6) == [90, 109, 57, 118, 89, 109, 70, 121]
  {
    var text: seq<Byte> := [102, 111, 111, 98, 97, 114];
    assert text[..1] == [102] && text[..2] == [102, 111] && text[..3] == [102, 111, 111];
    assert text[..3][3..] == [] && text[3..] == [98, 97, 114] && text[3..][3..] == [];
    assert Digits(text[..3]) == [25, 38, 61, 47] + [] && Digits(text[3..]) == [24, 38, 5, 50] + [];
    assert Digits(text) == [25, 38, 61, 47] + Digits(text[3..]);
  }

  function Padding(n: nat): seq<Byte> {
    if n % 3 == 0 then [] else if n % 3 == 1 then [61, 61] else [61]
  }

  // ----- decoding as a function -----------------------------------------------------------------

  datatype Decoder = Decoder(phase: int, last: Digit)

  // The three bytes of four digits.
  function First(a: Digit, b: Digit): Byte {
    a * 4 + b / 16
  }

  function Second(a: Digit, b: Digit): Byte {
    a % 16 * 16 + b / 4
  }

  function Third(a: Digit, b: Digit): Byte {
    a % 4 * 64 + b
  }

  // The byte that a digit completes.
  function Output(s: Decoder, d: Digit): (r: seq<Byte>)
    ensures |r| <= 1
  {
    if s.phase == 1 then [First(s.last, d)]
    else if s.phase == 2 then [Second(s.last, d)]
    else if s.phase == 3 then [Third(s.last, d)]
    else []
  }

  function Next(s: Decoder, d: Digit): Decoder {
    Decoder(if s.phase == 3 then 0 else s.phase + 1, d)
  }

  // What is decoded from the rest of a text.
  function Decoded(text: seq<Byte>, s: Decoder): (r: seq<Byte>)
    ensures |r| <= |text|
  {
    if text == [] then []
    else
      var d := Table(text[0]);
      if d == -1 then Decoded(text[1..], s) else Output(s, d) + Decoded(text[1..], Next(s, d))
  }

  function FromDigits(ds: seq<Digit>, s: Decoder): seq<Byte> {
    if ds == [] then [] else Output(s, ds[0]) + FromDigits(ds[1..], Next(s, ds[0]))
  }

  lemma {:induction false} OnlyDigitsCount(text: seq<Byte>, s: Decoder)
    ensures Decoded(text, s) == FromDigits(DigitsIn(text), s)
  {
    if text != [] {
      var d := Table(text[0]);
      if d == -1 {
        OnlyDigitsCount(text[1..], s);
      } else {
        OnlyDigitsCount(text[1..], Next(s, d));
        assert DigitsIn(text)[1..] == DigitsIn(text[1..]);
      }
    }
  }

  const INITIAL := Decoder(0, 0)

  lemma {:induction false} DecodeGroups(bytes: seq<Byte>, last: Digit)
    ensures FromDigits(Digits(bytes), Decoder(0, last)) == bytes
  {
    var ds := Digits(bytes);
    if |bytes| >= 3 {
      var rest := Digits(bytes[3..]);
      DecodeGroups(bytes[3..], ds[3]);
      DecodeFour(ds, last);
      assert ds[4..] == rest;
      assert bytes == [bytes[0], bytes[1], bytes[2]] + bytes[3..];
    } else if |bytes| == 2 {
      DecodeThree(ds, last);
    } else if |bytes| == 1 {
      DecodeTwo(ds, last);
    }
  }

  lemma DecodeTwo(ds: seq<Digit>, last: Digit)
    requires |ds| == 2
    ensures FromDigits(ds, Decoder(0, last)) == [First(ds[0], ds[1])]
  {
    assert ds[1..] == [ds[1]] && ds[1..][1..] == [];
    assert FromDigits(ds[1..], Decoder(1, ds[0])) == [First(ds[0], ds[1])] + FromDigits([], Decoder(2, ds[1]));
  }

  lemma DecodeThree(ds: seq<Digit>, last: Digit)
    requires |ds| == 3
    ensures FromDigits(ds, Decoder(0, last)) == [First(ds[0], ds[1]), Second(ds[1], ds[2])]
  {
    assert ds[1..][1..] == ds[2..] && ds[2..] == [ds[2]] && ds[2..][1..] == [];
    assert FromDigits(ds[2..], Decoder(2, ds[1])) == [Second(ds[1], ds[2])] + FromDigits([], Decoder(3, ds[2]));
    assert FromDigits(ds[1..], Decoder(1, ds[0])) == [First(ds[0], ds[1])] + FromDigits(ds[2..], Decoder(2, ds[1]));
  }

  lemma DecodeOne(ds: seq<Digit>, s: Decoder)
    requires ds != []
    ensures FromDigits(ds, s) == Output(s, ds[0]) + FromDigits(ds[1..], Next(s, ds[0]))
  {
  }

  lemma DecodeFour(ds: seq<Digit>, last: Digit)
    requires |ds| >= 4
    ensures FromDigits(ds, Decoder(0, last))
            == [First(ds[0], ds[1]), Second(ds[1], ds[2]), Third(ds[2], ds[3])] + FromDigits(ds[4..], Decoder(0, ds[3]))
  {
    assert ds[1..][1..] == ds[2..] && ds[2..][1..] == ds[3..] && ds[3..][1..] == ds[4..];
    var x, y, z, rest := First(ds[0], ds[1]), Second(ds[1], ds[2]), Third(ds[2], ds[3]), FromDigits(ds[4..], Decoder(0, ds[3]));
    calc {
      FromDigits(ds, Decoder(0, last));
      { DecodeOne(ds, Decoder(0, last)); }
      FromDigits(ds[1..], Decoder(1, ds[0]));
      { DecodeOne(ds[1..], Decoder(1, ds[0])); }
      [x] + FromDigits(ds[2..], Decoder(2, ds[1]));
      { DecodeOne(ds[2..], Decoder(2, ds[1])); }
      [x] + ([y] + FromDigits(ds[3..], Decoder(3, ds[2])));
      { DecodeOne(ds[3..], Decoder(3, ds[2])); }
      [x] + ([y] + ([z] + rest));
      [x, y, z] + rest;
    }
  }

  // Decoding gives back the bytes, whatever stands between the digits of their encoding.
  lemma RoundTrip(bytes: seq<Byte>, text: seq<Byte>)
    requires DigitsIn(text) == Digits(bytes)
    ensures Decoded(text, INITIAL) == bytes
  {
    OnlyDigitsCount(text, INITIAL);
    DecodeGroups(bytes, 0);
  }

  lemma {:induction false} DigitsInConcat(a: seq<Byte>, b: seq<Byte>)
    ensures DigitsIn(a + b) == DigitsIn(a) + DigitsIn(b)
  {
    if a == [] {
      assert a + b == b;
    } else {
      assert (a + b)[1..] == a[1..] + b;
      DigitsInConcat(a[1..], b);
    }
  }

  lemma {:induction false} DigitsInLetters(text: seq<Byte>, ds: seq<Digit>)
    requires |text| == |ds| && forall i :: 0 <= i < |ds| ==> text[i] == Letter(ds[i])
    ensures DigitsIn(text) == ds
  {
    if text != [] {
      DigitsInLetters(text[1..], ds[1..]);
    }
  }

  // The encoding itself, with or without padding.
  lemma EncodeDecode(bytes: seq<Byte>)
    ensures Decoded(Encode(bytes), INITIAL) == bytes
    ensures Decoded(Encode(bytes) + Padding(|bytes|), INITIAL) == bytes
  {
    DigitsInLetters(Encode(bytes), Digits(bytes));
    RoundTrip(bytes, Encode(bytes));
    DigitsInConcat(Encode(bytes), Padding(|bytes|));
    NoDigitsInPadding(|bytes|);
    RoundTrip(bytes, Encode(bytes) + Padding(|bytes|));
  }

  lemma NoDigitsInPadding(n: nat)
    ensures DigitsIn(Padding(n)) == []
  {
    assert [61, 61][1..] == [61] && [61][1..] == [];
    assert DigitsIn([61]) == DigitsIn([61][1..]);
  }

  // ----- removing illegal characters ---------------------------------------------------------------

  function Stripped(text: seq<Byte>): (r: seq<Byte>)
    ensures |r| <= |text| && forall c :: c in r ==> IsLegal(c)
  {
    if text == [] then []
    else
      var rest, c := Stripped(text[..|text| - 1]), text[|text| - 1];
      if IsLegal(c) then rest + [c] else rest
  }

  lemma {:induction false} StripKeepsDigits(text: seq<Byte>)
    ensures DigitsIn(Stripped(text)) == DigitsIn(text)
  {
    if text != [] {
      var rest, c := text[..|text| - 1], text[|text| - 1];
      StripKeepsDigits(rest);
      DigitsInConcat(rest, [c]);
      DigitsInConcat(Stripped(rest), [c]);
      assert text == rest + [c];
      assert [c][1..] == [];
    }
  }

  // Removing illegal characters first changes nothing.
  lemma StripChangesNothing(text: seq<Byte>)
    ensures Decoded(Stripped(text), INITIAL) == Decoded(text, INITIAL)
  {
    OnlyDigitsCount(text, INITIAL);
    OnlyDigitsCount(Stripped(text), INITIAL);
    StripKeepsDigits(text);
  }

  // ----- the in-place algorithms -------------------------------------------------------------------

  // A C string in an array.
  ghost predicate IsString(a: seq<Byte>, n: nat) {
    n < |a| && a[n] == 0 && 0 !in a[..n]
  }

  method StripIllegalChars(a: array<Byte>, ghost n: nat) returns (ghost len: nat)
    requires IsString(a[..], n)
    modifies a
    ensures len <= n && IsString(a[..], len) && a[..len] == Stripped(old(a[..n]))
  {
    var p, s: nat := 0, 0;
    while true
      invariant 0 <= p <= s <= n < a.Length && p == |Stripped(old(a[..s]))| && a[..p] == Stripped(old(a[..s]))
      invariant forall k {:trigger a[k]} :: s <= k < a.Length ==> a[k] == old(a[k])
      decreases n - s
    {
      a[p] := a[s];
      if a[p] == 0 {
        break;
      }
      assert old(a[..s + 1])[..s] == old(a[..s]);
      if IsLegal(a[p]) {
        p := p + 1;
      }
      s := s + 1;
    }
    len := p;
  }

  // What has been decoded before a place, and the state there.
  function StateAt(text: seq<Byte>, s: Decoder): Decoder {
    if text == [] then s
    else
      var t, d := StateAt(text[..|text| - 1], s), Table(text[|text| - 1]);
      if d == -1 then t else Next(t, d)
  }

  lemma {:induction false} DecodedConcat(a: seq<Byte>, b: seq<Byte>, s: Decoder)
    ensures Decoded(a + b, s) == Decoded(a, s) + Decoded(b, StateAt(a, s))
    decreases |a|
  {
    if a == [] {
      assert a + b == b;
    } else {
      var d := Table(a[0]);
      var t := if d == -1 then s else Next(s, d);
      assert (a + b)[1..] == a[1..] + b;
      StateAtFirst(a, s);
      DecodedConcat(a[1..], b, t);
    }
  }

  lemma {:induction false} StateAtFirst(a: seq<Byte>, s: Decoder)
    requires a != []
    ensures StateAt(a, s) == StateAt(a[1..], if Table(a[0]) == -1 then s else Next(s, Table(a[0])))
    decreases |a|
  {
    if |a| > 1 {
      StateAtFirst(a[..|a| - 1], s);
      assert a[1..][..|a| - 2] == a[..|a| - 1][1..];
    } else {
      assert a[..0] == [] && a[1..] == [];
    }
  }

  lemma DecodedNext(text: seq<Byte>, c: Byte, s: Decoder)
    ensures var t, d := StateAt(text, s), Table(c);
            && Decoded(text + [c], s) == Decoded(text, s) + (if d == -1 then [] else Output(t, d))
            && StateAt(text + [c], s) == if d == -1 then t else Next(t, d)
  {
    DecodedConcat(text, [c], s);
    assert [c][1..] == [];
    assert (text + [c])[..|text|] == text;
  }

  method DecodeDigit(a: array<Byte>, str0: nat, phase0: int, dlast: Digit, d: Digit) returns (str: nat, phase: int)
    requires str0 < a.Length && 0 <= phase0 <= 3
    modifies a
    ensures Decoder(phase, d) == Next(Decoder(phase0, dlast), d) && 0 <= phase <= 3
    ensures str0 <= str <= str0 + 1 && a[..str] == old(a[..str0]) + Output(Decoder(phase0, dlast), d)
    ensures forall k {:trigger a[k]} :: str <= k < a.Length ==> a[k] == old(a[k])
  {
    str, phase := str0, phase0;
    if phase == 0 {
      phase := phase + 1;
    } else if phase == 1 {
      a[str] := First(dlast, d);
      str := str + 1;
      phase := phase + 1;
    } else if phase == 2 {
      a[str] := Second(dlast, d);
      str := str + 1;
      phase := phase + 1;
    } else {
      a[str] := Third(dlast, d);
      str := str + 1;
      phase := 0;
    }
  }

  // The write position never passes the read position.
  method Decode(a: array<Byte>, ghost n: nat) returns (len: nat)
    requires IsString(a[..], n)
    modifies a
    ensures len <= n && a[..len] == Decoded(old(a[..n]), INITIAL) && a[len] == 0
    ensures a[len + 1..] == old(a[len + 1..])
  {
    var str, cur: nat := 0, 0;
    var phase, dlast: Digit := 0, 0;
    while a[cur] != 0
      invariant 0 <= str <= cur <= n < a.Length && forall k {:trigger a[k]} :: str <= k < a.Length ==> a[k] == old(a[k])
      invariant a[..str] == Decoded(old(a[..cur]), INITIAL) && Decoder(phase, dlast) == StateAt(old(a[..cur]), INITIAL) && 0 <= phase <= 3
      decreases n - cur
    {
      var c := a[cur];
      assert c == old(a[cur]);
      DecodedNext(old(a[..cur]), c, INITIAL);
      assert old(a[..cur + 1]) == old(a[..cur]) + [c];
      var d := Table(c);
      if d != -1 {
        str, phase := DecodeDigit(a, str, phase, dlast, d);
        dlast := d;
      }
      cur := cur + 1;
    }
    a[str] := 0;
    len := str;
  }

  // datauri_get_data, for data in base64: what has been encoded is found, whatever has been
  // put between the letters.
  method GetData(data: array<Byte>, ghost n: nat, ghost bytes: seq<Byte>) returns (size: nat)
    requires IsString(data[..], n) && DigitsIn(data[..n]) == Digits(bytes)
    modifies data
    ensures size == |bytes| < data.Length && data[..size] == bytes && data[size] == 0
  {
    StripChangesNothing(data[..n]);
    RoundTrip(bytes, data[..n]);
    ghost var len := StripIllegalChars(data, n);
    size := Decode(data, len);
  }
}
