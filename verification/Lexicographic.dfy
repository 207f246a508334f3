// Lexicographic order on sequences of numbers.
module Lexicographic {
  // Lexicographic order; a prefix comes first.
  function LexSign(a: seq<int>, b: seq<int>): (r: int)
    ensures -1 <= r <= 1
  {
    if a == [] then if b == [] then 0 else -1
    else if b == [] then 1
    else if a[0] != b[0] then if a[0] < b[0] then -1 else 1
    else LexSign(a[1..], b[1..])
  }

  function Sign(n: int): int {
    if n < 0 then -1 else if n > 0 then 1 else 0
  }

  lemma {:induction false} LexReverse(a: seq<int>, b: seq<int>)
    ensures LexSign(b, a) == -LexSign(a, b)
  {
    if a != [] && b != [] && a[0] == b[0] {
      LexReverse(a[1..], b[1..]);
    }
  }

  lemma {:induction false} LexEqual(a: seq<int>, b: seq<int>)
    ensures LexSign(a, b) == 0 <==> a == b
  {
    if a != [] && b != [] && a[0] == b[0] {
      LexEqual(a[1..], b[1..]);
      assert a == [a[0]] + a[1..] && b == [b[0]] + b[1..];
    }
  }

  lemma {:induction false} LexTransitive(a: seq<int>, b: seq<int>, c: seq<int>)
    requires LexSign(a, b) <= 0 && LexSign(b, c) <= 0
    ensures LexSign(a, c) <= 0
    ensures LexSign(a, b) < 0 || LexSign(b, c) < 0 ==> LexSign(a, c) < 0
  {
    if a != [] && b != [] && c != [] && a[0] == b[0] == c[0] {
      LexTransitive(a[1..], b[1..], c[1..]);
    }
  }

  lemma {:induction false} LexCommonPrefix(p: seq<int>, a: seq<int>, b: seq<int>)
    ensures LexSign(p + a, p + b) == LexSign(a, b)
  {
    if p == [] {
      assert p + a == a && p + b == b;
    } else {
      assert (p + a)[1..] == p[1..] + a && (p + b)[1..] == p[1..] + b;
      LexCommonPrefix(p[1..], a, b);
    }
  }

  // If neither is a prefix of the other, what follows does not matter.
  lemma {:induction false} LexExtend(a: seq<int>, b: seq<int>, x: seq<int>, y: seq<int>)
    requires !(a <= b) && !(b <= a)
    ensures LexSign(a + x, b + y) == LexSign(a, b)
  {
    assert (a + x)[0] == a[0] && (b + y)[0] == b[0];
    if a[0] == b[0] {
      assert (a + x)[1..] == a[1..] + x && (b + y)[1..] == b[1..] + y;
      assert a == [a[0]] + a[1..] && b == [b[0]] + b[1..];
      LexExtend(a[1..], b[1..], x, y);
    }
  }
}
