// Which rows of an image belong to which rows of the scaled image:
// dw/fltkimgbuf.cc:249-293, 315-354, 568-584.
module ImageRows {
  // ----- floor division ------------------------------------------------------------------

  lemma DivAtLeast(a: nat, b: nat, q: nat)
    requires b > 0
    ensures q <= a / b <==> q * b <= a
  {
    if q <= a / b {
      assert q * b <= a / b * b;
    } else {
      assert (a / b + 1) * b <= q * b;
    }
  }

  lemma DivIs(a: nat, b: nat, q: nat)
    requires b > 0
    ensures a / b == q <==> q * b <= a < (q + 1) * b
  {
    DivAtLeast(a, b, q);
    DivAtLeast(a, b, q + 1);
  }

  // ----- scaledY and backscaledY -------------------------------------------------------------

  // h is the height of the root image, height that of the scaled one.
  function ScaledY(row: nat, h: nat, height: nat): nat
    requires h > 0
  {
    row * height / h
  }

  function BackscaledY(s: nat, h: nat, height: nat): nat
    requires height > 0
  {
    s * h / height
  }

  // The root row after which a scaled row is complete.
  function LastRow(s: nat, h: nat, height: nat): nat
    requires height > 0 && h > 0
  {
    ((s + 1) * h - 1) / height
  }

  lemma LastRowIs(s: nat, row: nat, h: nat, height: nat)
    requires height > 0 && h > 0
    ensures LastRow(s, h, height) == row <==> row * height < (s + 1) * h <= (row + 1) * height
  {
    DivIs((s + 1) * h - 1, height, row);
  }

  // The scaled rows from scaledY(row) up to scaledY(row + 1) are those completed by the row.
  lemma RowsOf(s: nat, row: nat, h: nat, height: nat)
    requires height > 0 && h > 0
    ensures ScaledY(row, h, height) <= s < ScaledY(row + 1, h, height) <==> LastRow(s, h, height) == row
  {
    LastRowIs(s, row, h, height);
    DivAtLeast(row * height, h, s + 1);
    DivAtLeast((row + 1) * height, h, s + 1);
  }

  lemma MulPlus(a: int, b: int)
    ensures (a + 1) * b == a * b + b
  {
  }

  lemma MulLess(a: int, b: int, c: int)
    requires a < b && c > 0
    ensures a * c < b * c && a * c + c <= b * c
  {
    MulPlus(a, c);
    assert (a + 1) * c <= b * c;
  }

  lemma LastRowInImage(s: nat, h: nat, height: nat)
    requires height > 0 && h > 0 && s < height
    ensures LastRow(s, h, height) < h
  {
    MulLess(s, height, h);
    MulPlus(s, h);
    DivAtLeast((s + 1) * h - 1, height, h);
  }

  // ----- not more rows than in the root image ----------------------------------------------------

  lemma ScaledInRange(row: nat, h: nat, height: nat)
    requires 0 < height && row < h
    ensures ScaledY(row, h, height) < height
  {
    MulLess(row, h, height);
    DivAtLeast(row * height, h, height);
  }

  // Each root row belongs to at most one scaled row.
  lemma NextScaled(row: nat, h: nat, height: nat)
    requires 0 < height <= h
    ensures ScaledY(row + 1, h, height) <= ScaledY(row, h, height) + 1
  {
    var s := ScaledY(row, h, height);
    DivIs(row * height, h, s);
    DivAtLeast((row + 1) * height, h, s + 2);
    MulPlus(row, height);
    MulPlus(s + 1, h);
  }

  lemma ScaledIsMonotone(row: nat, h: nat, height: nat)
    requires 0 < height && 0 < h
    ensures ScaledY(row, h, height) <= ScaledY(row + 1, h, height)
  {
    var s := ScaledY(row, h, height);
    DivIs(row * height, h, s);
    DivAtLeast((row + 1) * height, h, s);
    MulPlus(row, height);
  }

  // A scaled row is made of a block of root rows.
  lemma BlockIsNotEmpty(s: nat, h: nat, height: nat)
    requires 0 < height <= h
    ensures BackscaledY(s, h, height) < BackscaledY(s + 1, h, height)
  {
    var b := BackscaledY(s, h, height);
    DivIs(s * h, height, b);
    DivAtLeast((s + 1) * h, height, b + 1);
    MulPlus(s, h);
    MulPlus(b, height);
  }

  lemma BackInRange(s: nat, h: nat, height: nat)
    requires 0 < height && 0 < h && s <= height
    ensures BackscaledY(s, h, height) <= h
  {
    DivAtLeast(s * h, height, h + 1);
    MulPlus(h, height);
    if s < height {
      MulLess(s, height, h);
    }
  }

  // When its last row has arrived, all of the block has.
  lemma BlockIsComplete(s: nat, h: nat, height: nat)
    requires 0 < height && 0 < h
    ensures BackscaledY(s + 1, h, height) <= LastRow(s, h, height) + 1
  {
    var r := LastRow(s, h, height);
    LastRowIs(s, r, h, height);
    DivAtLeast((s + 1) * h, height, r + 2);
    MulPlus(r + 1, height);
  }

  lemma LastRowScales(s: nat, h: nat, height: nat)
    requires 0 < height <= h
    ensures ScaledY(LastRow(s, h, height), h, height) == s
  {
    var r := LastRow(s, h, height);
    LastRowIs(s, r, h, height);
    DivIs(r * height, h, s);
    MulPlus(r, height);
    MulPlus(s, h);
  }

  // ----- more rows than in the root image ---------------------------------------------------------

  lemma UpRow(row: nat, h: nat, height: nat)
    requires 0 < h < height
    ensures ScaledY(row, h, height) < ScaledY(row + 1, h, height)
  {
    var s := ScaledY(row, h, height);
    DivIs(row * height, h, s);
    DivAtLeast((row + 1) * height, h, s + 1);
    MulPlus(row, height);
    MulPlus(s, h);
  }

  lemma UpInRange(row: nat, h: nat, height: nat)
    requires 0 < h && 0 < height && row < h
    ensures ScaledY(row + 1, h, height) <= height
  {
    DivAtLeast((row + 1) * height, h, height + 1);
    MulLess(row, h, height);
    MulPlus(row, height);
    MulPlus(height, h);
  }

  // The whole image in one step takes the root row backscaledY(s) for a scaled row s; this is
  // the row that has been scaled to s, for all rows, exactly if the height is a multiple.
  lemma MultipleIsExact(s: nat, h: nat, m: nat)
    requires 0 < h && 0 < m
    ensures BackscaledY(s, h, m * h) == LastRow(s, h, m * h) == s / m
  {
    var q := s / m;
    DivIs(s, m, q);
    MulPlus(q, m);
    Products(s, h, m, q);
    DivIs(s * h, m * h, q);
    LastRowIs(s, q, h, m * h);
  }

  lemma Products(s: nat, h: nat, m: nat, q: nat)
    requires 0 < h && q * m <= s < q * m + m
    ensures q * (m * h) <= s * h < (s + 1) * h <= (q + 1) * (m * h)
  {
    assert q * (m * h) == q * m * h;
    assert (q + 1) * (m * h) == (q * m + m) * h;
    if q * m < s {
      MulLess(q * m, s, h);
    }
    if s + 1 < q * m + m {
      MulLess(s + 1, q * m + m, h);
    }
    MulPlus(s, h);
  }

  lemma OtherwiseNotExact(h: nat, height: nat)
    requires 0 < h < height && height % h != 0
    ensures var s := height / h; s < height && BackscaledY(s, h, height) == 0 && LastRow(s, h, height) == 1
  {
    var s := height / h;
    NotMultiple(h, height);
    DivIs(s * h, height, 0);
    LastRowIs(s, 1, h, height);
  }

  lemma NotMultiple(h: nat, height: nat)
    requires 0 < h < height && height % h != 0
    ensures var s := height / h; s < height && s * h < height < (s + 1) * h <= 2 * height
  {
    var s := height / h;
    DivIs(height, h, s);
    assert s * h != height;
    MulPlus(s, h);
    DivAtLeast(height, h, height);
    MulLess(1, h, height);
  }
}
