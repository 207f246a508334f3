// The values of scaled pixels, and how they are computed: dw/fltkimgbuf.cc:249-354, 568-584.
//
// An image is a list of rows; ImageBytes has the bytes of a buffer.  The gamma tables are arbitrary
// functions on bytes.
module ImageScaling {
  import opened Common
  import opened ImageRows

  type Pixel = seq<Byte>
  type Row = seq<Pixel>
  type Table = Byte -> Byte

  predicate IsRow(row: Row, width: nat, bpp: nat) {
    |row| == width && forall x {:trigger row[x]} :: 0 <= x < width ==> |row[x]| == bpp
  }

  predicate IsImage(rows: seq<Row>, width: nat, bpp: nat) {
    forall y {:trigger rows[y]} :: 0 <= y < |rows| ==> IsRow(rows[y], width, bpp)
  }

  // ----- the value of a scaled pixel ---------------------------------------------------------

  function ColumnSum(src: seq<Row>, width: nat, bpp: nat, table: Table, i: nat, x: nat, y1: nat, y2: nat): (n: nat)
    requires IsImage(src, width, bpp) && i < bpp && x < width && y1 <= y2 <= |src|
    ensures n <= 255 * (y2 - y1)
  {
    if y1 == y2 then 0
    else
      assert IsRow(src[y2 - 1], width, bpp);
      ColumnSum(src, width, bpp, table, i, x, y1, y2 - 1) + table(src[y2 - 1][x][i])
  }

  function BlockSum(src: seq<Row>, width: nat, bpp: nat, table: Table, i: nat, x1: nat, x2: nat, y1: nat, y2: nat): (n: nat)
    requires IsImage(src, width, bpp) && i < bpp && x1 <= x2 <= width && y1 <= y2 <= |src|
    ensures n <= 255 * ((x2 - x1) * (y2 - y1))
  {
    if x1 == x2 then 0
    else
      MulPlus(x2 - 1 - x1, y2 - y1);
      BlockSum(src, width, bpp, table, i, x1, x2 - 1, y1, y2) + ColumnSum(src, width, bpp, table, i, x2 - 1, y1, y2)
  }

  // The columns of the source for a column of the destination; the same for rows.
  function First(x: nat, srcSize: nat, destSize: nat): nat
    requires destSize > 0
  {
    x * srcSize / destSize
  }

  function End(x: nat, srcSize: nat, destSize: nat): nat
    requires destSize > 0
  {
    Max((x + 1) * srcSize / destSize, First(x, srcSize, destSize) + 1)
  }

  lemma RangeInside(x: nat, srcSize: nat, destSize: nat)
    requires x < destSize && srcSize > 0
    ensures First(x, srcSize, destSize) < End(x, srcSize, destSize) <= srcSize
  {
    ScaledInRange(x, destSize, srcSize);
    BackInRange(x + 1, srcSize, destSize);
  }

  // With at most as many columns as there are in the source, each one of the source belongs to
  // exactly one; with more, each one is made from the one at its relative place.
  lemma RangesPartition(x: nat, srcSize: nat, destSize: nat)
    requires x < destSize && srcSize > 0
    ensures First(0, srcSize, destSize) == 0
    ensures destSize <= srcSize ==> End(x, srcSize, destSize) == First(x + 1, srcSize, destSize)
    ensures destSize <= srcSize ==> End(destSize - 1, srcSize, destSize) == srcSize
    ensures destSize > srcSize ==> End(x, srcSize, destSize) == First(x, srcSize, destSize) + 1
    ensures First(x, srcSize, destSize) * destSize <= x * srcSize < First(x, srcSize, destSize) * destSize + destSize
  {
    var a := First(x, srcSize, destSize);
    DivIs(x * srcSize, destSize, a);
    MulPlus(a, destSize);
    MulPlus(x, srcSize);
    DivIs(0, destSize, 0);
    DivIs(destSize * srcSize, destSize, srcSize);
    MulPlus(srcSize, destSize);
    DivAtLeast((x + 1) * srcSize, destSize, a + 1);
    DivAtLeast((x + 1) * srcSize, destSize, a + 2);
    MulPlus(a + 1, destSize);
    RangeInside(destSize - 1, srcSize, destSize);
  }

  // The mean of n bytes.
  function Mean(sum: nat, n: nat): (m: Byte)
    requires n > 0 && sum <= 255 * n
    ensures m * n <= sum < m * n + n
  {
    DivAtLeast(sum, n, 256);
    sum / n
  }

  function Area(x1: nat, x2: nat, y1: nat, y2: nat): (n: nat)
    requires x1 < x2 && y1 < y2
    ensures n > 0
  {
    MulLess(0, x2 - x1, y2 - y1);
    (x2 - x1) * (y2 - y1)
  }

  function ScaledByte(src: seq<Row>, width: nat, bpp: nat, table1: Table, table2: Table, i: nat, x1: nat, x2: nat, y1: nat, y2: nat): Byte
    requires IsImage(src, width, bpp) && i < bpp && x1 < x2 <= width && y1 < y2 <= |src|
  {
    var b: Byte := Mean(BlockSum(src, width, bpp, table2, i, x1, x2, y1, y2), Area(x1, x2, y1, y2));
    table1(b)
  }

  function ScaledPixel(src: seq<Row>, width: nat, bpp: nat, table1: Table, table2: Table, x1: nat, x2: nat, y1: nat, y2: nat): Pixel
    requires IsImage(src, width, bpp) && x1 < x2 <= width && y1 < y2 <= |src|
  {
    seq(bpp, i requires 0 <= i < bpp => ScaledByte(src, width, bpp, table1, table2, i, x1, x2, y1, y2))
  }

  // A row of the destination, made of the rows y1 to y2 of the source.
  function ScaledRow(src: seq<Row>, width: nat, destWidth: nat, bpp: nat, table1: Table, table2: Table, y1: nat, y2: nat): (r: Row)
    requires IsImage(src, width, bpp) && y1 < y2 <= |src| && width > 0 && destWidth > 0
    ensures IsRow(r, destWidth, bpp)
  {
    seq(destWidth, x requires 0 <= x < destWidth =>
      RangeInside(x, width, destWidth);
      ScaledPixel(src, width, bpp, table1, table2, First(x, width, destWidth), End(x, width, destWidth), y1, y2))
  }

  // ----- what scaleBuffer computes ---------------------------------------------------------------

  // The row y of destHeight rows made from all of src.
  function ScaledFrom(src: seq<Row>, width: nat, destWidth: nat, destHeight: nat, bpp: nat, table1: Table, table2: Table, y: nat): (r: Row)
    requires IsImage(src, width, bpp) && |src| > 0 && width > 0 && destWidth > 0 && y < destHeight
    ensures IsRow(r, destWidth, bpp)
  {
    RangeInside(y, |src|, destHeight);
    ScaledRow(src, width, destWidth, bpp, table1, table2, First(y, |src|, destHeight), End(y, |src|, destHeight))
  }

  // The rows after all of src has been scaled to some of them.
  function ScaledInto(rows: seq<Row>, src: seq<Row>, width: nat, destRow: nat, destWidth: nat, destHeight: nat,
                      bpp: nat, table1: Table, table2: Table): (r: seq<Row>)
    requires IsImage(src, width, bpp) && |src| > 0 && width > 0 && destWidth > 0
    requires destRow + destHeight <= |rows| && IsImage(rows, destWidth, bpp)
    ensures |r| == |rows|
  {
    seq(|rows|, q requires 0 <= q < |rows| =>
      if destRow <= q < destRow + destHeight then ScaledFrom(src, width, destWidth, destHeight, bpp, table1, table2, q - destRow)
      else rows[q])
  }

  lemma ScaledIntoAt(rows: seq<Row>, src: seq<Row>, width: nat, destRow: nat, destWidth: nat, destHeight: nat,
                     bpp: nat, table1: Table, table2: Table, q: nat)
    requires IsImage(src, width, bpp) && |src| > 0 && width > 0 && destWidth > 0
    requires destRow + destHeight <= |rows| && IsImage(rows, destWidth, bpp) && q < |rows|
    ensures var r := ScaledInto(rows, src, width, destRow, destWidth, destHeight, bpp, table1, table2);
            && IsRow(r[q], destWidth, bpp)
            && r[q] == if destRow <= q < destRow + destHeight then ScaledFrom(src, width, destWidth, destHeight, bpp, table1, table2, q - destRow)
                       else rows[q]
  {
    var r := ScaledInto(rows, src, width, destRow, destWidth, destHeight, bpp, table1, table2);
    assert IsRow(rows[q], destWidth, bpp);
    assert r[q] == if destRow <= q < destRow + destHeight then ScaledFrom(src, width, destWidth, destHeight, bpp, table1, table2, q - destRow)
                   else rows[q];
  }

  // ----- which bytes a scaled pixel depends on -----------------------------------------------------

  // The pixels of the rectangle are the same.
  predicate SameInside(a: seq<Row>, b: seq<Row>, width: nat, bpp: nat, x1: nat, x2: nat, y1: nat, y2: nat)
    requires IsImage(a, width, bpp) && IsImage(b, width, bpp) && x2 <= width && y2 <= |a| && y2 <= |b|
  {
    forall x, y {:trigger a[y][x]} {:trigger b[y][x]} :: x1 <= x < x2 && y1 <= y < y2 ==> IsRow(a[y], width, bpp) && IsRow(b[y], width, bpp) && a[y][x] == b[y][x]
  }

  lemma {:induction false} ColumnInside(a: seq<Row>, b: seq<Row>, width: nat, bpp: nat, table: Table, i: nat, x1: nat, x2: nat, x: nat, y1: nat, y2: nat)
    requires IsImage(a, width, bpp) && IsImage(b, width, bpp) && i < bpp && x1 <= x < x2 <= width && y1 <= y2 <= |a| && y2 <= |b|
    requires SameInside(a, b, width, bpp, x1, x2, y1, y2)
    ensures ColumnSum(a, width, bpp, table, i, x, y1, y2) == ColumnSum(b, width, bpp, table, i, x, y1, y2)
    decreases y2
  {
    if y1 < y2 {
      assert a[y2 - 1][x] == b[y2 - 1][x];
      ColumnInside(a, b, width, bpp, table, i, x1, x2, x, y1, y2 - 1);
    }
  }

  lemma {:induction false} BlockInsideOnly(a: seq<Row>, b: seq<Row>, width: nat, bpp: nat, table: Table, i: nat, x1: nat, x2: nat, y1: nat, y2: nat, x3: nat)
    requires IsImage(a, width, bpp) && IsImage(b, width, bpp) && i < bpp && x1 <= x3 <= x2 <= width && y1 <= y2 <= |a| && y2 <= |b|
    requires SameInside(a, b, width, bpp, x1, x2, y1, y2)
    ensures BlockSum(a, width, bpp, table, i, x1, x3, y1, y2) == BlockSum(b, width, bpp, table, i, x1, x3, y1, y2)
    decreases x3
  {
    if x1 < x3 {
      BlockInsideOnly(a, b, width, bpp, table, i, x1, x2, y1, y2, x3 - 1);
      ColumnInside(a, b, width, bpp, table, i, x1, x2, x3 - 1, y1, y2);
    }
  }

  // Pixels outside of the rectangle do not matter.
  lemma OutsideIsIrrelevant(a: seq<Row>, b: seq<Row>, width: nat, bpp: nat, table1: Table, table2: Table, i: nat, x1: nat, x2: nat, y1: nat, y2: nat)
    requires IsImage(a, width, bpp) && IsImage(b, width, bpp) && i < bpp && x1 < x2 <= width && y1 < y2 <= |a| && y2 <= |b|
    requires forall x, y {:trigger a[y][x]} {:trigger b[y][x]} :: x1 <= x < x2 && y1 <= y < y2 ==>
               IsRow(a[y], width, bpp) && IsRow(b[y], width, bpp) && a[y][x] == b[y][x]
    ensures ScaledByte(a, width, bpp, table1, table2, i, x1, x2, y1, y2) == ScaledByte(b, width, bpp, table1, table2, i, x1, x2, y1, y2)
  {
    BlockInsideOnly(a, b, width, bpp, table2, i, x1, x2, y1, y2, x2);
  }

  lemma {:induction false} UniformColumn(src: seq<Row>, width: nat, bpp: nat, table: Table, i: nat, x: nat, y1: nat, y2: nat, b: Byte)
    requires IsImage(src, width, bpp) && i < bpp && x < width && y1 <= y2 <= |src|
    requires forall y {:trigger src[y]} :: y1 <= y < y2 ==> IsRow(src[y], width, bpp) && src[y][x][i] == b
    ensures ColumnSum(src, width, bpp, table, i, x, y1, y2) == table(b) * (y2 - y1)
    decreases y2
  {
    if y1 < y2 {
      UniformColumn(src, width, bpp, table, i, x, y1, y2 - 1, b);
      assert src[y2 - 1][x][i] == b;
      MulPlusOne(table(b), y2 - 1 - y1);
    }
  }

  lemma MulPlusOne(a: nat, n: nat)
    ensures a * (n + 1) == a * n + a
  {
  }

  lemma {:induction false} UniformBlock(src: seq<Row>, width: nat, bpp: nat, table: Table, i: nat, x1: nat, x2: nat, y1: nat, y2: nat, b: Byte)
    requires IsImage(src, width, bpp) && i < bpp && x1 <= x2 <= width && y1 <= y2 <= |src|
    requires forall x, y {:trigger src[y][x]} :: x1 <= x < x2 && y1 <= y < y2 ==> IsRow(src[y], width, bpp) && src[y][x][i] == b
    ensures BlockSum(src, width, bpp, table, i, x1, x2, y1, y2) == table(b) * ((x2 - x1) * (y2 - y1))
    decreases x2
  {
    if x1 < x2 {
      UniformBlock(src, width, bpp, table, i, x1, x2 - 1, y1, y2, b);
      forall y {:trigger src[y]} | y1 <= y < y2 ensures IsRow(src[y], width, bpp) && src[y][x2 - 1][i] == b {
        assert IsRow(src[y], width, bpp) && src[y][x2 - 1] == src[y][x2 - 1];
      }
      UniformColumn(src, width, bpp, table, i, x2 - 1, y1, y2, b);
      MulPlus(x2 - 1 - x1, y2 - y1);
      Distribute(table(b), (x2 - 1 - x1) * (y2 - y1), y2 - y1);
    }
  }

  lemma Distribute(a: nat, m: nat, n: nat)
    ensures a * (m + n) == a * m + a * n
  {
  }

  lemma MeanOfSame(b: Byte, n: nat)
    requires n > 0 && b * n <= 255 * n
    ensures Mean(b * n, n) == b
  {
    DivIs(b * n, n, b);
    MulPlus(b, n);
  }

  // A rectangle in one colour is scaled to it, through both tables.
  lemma UniformIsKept(src: seq<Row>, width: nat, bpp: nat, table1: Table, table2: Table, i: nat, x1: nat, x2: nat, y1: nat, y2: nat, b: Byte)
    requires IsImage(src, width, bpp) && i < bpp && x1 < x2 <= width && y1 < y2 <= |src|
    requires forall x, y {:trigger src[y][x]} :: x1 <= x < x2 && y1 <= y < y2 ==> IsRow(src[y], width, bpp) && src[y][x][i] == b
    ensures ScaledByte(src, width, bpp, table1, table2, i, x1, x2, y1, y2) == table1(table2(b))
  {
    UniformBlock(src, width, bpp, table2, i, x1, x2, y1, y2, b);
    MeanOfSame(table2(b), Area(x1, x2, y1, y2));
  }

  // Without scaling a row stays as it is.
  lemma IdentityRow(img: seq<Row>, width: nat, bpp: nat, y: nat)
    requires IsImage(img, width, bpp) && width > 0 && y < |img|
    ensures ScaledRow(img, width, width, bpp, Same, Same, y, y + 1) == img[y]
  {
    var r := ScaledRow(img, width, width, bpp, Same, Same, y, y + 1);
    assert IsRow(img[y], width, bpp);
    forall x | 0 <= x < width ensures r[x] == img[y][x] {
      OwnColumn(x, width);
      forall i | 0 <= i < bpp ensures r[x][i] == img[y][x][i] {
        UniformIsKept(img, width, bpp, Same, Same, i, x, x + 1, y, y + 1, img[y][x][i]);
      }
    }
  }

  lemma OwnColumn(x: nat, width: nat)
    requires x < width
    ensures First(x, width, width) == x && End(x, width, width) == x + 1
  {
    DivIs(x * width, width, x);
    DivIs((x + 1) * width, width, x + 1);
    MulPlus(x, width);
    MulPlus(x + 1, width);
  }

  // ----- one byte of the rectangle --------------------------------------------------------------

  predicate DifferAt(a: seq<Row>, b: seq<Row>, width: nat, bpp: nat, i: nat, x: nat, y: nat)
    requires IsImage(a, width, bpp) && IsImage(b, width, bpp) && i < bpp && x < width && |a| == |b|
  {
    forall x', y' {:trigger a[y'][x']} {:trigger b[y'][x']} :: 0 <= x' < width && 0 <= y' < |a| && (x', y') != (x, y) ==>
      IsRow(a[y'], width, bpp) && IsRow(b[y'], width, bpp) && a[y'][x'][i] == b[y'][x'][i]
  }

  lemma {:induction false} ColumnChange(a: seq<Row>, b: seq<Row>, width: nat, bpp: nat, table: Table, i: nat, x: nat, y: nat, x': nat, y1: nat, y2: nat)
    requires IsImage(a, width, bpp) && IsImage(b, width, bpp) && i < bpp && x < width && x' < width && y1 <= y2 <= |a| == |b| && y < |a|
    requires DifferAt(a, b, width, bpp, i, x, y) && IsRow(a[y], width, bpp) && IsRow(b[y], width, bpp)
    ensures ColumnSum(b, width, bpp, table, i, x', y1, y2)
            == ColumnSum(a, width, bpp, table, i, x', y1, y2) + if x' == x && y1 <= y < y2 then table(b[y][x][i]) - table(a[y][x][i]) else 0
    decreases y2
  {
    if y1 < y2 {
      assert (x', y2 - 1) != (x, y) ==> a[y2 - 1][x'][i] == b[y2 - 1][x'][i];
      ColumnChange(a, b, width, bpp, table, i, x, y, x', y1, y2 - 1);
    }
  }

  // When one byte changes, the sum changes by its value in the table, if it is in the rectangle.
  lemma {:induction false} SumChange(a: seq<Row>, b: seq<Row>, width: nat, bpp: nat, table: Table, i: nat, x: nat, y: nat, x1: nat, x2: nat, y1: nat, y2: nat)
    requires IsImage(a, width, bpp) && IsImage(b, width, bpp) && i < bpp && x < width && x1 <= x2 <= width && y1 <= y2 <= |a| == |b| && y < |a|
    requires DifferAt(a, b, width, bpp, i, x, y) && IsRow(a[y], width, bpp) && IsRow(b[y], width, bpp)
    ensures BlockSum(b, width, bpp, table, i, x1, x2, y1, y2)
            == BlockSum(a, width, bpp, table, i, x1, x2, y1, y2) + if x1 <= x < x2 && y1 <= y < y2 then table(b[y][x][i]) - table(a[y][x][i]) else 0
    decreases x2
  {
    if x1 < x2 {
      SumChange(a, b, width, bpp, table, i, x, y, x1, x2 - 1, y1, y2);
      ColumnChange(a, b, width, bpp, table, i, x, y, x2 - 1, y1, y2);
    }
  }

  // ----- a scaled row depends on its block of root rows only -------------------------------------

  lemma {:induction false} ColumnSumSame(a: seq<Row>, b: seq<Row>, d: nat, width: nat, bpp: nat, table: Table, i: nat, x: nat, y1: nat, y2: nat)
    requires IsImage(a, width, bpp) && IsImage(b, width, bpp) && i < bpp && x < width && y1 <= y2 <= |a| && y2 + d <= |b|
    requires forall y :: y1 <= y < y2 ==> a[y] == b[y + d]
    ensures ColumnSum(a, width, bpp, table, i, x, y1, y2) == ColumnSum(b, width, bpp, table, i, x, y1 + d, y2 + d)
    decreases y2
  {
    if y1 < y2 {
      ColumnSumSame(a, b, d, width, bpp, table, i, x, y1, y2 - 1);
    }
  }

  lemma {:induction false} BlockSumSame(a: seq<Row>, b: seq<Row>, d: nat, width: nat, bpp: nat, table: Table, i: nat, x1: nat, x2: nat, y1: nat, y2: nat)
    requires IsImage(a, width, bpp) && IsImage(b, width, bpp) && i < bpp && x1 <= x2 <= width && y1 <= y2 <= |a| && y2 + d <= |b|
    requires forall y :: y1 <= y < y2 ==> a[y] == b[y + d]
    ensures BlockSum(a, width, bpp, table, i, x1, x2, y1, y2) == BlockSum(b, width, bpp, table, i, x1, x2, y1 + d, y2 + d)
    decreases x2
  {
    if x1 < x2 {
      BlockSumSame(a, b, d, width, bpp, table, i, x1, x2 - 1, y1, y2);
      ColumnSumSame(a, b, d, width, bpp, table, i, x2 - 1, y1, y2);
    }
  }

  lemma ScaledRowSame(a: seq<Row>, b: seq<Row>, d: nat, width: nat, destWidth: nat, bpp: nat, table1: Table, table2: Table, y1: nat, y2: nat)
    requires IsImage(a, width, bpp) && IsImage(b, width, bpp) && width > 0 && destWidth > 0 && y1 < y2 <= |a| && y2 + d <= |b|
    requires forall y :: y1 <= y < y2 ==> a[y] == b[y + d]
    ensures ScaledRow(a, width, destWidth, bpp, table1, table2, y1, y2) == ScaledRow(b, width, destWidth, bpp, table1, table2, y1 + d, y2 + d)
  {
    forall x | 0 <= x < destWidth
      ensures ScaledRow(a, width, destWidth, bpp, table1, table2, y1, y2)[x] == ScaledRow(b, width, destWidth, bpp, table1, table2, y1 + d, y2 + d)[x]
    {
      RangeInside(x, width, destWidth);
      ScaledPixelSame(a, b, d, width, bpp, table1, table2, First(x, width, destWidth), End(x, width, destWidth), y1, y2);
    }
  }

  lemma ScaledPixelSame(a: seq<Row>, b: seq<Row>, d: nat, width: nat, bpp: nat, table1: Table, table2: Table, x1: nat, x2: nat, y1: nat, y2: nat)
    requires IsImage(a, width, bpp) && IsImage(b, width, bpp) && x1 < x2 <= width && y1 < y2 <= |a| && y2 + d <= |b|
    requires forall y :: y1 <= y < y2 ==> a[y] == b[y + d]
    ensures ScaledPixel(a, width, bpp, table1, table2, x1, x2, y1, y2) == ScaledPixel(b, width, bpp, table1, table2, x1, x2, y1 + d, y2 + d)
  {
    forall i | 0 <= i < bpp
      ensures ScaledByte(a, width, bpp, table1, table2, i, x1, x2, y1, y2) == ScaledByte(b, width, bpp, table1, table2, i, x1, x2, y1 + d, y2 + d)
    {
      BlockSumSame(a, b, d, width, bpp, table2, i, x1, x2, y1, y2);
    }
  }

  // ----- the root rows of a scaled row ------------------------------------------------------------

  // The root rows that make up a scaled row: a block, or when there are more scaled rows than
  // root rows, the row that has been scaled to it.
  function BlockFrom(s: nat, h: nat, height: nat): nat
    requires h > 0 && height > 0
  {
    if height > h then LastRow(s, h, height) else BackscaledY(s, h, height)
  }

  function BlockTo(s: nat, h: nat, height: nat): nat
    requires h > 0 && height > 0
  {
    if height > h then LastRow(s, h, height) + 1 else BackscaledY(s + 1, h, height)
  }

  lemma BlockInside(s: nat, h: nat, height: nat)
    requires h > 0 && height > 0 && s < height
    ensures BlockFrom(s, h, height) < BlockTo(s, h, height) <= h && BlockTo(s, h, height) <= LastRow(s, h, height) + 1 <= h
  {
    LastRowInImage(s, h, height);
    if height <= h {
      BlockIsNotEmpty(s, h, height);
      BlockIsComplete(s, h, height);
    }
  }

  // ----- the whole image in one step ---------------------------------------------------------------

  // With no more rows than in the root image, or a multiple of their number, the incremental
  // way gives what scaling the finished image in one step would give.
  lemma IncrementalIsOneStep(img: seq<Row>, s: nat, width: nat, destWidth: nat, height: nat, bpp: nat, table1: Table, table2: Table)
    requires IsImage(img, width, bpp) && |img| > 0 && width > 0 && destWidth > 0 && s < height
    requires height <= |img| || height % |img| == 0
    ensures BlockFrom(s, |img|, height) < BlockTo(s, |img|, height) <= |img|
    ensures ScaledRow(img, width, destWidth, bpp, table1, table2, BlockFrom(s, |img|, height), BlockTo(s, |img|, height))
            == ScaledFrom(img, width, destWidth, height, bpp, table1, table2, s)
  {
    SameBlock(s, |img|, height);
    BlockInside(s, |img|, height);
  }

  lemma SameBlock(s: nat, h: nat, height: nat)
    requires 0 < h && 0 < height && s < height && (height <= h || height % h == 0)
    ensures BlockFrom(s, h, height) == First(s, h, height) && BlockTo(s, h, height) == End(s, h, height)
  {
    if height <= h {
      BlockIsNotEmpty(s, h, height);
    } else {
      Multiple(h, height);
      MultipleIsExact(s, h, height / h);
      BlockIsComplete(s, h, height);
    }
  }

  lemma Multiple(h: nat, height: nat)
    requires 0 < h && height % h == 0
    ensures height == height / h * h
  {
  }

  function Same(b: Byte): Byte {
    b
  }

  // Otherwise there is an image for which the results differ, even without gamma correction.
  lemma OtherwiseDifferent(h: nat, height: nat) returns (img: seq<Row>, s: nat)
    requires 0 < h < height && height % h != 0
    ensures |img| == h && IsImage(img, 1, 1) && s < height && BlockFrom(s, h, height) < BlockTo(s, h, height) <= h
    ensures ScaledRow(img, 1, 1, 1, Same, Same, BlockFrom(s, h, height), BlockTo(s, h, height))
            != ScaledFrom(img, 1, 1, height, 1, Same, Same, s)
  {
    img, s := seq(h, y => [[if y == 1 then 255 else 0]]), height / h;
    OtherwiseNotExact(h, height);
    DifferentRows(img, s, height);
  }

  lemma DifferentRows(img: seq<Row>, s: nat, height: nat)
    requires IsImage(img, 1, 1) && 0 < |img| < height && s < height
    requires BackscaledY(s, |img|, height) == 0 && LastRow(s, |img|, height) == 1
    requires forall y :: 0 <= y < |img| ==> img[y] == [[if y == 1 then 255 else 0]]
    ensures BlockFrom(s, |img|, height) < BlockTo(s, |img|, height) <= |img|
    ensures ScaledRow(img, 1, 1, 1, Same, Same, BlockFrom(s, |img|, height), BlockTo(s, |img|, height))
            != ScaledFrom(img, 1, 1, height, 1, Same, Same, s)
  {
    BlockInside(s, |img|, height);
    BackOfOne(s, |img|, height);
    RowOfOne(img, 0);
    RowOfOne(img, 1);
  }

  lemma BackOfOne(s: nat, h: nat, height: nat)
    requires 0 < h < height && s < height && BackscaledY(s, h, height) == 0
    ensures First(s, h, height) == 0 && End(s, h, height) == 1
  {
    DivIs(s * h, height, 0);
    MulPlus(s, h);
    DivAtLeast((s + 1) * h, height, 2);
  }

  lemma RowOfOne(img: seq<Row>, y: nat)
    requires IsImage(img, 1, 1) && y < |img|
    ensures ScaledRow(img, 1, 1, 1, Same, Same, y, y + 1)[0][0] == img[y][0][0]
  {
    assert IsRow(img[y], 1, 1);
    var row := ScaledRow(img, 1, 1, 1, Same, Same, y, y + 1);
    assert First(0, 1, 1) == 0 && End(0, 1, 1) == 1;
    assert row[0] == ScaledPixel(img, 1, 1, Same, Same, 0, 1, y, y + 1);
    BlockOfOne(img, y);
    assert Area(0, 1, y, y + 1) == 1;
  }

  lemma BlockOfOne(img: seq<Row>, y: nat)
    requires IsImage(img, 1, 1) && y < |img| && IsRow(img[y], 1, 1)
    ensures BlockSum(img, 1, 1, Same, 0, 0, 1, y, y + 1) == img[y][0][0]
  {
    assert ColumnSum(img, 1, 1, Same, 0, 0, y, y) == 0;
    assert ColumnSum(img, 1, 1, Same, 0, 0, y, y + 1) == img[y][0][0];
    assert BlockSum(img, 1, 1, Same, 0, 0, 0, y, y + 1) == 0;
  }

  // ----- plain rows ------------------------------------------------------------------------------

  function Plain(width: nat, bpp: nat, b: Byte): (r: Row)
    ensures IsRow(r, width, bpp)
    ensures forall x, i :: 0 <= x < width && 0 <= i < bpp ==> r[x][i] == b
  {
    seq(width, _ => seq(bpp, _ => b))
  }

  lemma ScaledAt(src: seq<Row>, width: nat, destWidth: nat, bpp: nat, table1: Table, table2: Table, y1: nat, y2: nat, x: nat, i: nat)
    requires IsImage(src, width, bpp) && y1 < y2 <= |src| && width > 0 && x < destWidth && i < bpp
    ensures First(x, width, destWidth) < End(x, width, destWidth) <= width
    ensures ScaledRow(src, width, destWidth, bpp, table1, table2, y1, y2)[x][i]
            == ScaledByte(src, width, bpp, table1, table2, i, First(x, width, destWidth), End(x, width, destWidth), y1, y2)
  {
    RangeInside(x, width, destWidth);
  }

  lemma {:induction false} WhiteColumn(src: seq<Row>, width: nat, bpp: nat, i: nat, x: nat, y1: nat, y2: nat)
    requires IsImage(src, width, bpp) && i < bpp && x < width && y1 <= y2 <= |src|
    requires forall y :: y1 <= y < y2 ==> src[y] == Plain(width, bpp, 255)
    ensures ColumnSum(src, width, bpp, Same, i, x, y1, y2) == 255 * (y2 - y1)
    decreases y2
  {
    if y1 < y2 {
      WhiteColumn(src, width, bpp, i, x, y1, y2 - 1);
    }
  }

  lemma {:induction false} WhiteBlock(src: seq<Row>, width: nat, bpp: nat, i: nat, x1: nat, x2: nat, y1: nat, y2: nat)
    requires IsImage(src, width, bpp) && i < bpp && x1 <= x2 <= width && y1 <= y2 <= |src|
    requires forall y :: y1 <= y < y2 ==> src[y] == Plain(width, bpp, 255)
    ensures BlockSum(src, width, bpp, Same, i, x1, x2, y1, y2) == 255 * ((x2 - x1) * (y2 - y1))
    decreases x2
  {
    if x1 < x2 {
      WhiteBlock(src, width, bpp, i, x1, x2 - 1, y1, y2);
      WhiteColumn(src, width, bpp, i, x2 - 1, y1, y2);
      MulPlus(x2 - 1 - x1, y2 - y1);
    }
  }

  lemma {:induction false} DarkerColumn(src: seq<Row>, width: nat, bpp: nat, i: nat, x: nat, y1: nat, y2: nat, y: nat)
    requires IsImage(src, width, bpp) && i < bpp && x < width && y1 <= y < y2 <= |src| && src[y] == Plain(width, bpp, 0)
    ensures ColumnSum(src, width, bpp, Same, i, x, y1, y2) <= 255 * (y2 - y1) - 255
    decreases y2
  {
    assert IsRow(src[y2 - 1], width, bpp);
    if y < y2 - 1 {
      DarkerColumn(src, width, bpp, i, x, y1, y2 - 1, y);
    }
  }

  lemma DarkerBlock(src: seq<Row>, width: nat, bpp: nat, i: nat, x1: nat, x2: nat, y1: nat, y2: nat, y: nat)
    requires IsImage(src, width, bpp) && i < bpp && x1 < x2 <= width && y1 <= y < y2 <= |src| && src[y] == Plain(width, bpp, 0)
    ensures BlockSum(src, width, bpp, Same, i, x1, x2, y1, y2) < 255 * ((x2 - x1) * (y2 - y1))
  {
    DarkerColumn(src, width, bpp, i, x2 - 1, y1, y2, y);
    MulPlus(x2 - 1 - x1, y2 - y1);
  }

  lemma MeanIs(sum: nat, n: nat)
    requires n > 0 && sum <= 255 * n
    ensures Mean(sum, n) == 255 <==> sum == 255 * n
  {
    DivAtLeast(sum, n, 255);
    DivAtLeast(sum, n, 256);
  }

  // A row that is not white makes a difference.
  lemma WhiteByte(src: seq<Row>, width: nat, bpp: nat, i: nat, x1: nat, x2: nat, y1: nat, y2: nat)
    requires IsImage(src, width, bpp) && i < bpp && x1 < x2 <= width && y1 < y2 <= |src|
    requires forall y :: y1 <= y < y2 ==> src[y] == Plain(width, bpp, 255)
    ensures ScaledByte(src, width, bpp, Same, Same, i, x1, x2, y1, y2) == 255
  {
    WhiteBlock(src, width, bpp, i, x1, x2, y1, y2);
    MeanIs(BlockSum(src, width, bpp, Same, i, x1, x2, y1, y2), Area(x1, x2, y1, y2));
  }

  lemma DarkerByte(src: seq<Row>, width: nat, bpp: nat, i: nat, x1: nat, x2: nat, y1: nat, y2: nat, y: nat)
    requires IsImage(src, width, bpp) && i < bpp && x1 < x2 <= width && y1 <= y < y2 <= |src| && src[y] == Plain(width, bpp, 0)
    ensures ScaledByte(src, width, bpp, Same, Same, i, x1, x2, y1, y2) < 255
  {
    DarkerBlock(src, width, bpp, i, x1, x2, y1, y2, y);
    MeanIs(BlockSum(src, width, bpp, Same, i, x1, x2, y1, y2), Area(x1, x2, y1, y2));
  }
}
