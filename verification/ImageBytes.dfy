// The bytes of a buffer, and the methods that read and write them: dw/fltkimgbuf.cc:140-142,
// 249-354, 370.
//
// A buffer is one array of bytes.  Reading and writing at the places that are computed is reading
// and writing in the rows of pixels whose bytes these are.
module ImageBytes {
  import opened Common
  import opened ImageRows
  import opened ImageScaling

  // ----- the place of a byte in a buffer --------------------------------------------------------

  function ByteIndex(x: nat, y: nat, i: nat, width: nat, bpp: nat): nat {
    (y * width + x) * bpp + i
  }

  lemma ByteIndexInRange(x: nat, y: nat, i: nat, width: nat, height: nat, bpp: nat)
    requires x < width && y < height && i < bpp
    ensures ByteIndex(x, y, i, width, bpp) < (height * width) * bpp
  {
    MulLess(y, height, width);
    MulLess(y * width + x, height * width, bpp);
  }

  // No two bytes share a place.
  lemma ByteIndexIsUnique(x: nat, y: nat, i: nat, x': nat, y': nat, i': nat, width: nat, bpp: nat)
    requires x < width && x' < width && i < bpp && i' < bpp
    requires ByteIndex(x, y, i, width, bpp) == ByteIndex(x', y', i', width, bpp)
    ensures x == x' && y == y' && i == i'
  {
    Digits(y * width + x, i, y' * width + x', i', bpp);
    Digits(y, x, y', x', width);
  }

  lemma Digits(a: nat, i: nat, b: nat, j: nat, n: nat)
    requires i < n && j < n && a * n + i == b * n + j
    ensures a == b && i == j
  {
    if a < b {
      MulLess(a, b, n);
    } else if b < a {
      MulLess(b, a, n);
    }
  }

  // ----- parts of equal length one behind the other ---------------------------------------------

  function Flat<T>(parts: seq<seq<T>>): seq<T> {
    if parts == [] then [] else Flat(parts[..|parts| - 1]) + parts[|parts| - 1]
  }

  predicate Parts<T>(parts: seq<seq<T>>, n: nat) {
    forall k {:trigger parts[k]} :: 0 <= k < |parts| ==> |parts[k]| == n
  }

  lemma {:induction false} FlatLength<T>(parts: seq<seq<T>>, n: nat)
    requires Parts(parts, n)
    ensures |Flat(parts)| == |parts| * n
  {
    if parts != [] {
      FlatLength(parts[..|parts| - 1], n);
      MulPlus(|parts| - 1, n);
    }
  }

  lemma PlaceInside(k: nat, i: nat, m: nat, n: nat)
    requires k < m && i < n
    ensures k * n + i < m * n
  {
    MulLess(k, m, n);
  }

  lemma {:induction false} FlatAt<T>(parts: seq<seq<T>>, n: nat, k: nat, i: nat)
    requires Parts(parts, n) && k < |parts| && i < n
    ensures |Flat(parts)| == |parts| * n && k * n + i < |parts| * n
    ensures Flat(parts)[k * n + i] == parts[k][i]
  {
    FlatLength(parts, n);
    PlaceInside(k, i, |parts|, n);
    var m := |parts| - 1;
    FlatLength(parts[..m], n);
    if k < m {
      FlatAt(parts[..m], n, k, i);
    }
  }

  lemma {:induction false} FlatConcat<T>(a: seq<seq<T>>, b: seq<seq<T>>)
    ensures Flat(a + b) == Flat(a) + Flat(b)
  {
    if b == [] {
      assert a + b == a;
    } else {
      var m := |b| - 1;
      assert (a + b)[..|a + b| - 1] == a + b[..m];
      FlatConcat(a, b[..m]);
    }
  }

  lemma FlatSlice<T>(parts: seq<seq<T>>, n: nat, k1: nat, k2: nat)
    requires Parts(parts, n) && k1 <= k2 <= |parts|
    ensures k1 * n <= k2 * n <= |Flat(parts)| == |parts| * n
    ensures Flat(parts)[k1 * n..k2 * n] == Flat(parts[k1..k2])
  {
    assert parts == parts[..k2] + parts[k2..] && parts[..k2] == parts[..k1] + parts[k1..k2];
    FlatConcat(parts[..k2], parts[k2..]);
    FlatConcat(parts[..k1], parts[k1..k2]);
    FlatLength(parts, n);
    FlatLength(parts[..k1], n);
    FlatLength(parts[..k2], n);
  }

  // ----- a buffer ----------------------------------------------------------------------------------

  function RowBytes(row: Row): seq<Byte> {
    Flat(row)
  }

  function RowsBytes(rows: seq<Row>): (r: seq<seq<Byte>>)
    ensures |r| == |rows| && forall y {:trigger r[y]} :: 0 <= y < |rows| ==> r[y] == RowBytes(rows[y])
  {
    seq(|rows|, y requires 0 <= y < |rows| => RowBytes(rows[y]))
  }

  function Bytes(rows: seq<Row>): seq<Byte> {
    Flat(RowsBytes(rows))
  }

  lemma RowsAreParts(rows: seq<Row>, width: nat, bpp: nat)
    requires IsImage(rows, width, bpp)
    ensures Parts(RowsBytes(rows), width * bpp)
  {
    forall y {:trigger RowsBytes(rows)[y]} | 0 <= y < |rows| ensures |RowsBytes(rows)[y]| == width * bpp {
      assert IsRow(rows[y], width, bpp);
      FlatLength(rows[y], bpp);
    }
  }

  lemma Times(a: nat, b: nat, c: nat)
    ensures a * (b * c) == a * b * c
  {
  }

  lemma Places(x: nat, y: nat, i: nat, width: nat, bpp: nat)
    ensures ByteIndex(x, y, i, width, bpp) == y * (width * bpp) + (x * bpp + i)
  {
    assert (y * width + x) * bpp == y * width * bpp + x * bpp;
    Times(y, width, bpp);
  }

  lemma BytesLength(rows: seq<Row>, width: nat, bpp: nat)
    requires IsImage(rows, width, bpp)
    ensures |Bytes(rows)| == |rows| * width * bpp
  {
    RowsAreParts(rows, width, bpp);
    FlatLength(RowsBytes(rows), width * bpp);
    Times(|rows|, width, bpp);
  }

  // The byte at its place is that of its pixel.
  lemma BytesAt(rows: seq<Row>, width: nat, bpp: nat, x: nat, y: nat, i: nat)
    requires IsImage(rows, width, bpp) && x < width && y < |rows| && i < bpp && IsRow(rows[y], width, bpp)
    ensures ByteIndex(x, y, i, width, bpp) < |Bytes(rows)|
    ensures Bytes(rows)[ByteIndex(x, y, i, width, bpp)] == rows[y][x][i]
  {
    RowsAreParts(rows, width, bpp);
    FlatAt(rows[y], bpp, x, i);
    Places(x, y, i, width, bpp);
    FlatAt(RowsBytes(rows), width * bpp, y, x * bpp + i);
  }

  // Every place is that of a byte of a pixel.
  lemma PlaceOf(p: nat, height: nat, width: nat, bpp: nat) returns (x: nat, y: nat, i: nat)
    requires p < height * width * bpp
    ensures x < width && y < height && i < bpp && p == ByteIndex(x, y, i, width, bpp)
  {
    var q := Part(p, height * width, bpp);
    i := p - q * bpp;
    y := Part(q, height, width);
    x := q - y * width;
  }

  lemma Part(p: nat, m: nat, n: nat) returns (k: nat)
    requires p < m * n
    ensures k < m && n > 0 && k * n <= p < k * n + n
  {
    k := p / n;
    DivIs(p, n, k);
    MulPlus(k, n);
    DivAtLeast(p, n, m);
  }

  ghost function WithByte(rows: seq<Row>, x: nat, y: nat, i: nat, b: Byte): seq<Row>
    requires y < |rows| && x < |rows[y]| && i < |rows[y][x]|
  {
    rows[y := rows[y][x := rows[y][x][i := b]]]
  }

  // Writing at the place of a byte changes this byte of this pixel and nothing else.
  lemma SetByte(rows: seq<Row>, width: nat, bpp: nat, x: nat, y: nat, i: nat, b: Byte)
    requires IsImage(rows, width, bpp) && x < width && y < |rows| && i < bpp && IsRow(rows[y], width, bpp)
    ensures ByteIndex(x, y, i, width, bpp) < |Bytes(rows)|
    ensures Bytes(WithByte(rows, x, y, i, b)) == Bytes(rows)[ByteIndex(x, y, i, width, bpp) := b]
  {
    var rows' := WithByte(rows, x, y, i, b);
    BytesLength(rows, width, bpp);
    BytesLength(rows', width, bpp);
    BytesAt(rows, width, bpp, x, y, i);
    forall p | 0 <= p < |Bytes(rows)| ensures Bytes(rows')[p] == Bytes(rows)[ByteIndex(x, y, i, width, bpp) := b][p] {
      ByteAfterSet(rows, width, bpp, x, y, i, b, p);
    }
  }

  lemma ByteAfterSet(rows: seq<Row>, width: nat, bpp: nat, x: nat, y: nat, i: nat, b: Byte, p: nat)
    requires IsImage(rows, width, bpp) && x < width && y < |rows| && i < bpp && IsRow(rows[y], width, bpp)
    requires IsImage(WithByte(rows, x, y, i, b), width, bpp) && p < |Bytes(rows)| == |rows| * width * bpp == |Bytes(WithByte(rows, x, y, i, b))|
    ensures Bytes(WithByte(rows, x, y, i, b))[p] == if p == ByteIndex(x, y, i, width, bpp) then b else Bytes(rows)[p]
  {
    var rows' := WithByte(rows, x, y, i, b);
    var x', y', i' := PlaceOf(p, |rows|, width, bpp);
    assert IsRow(rows[y'], width, bpp) && IsRow(rows'[y'], width, bpp);
    BytesAt(rows, width, bpp, x', y', i');
    BytesAt(rows', width, bpp, x', y', i');
    if p == ByteIndex(x, y, i, width, bpp) {
      ByteIndexIsUnique(x, y, i, x', y', i', width, bpp);
    }
  }

  // A pointer to a row leads to the bytes of the image from this row on.
  lemma RowOffset(x: nat, row: nat, y: nat, i: nat, width: nat, bpp: nat)
    ensures row * width * bpp + ByteIndex(x, y, i, width, bpp) == ByteIndex(x, row + y, i, width, bpp)
  {
    assert (row + y) * width + x == row * width + (y * width + x);
    assert (row * width + (y * width + x)) * bpp == row * width * bpp + (y * width + x) * bpp;
  }

  lemma BytesOfRows(rows: seq<Row>, width: nat, bpp: nat, y1: nat, y2: nat)
    requires IsImage(rows, width, bpp) && y1 <= y2 <= |rows|
    ensures y1 * width * bpp <= y2 * width * bpp <= |Bytes(rows)|
    ensures Bytes(rows)[y1 * width * bpp..y2 * width * bpp] == Bytes(rows[y1..y2])
  {
    RowsAreParts(rows, width, bpp);
    FlatSlice(RowsBytes(rows), width * bpp, y1, y2);
    assert RowsBytes(rows)[y1..y2] == RowsBytes(rows[y1..y2]);
    Times(y1, width, bpp);
    Times(y2, width, bpp);
  }

  // Copying the bytes of a row replaces this row.
  lemma CopyBytes(rows: seq<Row>, width: nat, bpp: nat, y: nat, row: Row)
    requires IsImage(rows, width, bpp) && y < |rows| && IsRow(row, width, bpp)
    ensures y * width * bpp + width * bpp <= |Bytes(rows)| && |RowBytes(row)| == width * bpp
    ensures Bytes(rows[y := row])
            == Bytes(rows)[..y * width * bpp] + RowBytes(row) + Bytes(rows)[y * width * bpp + width * bpp..]
  {
    FlatLength(row, bpp);
    BytesAround(rows, y, row);
    BytesBefore(rows, width, bpp, y);
    BytesBehind(rows, width, bpp, y + 1);
    NextRow(y, width, bpp);
  }

  lemma BytesConcat(a: seq<Row>, b: seq<Row>)
    ensures Bytes(a + b) == Bytes(a) + Bytes(b)
  {
    assert RowsBytes(a + b) == RowsBytes(a) + RowsBytes(b);
    FlatConcat(RowsBytes(a), RowsBytes(b));
  }

  lemma BytesAround(rows: seq<Row>, y: nat, row: Row)
    requires y < |rows|
    ensures Bytes(rows[y := row]) == Bytes(rows[..y]) + RowBytes(row) + Bytes(rows[y + 1..])
  {
    assert rows[y := row] == rows[..y] + [row] + rows[y + 1..];
    BytesConcat(rows[..y] + [row], rows[y + 1..]);
    BytesConcat(rows[..y], [row]);
    OneRow(row);
  }

  lemma BytesBefore(rows: seq<Row>, width: nat, bpp: nat, y: nat)
    requires IsImage(rows, width, bpp) && y <= |rows|
    ensures y * width * bpp <= |Bytes(rows)| && Bytes(rows)[..y * width * bpp] == Bytes(rows[..y])
  {
    BytesOfRows(rows, width, bpp, 0, y);
    assert rows[0..y] == rows[..y];
  }

  lemma BytesBehind(rows: seq<Row>, width: nat, bpp: nat, y: nat)
    requires IsImage(rows, width, bpp) && y <= |rows|
    ensures y * width * bpp <= |Bytes(rows)| && Bytes(rows)[y * width * bpp..] == Bytes(rows[y..])
  {
    BytesOfRows(rows, width, bpp, y, |rows|);
    BytesLength(rows, width, bpp);
    assert rows[y..|rows|] == rows[y..];
  }

  // A pointer to a row leads to the bytes of the rows from it on.
  lemma BytesFrom(rows: seq<Row>, width: nat, bpp: nat, y1: nat, y2: nat)
    requires IsImage(rows, width, bpp) && y1 <= y2 <= |rows|
    ensures y1 * width * bpp <= |Bytes(rows)| && Bytes(rows[y1..y2]) <= Bytes(rows)[y1 * width * bpp..]
  {
    BytesBehind(rows, width, bpp, y1);
    assert rows[y1..] == rows[y1..y2] + rows[y2..];
    BytesConcat(rows[y1..y2], rows[y2..]);
  }

  lemma PointerTo(rows: seq<Row>, width: nat, bpp: nat, y1: nat, y2: nat, at: int)
    requires IsImage(rows, width, bpp) && y1 <= y2 <= |rows| && at == y1 * width * bpp
    ensures 0 <= at <= |Bytes(rows)| && Bytes(rows[y1..y2]) <= Bytes(rows)[at..]
  {
    BytesFrom(rows, width, bpp, y1, y2);
  }

  // A pointer into a buffer: what can be read from there on.
  method From(a: array<Byte>, at: nat) returns (r: seq<Byte>)
    requires at <= a.Length
    ensures r == a[..][at..]
  {
    r := a[at..];
  }

  lemma NextRow(y: nat, width: nat, bpp: nat)
    ensures (y + 1) * width * bpp == y * width * bpp + width * bpp
  {
    MulPlus(y, width);
    assert (y * width + width) * bpp == y * width * bpp + width * bpp;
  }

  lemma OneRow(row: Row)
    ensures Bytes([row]) == RowBytes(row)
  {
    var parts := RowsBytes([row]);
    assert parts[..0] == [] && Flat(parts[..0]) == [];
  }

  // ----- scaleBuffer -----------------------------------------------------------------------------

  // The bytes of a pixel, read from a place on.
  lemma PixelAt(img: seq<Row>, width: nat, bpp: nat, src: seq<Byte>, x: nat, y: nat)
    requires IsImage(img, width, bpp) && Bytes(img) <= src && x < width && y < |img| && IsRow(img[y], width, bpp)
    ensures ByteIndex(x, y, 0, width, bpp) + bpp <= |src|
    ensures forall i {:trigger img[y][x][i]} :: 0 <= i < bpp ==> src[ByteIndex(x, y, 0, width, bpp) + i] == img[y][x][i]
  {
    forall i {:trigger img[y][x][i]} | 0 <= i < bpp
      ensures ByteIndex(x, y, 0, width, bpp) + i < |Bytes(img)| && src[ByteIndex(x, y, 0, width, bpp) + i] == img[y][x][i]
    {
      BytesAt(img, width, bpp, x, y, i);
    }
    BytesLength(img, width, bpp);
    if bpp > 0 {
      BytesAt(img, width, bpp, x, y, bpp - 1);
    } else {
      assert |Bytes(img)| == 0;
    }
  }

  method AddPixel(src: seq<Byte>, ps: nat, table: Table, v: array<int>, ghost p: Pixel)
    requires |p| == v.Length && ps + v.Length <= |src| && forall i {:trigger p[i]} :: 0 <= i < |p| ==> src[ps + i] == p[i]
    modifies v
    ensures forall i {:trigger v[i]} :: 0 <= i < v.Length ==> v[i] == old(v[i]) + table(p[i])
  {
    for i := 0 to v.Length
      invariant forall j {:trigger v[j]} :: 0 <= j < v.Length ==> v[j] == if j < i then old(v[j]) + table(p[j]) else old(v[j])
    {
      v[i] := v[i] + table(src[ps + i]);
    }
  }

  method AddPixelOf(src: seq<Byte>, width: nat, bpp: nat, table: Table, x: nat, y: nat, v: array<int>, ghost img: seq<Row>)
    requires IsImage(img, width, bpp) && Bytes(img) <= src && x < width && y < |img| && v.Length == bpp
    modifies v
    ensures IsRow(img[y], width, bpp)
    ensures forall i {:trigger v[i]} :: 0 <= i < v.Length ==> v[i] == old(v[i]) + table(img[y][x][i])
  {
    PixelAt(img, width, bpp, src, x, y);
    AddPixel(src, bpp * (y * width + x), table, v, img[y][x]);
  }

  method BlockSums(src: seq<Byte>, width: nat, bpp: nat, table: Table, x1: nat, x2: nat, y1: nat, y2: nat, v: array<int>, ghost img: seq<Row>)
    requires IsImage(img, width, bpp) && Bytes(img) <= src && x1 <= x2 <= width && y1 <= y2 <= |img| && v.Length == bpp
    modifies v
    ensures forall i {:trigger v[i]} :: 0 <= i < bpp ==> v[i] == BlockSum(img, width, bpp, table, i, x1, x2, y1, y2)
  {
    for i := 0 to bpp
      invariant forall j {:trigger v[j]} :: 0 <= j < i ==> v[j] == 0
    {
      v[i] := 0;
    }
    for x := x1 to x2
      invariant forall i {:trigger v[i]} :: 0 <= i < bpp ==> v[i] == BlockSum(img, width, bpp, table, i, x1, x, y1, y2)
    {
      for y := y1 to y2
        invariant forall i {:trigger v[i]} :: 0 <= i < bpp ==>
                    v[i] == BlockSum(img, width, bpp, table, i, x1, x, y1, y2) + ColumnSum(img, width, bpp, table, i, x, y1, y)
      {
        AddPixelOf(src, width, bpp, table, x, y, v, img);
      }
    }
  }

  // A pixel is written byte by byte.
  ghost function WithPixel(rows: seq<Row>, x: nat, y: nat, p: Pixel): seq<Row>
    requires y < |rows| && x < |rows[y]|
  {
    rows[y := rows[y][x := p]]
  }

  ghost function PartOf(p: Pixel, before: Pixel, i: nat): Pixel
    requires i <= |p| == |before|
  {
    p[..i] + before[i..]
  }

  lemma WriteStep(rows: seq<Row>, width: nat, bpp: nat, x: nat, y: nat, p: Pixel, i: nat, data: seq<Byte>)
    requires IsImage(rows, width, bpp) && x < width && y < |rows| && IsRow(rows[y], width, bpp) && i < bpp == |p|
    requires data == Bytes(WithPixel(rows, x, y, PartOf(p, rows[y][x], i)))
    ensures ByteIndex(x, y, i, width, bpp) < |data|
    ensures data[ByteIndex(x, y, i, width, bpp) := p[i]] == Bytes(WithPixel(rows, x, y, PartOf(p, rows[y][x], i + 1)))
  {
    var part := WithPixel(rows, x, y, PartOf(p, rows[y][x], i));
    SetByte(part, width, bpp, x, y, i, p[i]);
    assert part[y][x][i := p[i]] == PartOf(p, rows[y][x], i + 1);
    assert part[y][x := PartOf(p, rows[y][x], i + 1)] == rows[y][x := PartOf(p, rows[y][x], i + 1)];
    assert WithByte(part, x, y, i, p[i]) == WithPixel(rows, x, y, PartOf(p, rows[y][x], i + 1));
  }

  method WritePixel(dest: array<Byte>, pd: nat, v: array<int>, n: nat, table: Table,
                    ghost rows: seq<Row>, ghost width: nat, ghost x: nat, ghost y: nat, ghost p: Pixel)
    requires IsImage(rows, width, v.Length) && x < width && y < |rows| && IsRow(rows[y], width, v.Length)
    requires dest[..] == Bytes(rows) && pd == ByteIndex(x, y, 0, width, v.Length)
    requires |p| == v.Length && n > 0 && forall i {:trigger p[i]} :: 0 <= i < |p| ==> 0 <= v[i] <= 255 * n && p[i] == table(Mean(v[i], n))
    modifies dest
    ensures dest[..] == Bytes(WithPixel(rows, x, y, p))
  {
    assert PartOf(p, rows[y][x], 0) == rows[y][x] && rows[y][x := rows[y][x]] == rows[y] && rows[y := rows[y]] == rows;
    for i := 0 to v.Length
      invariant dest[..] == Bytes(WithPixel(rows, x, y, PartOf(p, rows[y][x], i)))
    {
      WriteStep(rows, width, v.Length, x, y, p, i, dest[..]);
      var b := Mean(v[i], n);
      dest[pd + i] := table(b);
    }
    assert PartOf(p, rows[y][x], v.Length) == p;
  }

  // The first x pixels agree.
  predicate AgreeTo(a: Row, b: Row, x: int) {
    |a| == |b| && forall i {:trigger a[i]} {:trigger b[i]} :: 0 <= i < x && i < |a| ==> a[i] == b[i]
  }

  // The rows up to one agree in x + 1 pixels, those behind it in x; others have not been changed.
  ghost predicate WrittenTo(rows: seq<Row>, before: seq<Row>, after: seq<Row>, destRow: nat, destHeight: nat, x: nat, y: nat)
    requires |rows| == |before| == |after|
  {
    forall q {:trigger rows[q]} :: 0 <= q < |rows| ==>
      if destRow <= q < destRow + destHeight then AgreeTo(rows[q], after[q], if q < destRow + y then x + 1 else x)
      else rows[q] == before[q]
  }

  method ScaledPixelInto(src: seq<Byte>, width: nat, bpp: nat, table1: Table, table2: Table, x1: nat, x2: nat, y1: nat, y2: nat,
                         dest: array<Byte>, pd: nat, ghost img: seq<Row>, ghost rows: seq<Row>, ghost destWidth: nat, ghost x: nat, ghost y: nat)
    requires IsImage(img, width, bpp) && Bytes(img) <= src && x1 < x2 <= width && y1 < y2 <= |img|
    requires IsImage(rows, destWidth, bpp) && x < destWidth && y < |rows| && IsRow(rows[y], destWidth, bpp)
    requires dest[..] == Bytes(rows) && pd == ByteIndex(x, y, 0, destWidth, bpp)
    modifies dest
    ensures dest[..] == Bytes(WithPixel(rows, x, y, ScaledPixel(img, width, bpp, table1, table2, x1, x2, y1, y2)))
  {
    var n := Area(x1, x2, y1, y2);
    var v := new int[bpp];
    BlockSums(src, width, bpp, table2, x1, x2, y1, y2, v, img);
    ghost var p := ScaledPixel(img, width, bpp, table1, table2, x1, x2, y1, y2);
    WritePixel(dest, pd, v, n, table1, rows, destWidth, x, y, p);
  }

  ghost function ScaledAtPlace(img: seq<Row>, srcWidth: nat, destWidth: nat, destHeight: nat, bpp: nat, table1: Table, table2: Table, x: nat, y: nat): Pixel
    requires IsImage(img, srcWidth, bpp) && |img| > 0 && srcWidth > 0 && x < destWidth && y < destHeight
  {
    ScaledFrom(img, srcWidth, destWidth, destHeight, bpp, table1, table2, y)[x]
  }

  lemma PixelOfAfter(rows: seq<Row>, img: seq<Row>, srcWidth: nat, destRow: nat, destWidth: nat, destHeight: nat,
                     bpp: nat, table1: Table, table2: Table, x: nat, y: nat)
    requires IsImage(img, srcWidth, bpp) && |img| > 0 && srcWidth > 0 && x < destWidth && y < destHeight
    requires destRow + destHeight <= |rows| && IsImage(rows, destWidth, bpp)
    ensures var after := ScaledInto(rows, img, srcWidth, destRow, destWidth, destHeight, bpp, table1, table2);
            && IsRow(after[destRow + y], destWidth, bpp)
            && after[destRow + y][x] == ScaledAtPlace(img, srcWidth, destWidth, destHeight, bpp, table1, table2, x, y)
  {
    ScaledIntoAt(rows, img, srcWidth, destRow, destWidth, destHeight, bpp, table1, table2, destRow + y);
  }

  // One pixel of the destination.
  method ScaleOne(src: seq<Byte>, srcWidth: nat, srcHeight: nat, dest: array<Byte>, at: nat, destWidth: nat, destHeight: nat,
                  bpp: nat, table1: Table, table2: Table, x: nat, y: nat, ghost img: seq<Row>, ghost rows: seq<Row>, ghost destRow: nat)
    requires IsImage(img, srcWidth, bpp) && Bytes(img) <= src && |img| == srcHeight > 0 && srcWidth > 0 && x < destWidth && y < destHeight
    requires IsImage(rows, destWidth, bpp) && destRow + destHeight <= |rows| && IsRow(rows[destRow + y], destWidth, bpp)
    requires dest[..] == Bytes(rows) && at == destRow * destWidth * bpp
    modifies dest
    ensures dest[..] == Bytes(WithPixel(rows, x, destRow + y, ScaledAtPlace(img, srcWidth, destWidth, destHeight, bpp, table1, table2, x, y)))
  {
    RangeInside(x, srcWidth, destWidth);
    RangeInside(y, srcHeight, destHeight);
    RowOffset(x, destRow, y, 0, destWidth, bpp);
    ScaledPixelInto(src, srcWidth, bpp, table1, table2, First(x, srcWidth, destWidth), End(x, srcWidth, destWidth),
                    First(y, srcHeight, destHeight), End(y, srcHeight, destHeight), dest, at + bpp * (y * destWidth + x),
                    img, rows, destWidth, x, destRow + y);
  }

  // All of src is scaled to destHeight rows, from row destRow of dest on.
  method ScaleBuffer(src: seq<Byte>, srcWidth: nat, srcHeight: nat, dest: array<Byte>, at: nat, destWidth: nat, destHeight: nat,
                     bpp: nat, table1: Table, table2: Table, ghost img: seq<Row>, ghost rows: seq<Row>, ghost destRow: nat)
    requires IsImage(img, srcWidth, bpp) && Bytes(img) <= src && |img| == srcHeight > 0 && srcWidth > 0 && destWidth > 0
    requires IsImage(rows, destWidth, bpp) && destRow + destHeight <= |rows|
    requires dest[..] == Bytes(rows) && at == destRow * destWidth * bpp
    modifies dest
    ensures dest[..] == Bytes(ScaledInto(rows, img, srcWidth, destRow, destWidth, destHeight, bpp, table1, table2))
  {
    ghost var after := ScaledInto(rows, img, srcWidth, destRow, destWidth, destHeight, bpp, table1, table2);
    forall q {:trigger after[q]} | 0 <= q < |rows|
      ensures IsRow(after[q], destWidth, bpp) && (destRow <= q < destRow + destHeight || after[q] == rows[q])
    {
      ScaledIntoAt(rows, img, srcWidth, destRow, destWidth, destHeight, bpp, table1, table2, q);
    }
    ghost var cur := rows;
    for x := 0 to destWidth
      invariant |cur| == |rows| && IsImage(cur, destWidth, bpp) && dest[..] == Bytes(cur)
      invariant WrittenTo(cur, rows, after, destRow, destHeight, x, 0)
    {
      for y := 0 to destHeight
        invariant |cur| == |rows| && IsImage(cur, destWidth, bpp) && dest[..] == Bytes(cur)
        invariant WrittenTo(cur, rows, after, destRow, destHeight, x, y)
      {
        ScaleOne(src, srcWidth, srcHeight, dest, at, destWidth, destHeight, bpp, table1, table2, x, y, img, cur, destRow);
        ghost var p := after[destRow + y][x];
        PixelOfAfter(rows, img, srcWidth, destRow, destWidth, destHeight, bpp, table1, table2, x, y);
        WrittenNext(cur, rows, after, destRow, destHeight, destWidth, bpp, x, y, p);
        cur := WithPixel(cur, x, destRow + y, p);
      }
    }
    AllWritten(cur, rows, after, destRow, destHeight, destWidth, bpp);
  }

  lemma AllWritten(rows: seq<Row>, before: seq<Row>, after: seq<Row>, destRow: nat, destHeight: nat, destWidth: nat, bpp: nat)
    requires |rows| == |before| == |after| && IsImage(rows, destWidth, bpp) && IsImage(after, destWidth, bpp)
    requires forall q {:trigger after[q]} :: 0 <= q < |after| && !(destRow <= q < destRow + destHeight) ==> after[q] == before[q]
    requires WrittenTo(rows, before, after, destRow, destHeight, destWidth, 0)
    ensures rows == after
  {
    forall q | 0 <= q < |rows| ensures rows[q] == after[q] {
      assert IsRow(rows[q], destWidth, bpp) && IsRow(after[q], destWidth, bpp);
    }
  }

  lemma WrittenNext(rows: seq<Row>, before: seq<Row>, after: seq<Row>, destRow: nat, destHeight: nat, destWidth: nat, bpp: nat, x: nat, y: nat, p: Pixel)
    requires |rows| == |before| == |after| && IsImage(rows, destWidth, bpp) && x < destWidth && y < destHeight && destRow + destHeight <= |rows|
    requires IsRow(rows[destRow + y], destWidth, bpp) && IsRow(after[destRow + y], destWidth, bpp) && p == after[destRow + y][x]
    requires WrittenTo(rows, before, after, destRow, destHeight, x, y)
    ensures WrittenTo(WithPixel(rows, x, destRow + y, p), before, after, destRow, destHeight, x, y + 1)
    ensures IsImage(WithPixel(rows, x, destRow + y, p), destWidth, bpp)
  {
  }

  // ----- rows that arrive -------------------------------------------------------------------------

  // The pixels of the bytes of a row.
  function PixelsOf(data: seq<Byte>, width: nat, bpp: nat): (r: Row)
    requires |data| == width * bpp
    ensures IsRow(r, width, bpp)
  {
    seq(width, x requires 0 <= x < width => PixelOf(data, width, bpp, x))
  }

  function PixelOf(data: seq<Byte>, width: nat, bpp: nat, x: nat): (p: Pixel)
    requires |data| == width * bpp && x < width
    ensures |p| == bpp
  {
    RowPlace(x, width, bpp);
    data[x * bpp..x * bpp + bpp]
  }

  lemma RowPlace(x: nat, width: nat, bpp: nat)
    requires x < width
    ensures x * bpp + bpp <= width * bpp
  {
    if bpp > 0 {
      MulLess(x, width, bpp);
    }
  }

  lemma BytesOfPixels(data: seq<Byte>, width: nat, bpp: nat)
    requires |data| == width * bpp
    ensures RowBytes(PixelsOf(data, width, bpp)) == data
  {
    FlatLength(PixelsOf(data, width, bpp), bpp);
    forall p | 0 <= p < |data| ensures RowBytes(PixelsOf(data, width, bpp))[p] == data[p] {
      ByteOfPixels(data, width, bpp, p);
    }
  }

  lemma ByteOfPixels(data: seq<Byte>, width: nat, bpp: nat, p: nat)
    requires |data| == width * bpp == |RowBytes(PixelsOf(data, width, bpp))| && p < |data|
    ensures RowBytes(PixelsOf(data, width, bpp))[p] == data[p]
  {
    var row := PixelsOf(data, width, bpp);
    var x := Part(p, width, bpp);
    FlatAt(row, bpp, x, p - x * bpp);
    RowPlace(x, width, bpp);
    assert row[x] == data[x * bpp..x * bpp + bpp];
  }

  method Memcpy(a: array<Byte>, at: nat, data: seq<Byte>, n: nat)
    requires at + n <= a.Length && n <= |data|
    modifies a
    ensures a[..] == old(a[..])[..at] + data[..n] + old(a[..])[at + n..]
  {
    for k := 0 to n
      invariant forall p {:trigger a[p]} :: 0 <= p < a.Length ==> a[p] == if at <= p < at + k then data[p - at] else old(a[p])
    {
      a[at + k] := data[k];
    }
  }

  // A row is copied to its place.
  method CopyRow(rawdata: array<Byte>, at: nat, data: seq<Byte>, n: nat, ghost rows: seq<Row>, ghost width: nat, ghost bpp: nat, ghost y: nat, ghost row: Row)
    requires IsImage(rows, width, bpp) && y < |rows| && IsRow(row, width, bpp) && rawdata[..] == Bytes(rows)
    requires RowBytes(row) <= data && at == y * width * bpp && n == width * bpp
    modifies rawdata
    ensures rawdata[..] == Bytes(rows[y := row])
  {
    CopyBytes(rows, width, bpp, y, row);
    Memcpy(rawdata, at, data, n);
    assert data[..n] == RowBytes(row);
  }

  // memset of a buffer.
  function PlainRows(width: nat, height: nat, bpp: nat, b: Byte): (r: seq<Row>)
    ensures |r| == height && IsImage(r, width, bpp)
  {
    seq(height, _ => Plain(width, bpp, b))
  }

  function BufferSize(width: nat, height: nat, bpp: nat): nat {
    height * width * bpp
  }

  lemma PlainBytes(width: nat, height: nat, bpp: nat, b: Byte)
    ensures Bytes(PlainRows(width, height, bpp, b)) == seq(BufferSize(width, height, bpp), _ => b)
  {
    var rows := PlainRows(width, height, bpp, b);
    BytesLength(rows, width, bpp);
    forall p | 0 <= p < height * width * bpp ensures Bytes(rows)[p] == b {
      var x, y, i := PlaceOf(p, height, width, bpp);
      assert IsRow(rows[y], width, bpp);
      BytesAt(rows, width, bpp, x, y, i);
    }
  }
}
