// Image buffers and their scaled versions: dw/fltkimgbuf.cc:66-168, 208-293, 356-441.
module ImageBuffers {
  import opened Common
  import opened ImageRows
  import opened ImageScaling
  import opened ImageBytes
  import opened ImageRuns

  const IMAGE_MAX_AREA: nat := 6000 * 6000
  const MAX_WIDTH: nat := 0x8000
  const MAX_HEIGHT: nat := 0x8000

  predicate Excessive(width: int, height: int) {
    width <= 0 || height <= 0 || width > IMAGE_MAX_AREA / height
  }

  // The sizes buffers have.
  predicate Fits(width: int, height: int) {
    !Excessive(width, height) && width <= MAX_WIDTH && height <= MAX_HEIGHT
  }

  // The size of a new buffer.
  function InitSize(width: int, height: int): (r: (nat, nat))
    ensures Fits(r.0, r.1)
    ensures Fits(width, height) <==> r == (width, height)
    ensures Excessive(width, height) ==> r == (1, 1)
    ensures !Excessive(width, height) ==> r == (Min(width, MAX_WIDTH), Min(height, MAX_HEIGHT))
    decreases Excessive(width, height), width > MAX_WIDTH, height > MAX_HEIGHT
  {
    if Excessive(width, height) then InitSize(1, 1)
    else if width > MAX_WIDTH then InitSize(MAX_WIDTH, height)
    else if height > MAX_HEIGHT then
      SmallerFits(width, height, MAX_HEIGHT);
      InitSize(width, MAX_HEIGHT)
    else (width, height)
  }

  // Both sides have at most 2^15 pixels, and the area has at most 36000000.
  lemma WhenFits(width: int, height: int)
    ensures Excessive(width, height) <==> width <= 0 || height <= 0 || width * height > 36000000
    ensures Fits(width, height) <==> 0 < width <= 32768 && 0 < height <= 32768 && width * height <= 36000000
  {
    if width > 0 && height > 0 {
      DivAtLeast(36000000, height, width);
    }
  }

  lemma SmallerFits(width: int, height: int, height': int)
    requires !Excessive(width, height) && 0 < height' <= height
    ensures !Excessive(width, height')
  {
    DivAtLeast(IMAGE_MAX_AREA, height, width);
    assert width * height' <= width * height;
    DivAtLeast(IMAGE_MAX_AREA, height', width);
  }

  // ----- what passing a row changes ----------------------------------------------------------------

  lemma NothingPassed(g: Scale, copy: Copy, root: Root, row: nat)
    requires IsCopy(g, copy) && HasRoot(g, root)
    requires Finished(g, root.arrived, row) <= copy.done
    ensures Pass(g, copy, root, row) == copy
  {
  }

  lemma PassIs(g: Scale, copy: Copy, root: Root, row: nat, copy': Copy)
    requires IsCopy(g, copy) && HasRoot(g, root) && |copy'.rows| == g.height
    requires copy'.done == copy.done + Finished(g, root.arrived, row)
    requires forall s {:trigger copy'.rows[s]} :: 0 <= s < g.height ==> copy'.rows[s] == PassedRow(g, copy, root, row, s)
    ensures copy' == Pass(g, copy, root, row)
  {
  }

  lemma FinishedDown(g: Scale, arrived: set<nat>, row: nat)
    requires IsScale(g) && g.height <= g.rootHeight && row < g.rootHeight
    ensures var s := ScaledY(row, g.rootHeight, g.height); Finished(g, arrived, row) == if HasBlock(g, arrived, s) then {s} else {}
  {
    ScaledInRange(row, g.rootHeight, g.height);
  }

  lemma FinishedUp(g: Scale, arrived: set<nat>, row: nat)
    requires IsScale(g) && g.height > g.rootHeight && row < g.rootHeight && row in arrived
    ensures ScaledY(row, g.rootHeight, g.height) < ScaledY(row + 1, g.rootHeight, g.height) <= g.height
    ensures forall s: nat {:trigger s in Finished(g, arrived, row)} ::
              s in Finished(g, arrived, row) <==> ScaledY(row, g.rootHeight, g.height) <= s < ScaledY(row + 1, g.rootHeight, g.height)
  {
    UpRow(row, g.rootHeight, g.height);
    UpInRange(row, g.rootHeight, g.height);
    forall s: nat {:trigger s in Finished(g, arrived, row)}
      ensures s in Finished(g, arrived, row) <==> ScaledY(row, g.rootHeight, g.height) <= s < ScaledY(row + 1, g.rootHeight, g.height)
    {
      RowsOf(s, row, g.rootHeight, g.height);
    }
  }

  // The copies of a root row are done together.
  lemma FinishedTogether(g: Scale, done: set<nat>, arrived: set<nat>, row: nat, s: nat, s': nat)
    requires IsScale(g) && g.height > g.rootHeight && Joined(g, done)
    requires s in Finished(g, arrived, row) && s' in Finished(g, arrived, row) && s in done
    ensures s' in done
  {
  }

  // A new buffer is light gray.
  ghost function Light(g: Scale): (r: Copy)
    requires IsScale(g)
    ensures IsCopy(g, r)
  {
    Copy(PlainRows(g.width, g.height, g.bpp, 222), {})
  }

  // ----- buffers -------------------------------------------------------------------------------------

  class FltkImgbuf {
    const root: FltkImgbuf?
    const width: nat
    const height: nat
    const bpp: nat
    const table1: Table
    const table2: Table
    const rawdata: array<Byte>
    ghost var rows: seq<Row>       // of which these are the bytes
    var copiedRows: set<nat>
    var scaledBuffers: seq<FltkImgbuf>

    ghost predicate IsRoot() {
      root == null && Fits(width, height)
    }

    ghost predicate IsScaled() {
      && root != null && Fits(width, height)
      && root.IsRoot() && root.bpp == bpp && root.rawdata != rawdata && root != this
    }

    ghost function Sizes(): (g: Scale)
      requires IsScaled()
      ensures IsScale(g)
    {
      Scale(root.width, root.height, width, height, bpp, table1, table2)
    }

    ghost function AsRoot(): Root
      reads this
    {
      Root(rows, copiedRows)
    }

    ghost function Contents(): Copy
      reads this
    {
      Copy(rows, copiedRows)
    }

    ghost predicate ValidRoot()
      reads this, rawdata
    {
      match AsRoot()
      case Root(img, _) => IsRoot() && |img| == height && IsImage(img, width, bpp) && rawdata[..] == Bytes(img)
    }

    ghost predicate ValidScaled()
      reads this, rawdata
    {
      match Contents()
      case Copy(img, done) => IsScaled() && IsCopy(Sizes(), Copy(img, done)) && rawdata[..] == Bytes(img)
    }

    // The root row is there, and it is passed by its bytes.
    ghost predicate IsPassed(row: nat, data: seq<Byte>)
      requires IsScaled()
      reads root, root.rawdata
    {
      root.ValidRoot() && (row < root.height ==> row in root.copiedRows && RowBytes(root.rows[row]) <= data)
    }

    // Whether the block of root rows has arrived; it may be larger than a single row.
    method AllRootRows(row1: nat, row2: nat) returns (all: bool)
      requires root != null && row1 < row2
      ensures all <==> forall r {:trigger r in root.copiedRows} :: row1 <= r < row2 ==> r in root.copiedRows
    {
      var r := row1;
      all := r in root.copiedRows;
      while all
        invariant row1 <= r < row2 && all == (r in root.copiedRows)
        invariant forall q {:trigger q in root.copiedRows} :: row1 <= q < r ==> q in root.copiedRows
        decreases row2 - r
      {
        r := r + 1;
        if r >= row2 {
          break;
        }
        all := r in root.copiedRows;
      }
    }

    // A pointer to a row of the root buffer.
    method RowsFrom(row1: nat, ghost row2: nat) returns (data: seq<Byte>)
      requires ValidRoot() && row1 <= row2 <= height
      ensures Bytes(rows[row1..row2]) <= data
    {
      var at := row1 * width * bpp;
      PointerTo(rows, width, bpp, row1, row2, at);
      data := From(rawdata, at);
    }

    method ScaleBlock(row1: nat, row2: nat, sr: nat)
      requires ValidScaled() && root.ValidRoot() && row1 < row2 <= root.height && sr < height
      modifies `rows, rawdata
      ensures rawdata[..] == Bytes(rows)
      ensures rows == old(rows)[sr := ScaledRow(root.rows, root.width, width, bpp, table1, table2, row1, row2)]
    {
      ghost var img, src := root.rows, root.rows[row1..row2];
      OneIsScaled(rows, img, src, row1, row2, sr);
      var data := root.RowsFrom(row1, row2);
      ScaleBuffer(data, root.width, row2 - row1, rawdata, sr * width * bpp, width, 1,
                  bpp, table1, table2, src, rows, sr);
      rows := rows[sr := ScaledRow(img, root.width, width, bpp, table1, table2, row1, row2)];
    }

    lemma OneIsScaled(before: seq<Row>, img: seq<Row>, src: seq<Row>, row1: nat, row2: nat, sr: nat)
      requires IsScaled() && |before| == height && IsImage(before, width, bpp) && IsImage(img, root.width, bpp)
      requires row1 < row2 <= |img| && src == img[row1..row2] && sr < height
      ensures IsImage(src, root.width, bpp)
      ensures ScaledInto(before, src, root.width, sr, width, 1, bpp, table1, table2)
              == before[sr := ScaledRow(img, root.width, width, bpp, table1, table2, row1, row2)]
    {
      ScaledRowSame(src, img, row1, root.width, width, bpp, table1, table2, 0, row2 - row1);
      assert ScaledFrom(src, root.width, width, 1, bpp, table1, table2, 0) == ScaledRow(src, root.width, width, bpp, table1, table2, 0, row2 - row1);
      forall q | 0 <= q < height
        ensures ScaledInto(before, src, root.width, sr, width, 1, bpp, table1, table2)[q]
                == before[sr := ScaledRow(img, root.width, width, bpp, table1, table2, row1, row2)][q]
      {
        ScaledIntoAt(before, src, root.width, sr, width, 1, bpp, table1, table2, q);
      }
    }

    method ScaleCopies(row: nat, data: seq<Byte>, sr1: nat, sr2: nat)
      requires ValidScaled() && IsPassed(row, data) && row < root.height && sr1 < sr2 <= height
      modifies `rows, rawdata
      ensures rawdata[..] == Bytes(rows) && |rows| == height
      ensures forall s {:trigger rows[s]} :: 0 <= s < height ==>
                rows[s] == if sr1 <= s < sr2 then ScaledRow(root.rows, root.width, width, bpp, table1, table2, row, row + 1) else old(rows[s])
    {
      ghost var src := [root.rows[row]];
      OneRow(root.rows[row]);
      ScaleBuffer(data, root.width, 1, rawdata, sr1 * width * bpp, width, sr2 - sr1, bpp, table1, table2, src, rows, sr1);
      CopiesAreScaled(rows, root.rows, row, sr1, sr2);
      rows := ScaledInto(rows, src, root.width, sr1, width, sr2 - sr1, bpp, table1, table2);
    }

    lemma CopiesAreScaled(before: seq<Row>, img: seq<Row>, row: nat, sr1: nat, sr2: nat)
      requires IsScaled() && |before| == height && IsImage(before, width, bpp) && IsImage(img, root.width, bpp)
      requires row < |img| && sr1 < sr2 <= height
      ensures IsImage([img[row]], root.width, bpp)
      ensures var after := ScaledInto(before, [img[row]], root.width, sr1, width, sr2 - sr1, bpp, table1, table2);
              forall s {:trigger after[s]} :: 0 <= s < height ==>
                after[s] == if sr1 <= s < sr2 then ScaledRow(img, root.width, width, bpp, table1, table2, row, row + 1) else before[s]
    {
      var src := [img[row]];
      assert IsRow(img[row], root.width, bpp);
      ScaledRowSame(src, img, row, root.width, width, bpp, table1, table2, 0, 1);
      var after := ScaledInto(before, src, root.width, sr1, width, sr2 - sr1, bpp, table1, table2);
      forall s {:trigger after[s]} | 0 <= s < height
        ensures after[s] == if sr1 <= s < sr2 then ScaledRow(img, root.width, width, bpp, table1, table2, row, row + 1) else before[s]
      {
        ScaledIntoAt(before, src, root.width, sr1, width, sr2 - sr1, bpp, table1, table2, s);
        if sr1 <= s < sr2 {
          RangeInside(s - sr1, 1, sr2 - sr1);
        }
      }
    }

    // scaleRowBeautiful when there are not more scaled rows than root rows.
    method ScaleDown(row: nat, sr1: nat)
      requires ValidScaled() && root.ValidRoot() && row < root.height && height <= root.height
      requires sr1 == ScaledY(row, root.height, height) && sr1 !in copiedRows
      modifies `copiedRows, `rows, rawdata
      ensures ValidScaled() && Contents() == Pass(Sizes(), old(Contents()), root.AsRoot(), row)
    {
      ghost var before := Contents();
      NextScaled(row, root.height, height);
      ScaledIsMonotone(row, root.height, height);
      assert ScaledY(row + 1, root.height, height) == sr1 || ScaledY(row + 1, root.height, height) == sr1 + 1;
      FinishedDown(Sizes(), root.copiedRows, row);
      ScaledInRange(row, root.height, height);
      BlockInside(sr1, root.height, height);
      var row1, row2 := BackscaledY(sr1, root.height, height), BackscaledY(sr1 + 1, root.height, height);
      var all := AllRootRows(row1, row2);
      if all {
        ScaleBlock(row1, row2, sr1);
        copiedRows := copiedRows + {sr1};
        PassIs(Sizes(), before, root.AsRoot(), row, Contents());
      } else {
        NothingPassed(Sizes(), before, root.AsRoot(), row);
      }
    }

    method MarkCopies(sr1: nat, sr2: nat)
      requires sr1 < sr2
      modifies `copiedRows
      ensures forall s: nat {:trigger s in copiedRows} :: s in copiedRows <==> s in old(copiedRows) || sr1 <= s < sr2
    {
      var sr := sr1;
      while sr < sr2 || sr == sr1
        invariant sr1 <= sr <= sr2
        invariant forall s: nat {:trigger s in copiedRows} :: s in copiedRows <==> s in old(copiedRows) || sr1 <= s < sr
        decreases sr2 - sr
      {
        copiedRows := copiedRows + {sr};
        sr := sr + 1;
      }
    }

    // scaleRowBeautiful when there are more scaled rows than root rows.
    method ScaleUp(row: nat, data: seq<Byte>, sr1: nat)
      requires ValidScaled() && IsPassed(row, data) && row < root.height < height
      requires sr1 == ScaledY(row, root.height, height) && sr1 !in copiedRows
      modifies `copiedRows, `rows, rawdata
      ensures ValidScaled() && Contents() == Pass(Sizes(), old(Contents()), root.AsRoot(), row)
    {
      ghost var before := Contents();
      FinishedUp(Sizes(), root.copiedRows, row);
      var sr2 := ScaledY(row + 1, root.height, height);
      NoneDone(before, row, sr1);
      ScaleCopies(row, data, sr1, sr2);
      MarkCopies(sr1, sr2);
      assert copiedRows == before.done + Finished(Sizes(), root.copiedRows, row);
      PassIs(Sizes(), before, root.AsRoot(), row, Contents());
    }

    // When the first copy of a root row is not done, no one is.
    lemma NoneDone(before: Copy, row: nat, sr1: nat)
      requires ValidScaled() && IsCopy(Sizes(), before) && root.height < height && row < root.height
      requires sr1 in Finished(Sizes(), root.copiedRows, row) && sr1 !in before.done
      ensures forall s: nat {:trigger s in Finished(Sizes(), root.copiedRows, row)} :: s in Finished(Sizes(), root.copiedRows, row) ==> s !in before.done
    {
      forall s: nat {:trigger s in Finished(Sizes(), root.copiedRows, row)} | s in Finished(Sizes(), root.copiedRows, row)
        ensures s !in before.done
      {
        if s in before.done {
          FinishedTogether(Sizes(), before.done, root.copiedRows, row, s, sr1);
        }
      }
    }

    // A row that has been copied to the root buffer is passed.
    method ScaleRow(row: nat, data: seq<Byte>)
      requires ValidScaled() && IsPassed(row, data)
      modifies `copiedRows, `rows, rawdata
      ensures ValidScaled() && Contents() == Pass(Sizes(), old(Contents()), root.AsRoot(), row)
    {
      if row < root.height {
        var sr1 := ScaledY(row, root.height, height);
        if sr1 in copiedRows {
          // Don't rescale rows!
          AlreadyDone(row, sr1);
        } else if height > root.height {
          ScaleUp(row, data, sr1);
        } else {
          ScaleDown(row, sr1);
        }
      } else {
        NothingPassed(Sizes(), Contents(), root.AsRoot(), row);
      }
    }

    lemma AlreadyDone(row: nat, sr1: nat)
      requires ValidScaled() && root.ValidRoot() && row < root.height && row in root.copiedRows
      requires sr1 == ScaledY(row, root.height, height) && sr1 in copiedRows
      ensures Contents() == Pass(Sizes(), Contents(), root.AsRoot(), row)
    {
      if height <= root.height {
        FinishedDown(Sizes(), root.copiedRows, row);
      } else {
        FinishedUp(Sizes(), root.copiedRows, row);
        forall s: nat | s in Finished(Sizes(), root.copiedRows, row) ensures s in copiedRows {
          FinishedTogether(Sizes(), copiedRows, root.copiedRows, row, sr1, s);
        }
      }
      NothingPassed(Sizes(), Contents(), root.AsRoot(), row);
    }

    // The root buffer.
    constructor (width: int, height: int, bpp: nat, table1: Table, table2: Table)
      ensures ValidRoot() && (this.width, this.height) == InitSize(width, height) && this.bpp == bpp && fresh(rawdata)
      ensures AsRoot() == Root(PlainRows(this.width, this.height, bpp, 222), {}) && scaledBuffers == []
    {
      var size := InitSize(width, height);
      root := null;
      this.width, this.height, this.bpp, this.table1, this.table2 := size.0, size.1, bpp, table1, table2;
      rawdata := new Byte[BufferSize(size.0, size.1, bpp)](_ => 222);
      rows := PlainRows(size.0, size.1, bpp, 222);
      copiedRows, scaledBuffers := {}, [];
      new;
      PlainBytes(size.0, size.1, bpp, 222);
      assert rawdata[..] == seq(BufferSize(size.0, size.1, bpp), _ => 222);
    }

    // A scaled buffer gets the rows that have arrived.
    constructor Scaled(root: FltkImgbuf, width: nat, height: nat)
      requires root.ValidRoot() && Fits(width, height)
      ensures this.width == width && this.height == height && fresh(rawdata) && IsNewOf(root)
    {
      this.root := root;
      this.width, this.height, bpp, table1, table2 := width, height, root.bpp, root.table1, root.table2;
      rawdata := new Byte[BufferSize(width, height, root.bpp)](_ => 222);
      rows := PlainRows(width, height, root.bpp, 222);
      copiedRows, scaledBuffers := {}, [];
      new;
      IsLight();
      ghost var start := root.AsRoot();
      for row := 0 to root.height
        invariant this.root == root && root.AsRoot() == start && ValidScaled()
        invariant Contents() == Replay(Sizes(), start, Light(Sizes()), row)
      {
        ScaleArrived(row);
      }
    }

    lemma IsLight()
      requires IsScaled() && rows == PlainRows(width, height, bpp, 222) && copiedRows == {}
      requires rawdata.Length == BufferSize(width, height, bpp) && forall i :: 0 <= i < rawdata.Length ==> rawdata[i] == 222
      ensures ValidScaled() && Contents() == Light(Sizes())
    {
      PlainBytes(width, height, bpp, 222);
      assert rawdata[..] == seq(BufferSize(width, height, bpp), _ => 222);
    }

    // A row of the root buffer that has arrived is passed.
    method ScaleArrived(row: nat)
      requires ValidScaled() && root.ValidRoot() && row < root.height
      modifies `copiedRows, `rows, rawdata
      ensures ValidScaled()
      ensures Contents() == if row in root.copiedRows then Pass(Sizes(), old(Contents()), root.AsRoot(), row) else old(Contents())
    {
      if row in root.copiedRows {
        var data := root.RowsFrom(row, row + 1);
        OneRow(root.rows[row]);
        assert root.rows[row..row + 1] == [root.rows[row]];
        ScaleRow(row, data);
      }
    }

    // The scaled buffers of a root buffer share nothing.
    ghost predicate Separate()
      reads this, scaledBuffers
    {
      && (forall i {:trigger scaledBuffers[i]} :: 0 <= i < |scaledBuffers| ==>
            scaledBuffers[i].root == this && scaledBuffers[i].IsScaled())
      && (forall i, j {:trigger scaledBuffers[i], scaledBuffers[j]} :: 0 <= i < j < |scaledBuffers| ==>
            scaledBuffers[i] != scaledBuffers[j] && scaledBuffers[i].rawdata != scaledBuffers[j].rawdata)
    }

    ghost predicate AllValid()
      reads this, scaledBuffers, set b | b in scaledBuffers :: b.rawdata
    {
      forall i {:trigger scaledBuffers[i]} :: 0 <= i < |scaledBuffers| ==> scaledBuffers[i].ValidScaled()
    }

    // One of the scaled buffers gets the row; the others are as before.
    method PassToOne(n: nat, row: nat, data: seq<Byte>)
      requires ValidRoot() && Separate() && n < |scaledBuffers| && scaledBuffers[n].ValidScaled()
      requires row < height ==> row in copiedRows && RowBytes(rows[row]) <= data
      modifies scaledBuffers[n], scaledBuffers[n].rawdata
      ensures scaledBuffers == old(scaledBuffers) && AsRoot() == old(AsRoot()) && ValidRoot() && Separate()
      ensures forall i {:trigger scaledBuffers[i]} :: 0 <= i < |scaledBuffers| && i != n ==>
                && scaledBuffers[i].Contents() == old(scaledBuffers[i].Contents())
                && (old(scaledBuffers[i].ValidScaled()) ==> scaledBuffers[i].ValidScaled())
      ensures scaledBuffers[n].IsPassOf(old(scaledBuffers[n].Contents()), AsRoot(), row)
    {
      scaledBuffers[n].ScaleRow(row, data);
    }

    // The loop of copyRow over the scaled buffers.
    method PassToAll(row: nat, data: seq<Byte>)
      requires ValidRoot() && Separate() && AllValid() && (row < height ==> row in copiedRows && RowBytes(rows[row]) <= data)
      modifies scaledBuffers, set b | b in scaledBuffers :: b.rawdata
      ensures scaledBuffers == old(scaledBuffers) && AsRoot() == old(AsRoot()) && Separate() && AllValid()
      ensures forall i {:trigger scaledBuffers[i]} :: 0 <= i < |scaledBuffers| ==>
                scaledBuffers[i].Contents() == Pass(scaledBuffers[i].Sizes(), old(scaledBuffers[i].Contents()), AsRoot(), row)
    {
      ghost var buffers, start := scaledBuffers, AsRoot();
      ghost var before := seq(|buffers|, i requires 0 <= i < |buffers| reads buffers, set b | b in buffers :: b.rawdata => buffers[i].Contents());
      for n := 0 to |scaledBuffers|
        invariant scaledBuffers == buffers && AsRoot() == start && ValidRoot() && Separate()
        invariant forall i {:trigger scaledBuffers[i]} :: n <= i < |buffers| ==> scaledBuffers[i].Contents() == before[i] && scaledBuffers[i].ValidScaled()
        invariant forall i {:trigger scaledBuffers[i]} :: 0 <= i < n ==> scaledBuffers[i].IsPassOf(before[i], start, row)
      {
        PassToOne(n, row, data);
      }
    }

    ghost predicate IsPassOf(before: Copy, from: Root, row: nat)
      reads this, rawdata
    {
      ValidScaled() && IsCopy(Sizes(), before) && HasRoot(Sizes(), from) && Contents() == Pass(Sizes(), before, from, row)
    }

    // copyRow: a row of the image arrives.
    method CopyRow(row: nat, data: seq<Byte>)
      requires ValidRoot() && Separate() && AllValid() && |data| == width * bpp
      modifies `copiedRows, `rows, rawdata, scaledBuffers, set b | b in scaledBuffers :: b.rawdata
      ensures ValidRoot() && Separate() && AllValid() && scaledBuffers == old(scaledBuffers)
      ensures AsRoot() == Stored(old(AsRoot()), Arrival(row, PixelsOf(data, width, bpp)))
      ensures forall i {:trigger scaledBuffers[i]} :: 0 <= i < |scaledBuffers| ==>
                scaledBuffers[i].Contents() == Pass(scaledBuffers[i].Sizes(), old(scaledBuffers[i].Contents()), AsRoot(), row)
    {
      if row < height {
        StoreRow(row, data);
        PassToAll(row, data);
      } else {
        forall i {:trigger scaledBuffers[i]} | 0 <= i < |scaledBuffers|
          ensures scaledBuffers[i].Contents() == Pass(scaledBuffers[i].Sizes(), scaledBuffers[i].Contents(), AsRoot(), row)
        {
          NothingPassed(scaledBuffers[i].Sizes(), scaledBuffers[i].Contents(), AsRoot(), row);
        }
      }
    }

    method StoreRow(row: nat, data: seq<Byte>)
      requires ValidRoot() && row < height && |data| == width * bpp
      modifies `copiedRows, `rows, rawdata
      ensures ValidRoot() && AsRoot() == Stored(old(AsRoot()), Arrival(row, PixelsOf(data, width, bpp)))
      ensures row in copiedRows && RowBytes(rows[row]) == data
    {
      ghost var pixels := PixelsOf(data, width, bpp);
      BytesOfPixels(data, width, bpp);
      copiedRows := copiedRows + {row};
      ImageBytes.CopyRow(rawdata, row * width * bpp, data, width * bpp, rows, width, bpp, row, pixels);
      rows := rows[row := pixels];
    }

    method ClearOne(n: nat)
      requires ValidRoot() && Separate() && n < |scaledBuffers| && scaledBuffers[n].ValidScaled()
      modifies scaledBuffers[n]
      ensures scaledBuffers == old(scaledBuffers) && AsRoot() == old(AsRoot()) && ValidRoot() && Separate()
      ensures scaledBuffers[n].ValidScaled() && scaledBuffers[n].Contents() == old(scaledBuffers[n].Contents()).(done := {})
      ensures forall i {:trigger scaledBuffers[i]} :: 0 <= i < |scaledBuffers| && i != n ==>
                && scaledBuffers[i].Contents() == old(scaledBuffers[i].Contents())
                && (old(scaledBuffers[i].ValidScaled()) ==> scaledBuffers[i].ValidScaled())
    {
      scaledBuffers[n].copiedRows := {};
    }

    // A further scan of the image begins.
    method NewScan()
      requires ValidRoot() && Separate() && AllValid()
      modifies scaledBuffers
      ensures AsRoot() == old(AsRoot()) && scaledBuffers == old(scaledBuffers) && Separate() && AllValid()
      ensures forall i {:trigger scaledBuffers[i]} :: 0 <= i < |scaledBuffers| ==>
                scaledBuffers[i].Contents() == old(scaledBuffers[i].Contents()).(done := {})
    {
      ghost var buffers, start := scaledBuffers, AsRoot();
      for n := 0 to |scaledBuffers|
        invariant scaledBuffers == buffers && AsRoot() == start && ValidRoot() && Separate() && AllValid()
        invariant forall i {:trigger scaledBuffers[i]} :: 0 <= i < |scaledBuffers| ==>
                    scaledBuffers[i].Contents() == if i < n then old(scaledBuffers[i].Contents()).(done := {}) else old(scaledBuffers[i].Contents())
      {
        ClearOne(n);
      }
    }

    ghost predicate HasSize(w: int, h: int) {
      width == w && height == h
    }

    // An existing buffer of a size.
    method FindScaled(w: int, h: int) returns (buf: FltkImgbuf?)
      ensures buf == null ==> forall b {:trigger b in scaledBuffers} :: b in scaledBuffers ==> !b.HasSize(w, h)
      ensures buf != null ==> buf in scaledBuffers && buf.HasSize(w, h)
    {
      for i := 0 to |scaledBuffers|
        invariant forall j {:trigger scaledBuffers[j]} :: 0 <= j < i ==> !scaledBuffers[j].HasSize(w, h)
      {
        if scaledBuffers[i].width == w && scaledBuffers[i].height == h {
          return scaledBuffers[i];
        }
      }
      return null;
    }

    // All rows that have arrived have been passed to the buffer, and nothing else.
    ghost predicate IsNewOf(from: FltkImgbuf)
      reads this, rawdata, from, from.rawdata
    {
      ValidScaled() && root == from && from.ValidRoot() && Contents() == Replay(Sizes(), from.AsRoot(), Light(Sizes()), from.height)
    }

    // A new buffer of a size that no other one has.
    method AddScaled(w: nat, h: nat) returns (buf: FltkImgbuf)
      requires ValidRoot() && Separate() && AllValid() && Fits(w, h)
      modifies `scaledBuffers
      ensures fresh(buf) && buf.HasSize(w, h) && buf.IsNewOf(this) && scaledBuffers == old(scaledBuffers) + [buf]
      ensures AsRoot() == old(AsRoot()) && Separate() && AllValid()
    {
      buf := new FltkImgbuf.Scaled(this, w, h);
      scaledBuffers := scaledBuffers + [buf];
    }

    // getScaledBuf for the size to which larger ones are limited.
    method LimitedBuf(w: int, h: int) returns (buf: FltkImgbuf)
      requires ValidRoot() && Separate() && AllValid() && w <= MAX_WIDTH && h <= MAX_HEIGHT
      modifies `scaledBuffers
      ensures AsRoot() == old(AsRoot()) && Separate() && AllValid()
      ensures old(IsReused(w, h)) ==> scaledBuffers == old(scaledBuffers) && buf in [this] + scaledBuffers
      ensures !old(IsReused(w, h)) ==> fresh(buf) && buf.IsNewOf(this) && scaledBuffers == old(scaledBuffers) + [buf]
      ensures if Excessive(w, h) then buf == this else buf.HasSize(w, h)
    {
      if w == width && h == height {
        return this;
      }
      var found := FindScaled(w, h);
      if found != null {
        return found;
      }
      if Excessive(w, h) {
        return this;
      }
      buf := AddScaled(w, h);
    }

    // Whether there is a buffer to return.
    ghost predicate IsReused(w: int, h: int)
      reads this
    {
      Excessive(w, h) || HasSize(w, h) || exists b {:trigger b in scaledBuffers} :: b in scaledBuffers && b.HasSize(w, h)
    }

    // getScaledBuf of a root buffer, which a scaled one asks.  An excessive size leads to the unscaled image,
    // any other one to a buffer of the size limited to the maximum, which is new only if there
    // is none, and then has got the rows that have arrived.
    method GetScaledBuf(w: int, h: int) returns (buf: FltkImgbuf)
      requires ValidRoot() && Separate() && AllValid()
      modifies `scaledBuffers
      ensures AsRoot() == old(AsRoot()) && Separate() && AllValid()
      ensures old(IsReused(Min(w, MAX_WIDTH), Min(h, MAX_HEIGHT))) ==> scaledBuffers == old(scaledBuffers) && buf in [this] + scaledBuffers
      ensures !old(IsReused(Min(w, MAX_WIDTH), Min(h, MAX_HEIGHT))) ==>
                fresh(buf) && buf.IsNewOf(this) && scaledBuffers == old(scaledBuffers) + [buf]
      ensures if Excessive(Min(w, MAX_WIDTH), Min(h, MAX_HEIGHT)) then buf == this
              else buf.HasSize(Min(w, MAX_WIDTH), Min(h, MAX_HEIGHT))
      decreases w > MAX_WIDTH, h > MAX_HEIGHT
    {
      if w > MAX_WIDTH {
        buf := GetScaledBuf(MAX_WIDTH, h);
      } else if h > MAX_HEIGHT {
        buf := GetScaledBuf(w, MAX_HEIGHT);
      } else {
        buf := LimitedBuf(w, h);
      }
    }
  }
}
