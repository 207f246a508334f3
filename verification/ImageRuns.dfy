// What scaled buffers hold after any run of arriving rows: dw/fltkimgbuf.cc:160-166, 249-293,
// 356-395.  The rows of an interlaced image do not arrive in order (src/gif.c:388-420), and a
// progressive one is sent in several scans (src/jpeg.c:405-415).
module ImageRuns {
  import opened Common
  import opened ImageRows
  import opened ImageScaling

  // The sizes of a root buffer and a scaled one.
  datatype Scale = Scale(rootWidth: nat, rootHeight: nat, width: nat, height: nat, bpp: nat, table1: Table, table2: Table)

  // What a root buffer holds, and which of its rows have arrived.
  datatype Root = Root(img: seq<Row>, arrived: set<nat>)

  // What a scaled buffer holds, and which of its rows are done.
  datatype Copy = Copy(rows: seq<Row>, done: set<nat>)

  predicate IsScale(g: Scale) {
    g.rootWidth > 0 && g.rootHeight > 0 && g.width > 0 && g.height > 0
  }

  ghost predicate HasRoot(g: Scale, root: Root) {
    IsScale(g) && |root.img| == g.rootHeight && IsImage(root.img, g.rootWidth, g.bpp)
  }

  // What a scaled row shall be.
  ghost function Target(g: Scale, img: seq<Row>, s: nat): (r: Row)
    requires IsScale(g) && |img| == g.rootHeight && IsImage(img, g.rootWidth, g.bpp) && s < g.height
    ensures IsRow(r, g.width, g.bpp)
  {
    BlockInside(s, g.rootHeight, g.height);
    ScaledRow(img, g.rootWidth, g.width, g.bpp, g.table1, g.table2, BlockFrom(s, g.rootHeight, g.height), BlockTo(s, g.rootHeight, g.height))
  }

  lemma TargetSame(g: Scale, img: seq<Row>, img': seq<Row>, s: nat)
    requires HasRoot(g, Root(img, {})) && HasRoot(g, Root(img', {})) && s < g.height
    requires forall r :: BlockFrom(s, g.rootHeight, g.height) <= r < BlockTo(s, g.rootHeight, g.height) && r < g.rootHeight ==> img[r] == img'[r]
    ensures Target(g, img, s) == Target(g, img', s)
  {
    BlockInside(s, g.rootHeight, g.height);
    ScaledRowSame(img, img', 0, g.rootWidth, g.width, g.bpp, g.table1, g.table2, BlockFrom(s, g.rootHeight, g.height), BlockTo(s, g.rootHeight, g.height));
  }

  // ----- one row is passed to a scaled buffer ---------------------------------------------------

  // The scaled rows for which the root row is looked at.
  predicate Belongs(g: Scale, row: nat, s: nat)
    requires IsScale(g)
  {
    row < g.rootHeight && if g.height > g.rootHeight then LastRow(s, g.rootHeight, g.height) == row else ScaledY(row, g.rootHeight, g.height) == s
  }

  predicate HasBlock(g: Scale, arrived: set<nat>, s: nat)
    requires IsScale(g)
  {
    forall r {:trigger r in arrived} :: BlockFrom(s, g.rootHeight, g.height) <= r < BlockTo(s, g.rootHeight, g.height) ==> r in arrived
  }

  predicate Finishes(g: Scale, arrived: set<nat>, row: nat, s: nat)
    requires IsScale(g)
  {
    Belongs(g, row, s) && HasBlock(g, arrived, s)
  }

  // When there are more scaled rows than root rows, the copies of a root row are done together.
  predicate Joined(g: Scale, done: set<nat>)
    requires IsScale(g)
  {
    forall s: nat, s': nat {:trigger s in done, s' in done} ::
      s in done && s' < g.height && LastRow(s, g.rootHeight, g.height) == LastRow(s', g.rootHeight, g.height) ==> s' in done
  }

  ghost predicate IsCopy(g: Scale, copy: Copy) {
    && IsScale(g) && |copy.rows| == g.height && IsImage(copy.rows, g.width, g.bpp)
    && (forall s {:trigger s in copy.done} :: s in copy.done ==> s < g.height)
    && (g.height > g.rootHeight ==> Joined(g, copy.done))
  }

  function Finished(g: Scale, arrived: set<nat>, row: nat): (r: set<nat>)
    requires IsScale(g)
    ensures g.height > g.rootHeight ==> Joined(g, r)
  {
    set s: nat | s < g.height && Finishes(g, arrived, row, s)
  }

  ghost function PassedRow(g: Scale, copy: Copy, root: Root, row: nat, s: nat): (r: Row)
    requires IsCopy(g, copy) && HasRoot(g, root) && s < g.height
    ensures IsRow(r, g.width, g.bpp)
  {
    if s !in copy.done && s in Finished(g, root.arrived, row) then Target(g, root.img, s) else copy.rows[s]
  }

  ghost function PassedRows(g: Scale, copy: Copy, root: Root, row: nat): (r: seq<Row>)
    requires IsCopy(g, copy) && HasRoot(g, root)
    ensures |r| == g.height && IsImage(r, g.width, g.bpp)
    ensures forall s {:trigger r[s]} :: 0 <= s < g.height ==> r[s] == PassedRow(g, copy, root, row, s)
  {
    seq(g.height, s requires 0 <= s < g.height => PassedRow(g, copy, root, row, s))
  }

  lemma JoinedUnion(g: Scale, a: set<nat>, b: set<nat>)
    requires IsScale(g) && Joined(g, a) && Joined(g, b)
    ensures Joined(g, a + b)
  {
    forall s: nat, s': nat {:trigger s in a + b, s' in a + b}
      | s in a + b && s' < g.height && LastRow(s, g.rootHeight, g.height) == LastRow(s', g.rootHeight, g.height)
      ensures s' in a + b
    {
      assert s in a ==> s' in a;
      assert s in b ==> s' in b;
    }
  }

  // A scaled row is written when a row that belongs to it finishes it, and never again.
  ghost function Pass(g: Scale, copy: Copy, root: Root, row: nat): (r: Copy)
    requires IsCopy(g, copy) && HasRoot(g, root)
    ensures IsCopy(g, r)
  {
    var done := copy.done + Finished(g, root.arrived, row);
    assert g.height > g.rootHeight ==> Joined(g, done) by {
      if g.height > g.rootHeight {
        JoinedUnion(g, copy.done, Finished(g, root.arrived, row));
      }
    }
    Copy(PassedRows(g, copy, root, row), done)
  }

  // ----- runs --------------------------------------------------------------------------------------

  datatype Arrival = Arrival(row: nat, data: Row)

  // A row outside of the image is ignored.
  function Stored(root: Root, a: Arrival): Root {
    if a.row < |root.img| then Root(root.img[a.row := a.data], root.arrived + {a.row}) else root
  }

  ghost predicate IsRun(g: Scale, root: Root, arr: seq<Arrival>) {
    HasRoot(g, root) && forall k {:trigger arr[k]} :: 0 <= k < |arr| ==> IsRow(arr[k].data, g.rootWidth, g.bpp)
  }

  // The root buffer after n arrivals.
  ghost function RootAfter(g: Scale, root: Root, arr: seq<Arrival>, n: nat): (r: Root)
    requires IsRun(g, root, arr) && n <= |arr|
    ensures HasRoot(g, r)
  {
    if n == 0 then root else Stored(RootAfter(g, root, arr, n - 1), arr[n - 1])
  }

  ghost function CopyAfter(g: Scale, root: Root, copy: Copy, arr: seq<Arrival>, n: nat): (r: Copy)
    requires IsRun(g, root, arr) && IsCopy(g, copy) && n <= |arr|
    ensures IsCopy(g, r)
  {
    if n == 0 then copy else Pass(g, CopyAfter(g, root, copy, arr, n - 1), RootAfter(g, root, arr, n), arr[n - 1].row)
  }

  ghost predicate FinishesAt(g: Scale, root: Root, arr: seq<Arrival>, k: nat, s: nat)
    requires IsRun(g, root, arr) && k < |arr|
  {
    Finishes(g, RootAfter(g, root, arr, k + 1).arrived, arr[k].row, s)
  }

  // The first arrival that finishes a scaled row.
  ghost function FinishTime(g: Scale, root: Root, arr: seq<Arrival>, n: nat, s: nat): (t: Option<nat>)
    requires IsRun(g, root, arr) && n <= |arr|
    ensures t.Some? ==> t.value < n && FinishesAt(g, root, arr, t.value, s)
    ensures forall k {:trigger FinishesAt(g, root, arr, k, s)} :: 0 <= k < n && (t.Some? ==> k < t.value) ==> !FinishesAt(g, root, arr, k, s)
  {
    if n == 0 then None else
    var before := FinishTime(g, root, arr, n - 1, s);
    if before.Some? then before else if FinishesAt(g, root, arr, n - 1, s) then Some(n - 1) else None
  }

  // A scaled row gets the pixels of the image at the first arrival that finishes it; before, it
  // stays what it was.
  lemma {:induction false} RowAfter(g: Scale, root: Root, copy: Copy, arr: seq<Arrival>, n: nat, s: nat)
    requires IsRun(g, root, arr) && IsCopy(g, copy) && n <= |arr| && s < g.height && s !in copy.done
    ensures match FinishTime(g, root, arr, n, s)
            case None => s !in CopyAfter(g, root, copy, arr, n).done && CopyAfter(g, root, copy, arr, n).rows[s] == copy.rows[s]
            case Some(k) => s in CopyAfter(g, root, copy, arr, n).done
                            && CopyAfter(g, root, copy, arr, n).rows[s] == Target(g, RootAfter(g, root, arr, k + 1).img, s)
  {
    if n > 0 {
      RowAfter(g, root, copy, arr, n - 1, s);
    }
  }

  // ----- rows that arrive once -------------------------------------------------------------------

  lemma {:induction false} ArrivedAfter(g: Scale, root: Root, arr: seq<Arrival>, n: nat, r: nat)
    requires IsRun(g, root, arr) && n <= |arr| && r < g.rootHeight
    ensures r in RootAfter(g, root, arr, n).arrived <==> r in root.arrived || exists k :: 0 <= k < n && arr[k].row == r
  {
    if n > 0 {
      ArrivedAfter(g, root, arr, n - 1, r);
    }
  }

  predicate NoRepeats(arr: seq<Arrival>) {
    forall i, j :: 0 <= i < j < |arr| ==> arr[i].row != arr[j].row
  }

  lemma {:induction false} RowStays(g: Scale, root: Root, arr: seq<Arrival>, m: nat, n: nat, r: nat)
    requires IsRun(g, root, arr) && m <= n <= |arr| && r < g.rootHeight
    requires forall k :: m <= k < n ==> arr[k].row != r
    ensures RootAfter(g, root, arr, n).img[r] == RootAfter(g, root, arr, m).img[r]
    decreases n
  {
    if m < n {
      RowStays(g, root, arr, m, n - 1, r);
    }
  }

  // When no row arrives twice, in whichever order, each finished row has the pixels of the image.
  lemma FinishedRow(g: Scale, root: Root, copy: Copy, arr: seq<Arrival>, n: nat, s: nat)
    requires IsRun(g, root, arr) && IsCopy(g, copy) && n <= |arr| && s < g.height && s !in copy.done
    requires root.arrived == {} && NoRepeats(arr) && s in CopyAfter(g, root, copy, arr, n).done
    ensures CopyAfter(g, root, copy, arr, n).rows[s] == Target(g, RootAfter(g, root, arr, n).img, s)
  {
    RowAfter(g, root, copy, arr, n, s);
    var k := FinishTime(g, root, arr, n, s).value;
    forall r | BlockFrom(s, g.rootHeight, g.height) <= r < BlockTo(s, g.rootHeight, g.height) && r < g.rootHeight
      ensures RootAfter(g, root, arr, n).img[r] == RootAfter(g, root, arr, k + 1).img[r]
    {
      ArrivedAfter(g, root, arr, k + 1, r);
      RowStays(g, root, arr, k + 1, n, r);
    }
    TargetSame(g, RootAfter(g, root, arr, n).img, RootAfter(g, root, arr, k + 1).img, s);
  }

  // ----- which orders complete the image --------------------------------------------------------------

  predicate Arrives(arr: seq<Arrival>, r: nat) {
    exists k :: 0 <= k < |arr| && arr[k].row == r
  }

  predicate AllArrive(g: Scale, arr: seq<Arrival>) {
    forall r {:trigger Arrives(arr, r)} :: 0 <= r < g.rootHeight ==> Arrives(arr, r)
  }

  predicate InOrder(arr: seq<Arrival>) {
    forall k {:trigger arr[k]} :: 0 <= k < |arr| ==> arr[k].row == k
  }

  lemma FinishedOnce(g: Scale, root: Root, copy: Copy, arr: seq<Arrival>, k: nat, n: nat, s: nat)
    requires IsRun(g, root, arr) && IsCopy(g, copy) && k < n <= |arr| && s < g.height && s !in copy.done && FinishesAt(g, root, arr, k, s)
    ensures s in CopyAfter(g, root, copy, arr, n).done
  {
    RowAfter(g, root, copy, arr, n, s);
  }

  lemma LastRowBelongs(g: Scale, s: nat)
    requires IsScale(g) && s < g.height
    ensures Belongs(g, LastRow(s, g.rootHeight, g.height), s)
  {
    LastRowInImage(s, g.rootHeight, g.height);
    if g.height <= g.rootHeight {
      LastRowScales(s, g.rootHeight, g.height);
    }
  }

  // In order, each scaled row is finished with its last root row at the latest.
  lemma InOrderCompletes(g: Scale, root: Root, copy: Copy, arr: seq<Arrival>, s: nat)
    requires IsRun(g, root, arr) && IsCopy(g, copy) && |arr| == g.rootHeight && s < g.height && s !in copy.done
    requires root.arrived == {} && InOrder(arr)
    ensures LastRow(s, g.rootHeight, g.height) < |arr|
    ensures s in CopyAfter(g, root, copy, arr, LastRow(s, g.rootHeight, g.height) + 1).done
    ensures s in CopyAfter(g, root, copy, arr, |arr|).done
    ensures CopyAfter(g, root, copy, arr, |arr|).rows[s] == Target(g, RootAfter(g, root, arr, |arr|).img, s)
  {
    BlockInside(s, g.rootHeight, g.height);
    var k := LastRow(s, g.rootHeight, g.height);
    LastRowBelongs(g, s);
    forall r {:trigger r in RootAfter(g, root, arr, k + 1).arrived} | BlockFrom(s, g.rootHeight, g.height) <= r < BlockTo(s, g.rootHeight, g.height)
      ensures r in RootAfter(g, root, arr, k + 1).arrived
    {
      ArrivedAfter(g, root, arr, k + 1, r);
      assert arr[r].row == r;
    }
    assert FinishesAt(g, root, arr, k, s);
    FinishedOnce(g, root, copy, arr, k, k + 1, s);
    FinishedOnce(g, root, copy, arr, k, |arr|, s);
    FinishedRow(g, root, copy, arr, |arr|, s);
  }

  // Whether all root rows of a block, whichever comes last, lead to the scaled row.
  predicate OrderDoesNotMatter(g: Scale) {
    g.height > g.rootHeight || (g.height > 0 && g.rootHeight % g.height == 0)
  }

  lemma BlockBelongs(g: Scale, r: nat, s: nat)
    requires IsScale(g) && OrderDoesNotMatter(g) && s < g.height
    requires BlockFrom(s, g.rootHeight, g.height) <= r < BlockTo(s, g.rootHeight, g.height)
    ensures Belongs(g, r, s)
  {
    BlockInside(s, g.rootHeight, g.height);
    if g.height <= g.rootHeight {
      var m := g.rootHeight / g.height;
      Multiple(g.height, g.rootHeight);
      MultipleIsExact(r, g.height, m);
      MultipleBlock(s, g.height, m);
      DivIs(r, m, s);
    }
  }

  lemma MultipleBlock(s: nat, height: nat, m: nat)
    requires height > 0
    ensures BackscaledY(s, m * height, height) == s * m && BackscaledY(s + 1, m * height, height) == (s + 1) * m
  {
    Back(s, height, m);
    Back(s + 1, height, m);
  }

  lemma Back(s: nat, height: nat, m: nat)
    requires height > 0
    ensures BackscaledY(s, m * height, height) == s * m
  {
    assert s * (m * height) == (s * m) * height;
    MulPlus(s * m, height);
    DivIs(s * (m * height), height, s * m);
  }

  lemma {:induction false} LastOfBlock(g: Scale, root: Root, arr: seq<Arrival>, n: nat, s: nat) returns (k: nat)
    requires IsRun(g, root, arr) && n <= |arr| && s < g.height && root.arrived == {}
    requires HasBlock(g, RootAfter(g, root, arr, n).arrived, s)
    ensures k < n && HasBlock(g, RootAfter(g, root, arr, k + 1).arrived, s)
    ensures BlockFrom(s, g.rootHeight, g.height) <= arr[k].row < BlockTo(s, g.rootHeight, g.height)
  {
    BlockInside(s, g.rootHeight, g.height);
    assert BlockFrom(s, g.rootHeight, g.height) in RootAfter(g, root, arr, n).arrived;
    if HasBlock(g, RootAfter(g, root, arr, n - 1).arrived, s) {
      k := LastOfBlock(g, root, arr, n - 1, s);
    } else {
      var r :| BlockFrom(s, g.rootHeight, g.height) <= r < BlockTo(s, g.rootHeight, g.height) && r !in RootAfter(g, root, arr, n - 1).arrived;
      assert r in RootAfter(g, root, arr, n).arrived;
      k := n - 1;
    }
  }

  lemma AnyOrderCompletes(g: Scale, root: Root, copy: Copy, arr: seq<Arrival>, s: nat)
    requires IsRun(g, root, arr) && IsCopy(g, copy) && s < g.height && s !in copy.done && root.arrived == {}
    requires OrderDoesNotMatter(g) && AllArrive(g, arr)
    ensures s in CopyAfter(g, root, copy, arr, |arr|).done
  {
    BlockInside(s, g.rootHeight, g.height);
    forall r {:trigger r in RootAfter(g, root, arr, |arr|).arrived} | BlockFrom(s, g.rootHeight, g.height) <= r < BlockTo(s, g.rootHeight, g.height)
      ensures r in RootAfter(g, root, arr, |arr|).arrived
    {
      assert Arrives(arr, r);
      ArrivedAfter(g, root, arr, |arr|, r);
    }
    var k := LastOfBlock(g, root, arr, |arr|, s);
    BlockBelongs(g, arr[k].row, s);
    assert FinishesAt(g, root, arr, k, s);
    FinishedOnce(g, root, copy, arr, k, |arr|, s);
  }

  // The root row that is the first of the block of the scaled row 1, but scales to the row 0.
  function Shared(g: Scale): nat
    requires IsScale(g)
  {
    BackscaledY(1, g.rootHeight, g.height)
  }

  lemma SharedIs(g: Scale)
    requires IsScale(g) && !OrderDoesNotMatter(g)
    ensures 1 < g.height && Shared(g) < g.rootHeight && ScaledY(Shared(g), g.rootHeight, g.height) == 0
    ensures BlockFrom(1, g.rootHeight, g.height) == Shared(g) < BlockTo(1, g.rootHeight, g.height)
  {
    BlockInside(1, g.rootHeight, g.height);
    DivIs(g.rootHeight, g.height, Shared(g));
    assert Shared(g) * g.height != g.rootHeight;
    DivIs(Shared(g) * g.height, g.rootHeight, 0);
  }

  predicate SharedIsLast(g: Scale, arr: seq<Arrival>)
    requires IsScale(g)
  {
    forall k {:trigger arr[k]} :: 0 <= k < |arr| && arr[k].row == Shared(g) ==> k == |arr| - 1
  }

  lemma SharedDoesNotFinish(g: Scale, root: Root, arr: seq<Arrival>, k: nat)
    requires IsRun(g, root, arr) && root.arrived == {} && k < |arr| && !OrderDoesNotMatter(g) && SharedIsLast(g, arr)
    ensures !FinishesAt(g, root, arr, k, 1)
  {
    SharedIs(g);
    ArrivedAfter(g, root, arr, k + 1, Shared(g));
    assert HasBlock(g, RootAfter(g, root, arr, k + 1).arrived, 1) ==> Shared(g) in RootAfter(g, root, arr, k + 1).arrived;
  }

  // If this row comes last, the scaled row 1 is never done.
  lemma SharedLast(g: Scale, root: Root, copy: Copy, arr: seq<Arrival>)
    requires IsRun(g, root, arr) && IsCopy(g, copy) && 1 !in copy.done && root.arrived == {}
    requires !OrderDoesNotMatter(g) && SharedIsLast(g, arr)
    ensures 1 < g.height && 1 !in CopyAfter(g, root, copy, arr, |arr|).done
  {
    SharedIs(g);
    RowAfter(g, root, copy, arr, |arr|, 1);
    var t := FinishTime(g, root, arr, |arr|, 1);
    if t.Some? {
      SharedDoesNotFinish(g, root, arr, t.value);
    }
  }

  ghost predicate IsComplete(g: Scale, root: Root, copy: Copy, arr: seq<Arrival>)
    requires IsRun(g, root, arr) && IsCopy(g, copy)
  {
    forall s: nat {:trigger s in CopyAfter(g, root, copy, arr, |arr|).done} :: s in CopyAfter(g, root, copy, arr, |arr|).done <==> s < g.height
  }

  // All rows of the scaled image are done after the root rows have arrived in any order, each one
  // once, exactly if it is higher than the root image or its height divides that.
  lemma WhenOrderDoesNotMatter(g: Scale, root: Root, copy: Copy)
    requires HasRoot(g, root) && IsCopy(g, copy) && root.arrived == {} && copy.done == {}
    ensures OrderDoesNotMatter(g) <==>
              forall arr {:trigger IsComplete(g, root, copy, arr)} :: IsRun(g, root, arr) && NoRepeats(arr) && AllArrive(g, arr) ==> IsComplete(g, root, copy, arr)
  {
    if OrderDoesNotMatter(g) {
      forall arr {:trigger IsComplete(g, root, copy, arr)} | IsRun(g, root, arr) && NoRepeats(arr) && AllArrive(g, arr)
        ensures IsComplete(g, root, copy, arr)
      {
        forall s {:trigger s in CopyAfter(g, root, copy, arr, |arr|).done} | 0 <= s < g.height ensures s in CopyAfter(g, root, copy, arr, |arr|).done {
          AnyOrderCompletes(g, root, copy, arr, s);
        }
      }
    } else {
      SharedIs(g);
      var arr := WithLast(g, root, Shared(g));
      SharedLast(g, root, copy, arr);
      assert !IsComplete(g, root, copy, arr);
    }
  }

  // An order in which a given row comes last.
  lemma WithLast(g: Scale, root: Root, last: nat) returns (arr: seq<Arrival>)
    requires HasRoot(g, root) && last < g.rootHeight
    ensures |arr| == g.rootHeight && IsRun(g, root, arr) && NoRepeats(arr) && AllArrive(g, arr)
    ensures forall k {:trigger arr[k]} :: 0 <= k < |arr| && arr[k].row == last ==> k == |arr| - 1
  {
    var h := g.rootHeight;
    arr := seq(h, k requires 0 <= k < h => Arrival(if k == h - 1 then last else if k < last then k else k + 1, root.img[0]));
    forall r {:trigger Arrives(arr, r)} | 0 <= r < h ensures Arrives(arr, r) {
      assert arr[if r == last then h - 1 else if r < last then r else r - 1].row == r;
    }
  }

  // ----- buffers that are created late -----------------------------------------------------------

  // The rows that have arrived are passed to a new buffer, from the first to the last one.
  ghost function Replay(g: Scale, root: Root, copy: Copy, n: nat): (r: Copy)
    requires HasRoot(g, root) && IsCopy(g, copy)
    ensures IsCopy(g, r)
  {
    if n == 0 then copy
    else if n - 1 in root.arrived then Pass(g, Replay(g, root, copy, n - 1), root, n - 1)
    else Replay(g, root, copy, n - 1)
  }

  ghost predicate Replayed(g: Scale, root: Root, n: nat, s: nat)
    requires IsScale(g)
  {
    exists r: nat {:trigger Finishes(g, root.arrived, r, s)} :: r < n && r in root.arrived && Finishes(g, root.arrived, r, s)
  }

  lemma {:induction false} ReplayIs(g: Scale, root: Root, copy: Copy, n: nat, s: nat)
    requires HasRoot(g, root) && IsCopy(g, copy) && s < g.height && s !in copy.done
    ensures s in Replay(g, root, copy, n).done <==> Replayed(g, root, n, s)
    ensures Replay(g, root, copy, n).rows[s] == if Replayed(g, root, n, s) then Target(g, root.img, s) else copy.rows[s]
  {
    if n > 0 {
      ReplayIs(g, root, copy, n - 1, s);
      assert Replayed(g, root, n, s) <==> Replayed(g, root, n - 1, s) || (n - 1 in root.arrived && Finishes(g, root.arrived, n - 1, s));
    }
  }

  lemma {:induction false} ArrivedGrows(g: Scale, root: Root, arr: seq<Arrival>, m: nat, n: nat)
    requires IsRun(g, root, arr) && m <= n <= |arr|
    ensures RootAfter(g, root, arr, m).arrived <= RootAfter(g, root, arr, n).arrived
    decreases n
  {
    if m < n {
      ArrivedGrows(g, root, arr, m, n - 1);
    }
  }

  // A buffer that is created after some arrivals has all rows that one created before them has.
  lemma LateHasAll(g: Scale, root: Root, copy: Copy, arr: seq<Arrival>, n: nat, s: nat)
    requires IsRun(g, root, arr) && IsCopy(g, copy) && n <= |arr| && s < g.height && s !in copy.done
    requires s in CopyAfter(g, root, copy, arr, n).done
    ensures s in Replay(g, RootAfter(g, root, arr, n), copy, g.rootHeight).done
  {
    RowAfter(g, root, copy, arr, n, s);
    var k := FinishTime(g, root, arr, n, s).value;
    ArrivedGrows(g, root, arr, k + 1, n);
    assert Finishes(g, RootAfter(g, root, arr, n).arrived, arr[k].row, s);
    assert arr[k].row in RootAfter(g, root, arr, k + 1).arrived;
    ReplayIs(g, RootAfter(g, root, arr, n), copy, g.rootHeight, s);
  }

  // When all rows have arrived, it is complete, whatever their order was.
  lemma LateIsComplete(g: Scale, root: Root, copy: Copy, s: nat)
    requires HasRoot(g, root) && IsCopy(g, copy) && s < g.height && s !in copy.done
    requires forall r: nat {:trigger r in root.arrived} :: r < g.rootHeight ==> r in root.arrived
    ensures s in Replay(g, root, copy, g.rootHeight).done
    ensures Replay(g, root, copy, g.rootHeight).rows[s] == Target(g, root.img, s)
  {
    BlockInside(s, g.rootHeight, g.height);
    LastRowBelongs(g, s);
    assert Finishes(g, root.arrived, LastRow(s, g.rootHeight, g.height), s);
    ReplayIs(g, root, copy, g.rootHeight, s);
  }

  lemma Monotone(a: nat, b: nat, h: nat, height: nat)
    requires h > 0 && a <= b
    ensures ScaledY(a, h, height) <= ScaledY(b, h, height)
  {
    var s := ScaledY(a, h, height);
    DivIs(a * height, h, s);
    assert a * height <= b * height;
    DivAtLeast(b * height, h, s);
  }

  lemma LaterBelongs(g: Scale, r: nat, s: nat) returns (k: nat)
    requires IsScale(g) && s < g.height && Belongs(g, r, s)
    ensures Belongs(g, k, s) && r <= k && BlockTo(s, g.rootHeight, g.height) <= k + 1
    ensures k == r || k + 1 == BlockTo(s, g.rootHeight, g.height)
  {
    BlockInside(s, g.rootHeight, g.height);
    LastRowBelongs(g, s);
    k := Max(r, BlockTo(s, g.rootHeight, g.height) - 1);
    if g.height <= g.rootHeight {
      Monotone(r, k, g.rootHeight, g.height);
      var last := LastRow(s, g.rootHeight, g.height);
      Monotone(k, Max(k, last), g.rootHeight, g.height);
      if k > last {
        assert k == r;
      }
    }
  }

  // In order, it has the same rows as if it had been there from the beginning.
  lemma LateIsSame(g: Scale, root: Root, copy: Copy, arr: seq<Arrival>, n: nat, s: nat)
    requires IsRun(g, root, arr) && IsCopy(g, copy) && n <= |arr| == g.rootHeight && s < g.height && s !in copy.done
    requires root.arrived == {} && InOrder(arr)
    ensures s in CopyAfter(g, root, copy, arr, n).done <==> s in Replay(g, RootAfter(g, root, arr, n), copy, g.rootHeight).done
    ensures CopyAfter(g, root, copy, arr, n).rows[s] == Replay(g, RootAfter(g, root, arr, n), copy, g.rootHeight).rows[s]
  {
    var now := RootAfter(g, root, arr, n);
    ReplayIs(g, now, copy, g.rootHeight, s);
    RowAfter(g, root, copy, arr, n, s);
    if s in CopyAfter(g, root, copy, arr, n).done {
      LateHasAll(g, root, copy, arr, n, s);
      FinishedRow(g, root, copy, arr, n, s);
    } else if Replayed(g, now, g.rootHeight, s) {
      var r: nat :| r < g.rootHeight && r in now.arrived && Finishes(g, now.arrived, r, s);
      var k := LaterBelongs(g, r, s);
      InOrderFinishes(g, root, arr, n, r, k, s);
      FinishedOnce(g, root, copy, arr, k, n, s);
    }
  }

  lemma InOrderFinishes(g: Scale, root: Root, arr: seq<Arrival>, n: nat, r: nat, k: nat, s: nat)
    requires IsRun(g, root, arr) && n <= |arr| == g.rootHeight && s < g.height && root.arrived == {} && InOrder(arr)
    requires r in RootAfter(g, root, arr, n).arrived && HasBlock(g, RootAfter(g, root, arr, n).arrived, s) && r < g.rootHeight
    requires Belongs(g, k, s) && BlockTo(s, g.rootHeight, g.height) <= k + 1
    requires k == r || k + 1 == BlockTo(s, g.rootHeight, g.height)
    ensures k < n && FinishesAt(g, root, arr, k, s)
  {
    BlockInside(s, g.rootHeight, g.height);
    ArrivedAfter(g, root, arr, n, k);
    assert k in RootAfter(g, root, arr, n).arrived;
    forall q {:trigger q in RootAfter(g, root, arr, k + 1).arrived} | BlockFrom(s, g.rootHeight, g.height) <= q < BlockTo(s, g.rootHeight, g.height)
      ensures q in RootAfter(g, root, arr, k + 1).arrived
    {
      ArrivedAfter(g, root, arr, k + 1, q);
      assert arr[q].row == q;
    }
  }

  // ----- a further scan ----------------------------------------------------------------------------

  // The first root row that belongs to a scaled row.
  function FirstRow(g: Scale, s: nat): nat
    requires IsScale(g)
  {
    if g.height > g.rootHeight then LastRow(s, g.rootHeight, g.height) else (s * g.rootHeight + (g.height - 1)) / g.height
  }

  lemma FirstRowIs(g: Scale, s: nat)
    requires IsScale(g) && s < g.height
    ensures FirstRow(g, s) < g.rootHeight && Belongs(g, FirstRow(g, s), s)
    ensures forall r :: 0 <= r < FirstRow(g, s) ==> !Belongs(g, r, s)
    ensures BlockFrom(s, g.rootHeight, g.height) <= FirstRow(g, s)
  {
    LastRowBelongs(g, s);
    if g.height <= g.rootHeight {
      var f := FirstRow(g, s);
      Ceiling(s * g.rootHeight, g.height, f);
      forall r: nat ensures ScaledY(r, g.rootHeight, g.height) >= s <==> f <= r {
        Ceiling(s * g.rootHeight, g.height, r);
        DivAtLeast(r * g.height, g.rootHeight, s);
      }
      var last := LastRow(s, g.rootHeight, g.height);
      Monotone(f, last, g.rootHeight, g.height);
      Floor(s * g.rootHeight, g.height);
    }
  }

  lemma Ceiling(a: nat, b: nat, r: nat)
    requires b > 0
    ensures (a + (b - 1)) / b <= r <==> a <= r * b
  {
    DivAtLeast(a + (b - 1), b, r + 1);
    MulPlus(r, b);
  }

  lemma Floor(a: nat, b: nat)
    requires b > 0
    ensures a / b <= (a + (b - 1)) / b
  {
    DivAtLeast(a + (b - 1), b, a / b);
    DivAtLeast(a, b, a / b);
  }

  // The image with its first n rows from the new scan.
  function Mixed(img: seq<Row>, arr: seq<Arrival>, n: nat): seq<Row>
    requires n <= |arr| <= |img|
  {
    seq(|img|, r requires 0 <= r < |img| => if r < n then arr[r].data else img[r])
  }

  lemma {:induction false} MixedAfter(g: Scale, root: Root, arr: seq<Arrival>, n: nat)
    requires IsRun(g, root, arr) && n <= |arr| == g.rootHeight && InOrder(arr)
    ensures RootAfter(g, root, arr, n).img == Mixed(root.img, arr, n)
  {
    if n > 0 {
      MixedAfter(g, root, arr, n - 1);
    }
  }

  ghost predicate IsWholeScan(g: Scale, root: Root, copy: Copy, arr: seq<Arrival>) {
    && IsRun(g, root, arr) && |arr| == g.rootHeight && InOrder(arr) && IsCopy(g, copy) && copy.done == {}
    && forall r: nat {:trigger r in root.arrived} :: r < g.rootHeight ==> r in root.arrived
  }

  // When all root rows have been there before, a scaled row is done with the first one that
  // belongs to it, while the further ones are still those of the former scan.
  lemma FurtherScan(g: Scale, root: Root, copy: Copy, arr: seq<Arrival>, s: nat)
    requires IsWholeScan(g, root, copy, arr) && s < g.height
    ensures FirstRow(g, s) < |arr| && s in CopyAfter(g, root, copy, arr, |arr|).done
    ensures HasRoot(g, Root(Mixed(root.img, arr, FirstRow(g, s) + 1), {}))
    ensures CopyAfter(g, root, copy, arr, |arr|).rows[s] == Target(g, Mixed(root.img, arr, FirstRow(g, s) + 1), s)
  {
    FirstRowIs(g, s);
    BlockInside(s, g.rootHeight, g.height);
    var f := FirstRow(g, s);
    ArrivedGrows(g, root, arr, 0, f + 1);
    assert FinishesAt(g, root, arr, f, s);
    var t := FinishTime(g, root, arr, |arr|, s);
    assert t.Some? && t.value <= f;
    assert Belongs(g, arr[t.value].row, s);
    assert t.value == f;
    RowAfter(g, root, copy, arr, |arr|, s);
    MixedAfter(g, root, arr, f + 1);
  }

  predicate IsRenewed(g: Scale, s: nat)
    requires IsScale(g)
  {
    BlockTo(s, g.rootHeight, g.height) <= FirstRow(g, s) + 1
  }

  // So it has the pixels of the new scan if there is no further row.
  lemma RenewedRow(g: Scale, root: Root, copy: Copy, arr: seq<Arrival>, s: nat)
    requires IsWholeScan(g, root, copy, arr) && s < g.height && IsRenewed(g, s)
    ensures CopyAfter(g, root, copy, arr, |arr|).rows[s] == Target(g, RootAfter(g, root, arr, |arr|).img, s)
  {
    FirstRowIs(g, s);
    FurtherScan(g, root, copy, arr, s);
    MixedAfter(g, root, arr, |arr|);
    TargetSame(g, Mixed(root.img, arr, FirstRow(g, s) + 1), Mixed(root.img, arr, |arr|), s);
  }

  function RowsTo(h: nat): (r: set<nat>)
    ensures forall k: nat {:trigger k in r} :: k in r <==> k < h
  {
    if h == 0 then {} else RowsTo(h - 1) + {h - 1}
  }

  // Otherwise there are two scans for which it has not.
  lemma NotRenewedRow(g: Scale, copy: Copy, s: nat) returns (root: Root, arr: seq<Arrival>)
    requires IsCopy(g, copy) && copy.done == {} && s < g.height && !IsRenewed(g, s)
    requires g.bpp > 0 && g.table1 == Same && g.table2 == Same
    ensures IsWholeScan(g, root, copy, arr)
    ensures CopyAfter(g, root, copy, arr, |arr|).rows[s] != Target(g, RootAfter(g, root, arr, |arr|).img, s)
  {
    var black, white := Plain(g.rootWidth, g.bpp, 0), Plain(g.rootWidth, g.bpp, 255);
    root := Root(seq(g.rootHeight, _ => black), RowsTo(g.rootHeight));
    arr := seq(g.rootHeight, k requires 0 <= k < g.rootHeight => Arrival(k, white));
    FurtherScan(g, root, copy, arr, s);
    MixedAfter(g, root, arr, |arr|);
    ScansDiffer(g, Mixed(root.img, arr, FirstRow(g, s) + 1), Mixed(root.img, arr, |arr|), s);
  }

  lemma ScansDiffer(g: Scale, a: seq<Row>, b: seq<Row>, s: nat)
    requires HasRoot(g, Root(a, {})) && HasRoot(g, Root(b, {})) && s < g.height && !IsRenewed(g, s)
    requires g.bpp > 0 && g.table1 == Same && g.table2 == Same
    requires forall y :: FirstRow(g, s) < y < g.rootHeight ==> a[y] == Plain(g.rootWidth, g.bpp, 0)
    requires forall y :: 0 <= y < g.rootHeight ==> b[y] == Plain(g.rootWidth, g.bpp, 255)
    ensures Target(g, a, s) != Target(g, b, s)
  {
    FirstRowIs(g, s);
    BlockInside(s, g.rootHeight, g.height);
    var y1, y2 := BlockFrom(s, g.rootHeight, g.height), BlockTo(s, g.rootHeight, g.height);
    ScaledAt(a, g.rootWidth, g.width, g.bpp, Same, Same, y1, y2, 0, 0);
    ScaledAt(b, g.rootWidth, g.width, g.bpp, Same, Same, y1, y2, 0, 0);
    var x1, x2 := First(0, g.rootWidth, g.width), End(0, g.rootWidth, g.width);
    DarkerByte(a, g.rootWidth, g.bpp, 0, x1, x2, y1, y2, FirstRow(g, s) + 1);
    WhiteByte(b, g.rootWidth, g.bpp, 0, x1, x2, y1, y2);
  }
}
