// Placement of floats: dw/ooffloatsmgr.cc:226-291, 545-596, 751-923, 1118-1181,
// 1292-1351.
//
// What the widgets answer (sizes, horizontal positions, offsets of generators) is
// fixed during a layout pass and part of a float here.
module Floats {
  import opened Common
  import opened VectorSearch
  import opened FloatOrder

  datatype Side = Left | Right

  datatype Size = Size(width: int, ascent: int, descent: int)

  class Float {
    const side: Side
    const index: nat               // in the list of its side
    const sideSpanningIndex: nat   // among the floats of both sides
    const point: DocPoint
    const requisition: Size        // answer of Widget::sizeRequest
    const x: int                   // answer of calcFloatX
    const borderDiff: int          // "d" in getBorder

    var yReq: int
    var yReal: int
    var size: Size
    var dirty: bool

    ghost predicate Valid()
      reads this`size, this`dirty
    {
      Height() >= 0 && (!dirty ==> size == requisition)
    }

    function Height(): int {
      requisition.ascent + requisition.descent
    }

    function Bottom(): int
      reads this`yReal
    {
      yReal + Height()
    }

    constructor (side: Side, index: nat, sideSpanningIndex: nat, point: DocPoint, requisition: Size, x: int, borderDiff: int)
      requires requisition.ascent + requisition.descent >= 0
      ensures Valid() && yReal == yReq == 0 && dirty
      ensures this.side == side && this.index == index && this.sideSpanningIndex == sideSpanningIndex
      ensures this.point == point && this.requisition == requisition && this.x == x && this.borderDiff == borderDiff
    {
      this.side, this.index, this.sideSpanningIndex := side, index, sideSpanningIndex;
      this.point, this.requisition, this.x, this.borderDiff := point, requisition, x, borderDiff;
      yReq, yReal, size, dirty := 0, 0, Size(0, 0, 0), true;
    }

    method EnsureFloatSize()
      requires Valid()
      modifies this`size, this`dirty
      ensures Valid() && !dirty && size == requisition
    {
      if dirty {
        size := requisition;
        dirty := false;
      }
    }

    method Covers(y: int, h: int) returns (b: bool)
      requires Valid()
      modifies this`size, this`dirty
      ensures Valid() && size == requisition && b == Meets(y, h)
      ensures b <==> yReal + requisition.ascent + requisition.descent > y && yReal < y + h
    {
      EnsureFloatSize();
      b := yReal + size.ascent + size.descent > y && yReal < y + h;
    }

    predicate Meets(y: int, h: int)
      reads this`yReal
    {
      Bottom() > y && yReal < y + h
    }

    // The space the float takes from its side of a line.
    function Border(): int {
      requisition.width + borderDiff
    }
  }

  function Opposite(side: Side): Side {
    if side == Left then Right else Left
  }

  // The horizontal extents exclude that a left and a right float stand side by side.
  predicate SideBySideExcluded(left: Float, right: Float) {
    left.x + left.requisition.width > right.x
  }

  // b, which comes later, has to start below a.
  predicate MustClear(a: Float, b: Float) {
    if a.side == b.side then true
    else if a.side == Left then SideBySideExcluded(a, b)
    else SideBySideExcluded(b, a)
  }

  method CollidesV(vloat: Float, other: Float) returns (result: bool, yReal: int)
    requires other.Valid()
    modifies other`size, other`dirty
    ensures other.Valid()
    ensures result <==> vloat.yReal < other.yReal + other.requisition.ascent + other.requisition.descent
    ensures result ==> yReal == other.yReal + other.requisition.ascent + other.requisition.descent
  {
    other.EnsureFloatSize();
    var otherBottomGB := other.yReal + other.size.ascent + other.size.descent;
    yReal := vloat.yReal;
    if vloat.yReal < otherBottomGB {
      yReal := otherBottomGB;
      result := true;
    } else {
      result := false;
    }
  }

  method CollidesH(vloat: Float, other: Float) returns (collidesH: bool)
    requires vloat.Valid() && other.Valid() && vloat.side != other.side
    modifies vloat`size, vloat`dirty, other`size, other`dirty
    ensures vloat.Valid() && other.Valid()
    ensures collidesH == MustClear(other, vloat)
    ensures collidesH <==>
              if vloat.side == Left then vloat.x + vloat.requisition.width > other.x
              else other.x + other.requisition.width > vloat.x
  {
    if vloat.side == Left {
      vloat.EnsureFloatSize();
      collidesH := vloat.x + vloat.size.width > other.x;
    } else {
      other.EnsureFloatSize();
      collidesH := other.x + other.size.width > vloat.x;
    }
  }

  // One list of floats: numbered, and in the order of the side spanning index.
  ghost predicate IsSide(list: seq<Float>, side: Side, order: seq<Float>) {
    && (forall i {:trigger list[i]} :: 0 <= i < |list| ==>
          && list[i].side == side && list[i].index == i
          && list[i].sideSpanningIndex < |order| && order[list[i].sideSpanningIndex] == list[i])
    && (forall i, j {:trigger list[i], list[j]} :: 0 <= i < j < |list| ==>
          list[i].sideSpanningIndex < list[j].sideSpanningIndex)
  }

  ghost predicate IsOrder(order: seq<Float>, left: seq<Float>, right: seq<Float>) {
    forall k {:trigger order[k]} :: 0 <= k < |order| ==>
      && order[k].sideSpanningIndex == k
      && var list := if order[k].side == Left then left else right;
         order[k].index < |list| && list[order[k].index] == order[k]
  }

  lemma SideAfterAdd(list: seq<Float>, side: Side, order: seq<Float>, f: Float)
    requires IsSide(list, side, order) && f.sideSpanningIndex == |order|
    ensures IsSide(list, side, order + [f])
    ensures f.side == side && f.index == |list| ==> IsSide(list + [f], side, order + [f])
  {
  }

  lemma OrderAfterAdd(order: seq<Float>, left: seq<Float>, right: seq<Float>, f: Float)
    requires IsOrder(order, left, right) && f.sideSpanningIndex == |order|
    ensures f.side == Left && f.index == |left| ==> IsOrder(order + [f], left + [f], right)
    ensures f.side == Right && f.index == |right| ==> IsOrder(order + [f], left, right + [f])
  {
  }

  // The vertical positions of all floats.
  ghost function Positions(order: seq<Float>): (ys: seq<int>)
    reads set f | f in order
    ensures |ys| == |order| && forall k {:trigger ys[k]} {:trigger order[k]} :: 0 <= k < |order| ==> ys[k] == order[k].yReal
  {
    seq(|order|, k requires 0 <= k < |order| reads set f | f in order => order[k].yReal)
  }

  ghost function BottomOf(order: seq<Float>, ys: seq<int>, a: nat): int
    requires a < |order| && |ys| == |order|
  {
    ys[a] + order[a].Height()
  }

  // Of the first n floats, each one is below all earlier ones it has to clear.
  ghost predicate Stacked(order: seq<Float>, ys: seq<int>, n: nat)
    requires n <= |order| == |ys|
  {
    forall a, b {:trigger MustClear(order[a], order[b])} :: 0 <= a < b < n && MustClear(order[a], order[b]) ==>
      BottomOf(order, ys, a) <= ys[b]
  }

  // z is a possible position for float k, requested at y.
  ghost predicate Admissible(order: seq<Float>, ys: seq<int>, k: nat, y: int, z: int)
    requires k < |order| == |ys|
  {
    && y <= z
    && forall a {:trigger MustClear(order[a], order[k])} :: 0 <= a < k && MustClear(order[a], order[k]) ==>
         BottomOf(order, ys, a) <= z
  }

  ghost predicate IsHighest(order: seq<Float>, ys: seq<int>, k: nat, y: int, z: int)
    requires k < |order| == |ys|
  {
    Admissible(order, ys, k, y, z) && forall z' {:trigger Admissible(order, ys, k, y, z')} :: Admissible(order, ys, k, y, z') ==> z <= z'
  }

  // In numbers: an earlier float has to be cleared if and only if it is of the same side, or the left
  // one of the two reaches beyond the left edge of the right one.
  lemma WhenMustClear(a: Float, b: Float)
    ensures MustClear(a, b) <==>
              || a.side == b.side
              || (a.side == Left && b.side == Right && a.x + a.requisition.width > b.x)
              || (a.side == Right && b.side == Left && b.x + b.requisition.width > a.x)
  {
  }

  // The highest position is the request, or the bottom of an earlier float that has to be cleared.
  lemma HighestIsRequested(order: seq<Float>, ys: seq<int>, k: nat, y: int, z: int)
    requires k < |order| == |ys| && IsHighest(order, ys, k, y, z) && z != y
    ensures z > y && exists a {:trigger order[a]} ::
              0 <= a < k && MustClear(order[a], order[k]) && z == ys[a] + order[a].requisition.ascent + order[a].requisition.descent
  {
    assert !Admissible(order, ys, k, y, z - 1);
    var a :| 0 <= a < k && MustClear(order[a], order[k]) && BottomOf(order, ys, a) > z - 1;
    assert BottomOf(order, ys, a) <= z;
  }

  // So a float that leaves room beside all earlier ones of the other side, and has none of its own
  // side below its request, stays at its request.
  lemma StaysAtRequest(order: seq<Float>, ys: seq<int>, k: nat, y: int, z: int)
    requires k < |order| == |ys| && IsHighest(order, ys, k, y, z)
    ensures (forall a {:trigger order[a]} :: 0 <= a < k ==>
               if order[a].side == order[k].side then ys[a] + order[a].requisition.ascent + order[a].requisition.descent <= y
               else if order[a].side == Left then order[a].x + order[a].requisition.width <= order[k].x
               else order[k].x + order[k].requisition.width <= order[a].x) ==> z == y
  {
    if z != y {
      HighestIsRequested(order, ys, k, y, z);
    }
  }

  function Difference(): (int, int) -> int {
    (a, b) => a - b
  }

  // SortedFloatsVector::findLastBeforeSideSpanningIndex
  method FindLastBefore(list: seq<Float>, ssi: nat) returns (r: int)
    requires forall i, j {:trigger list[i], list[j]} :: 0 <= i < j < |list| ==>
               list[i].sideSpanningIndex < list[j].sideSpanningIndex
    requires forall i {:trigger list[i]} :: 0 <= i < |list| ==> list[i].sideSpanningIndex != ssi
    ensures -1 <= r < |list|
    ensures forall i {:trigger list[i]} :: 0 <= i < |list| ==> (i <= r <==> list[i].sideSpanningIndex < ssi)
  {
    var keys: seq<int> := seq(|list|, i requires 0 <= i < |list| => list[i].sideSpanningIndex);
    assert forall i {:trigger list[i]} :: 0 <= i < |list| ==> keys[i] == list[i].sideSpanningIndex;
    var i := BSearch(ssi, keys, Difference(), |keys| - 1);
    r := i - 1;
  }

  class OOFFloatsMgr {
    var leftFloats: seq<Float>
    var rightFloats: seq<Float>
    ghost var order: seq<Float>   // all floats, by side spanning index

    // The lists, as far as they do not depend on the state of the floats.
    ghost predicate Structured()
      reads this
    {
      && |order| == |leftFloats| + |rightFloats|
      && IsSide(leftFloats, Left, order) && IsSide(rightFloats, Right, order)
      && IsOrder(order, leftFloats, rightFloats)
      && forall k {:trigger order[k]} :: 0 <= k < |order| ==> order[k].Height() >= 0
    }

    ghost predicate Valid()
      reads this, set f | f in order
    {
      Structured() && forall k {:trigger order[k]} :: 0 <= k < |order| ==> order[k].Valid()
    }

    constructor ()
      ensures Valid() && order == []
    {
      leftFloats, rightFloats, order := [], [], [];
    }

    method AddWidgetOOF(side: Side, point: DocPoint, requisition: Size, x: int, borderDiff: int) returns (f: Float)
      requires Valid() && requisition.ascent + requisition.descent >= 0
      modifies this
      ensures Valid() && fresh(f) && order == old(order) + [f]
      ensures f.side == side && f.point == point && f.requisition == requisition && f.x == x && f.borderDiff == borderDiff
    {
      var n := |leftFloats| + |rightFloats|;
      match side {
        case Left =>
          f := new Float(Left, |leftFloats|, n, point, requisition, x, borderDiff);
          OrderAfterAdd(order, leftFloats, rightFloats, f);
          SideAfterAdd(leftFloats, Left, order, f);
          SideAfterAdd(rightFloats, Right, order, f);
          leftFloats := leftFloats + [f];
        case Right =>
          f := new Float(Right, |rightFloats|, n, point, requisition, x, borderDiff);
          OrderAfterAdd(order, leftFloats, rightFloats, f);
          SideAfterAdd(leftFloats, Left, order, f);
          SideAfterAdd(rightFloats, Right, order, f);
          rightFloats := rightFloats + [f];
      }
      order := order + [f];
    }

    function ListOf(side: Side): seq<Float>
      reads this
    {
      if side == Left then leftFloats else rightFloats
    }

    // Is the previous float of the same side cleared, then all of them are.
    lemma SameSideCleared(ys: seq<int>, k: nat, z: int)
      requires Structured() && k < |order| == |ys| && Stacked(order, ys, k)
      requires var f := order[k];
               f.index >= 1 ==> BottomOf(order, ys, ListOf(f.side)[f.index - 1].sideSpanningIndex) <= z
      ensures forall a :: 0 <= a < k && order[a].side == order[k].side ==> BottomOf(order, ys, a) <= z
    {
      var f := order[k];
      var list := ListOf(f.side);
      forall a | 0 <= a < k && order[a].side == f.side ensures BottomOf(order, ys, a) <= z {
        var i := order[a].index;
        assert list[i] == order[a] && list[f.index] == f && i < f.index;
        if i < f.index - 1 {
          var p := list[f.index - 1].sideSpanningIndex;
          assert list[i].sideSpanningIndex < p < k;
          assert MustClear(order[a], order[p]);
        }
      }
    }

    // Floats of one side end in the order of the list.
    lemma BottomsGrow(ys: seq<int>, side: Side, i: nat, j: nat, n: nat)
      requires Structured() && n <= |order| == |ys| && Stacked(order, ys, n)
      requires i <= j < |ListOf(side)| && ListOf(side)[j].sideSpanningIndex < n
      ensures BottomOf(order, ys, ListOf(side)[i].sideSpanningIndex) <= BottomOf(order, ys, ListOf(side)[j].sideSpanningIndex)
    {
      if i < j {
        var a, b := ListOf(side)[i].sideSpanningIndex, ListOf(side)[j].sideSpanningIndex;
        assert MustClear(order[a], order[b]);
      }
    }

    // The positions other than that of f are those of ys.
    ghost predicate OthersAt(ys: seq<int>, f: Float)
      reads this, set g | g in order
    {
      |ys| == |order| && Structured() && forall k {:trigger order[k]} :: 0 <= k < |order| && order[k] != f ==> order[k].yReal == ys[k]
    }

    // Collisions on the same side: only the previous float is relevant.
    method ClearSameSide(f: Float, ghost ys: seq<int>)
      requires Valid() && f in order && OthersAt(ys, f) && Stacked(order, ys, f.sideSpanningIndex)
      modifies f`yReal, order`size, order`dirty
      ensures Valid() && OthersAt(ys, f)
      ensures f.index == 0 ==> f.yReal == old(f.yReal)
      ensures f.index >= 1 ==>
                f.yReal == Max(old(f.yReal), BottomOf(order, ys, ListOf(f.side)[f.index - 1].sideSpanningIndex))
    {
      var listSame := ListOf(f.side);
      if f.index >= 1 {
        var prev := listSame[f.index - 1];
        var collides, yRealNew := CollidesV(f, prev);
        if collides {
          f.yReal := yRealNew;
        }
      }
    }

    // All earlier floats of the opposite side that f has to clear end at z or above it.
    ghost predicate OppositeCleared(ys: seq<int>, f: Float, z: int)
      requires |ys| == |order| && f.sideSpanningIndex < |order|
      reads this
    {
      forall a {:trigger order[a]} :: 0 <= a < f.sideSpanningIndex && order[a].side != f.side && MustClear(order[a], f) ==>
        BottomOf(order, ys, a) <= z
    }

    // It is enough to look at the last floats of the opposite list, down to index i:
    // those before i do not end below z.
    lemma OppositeClearedByList(ys: seq<int>, f: Float, z: int, last: int, i: int)
      requires Structured() && f in order && |ys| == |order| && Stacked(order, ys, f.sideSpanningIndex)
      requires var list := ListOf(Opposite(f.side));
               && -1 <= i <= last < |list|
               && (forall j {:trigger list[j]} :: 0 <= j < |list| ==> (j <= last <==> list[j].sideSpanningIndex < f.sideSpanningIndex))
               && (forall j {:trigger list[j]} :: i < j <= last ==> !MustClear(list[j], f))
               && (i >= 0 ==> BottomOf(order, ys, list[i].sideSpanningIndex) <= z)
      ensures OppositeCleared(ys, f, z)
    {
      var side := Opposite(f.side);
      forall a | 0 <= a < f.sideSpanningIndex && order[a].side != f.side && MustClear(order[a], f)
        ensures BottomOf(order, ys, a) <= z
      {
        var j := order[a].index;
        assert ListOf(side)[j] == order[a];
        BottomsGrow(ys, side, j, i, f.sideSpanningIndex);
      }
    }

    // Test f against one float of the other side, and move it if they overlap.
    method CollideWith(f: Float, other: Float, ghost ys: seq<int>) returns (collidesV: bool, collidesH: bool)
      requires Valid() && f in order && other in order && f.side != other.side && OthersAt(ys, f)
      modifies f`yReal, order`size, order`dirty
      ensures Valid() && OthersAt(ys, f)
      ensures collidesV <==> old(f.yReal) < BottomOf(order, ys, other.sideSpanningIndex)
      ensures collidesH <==> collidesV && MustClear(other, f)
      ensures f.yReal ==
              if collidesH then BottomOf(order, ys, other.sideSpanningIndex) else old(f.yReal)
    {
      var yRealNew;
      collidesH := false;
      collidesV, yRealNew := CollidesV(f, other);
      if collidesV {
        collidesH := CollidesH(f, other);
        if collidesH {
          f.yReal := yRealNew;
        }
      }
    }

    // Collisions on the opposite side: go back as long as floats overlap vertically,
    // but only to the first one that also overlaps horizontally.
    method ClearOppositeSide(f: Float, ghost ys: seq<int>)
      requires Valid() && f in order && OthersAt(ys, f) && Stacked(order, ys, f.sideSpanningIndex)
      modifies f`yReal, order`size, order`dirty
      ensures Valid() && OthersAt(ys, f)
      ensures f.yReal >= old(f.yReal) && OppositeCleared(ys, f, f.yReal)
      ensures f.yReal == old(f.yReal) || EndsAt(ys, f, f.yReal)
    {
      var listOpp := ListOf(Opposite(f.side));
      var oppFloatIndex := FindLastBefore(listOpp, f.sideSpanningIndex);
      ghost var last := oppFloatIndex;
      var foundColl, overlapV := false, true;
      while !foundColl && oppFloatIndex >= 0 && overlapV
        invariant Valid() && OthersAt(ys, f)
        invariant -1 <= oppFloatIndex <= last
        invariant !foundColl ==> f.yReal == old(f.yReal)
        invariant !foundColl && overlapV ==>
                    forall j {:trigger listOpp[j]} :: oppFloatIndex < j <= last ==> !MustClear(listOpp[j], f)
        invariant foundColl || !overlapV ==> OppositeCleared(ys, f, f.yReal)
        invariant foundColl ==> f.yReal >= old(f.yReal) && EndsAt(ys, f, f.yReal)
        decreases oppFloatIndex, overlapV
      {
        var other := listOpp[oppFloatIndex];
        overlapV, foundColl := CollideWith(f, other, ys);
        if !overlapV || foundColl {
          OppositeClearedByList(ys, f, f.yReal, last, oppFloatIndex);
          ghost var a := other.sideSpanningIndex;
          assert listOpp[oppFloatIndex] == other && order[a] == other && a < f.sideSpanningIndex;
        }
        if overlapV {
          oppFloatIndex := oppFloatIndex - 1;
        }
      }
      if !foundColl && overlapV {
        OppositeClearedByList(ys, f, f.yReal, last, -1);
      }
    }

    // z is where some earlier float that f has to clear ends.
    ghost predicate EndsAt(ys: seq<int>, f: Float, z: int)
      requires |ys| == |order| && f.sideSpanningIndex < |order|
      reads this
    {
      exists a {:trigger order[a]} :: 0 <= a < f.sideSpanningIndex && MustClear(order[a], f) && BottomOf(order, ys, a) == z
    }

    lemma ClearedIsHighest(ys: seq<int>, f: Float, y: int, y1: int, z: int)
      requires Structured() && f in order && |ys| == |order| && Stacked(order, ys, f.sideSpanningIndex)
      requires y <= y1 <= z
      requires f.index == 0 ==> y1 == y
      requires f.index >= 1 ==> y1 == Max(y, BottomOf(order, ys, ListOf(f.side)[f.index - 1].sideSpanningIndex))
      requires OppositeCleared(ys, f, z) && (z == y1 || EndsAt(ys, f, z))
      ensures IsHighest(order, ys, f.sideSpanningIndex, y, z)
    {
      var k := f.sideSpanningIndex;
      assert order[k] == f;
      SameSideCleared(ys, k, z);
      forall a {:trigger MustClear(order[a], f)} | 0 <= a < k && MustClear(order[a], f) ensures BottomOf(order, ys, a) <= z {
      }
      forall z' {:trigger Admissible(order, ys, k, y, z')} | Admissible(order, ys, k, y, z') ensures z <= z' {
        if f.index >= 1 {
          var prev := ListOf(f.side)[f.index - 1];
          assert ListOf(f.side)[f.index] == f;
          assert order[prev.sideSpanningIndex] == prev && MustClear(prev, f);
        }
      }
    }

    // The float starts where it is requested ...
    method StartAt(f: Float, y: int, ghost ys: seq<int>)
      requires Valid() && f in order && ys == Positions(order)
      modifies f
      ensures Valid() && OthersAt(ys, f) && f.yReq == f.yReal == y
    {
      f.EnsureFloatSize();
      f.yReq, f.yReal := y, y;
    }

    // ... and is moved down as far as needed.
    method MoveDown(f: Float, y: int, ghost ys: seq<int>)
      requires Valid() && f in order && OthersAt(ys, f) && f.yReal == y
      requires Stacked(order, ys, f.sideSpanningIndex)
      modifies f`yReal, order`size, order`dirty
      ensures Valid() && OthersAt(ys, f) && IsHighest(order, ys, f.sideSpanningIndex, y, f.yReal)
    {
      ClearSameSide(f, ys);
      ghost var y1 := f.yReal;
      ClearOppositeSide(f, ys);
      ClearedIsHighest(ys, f, y, y1, f.yReal);
    }

    // The float stands at the bottom of an earlier one that it has to clear.
    ghost predicate StandsBelow(f: Float)
      requires f.sideSpanningIndex <= |order|
      reads this, f, set g | g in order
    {
      exists a {:trigger order[a]} ::
        0 <= a < f.sideSpanningIndex && MustClear(order[a], f) && f.yReal == order[a].yReal + order[a].requisition.ascent + order[a].requisition.descent
    }

    // At the bottom of an earlier float of the same side, or one that it crosses horizontally.
    lemma WhenStandsBelow(f: Float)
      requires f.sideSpanningIndex <= |order|
      ensures StandsBelow(f) <==> exists a {:trigger order[a]} ::
                && 0 <= a < f.sideSpanningIndex
                && f.yReal == order[a].yReal + order[a].requisition.ascent + order[a].requisition.descent
                && (|| order[a].side == f.side
                    || (f.side == Left && f.x + f.requisition.width > order[a].x)
                    || (f.side == Right && order[a].x + order[a].requisition.width > f.x))
    {
      forall a {:trigger order[a]} | 0 <= a < f.sideSpanningIndex
        ensures MustClear(order[a], f) <==>
                  || order[a].side == f.side
                  || (f.side == Left && f.x + f.requisition.width > order[a].x)
                  || (f.side == Right && order[a].x + order[a].requisition.width > f.x)
      {
        WhenMustClear(order[a], f);
      }
    }

    lemma BelowSome(f: Float, ys: seq<int>, y: int)
      requires Valid() && f in order && OthersAt(ys, f) && IsHighest(order, ys, f.sideSpanningIndex, y, f.yReal) && f.yReal != y
      ensures StandsBelow(f)
    {
      assert order[f.sideSpanningIndex] == f;
      HighestIsRequested(order, ys, f.sideSpanningIndex, y, f.yReal);
    }

    // Place one float.  Has to be called in the order of the side spanning index.
    // Returns whether yReal has changed, so that generators have to be updated.
    method TellPosition1(f: Float, y: int) returns (changed: bool)
      requires Valid() && f in order && y >= 0
      requires Stacked(order, Positions(order), f.sideSpanningIndex)
      modifies order
      ensures Valid() && OthersAt(old(Positions(order)), f)
      ensures f.yReq == y && f.yReal >= y
      ensures forall g :: g in order && g != f ==> g.yReq == old(g.yReq)
      ensures IsHighest(order, old(Positions(order)), f.sideSpanningIndex, y, f.yReal)
      ensures f.yReal != y ==> StandsBelow(f)
      ensures Stacked(order, Positions(order), f.sideSpanningIndex + 1)
      ensures changed <==> f.yReal != old(f.yReal)
    {
      ghost var ys := Positions(order);
      var oldYReal := f.yReal;
      StartAt(f, y, ys);
      MoveDown(f, y, ys);
      StackedNext(order, ys, Positions(order), f.sideSpanningIndex, y);
      if f.yReal != y {
        BelowSome(f, ys, y);
      }
      changed := f.yReal != oldYReal;
    }

    // A layout pass: the positions of all floats are told in order, whatever they
    // were before.
    method LayoutPass(all: seq<Float>, requests: seq<int>)
      requires Valid() && all == order && |requests| == |all|
      requires forall k :: 0 <= k < |requests| ==> requests[k] >= 0
      modifies order
      ensures Valid() && Stacked(order, Positions(order), |order|)
      ensures forall k {:trigger order[k]} :: 0 <= k < |order| ==> order[k].yReq == requests[k]
      ensures forall k {:trigger order[k]} :: 0 <= k < |order| ==>
                IsHighest(order, Positions(order), k, requests[k], order[k].yReal)
      ensures forall k {:trigger order[k]} :: 0 <= k < |order| ==>
                order[k].yReal == requests[k] || (order[k].yReal > requests[k] && StandsBelow(order[k]))
      ensures forall a, b {:trigger order[a], order[b]} :: 0 <= a < b < |order| ==>
                || order[a].x >= order[b].x + order[b].requisition.width
                || order[b].x >= order[a].x + order[a].requisition.width
                || order[a].yReal >= order[b].yReal + order[b].requisition.ascent + order[b].requisition.descent
                || order[b].yReal >= order[a].yReal + order[a].requisition.ascent + order[a].requisition.descent
    {
      for k := 0 to |all|
        invariant Valid() && Stacked(order, Positions(order), k)
        invariant forall j {:trigger order[j]} :: 0 <= j < k ==> order[j].yReq == requests[j]
        invariant forall j {:trigger order[j]} :: 0 <= j < k ==>
                    IsHighest(order, Positions(order), j, requests[j], order[j].yReal)
      {
        ghost var ys := Positions(order);
        assert forall j {:trigger order[j]} :: 0 <= j < |order| && j != k ==> order[j] != order[k];
        var _ := TellPosition1(all[k], requests[k]);
        forall j {:trigger order[j]} | 0 <= j <= k
          ensures IsHighest(order, Positions(order), j, requests[j], order[j].yReal)
        {
          SameForEarlier(order, ys, Positions(order), j, requests[j], order[j].yReal);
        }
      }
      StackedNoOverlap(order, Positions(order));
      AllPlaced(requests);
    }

    lemma AllPlaced(requests: seq<int>)
      requires Valid() && |requests| == |order|
      requires forall k {:trigger order[k]} :: 0 <= k < |order| ==> IsHighest(order, Positions(order), k, requests[k], order[k].yReal)
      ensures forall k {:trigger order[k]} :: 0 <= k < |order| ==>
                order[k].yReal == requests[k] || (order[k].yReal > requests[k] && StandsBelow(order[k]))
    {
      forall k {:trigger order[k]} | 0 <= k < |order| && order[k].yReal != requests[k] ensures order[k].yReal > requests[k] && StandsBelow(order[k]) {
        HighestIsRequested(order, Positions(order), k, requests[k], order[k].yReal);
      }
    }
  }

  // Only earlier floats matter for the position of a float.
  lemma SameForEarlier(order: seq<Float>, ys: seq<int>, ys': seq<int>, k: nat, y: int, z: int)
    requires k < |order| == |ys| == |ys'| && forall i :: 0 <= i < k ==> ys'[i] == ys[i]
    requires IsHighest(order, ys, k, y, z)
    ensures IsHighest(order, ys', k, y, z)
  {
    forall z' {:trigger Admissible(order, ys', k, y, z')} | Admissible(order, ys', k, y, z') ensures z <= z' {
      assert Admissible(order, ys, k, y, z');
    }
  }

  // No two floats share a point.
  lemma StackedNoOverlap(order: seq<Float>, ys: seq<int>)
    requires |order| == |ys| && Stacked(order, ys, |order|)
    ensures forall a, b {:trigger order[a], order[b]} :: 0 <= a < b < |order| ==>
              || order[a].x >= order[b].x + order[b].requisition.width
              || order[b].x >= order[a].x + order[a].requisition.width
              || ys[a] >= ys[b] + order[b].requisition.ascent + order[b].requisition.descent
              || ys[b] >= ys[a] + order[a].requisition.ascent + order[a].requisition.descent
  {
    forall a, b {:trigger order[a], order[b]} | 0 <= a < b < |order|
      ensures || order[a].x >= order[b].x + order[b].requisition.width
              || order[b].x >= order[a].x + order[a].requisition.width
              || ys[b] >= ys[a] + order[a].requisition.ascent + order[a].requisition.descent
    {
      assert MustClear(order[a], order[b]) ==> BottomOf(order, ys, a) <= ys[b];
    }
  }

  lemma StackedNext(order: seq<Float>, ys: seq<int>, ys': seq<int>, k: nat, y: int)
    requires k < |order| == |ys| == |ys'| && Stacked(order, ys, k)
    requires forall i :: 0 <= i < |ys| && i != k ==> ys'[i] == ys[i]
    requires Admissible(order, ys, k, y, ys'[k])
    ensures Stacked(order, ys', k + 1)
  {
  }
}
