// Queries about the floats of one side: dw/ooffloatsmgr.cc:229-276, 1118-1213,
// 1292-1319.  All of them look at very few floats; the placement makes that enough.
module FloatBorders {
  import opened Common
  import opened Lexicographic
  import opened VectorSearch
  import opened FloatOrder
  import opened Floats

  // The vertical extents of the floats of one side.
  datatype Extent = Extent(top: int, height: int)

  predicate Meets(e: Extent, y: int, h: int) {
    e.top + e.height > y && e.top < y + h
  }

  // What the placement guarantees for the floats of one side.
  ghost predicate IsLadder(es: seq<Extent>) {
    && (forall i {:trigger es[i]} :: 0 <= i < |es| ==> es[i].height >= 0)
    && (forall i, j {:trigger es[i], es[j]} :: 0 <= i < j < |es| ==> es[i].top + es[i].height <= es[j].top)
  }

  // The choice of findFirst, given the result i of the search among the floats up to last.
  function Candidate(es: seq<Extent>, y: int, h: int, last: int, i: int): int
    requires last < |es| && 0 <= i <= last + 1
  {
    if i > 0 && Meets(es[i - 1], y, h) then i - 1
    else if i <= last && Meets(es[i], y, h) then i
    else -1
  }

  function Tops(es: seq<Extent>): (r: seq<int>)
    ensures |r| == |es| && forall i {:trigger r[i]} {:trigger es[i]} :: 0 <= i < |es| ==> r[i] == es[i].top
  {
    seq(|es|, i requires 0 <= i < |es| => es[i].top)
  }

  // A float without height that starts at y hides a later one that meets the line.
  predicate Hides(es: seq<Extent>, y: int, h: int, j: int, k: int)
    requires 0 <= j < |es| && 0 <= k < |es|
  {
    j < k && es[j] == Extent(y, 0) && Meets(es[k], y, h)
  }

  // Where the binary search for y ends.
  function SearchEnd(es: seq<Extent>, y: int, last: int): int
    requires -1 <= last < |es|
  {
    SearchIndex(y, Tops(es), Difference(), last)
  }

  // The search ends at a float that hides another one.
  ghost predicate HasBlindSpot(es: seq<Extent>, y: int, h: int, last: int)
    requires -1 <= last < |es|
  {
    var i := SearchEnd(es, y, last);
    0 <= i <= last && exists k {:trigger Hides(es, y, h, i, k)} :: 0 <= k <= last && Hides(es, y, h, i, k)
  }

  // r is the first float up to last that meets [y, y + h), or -1 if there is none.
  ghost predicate IsFirst(es: seq<Extent>, y: int, h: int, last: int, r: int)
    requires last < |es|
  {
    if r == -1 then forall i {:trigger es[i]} :: 0 <= i <= last ==> !Meets(es[i], y, h)
    else 0 <= r <= last && Meets(es[r], y, h) && forall i {:trigger es[i]} :: 0 <= i < r ==> !Meets(es[i], y, h)
  }

  // Where the search ends at a float without height, nothing is found.
  lemma CandidateIsFirst(es: seq<Extent>, y: int, h: int, last: int, i: int)
    requires IsLadder(es) && -1 <= last < |es|
    requires IsSearchResult(y, Tops(es), Difference(), last, i)
    ensures IsFirst(es, y, h, last, Candidate(es, y, h, last, i)) <==>
            !(i <= last && exists k {:trigger Hides(es, y, h, i, k)} :: 0 <= k <= last && Hides(es, y, h, i, k))
    ensures Candidate(es, y, h, last, i) != -1 ==> IsFirst(es, y, h, last, Candidate(es, y, h, last, i))
  {
    var tops, compare := Tops(es), Difference();
    if i <= last && tops[i] == y {
      if es[i].height == 0 {
        assert es[i] == Extent(y, 0);
        assert forall k {:trigger es[k]} :: i < k <= last && Meets(es[k], y, h) ==> Hides(es, y, h, i, k);
      }
    } else {
      assert forall k {:trigger es[k]} :: 0 <= k < i ==> compare(y, tops[k]) > 0;
      assert forall k {:trigger es[k]} :: i <= k <= last ==> compare(y, tops[k]) < 0;
    }
  }

  lemma TopsAreSearchable(es: seq<Extent>, y: int)
    requires IsLadder(es)
    ensures SortedFor(y, Tops(es), Difference())
  {
    var tops := Tops(es);
    assert forall i, j {:trigger es[i], es[j]} :: 0 <= i < j < |es| ==> tops[i] <= tops[j];
  }

  // The two candidates are enough if and only if the search does not end at a float without
  // height that hides another one.
  lemma CandidatesAreEnough(es: seq<Extent>, y: int, h: int, last: int)
    requires IsLadder(es) && -1 <= last < |es|
    ensures 0 <= SearchEnd(es, y, last) <= last + 1
    ensures IsFirst(es, y, h, last, Candidate(es, y, h, last, SearchEnd(es, y, last))) <==> !HasBlindSpot(es, y, h, last)
    ensures HasBlindSpot(es, y, h, last) ==> Candidate(es, y, h, last, SearchEnd(es, y, last)) == -1
  {
    TopsAreSearchable(es, y);
    SearchIndexFinds(y, Tops(es), Difference(), last);
    CandidateIsFirst(es, y, h, last, SearchEnd(es, y, last));
  }

  // The floats that meet a line follow each other.
  lemma MeetingIsContiguous(es: seq<Extent>, y: int, h: int, i: int, j: int, k: int)
    requires IsLadder(es) && 0 <= i < j < k < |es|
    requires Meets(es[i], y, h) && !Meets(es[j], y, h)
    ensures !Meets(es[k], y, h)
  {
  }

  lemma BlindSpotExample()
    ensures var es := [Extent(0, 0), Extent(5, 10)];
            IsLadder(es) && HasBlindSpot(es, 0, 10, 1) && Meets(es[1], 0, 10) && !IsFirst(es, 0, 10, 1, Candidate(es, 0, 10, 1, 0))
  {
    var es := [Extent(0, 0), Extent(5, 10)];
    assert SearchEnd(es, 0, 1) == 0 by {
      assert Middle(0, 1) == 0 && Difference()(0, Tops(es)[0]) == 0;
    }
    assert Hides(es, 0, 10, 0, 1);
  }

  // ----- the queries -----------------------------------------------------------

  ghost function Extents(list: seq<Float>): (r: seq<Extent>)
    reads set f | f in list
    ensures |r| == |list|
    ensures forall i {:trigger r[i]} {:trigger list[i]} :: 0 <= i < |list| ==> r[i] == Extent(list[i].yReal, list[i].Height())
  {
    seq(|list|, i requires 0 <= i < |list| reads set f | f in list => Extent(list[i].yReal, list[i].Height()))
  }

  function PointsOf(list: seq<Float>): (r: seq<DocPoint>)
    ensures |r| == |list| && forall i {:trigger r[i]} {:trigger list[i]} :: 0 <= i < |list| ==> r[i] == list[i].point
  {
    seq(|list|, i requires 0 <= i < |list| => list[i].point)
  }

  // The floats of one side after a layout pass.
  ghost predicate OnLadder(list: seq<Float>)
    reads set f | f in list
  {
    IsLadder(Extents(list)) && AllValid(list)
  }

  ghost predicate AllValid(list: seq<Float>)
    reads set f | f in list
  {
    forall i {:trigger list[i]} :: 0 <= i < |list| ==> list[i].Valid()
  }

  // A layout pass makes both lists fit for the queries.
  lemma PlacedOnLadder(mgr: OOFFloatsMgr, side: Side)
    requires mgr.Valid() && Stacked(mgr.order, Positions(mgr.order), |mgr.order|)
    ensures OnLadder(mgr.ListOf(side))
  {
    var list, ys := mgr.ListOf(side), Positions(mgr.order);
    var es := Extents(list);
    forall i {:trigger es[i]} | 0 <= i < |list| ensures es[i].height >= 0 && list[i].Valid() {
      assert mgr.order[list[i].sideSpanningIndex] == list[i];
    }
    forall i, j {:trigger es[i], es[j]} | 0 <= i < j < |list| ensures es[i].top + es[i].height <= es[j].top {
      var a, b := list[i].sideSpanningIndex, list[j].sideSpanningIndex;
      assert mgr.order[a] == list[i] && mgr.order[b] == list[j] && MustClear(mgr.order[a], mgr.order[b]);
    }
  }

  // A point of the document up to which floats count, and how they are found.
  ghost predicate Findable(tbs: seq<TBInfo>, list: seq<Float>, key: DocPoint) {
    && IsTree(tbs) && InDocumentOrder(tbs) && Registered(tbs, PointsOf(list)) && DistinctIndices(tbs, PointsOf(list))
    && IsPoint(tbs, key)
  }

  // The floats up to index last are those at or before the point, exactly so if and only if no
  // float lies within a child block at this point.
  ghost predicate IsLast(tbs: seq<TBInfo>, list: seq<Float>, key: DocPoint, last: int)
    requires Findable(tbs, list, key)
  {
    && -1 <= last < |list| && IsLimit(tbs, PointsOf(list), key, last)
    && (IsExactLimit(tbs, PointsOf(list), key, last) <==> !HasFloatWithin(tbs, PointsOf(list), key))
  }

  // list.get(i)->covers (y, h); the other floats are not touched.
  method CoversAt(list: seq<Float>, i: nat, y: int, h: int) returns (b: bool)
    requires AllValid(list) && i < |list|
    modifies list`size, list`dirty
    ensures AllValid(list) && Extents(list) == old(Extents(list))
    ensures b == Meets(Extents(list)[i], y, h) && list[i].size == list[i].requisition
  {
    ghost var es := Extents(list);
    b := list[i].Covers(y, h);
    assert Extents(list) == es;
  }

  // Generally, both floats, before and at the search position, are candidates.
  method PickCandidate(list: seq<Float>, y: int, h: int, last: int, i: int) returns (result: int)
    requires OnLadder(list) && -1 <= last < |list| && 0 <= i <= last + 1
    modifies list`size, list`dirty
    ensures OnLadder(list) && Extents(list) == old(Extents(list))
    ensures result == Candidate(Extents(list), y, h, last, i)
  {
    var covers := false;
    if i > 0 {
      covers := CoversAt(list, i - 1, y, h);
    }
    if covers {
      result := i - 1;
    } else {
      if i <= last {
        covers := CoversAt(list, i, y, h);
      }
      result := if covers then i else -1;
    }
  }

  function TopsOf(list: seq<Float>): seq<int>
    reads set f | f in list
  {
    seq(|list|, i requires 0 <= i < |list| reads set f | f in list => list[i].yReal)
  }

  // The second half of SortedFloatsVector::findFirst.
  method FirstUpTo(list: seq<Float>, y: int, h: int, last: int) returns (result: int)
    requires OnLadder(list) && -1 <= last < |list|
    modifies list`size, list`dirty
    ensures OnLadder(list) && Extents(list) == old(Extents(list))
    ensures IsFirst(Extents(list), y, h, last, result) <==> !HasBlindSpot(Extents(list), y, h, last)
    ensures HasBlindSpot(Extents(list), y, h, last) ==> result == -1
  {
    assert TopsOf(list) == Tops(Extents(list));
    var i := BSearchTops(TopsOf(list), y, last);
    CandidatesAreEnough(Extents(list), y, h, last);
    result := PickCandidate(list, y, h, last, i);
  }

  // SortedFloatsVector::find
  method BSearchTops(tops: seq<int>, y: int, last: int) returns (i: int)
    requires -1 <= last < |tops| && forall i, j {:trigger tops[i], tops[j]} :: 0 <= i < j < |tops| ==> tops[i] <= tops[j]
    ensures i == SearchIndex(y, tops, Difference(), last) && 0 <= i <= last + 1
  {
    i := BSearch(y, tops, Difference(), last);
  }

  method FindFirst(tbs: seq<TBInfo>, list: seq<Float>, y: int, h: int, key: DocPoint) returns (result: int, last: int)
    requires Findable(tbs, list, key) && OnLadder(list)
    modifies list`size, list`dirty
    ensures OnLadder(list) && Extents(list) == old(Extents(list)) && IsLast(tbs, list, key, last)
    ensures IsFirst(Extents(list), y, h, last, result) <==> !HasBlindSpot(Extents(list), y, h, last)
    ensures HasBlindSpot(Extents(list), y, h, last) ==> result == -1
  {
    last := FindFloatIndex(tbs, PointsOf(list), key);
    result := FirstUpTo(list, y, h, last);
  }

  // border is the maximum over the floats from index first to index n - 1 that meet the line.
  ghost predicate IsWidest(list: seq<Float>, es: seq<Extent>, y: int, h: int, n: int, border: int)
    requires 0 <= n <= |list| == |es|
  {
    && border >= 0
    && (forall i {:trigger list[i]} :: 0 <= i < n && Meets(es[i], y, h) ==> list[i].Border() <= border)
    && (border == 0 || exists i {:trigger list[i]} :: 0 <= i < n && Meets(es[i], y, h) && list[i].Border() == border)
  }

  // In numbers: no float that meets the line takes more, and one takes as much.
  lemma WhenWidest(list: seq<Float>, y: int, h: int, n: int, border: int)
    requires 0 <= n <= |list|
    ensures IsWidest(list, Extents(list), y, h, n, border) <==>
              && border >= 0
              && (forall i {:trigger list[i]} :: 0 <= i < n && list[i].yReal < y + h && y < list[i].yReal + list[i].requisition.ascent + list[i].requisition.descent ==>
                    list[i].requisition.width + list[i].borderDiff <= border)
              && (border > 0 ==> exists i {:trigger list[i]} ::
                    && 0 <= i < n && list[i].yReal < y + h && y < list[i].yReal + list[i].requisition.ascent + list[i].requisition.descent
                    && list[i].requisition.width + list[i].borderDiff == border)
  {
    assert forall i {:trigger list[i]} :: 0 <= i < |list| ==> Extents(list)[i] == Extent(list[i].yReal, list[i].Height());
  }

  lemma WidestNext(list: seq<Float>, es: seq<Extent>, y: int, h: int, n: int, border: int)
    requires 0 <= n < |list| == |es| && IsWidest(list, es, y, h, n, border)
    ensures IsWidest(list, es, y, h, n + 1, if Meets(es[n], y, h) then Max(border, list[n].Border()) else border)
  {
    var border' := if Meets(es[n], y, h) then Max(border, list[n].Border()) else border;
    if border' == list[n].Border() && Meets(es[n], y, h) {
      assert Meets(es[n], y, h) && list[n].Border() == border';
    } else if border' != 0 {
      var i :| 0 <= i < n && Meets(es[i], y, h) && list[i].Border() == border;
      assert Meets(es[i], y, h) && list[i].Border() == border';
    }
  }

  // Once a float below the first one does not meet the line, no later one does.
  lemma WidestRest(list: seq<Float>, es: seq<Extent>, y: int, h: int, first: int, n: int, m: int, border: int)
    requires IsLadder(es) && 0 <= first < n - 1 < n <= m <= |list| == |es| && IsWidest(list, es, y, h, n, border)
    requires Meets(es[first], y, h) && !Meets(es[n - 1], y, h)
    ensures IsWidest(list, es, y, h, m, border)
  {
    forall k | n <= k < |es| ensures !Meets(es[k], y, h) {
      MeetingIsContiguous(es, y, h, first, n - 1, k);
    }
    if border != 0 {
      var i :| 0 <= i < n && Meets(es[i], y, h) && list[i].Border() == border;
      assert Meets(es[i], y, h) && list[i].Border() == border;
    }
  }

  // One float of the run.
  method WidenBy(list: seq<Float>, i: nat, y: int, h: int, border0: int) returns (covers: bool, border: int)
    requires AllValid(list) && i < |list| && IsWidest(list, Extents(list), y, h, i, border0)
    modifies list`size, list`dirty
    ensures AllValid(list) && Extents(list) == old(Extents(list))
    ensures covers == Meets(Extents(list)[i], y, h) && IsWidest(list, Extents(list), y, h, i + 1, border)
  {
    WidestNext(list, Extents(list), y, h, i, border0);
    covers := CoversAt(list, i, y, h);
    border := if covers then Max(border0, list[i].size.width + list[i].borderDiff) else border0;
  }

  // The loop of getBorder: it stops at the first float that does not meet the line.
  method WidestFrom(list: seq<Float>, y: int, h: int, first: int, last: int) returns (border: int)
    requires OnLadder(list) && last < |list| && first != -1 && IsFirst(Extents(list), y, h, last, first)
    modifies list`size, list`dirty
    ensures OnLadder(list) && Extents(list) == old(Extents(list))
    ensures IsWidest(list, Extents(list), y, h, last + 1, border)
  {
    ghost var es := Extents(list);
    border := 0;
    var covers := true;
    var i := first;
    while covers && i <= last
      invariant first <= i <= last + 1
      invariant AllValid(list) && Extents(list) == es
      invariant IsWidest(list, es, y, h, i, border)
      invariant !covers ==> first < i - 1 && !Meets(es[i - 1], y, h)
    {
      covers, border := WidenBy(list, i, y, h, border);
      i := i + 1;
    }
    if !covers {
      WidestRest(list, es, y, h, first, i, last + 1, border);
    }
  }

  // A float that would widen the border is hidden.
  ghost predicate LosesBorder(list: seq<Float>, es: seq<Extent>, y: int, h: int, last: int)
    requires -1 <= last < |list| == |es|
  {
    var i := SearchEnd(es, y, last);
    0 <= i <= last && exists k {:trigger Hides(es, y, h, i, k)} :: 0 <= k <= last && Hides(es, y, h, i, k) && list[k].Border() > 0
  }

  // Without a first float, the border 0 is right unless a float that widens it is hidden.
  lemma NoBorder(list: seq<Float>, es: seq<Extent>, y: int, h: int, last: int)
    requires IsLadder(es) && -1 <= last < |list| == |es|
    requires HasBlindSpot(es, y, h, last) || IsFirst(es, y, h, last, -1)
    ensures IsWidest(list, es, y, h, last + 1, 0) <==> !LosesBorder(list, es, y, h, last)
  {
    var i := SearchEnd(es, y, last);
    if HasBlindSpot(es, y, h, last) {
      forall k {:trigger es[k]} | 0 <= k <= last && Meets(es[k], y, h) ensures Hides(es, y, h, i, k) {
      }
    }
  }

  // getBorder: the maximum over all floats up to the limit that meet the line, and 0 without
  // any, if and only if no float that would widen the border is hidden.
  method GetBorder(tbs: seq<TBInfo>, list: seq<Float>, y: int, h: int, key: DocPoint) returns (border: int, ghost last: int)
    requires Findable(tbs, list, key) && OnLadder(list)
    modifies list`size, list`dirty
    ensures OnLadder(list) && Extents(list) == old(Extents(list)) && IsLast(tbs, list, key, last)
    ensures IsWidest(list, Extents(list), y, h, last + 1, border) <==> !LosesBorder(list, Extents(list), y, h, last)
    ensures LosesBorder(list, Extents(list), y, h, last) ==> border == 0
  {
    var first, limit := FindFirst(tbs, list, y, h, key);
    last := limit;
    border := 0;
    if first != -1 {
      border := WidestFrom(list, y, h, first, limit);
      assert !LosesBorder(list, Extents(list), y, h, last);
    } else {
      NoBorder(list, Extents(list), y, h, last);
    }
  }

  // getClearPosition for one side: the lowest position, relative to the widget, that
  // is below all floats before the widget.
  method GetClearPosition(tbs: seq<TBInfo>, list: seq<Float>, widget: nat, generatorY: int) returns (pos: int)
    requires Findable(tbs, list, DocPoint(widget, -1)) && NoNegativeIndex(tbs) && OnLadder(list)
    requires forall i {:trigger list[i]} :: 0 <= i < |list| ==> list[i].point.externalIndex >= 0
    modifies list`size, list`dirty
    ensures OnLadder(list) && Extents(list) == old(Extents(list))
    ensures pos >= 0
    ensures forall i {:trigger list[i]} :: 0 <= i < |list| && NotAfter(tbs, list[i].point, DocPoint(widget, -1)) ==>
              list[i].Bottom() <= generatorY + pos
    ensures pos == 0 || exists i {:trigger list[i]} ::
              0 <= i < |list| && NotAfter(tbs, list[i].point, DocPoint(widget, -1)) && list[i].Bottom() == generatorY + pos
  {
    var points := PointsOf(list);
    NothingWithinStart(tbs, points, widget);
    var i := FindFloatIndex(tbs, points, DocPoint(widget, -1));
    if i < 0 {
      pos := 0;
      assert forall j {:trigger list[j]} :: 0 <= j < |list| ==> points[j] == list[j].point;
    } else {
      var vloat := list[i];
      assert points[i] == vloat.point;
      LastIsLowest(tbs, list, DocPoint(widget, -1), i);
      assert vloat.point.generator != widget by {
        AfterStartOfBlock(tbs, vloat.point, widget);
      }
      pos := PosBelow(vloat, generatorY, list);
    }
  }

  // Of the floats before a place the last one reaches lowest.
  lemma LastIsLowest(tbs: seq<TBInfo>, list: seq<Float>, key: DocPoint, last: nat)
    requires OnLadder(list) && last < |list| && Findable(tbs, list, key) && IsExactLimit(tbs, PointsOf(list), key, last)
    ensures forall j {:trigger list[j]} :: 0 <= j < |list| && NotAfter(tbs, list[j].point, key) ==> list[j].Bottom() <= list[last].Bottom()
    ensures NotAfter(tbs, list[last].point, key)
  {
    var points, es := PointsOf(list), Extents(list);
    assert points[last] == list[last].point;
    forall j {:trigger list[j]} | 0 <= j < |list| && NotAfter(tbs, list[j].point, key)
      ensures list[j].Bottom() <= list[last].Bottom()
    {
      assert points[j] == list[j].point && es[j].top == list[j].yReal;
    }
  }

  method PosBelow(vloat: Float, generatorY: int, ghost list: seq<Float>) returns (pos: int)
    requires OnLadder(list) && vloat in list
    modifies vloat`size, vloat`dirty
    ensures OnLadder(list) && Extents(list) == old(Extents(list))
    ensures pos == Max(vloat.Bottom() - generatorY, 0)
  {
    vloat.EnsureFloatSize();
    pos := Max(vloat.yReal + vloat.size.ascent + vloat.size.descent - generatorY, 0);
  }

  // A float of a block is not before the start of the block.
  lemma AfterStartOfBlock(tbs: seq<TBInfo>, p: DocPoint, widget: nat)
    requires IsTree(tbs) && IsPoint(tbs, p) && widget < |tbs| && p.externalIndex >= 0
    requires NotAfter(tbs, p, DocPoint(widget, -1))
    ensures p.generator != widget
  {
    if p.generator == widget {
      LexCommonPrefix(Path(tbs, widget), [p.externalIndex], [-1]);
    }
  }
}