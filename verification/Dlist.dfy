// Pointer lists: dlib/dlib.c:568-846.
module Dlists {
  import opened Common

  // ----- comparison functions ------------------------------------------------------

  ghost predicate IsPreorder<T(!new)>(compare: (T, T) -> int) {
    && (forall x, y :: compare(x, y) < 0 <==> compare(y, x) > 0)
    && (forall x, y, z :: compare(x, y) <= 0 && compare(y, z) <= 0 ==> compare(x, z) <= 0)
  }

  ghost predicate Sorted<T>(s: seq<T>, compare: (T, T) -> int) {
    forall i, j :: 0 <= i < j < |s| ==> compare(s[i], s[j]) <= 0
  }

  // Whoever compares by a number may sort.
  lemma RankedIsPreorder<T(!new)>(compare: (T, T) -> int, rank: T -> int)
    requires forall x, y :: (compare(x, y) < 0 <==> rank(x) < rank(y)) && (compare(x, y) > 0 <==> rank(x) > rank(y))
    ensures IsPreorder(compare)
  {
    forall x, y ensures compare(x, y) < 0 <==> compare(y, x) > 0 {
      assert compare(x, y) < 0 <==> rank(x) < rank(y);
    }
  }

  // ----- the sort --------------------------------------------------------------------

  ghost predicate AllAtMost<T>(s: seq<T>, from: int, to: int, pivot: T, compare: (T, T) -> int) {
    forall k {:trigger s[k]} :: 0 <= k < |s| && from <= k < to ==> compare(s[k], pivot) <= 0
  }

  ghost predicate AllAtLeast<T>(s: seq<T>, from: int, to: int, pivot: T, compare: (T, T) -> int) {
    forall k {:trigger s[k]} :: 0 <= k < |s| && from <= k < to ==> compare(s[k], pivot) >= 0
  }

  // b is a with the elements from left to right in another order.
  ghost predicate Reordered<T>(a: seq<T>, b: seq<T>, left: nat, right: nat)
    requires left <= right < |a|
  {
    && |b| == |a|
    && b[..left] == a[..left] && b[right + 1..] == a[right + 1..]
    && multiset(b[left..right + 1]) == multiset(a[left..right + 1])
  }

  lemma SwapReorders<T>(a: seq<T>, b: seq<T>, left: nat, right: nat, p: nat, q: nat)
    requires left <= p < q <= right < |a| && b == a[p := a[q]][q := a[p]]
    ensures Reordered(a, b, left, right)
  {
    var x, y := a[left..right + 1], b[left..right + 1];
    assert y == x[p - left := x[q - left]][q - left := x[p - left]];
  }

  lemma ReorderedTransitive<T>(a: seq<T>, b: seq<T>, c: seq<T>, left: nat, right: nat)
    requires left <= right < |a| && Reordered(a, b, left, right) && Reordered(b, c, left, right)
    ensures Reordered(a, c, left, right)
  {
  }

  // Both scans stop at the pivot at the latest, or at an element that has been put on
  // the other side before.
  method ScanUp<T(!new)>(a: array<T>, p0: int, t: int, ghost bound: int, compare: (T, T) -> int) returns (p: int)
    requires 0 <= p0 <= bound < a.Length && 0 <= t < a.Length
    requires (p0 <= t <= bound) || compare(a[bound], a[t]) >= 0
    ensures p0 <= p <= bound && (p == t || compare(a[p], a[t]) >= 0)
    ensures forall k {:trigger a[k]} :: p0 <= k < p ==> compare(a[k], a[t]) <= 0
  {
    p := p0;
    while p != t && compare(a[p], a[t]) < 0
      invariant p0 <= p <= bound && (t < p ==> t < p0)
      invariant forall k {:trigger a[k]} :: p0 <= k < p ==> compare(a[k], a[t]) <= 0
      decreases bound - p
    {
      p := p + 1;
    }
  }

  method ScanDown<T(!new)>(a: array<T>, q0: int, t: int, ghost bound: int, compare: (T, T) -> int) returns (q: int)
    requires 0 <= bound <= q0 < a.Length && 0 <= t < a.Length
    requires (bound <= t <= q0) || compare(a[bound], a[t]) <= 0
    ensures bound <= q <= q0 && (q == t || compare(a[q], a[t]) <= 0)
    ensures forall k {:trigger a[k]} :: q < k <= q0 ==> compare(a[k], a[t]) >= 0
  {
    q := q0;
    while q != t && compare(a[q], a[t]) > 0
      invariant bound <= q <= q0 && (t > q ==> t > q0)
      invariant forall k {:trigger a[k]} :: q < k <= q0 ==> compare(a[k], a[t]) >= 0
      decreases q - bound
    {
      q := q - 1;
    }
  }

  // Before each round of the partition: the two outer parts are done, and each scan
  // will be stopped within the range.
  ghost predicate Partitioning<T>(s: seq<T>, left: nat, right: nat, p: int, q: int, t: int, pivot: T, compare: (T, T) -> int) {
    && right < |s| && left <= p && q <= right && left <= t <= right && s[t] == pivot
    && AllAtMost(s, left, p, pivot, compare) && AllAtLeast(s, q + 1, right + 1, pivot, compare)
    && (t >= p || q < right) && (t <= q || p > left)
  }

  method SwapTracked<T>(a: array<T>, left: nat, right: nat, p: int, q: int, t0: int, ghost pivot: T, compare: (T, T) -> int)
    returns (t: int)
    requires right < a.Length && left <= p <= q <= right && compare(pivot, pivot) == 0
    requires Partitioning(a[..], left, right, p, q, t0, pivot, compare)
    requires p == t0 || compare(a[p], pivot) >= 0
    requires q == t0 || compare(a[q], pivot) <= 0
    modifies a
    ensures Reordered(old(a[..]), a[..], left, right)
    ensures Partitioning(a[..], left, right, p + 1, q - 1, t, pivot, compare)
  {
    t := t0;
    if p < q {
      SwapReorders(a[..], a[..][p := a[q]][q := a[p]], left, right, p, q);
      ghost var before := a[..];
      a[p], a[q] := a[q], a[p];
      assert a[..] == before[p := before[q]][q := before[p]];
      if t == p {
        t := q;
      } else if t == q {
        t := p;
      }
    }
  }

  // The loop of QuickSort.  The pivot is an element of the array; its place t changes
  // when it is swapped itself.
  method Partition<T(!new)>(a: array<T>, left: nat, right: nat, compare: (T, T) -> int) returns (p: int, q: int, ghost pivot: T)
    requires left < right < a.Length && forall x :: compare(x, x) == 0
    modifies a
    ensures Reordered(old(a[..]), a[..], left, right)
    ensures left < p <= right + 1 && left - 1 <= q < right && q < p
    ensures AllAtMost(a[..], left, p, pivot, compare) && AllAtLeast(a[..], q + 1, right + 1, pivot, compare)
  {
    var t: int := left;
    p, q := left, right;
    pivot := a[t];
    while true
      invariant p <= q && Partitioning(a[..], left, right, p, q, t, pivot, compare)
      invariant Reordered(old(a[..]), a[..], left, right)
      decreases q - p
    {
      var p1 := ScanUp(a, p, t, if p <= t <= q then t else q + 1, compare);
      var q1 := ScanDown(a, q, t, if p1 <= t <= q then t else p1 - 1, compare);
      p, q := p1, q1;
      if p > q {
        return;
      }
      ghost var before := a[..];
      t := SwapTracked(a, left, right, p, q, t, pivot, compare);
      ReorderedTransitive(old(a[..]), before, a[..], left, right);
      p, q := p + 1, q - 1;
      if p > q {
        return;
      }
    }
  }

  ghost predicate SortedBetween<T>(s: seq<T>, left: int, right: int, compare: (T, T) -> int) {
    forall i, j {:trigger s[i], s[j]} :: 0 <= left <= i < j <= right < |s| ==> compare(s[i], s[j]) <= 0
  }

  // What holds for all elements of a range still holds after it has been reordered.
  lemma ReorderedKeepsBounds<T>(a: seq<T>, b: seq<T>, left: nat, right: nat, from: int, to: int, pivot: T, compare: (T, T) -> int)
    requires left <= right < |a| && Reordered(a, b, left, right)
    requires (from <= left && right < to) || to <= left || right < from
    ensures AllAtMost(a, from, to, pivot, compare) ==> AllAtMost(b, from, to, pivot, compare)
    ensures AllAtLeast(a, from, to, pivot, compare) ==> AllAtLeast(b, from, to, pivot, compare)
  {
    forall k | 0 <= k < |b| && from <= k < to ensures exists k' {:trigger a[k']} :: 0 <= k' < |a| && from <= k' < to && a[k'] == b[k] {
      if left <= k <= right {
        var x := b[k];
        assert x in multiset(b[left..right + 1]) by {
          assert b[left..right + 1][k - left] == x;
        }
        assert x in a[left..right + 1];
        var i :| 0 <= i < |a[left..right + 1]| && a[left..right + 1][i] == x;
        assert a[left + i] == x;
      } else if k < left {
        assert a[..left][k] == b[..left][k];
        assert a[k] == b[k];
      } else {
        assert a[right + 1..][k - right - 1] == b[right + 1..][k - right - 1];
        assert a[k] == b[k];
      }
    }
  }

  lemma ReorderedWithin<T>(a: seq<T>, b: seq<T>, l: nat, r: nat, left: nat, right: nat)
    requires left <= l <= r <= right < |a| && Reordered(a, b, l, r)
    ensures Reordered(a, b, left, right)
  {
    assert a[..left] == a[..l][..left] && b[..left] == b[..l][..left];
    assert a[right + 1..] == a[r + 1..][right - r..] && b[right + 1..] == b[r + 1..][right - r..];
    assert a[left..right + 1] == a[..l][left..] + a[l..r + 1] + a[r + 1..][..right - r];
    assert b[left..right + 1] == b[..l][left..] + b[l..r + 1] + b[r + 1..][..right - r];
  }

  // Elements outside the range keep their places.
  lemma ReorderedElsewhere<T>(a: seq<T>, b: seq<T>, l: nat, r: nat, compare: (T, T) -> int, from: int, to: int)
    requires l <= r < |a| && Reordered(a, b, l, r) && (to < l || r < from)
    requires SortedBetween(a, from, to, compare)
    ensures SortedBetween(b, from, to, compare)
  {
    forall i {:trigger b[i]} | 0 <= i < |a| && (i < l || r < i) ensures b[i] == a[i] {
      if i < l {
        assert a[..l][i] == b[..l][i];
      } else {
        assert a[r + 1..][i - r - 1] == b[r + 1..][i - r - 1];
      }
    }
  }

  // Two sorted parts around the pivot.
  lemma SortedParts<T(!new)>(s: seq<T>, left: nat, right: nat, p: int, q: int, pivot: T, compare: (T, T) -> int)
    requires left < p <= right + 1 && left - 1 <= q < right < |s| && q < p && IsPreorder(compare)
    requires AllAtMost(s, left, p, pivot, compare) && AllAtLeast(s, q + 1, right + 1, pivot, compare)
    requires SortedBetween(s, left, q, compare) && SortedBetween(s, p, right, compare)
    ensures SortedBetween(s, left, right, compare)
  {
    forall i, j {:trigger s[i], s[j]} | left <= i < j <= right ensures compare(s[i], s[j]) <= 0 {
      if j <= q || p <= i {
      } else {
        assert compare(s[i], pivot) <= 0 && compare(s[j], pivot) >= 0;
        assert compare(pivot, s[j]) <= 0;
      }
    }
  }

  // Sorting a part between the elements of the other parts keeps their bounds.
  ghost predicate Bounded<T>(s: seq<T>, left: nat, right: nat, p: int, q: int, pivot: T, compare: (T, T) -> int) {
    AllAtMost(s, left, p, pivot, compare) && AllAtLeast(s, q + 1, right + 1, pivot, compare)
  }

  lemma PartReordered<T>(s0: seq<T>, s: seq<T>, s': seq<T>, left: nat, right: nat, from: nat, to: nat, p: int, q: int, pivot: T, compare: (T, T) -> int)
    requires left <= from <= to <= right < |s| == |s0| && Reordered(s, s', from, to) && Reordered(s0, s, left, right)
    requires Bounded(s, left, right, p, q, pivot, compare) && q < p
    requires (from == left && to == q) || (from == p && to == right)
    ensures Reordered(s0, s', left, right) && Bounded(s', left, right, p, q, pivot, compare)
  {
    ReorderedKeepsBounds(s, s', from, to, left, p, pivot, compare);
    ReorderedKeepsBounds(s, s', from, to, q + 1, right + 1, pivot, compare);
    ReorderedWithin(s, s', from, to, left, right);
    ReorderedTransitive(s0, s, s', left, right);
  }

  method QuickSort<T(!new)>(a: array<T>, left: nat, right: nat, compare: (T, T) -> int)
    requires left < right < a.Length && IsPreorder(compare)
    modifies a
    ensures Reordered(old(a[..]), a[..], left, right)
    ensures SortedBetween(a[..], left, right, compare)
    decreases right - left
  {
    assert forall x :: compare(x, x) == 0;
    var p, q, pivot := Partition(a, left, right, compare);
    ghost var s0 := a[..];
    if left < q {
      QuickSort(a, left, q, compare);
      PartReordered(old(a[..]), s0, a[..], left, right, left, q, p, q, pivot, compare);
    }
    ghost var s1 := a[..];
    if p < right {
      QuickSort(a, p, right, compare);
      PartReordered(old(a[..]), s1, a[..], left, right, p, right, p, q, pivot, compare);
      ReorderedElsewhere(s1, a[..], p, right, compare, left, q);
    }
    SortedParts(a[..], left, right, p, q, pivot, compare);
  }

  // ----- the list ------------------------------------------------------------------------

  function InsertedAt<T>(s: seq<T>, x: T, pos: nat): seq<T>
    requires pos <= |s|
  {
    s[..pos] + [x] + s[pos..]
  }

  function RemovedAt<T>(s: seq<T>, i: nat): seq<T>
    requires i < |s|
  {
    s[..i] + s[i + 1..]
  }

  // The list without order: the last element takes the place of the removed one.
  function RemovedFastAt<T>(s: seq<T>, i: nat): seq<T>
    requires i < |s|
  {
    s[i := s[|s| - 1]][..|s| - 1]
  }

  predicate IsFirstIndex<T(==)>(s: seq<T>, x: T, i: nat) {
    i < |s| && s[i] == x && x !in s[..i]
  }

  lemma Exchange<T>(a: seq<T>, x: T, b: seq<T>, y: T)
    ensures multiset(a + [y] + b) == multiset(a + (b + [y])) == multiset(a + [x] + b + [y]) - multiset{x}
  {
  }

  lemma RemovedParts<T>(s: seq<T>, i: nat)
    requires i < |s| - 1
    ensures var n := |s| - 1; RemovedFastAt(s, i) == s[..i] + [s[n]] + s[i + 1..n]
    ensures var n := |s| - 1; RemovedAt(s, i) == s[..i] + (s[i + 1..n] + [s[n]])
    ensures var n := |s| - 1; s == s[..i] + [s[i]] + s[i + 1..n] + [s[n]]
  {
    assert s[i + 1..] == s[i + 1..|s| - 1] + [s[|s| - 1]];
  }

  lemma RemovedFastPermutes<T>(s: seq<T>, i: nat)
    requires i < |s|
    ensures multiset(RemovedFastAt(s, i)) == multiset(RemovedAt(s, i)) == multiset(s) - multiset{s[i]}
  {
    var n := |s| - 1;
    if i < n {
      RemovedParts(s, i);
      Exchange(s[..i], s[i], s[i + 1..n], s[n]);
    } else {
      assert RemovedFastAt(s, i) == RemovedAt(s, i) == s[..i];
      assert s == s[..i] + [s[i]];
    }
  }

  // For a search the elements that are too small come first, and those too great last.
  ghost predicate Searchable<T, K>(s: seq<T>, key: K, compare: (T, K) -> int) {
    forall i, j {:trigger s[i], s[j]} :: 0 <= i < j < |s| ==>
      && (compare(s[i], key) > 0 ==> compare(s[j], key) > 0)
      && (compare(s[j], key) < 0 ==> compare(s[i], key) < 0)
  }

  class Dlist<T(0, ==)> {
    var list: array<T>
    var len: nat

    ghost predicate Valid()
      reads this
    {
      len <= list.Length && list.Length > 0
    }

    ghost function Contents(): (r: seq<T>)
      requires Valid()
      reads this, list
      ensures |r| == len
    {
      list[..len]
    }

    constructor (size: nat)
      requires size > 0
      ensures Valid() && fresh(list) && Contents() == []
    {
      list := new T[size];
      len := 0;
    }

    method InsertPos(data: T, pos0: int)
      requires Valid()
      modifies this, list
      ensures Valid() && (list == old(list) || fresh(list))
      ensures list.Length == if 0 <= pos0 <= old(len) == old(list).Length then 2 * old(list).Length else old(list).Length
      ensures Contents() == if 0 <= pos0 <= old(len) then InsertedAt(old(Contents()), data, pos0) else old(Contents())
    {
      if pos0 < 0 || pos0 > len {
        return;
      }
      ghost var s := Contents();
      if list.Length == len {
        var bigger := new T[2 * list.Length];
        forall i | 0 <= i < len {
          bigger[i] := list[i];
        }
        list := bigger;
      }
      len := len + 1;
      ghost var l := list;
      var i := len - 1;
      while i > pos0
        invariant list == l && pos0 <= i < len <= list.Length && len == |s| + 1
        invariant forall k {:trigger list[k]} :: 0 <= k <= i && k < |s| ==> list[k] == s[k]
        invariant forall k {:trigger list[k]} :: i < k < len ==> list[k] == s[k - 1]
      {
        list[i] := list[i - 1];
        i := i - 1;
      }
      list[pos0] := data;
      ghost var r := InsertedAt(s, data, pos0);
      forall k {:trigger list[k]} | 0 <= k < len ensures list[k] == r[k] {
        assert r[k] == if k < pos0 then s[k] else if k == pos0 then data else s[k - 1];
      }
      assert Contents() == r;
    }

    method Append(data: T)
      requires Valid()
      modifies this, list
      ensures Valid() && (list == old(list) || fresh(list)) && Contents() == old(Contents()) + [data]
    {
      InsertPos(data, len);
    }

    method FindIdx(data: T) returns (ret: int)
      requires Valid()
      ensures ret == -1 ==> data !in Contents()
      ensures ret != -1 ==> 0 <= ret && IsFirstIndex(Contents(), data, ret)
    {
      var i := 0;
      while i < len
        invariant 0 <= i <= len && data !in list[..i]
      {
        if list[i] == data {
          return i;
        }
        i := i + 1;
      }
      ret := -1;
    }

    method Remove(data: T)
      requires Valid()
      modifies this, list
      ensures Valid() && list == old(list)
      ensures data !in old(Contents()) ==> Contents() == old(Contents())
      ensures forall i: nat :: IsFirstIndex(old(Contents()), data, i) ==> Contents() == RemovedAt(old(Contents()), i)
    {
      ghost var s := Contents();
      var i := FindIdx(data);
      if i != -1 {
        len := len - 1;
        var j := i;
        while j < len
          invariant list == old(list) && i <= j <= len && len == |s| - 1 && Valid() && |s| <= list.Length
          invariant forall k {:trigger list[k]} :: 0 <= k < j ==> list[k] == RemovedAt(s, i)[k]
          invariant forall k {:trigger list[k]} :: j <= k <= len ==> list[k] == s[k]
        {
          list[j] := list[j + 1];
          j := j + 1;
        }
        assert Contents() == RemovedAt(s, i);
      }
    }

    method RemoveFast(data: T)
      requires Valid()
      modifies this, list
      ensures Valid() && list == old(list)
      ensures data !in old(Contents()) ==> Contents() == old(Contents())
      ensures forall i: nat :: IsFirstIndex(old(Contents()), data, i) ==> Contents() == RemovedFastAt(old(Contents()), i)
    {
      var i := FindIdx(data);
      if i != -1 {
        len := len - 1;
        list[i] := list[len];
      }
    }

    method FindSorted<K>(key: K, compare: (T, K) -> int) returns (ret: Option<T>)
      requires Valid() && Searchable(Contents(), key, compare)
      ensures ret.Some? ==> ret.value in Contents() && compare(ret.value, key) == 0
      ensures ret.None? ==> forall x :: x in Contents() ==> compare(x, key) != 0
    {
      var min, max := 0, len - 1;
      while min <= max
        invariant 0 <= min <= max + 1 <= len
        invariant forall k {:trigger list[k]} :: 0 <= k < min ==> compare(list[k], key) < 0
        invariant forall k {:trigger list[k]} :: max < k < len ==> compare(list[k], key) > 0
      {
        var i := (min + max) / 2;
        var st := compare(list[i], key);
        if st < 0 {
          min := i + 1;
        } else if st > 0 {
          max := i - 1;
        } else {
          assert list[i] == Contents()[i];
          return Some(list[i]);
        }
      }
      ret := None;
    }

    // The place of a new element in a sorted list.
    method FindPlace(data: T, compare: (T, T) -> int) returns (pos: nat)
      requires Valid() && Searchable(Contents(), data, compare)
      ensures pos <= len
      ensures forall k {:trigger list[k]} :: 0 <= k < pos ==> compare(list[k], data) <= 0
      ensures forall k {:trigger list[k]} :: pos <= k < len ==> compare(list[k], data) >= 0
    {
      var i, st, min, max := 0, 0, 0, len - 1;
      while min <= max
        invariant 0 <= min <= max + 1 <= len
        invariant forall k {:trigger list[k]} :: 0 <= k < min ==> compare(list[k], data) < 0
        invariant forall k {:trigger list[k]} :: max < k < len ==> compare(list[k], data) > 0
        invariant 0 <= i <= len && (st < 0 ==> min == i + 1) && (st > 0 ==> max == i - 1) && (st == 0 ==> i == 0 == min && max == len - 1)
      {
        i := (min + max) / 2;
        st := compare(list[i], data);
        if st < 0 {
          min := i + 1;
        } else if st > 0 {
          max := i - 1;
        } else {
          break;
        }
      }
      pos := if st >= 0 then i else i + 1;
    }

    method InsertSorted(data: T, compare: (T, T) -> int)
      requires Valid() && Searchable(Contents(), data, compare)
      modifies this, list
      ensures Valid() && (list == old(list) || fresh(list))
      ensures exists pos: nat {:trigger InsertedAt(old(Contents()), data, pos)} ::
                pos <= |old(Contents())| && Contents() == InsertedAt(old(Contents()), data, pos)
                && (forall k {:trigger old(Contents())[k]} :: 0 <= k < pos ==> compare(old(Contents())[k], data) <= 0)
                && (forall k {:trigger old(Contents())[k]} :: pos <= k < |old(Contents())| ==> compare(old(Contents())[k], data) >= 0)
    {
      var pos := FindPlace(data, compare);
      InsertPos(data, pos);
    }
  }

  // Inserting keeps a list sorted.
  lemma InsertedStaysSorted<T(!new)>(s: seq<T>, data: T, pos: nat, compare: (T, T) -> int)
    requires IsPreorder(compare) && Sorted(s, compare) && pos <= |s|
    requires forall k :: 0 <= k < pos ==> compare(s[k], data) <= 0
    requires forall k :: pos <= k < |s| ==> compare(s[k], data) >= 0
    ensures Sorted(InsertedAt(s, data, pos), compare)
  {
  }

  lemma SortedIsSearchable<T(!new)>(s: seq<T>, data: T, compare: (T, T) -> int)
    requires IsPreorder(compare) && Sorted(s, compare)
    ensures Searchable(s, data, compare)
  {
    forall i, j {:trigger s[i], s[j]} | 0 <= i < j < |s|
      ensures compare(s[i], data) > 0 ==> compare(s[j], data) > 0
      ensures compare(s[j], data) < 0 ==> compare(s[i], data) < 0
    {
      assert compare(s[i], s[j]) <= 0;
      assert compare(s[j], data) <= 0 ==> compare(s[i], data) <= 0;
      assert compare(data, s[i]) <= 0 ==> compare(data, s[j]) <= 0;
    }
  }

  method Sort<T(0, ==, !new)>(lp: Dlist<T>, compare: (T, T) -> int)
    requires lp.Valid() && IsPreorder(compare)
    modifies lp.list
    ensures lp.Valid() && lp.len == old(lp.len)
    ensures Sorted(lp.Contents(), compare)
    ensures multiset(lp.Contents()) == multiset(old(lp.Contents()))
  {
    if lp.len > 1 {
      ghost var s := lp.list[..];
      QuickSort(lp.list, 0, lp.len - 1, compare);
      assert lp.list[0..lp.len] == lp.list[..][0..lp.len] == lp.Contents();
      assert s[0..lp.len] == old(lp.Contents());
      forall i, j | 0 <= i < j < lp.len ensures compare(lp.Contents()[i], lp.Contents()[j]) <= 0 {
        assert compare(lp.list[..][i], lp.list[..][j]) <= 0;
      }
    }
  }
}
