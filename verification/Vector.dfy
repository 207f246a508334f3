// Binary search in a vector: lout/container.cc:227-279 with mustExist == false
// and start == 0, the only way the float manager uses it.
module VectorSearch {

  // C divides toward zero; the sum of the bounds may be -1.
  function Middle(low: int, high: int): int {
    if low + high >= 0 then (low + high) / 2 else -(-(low + high) / 2)
  }

  // Elements that are greater than the key do not stand before smaller ones.
  ghost predicate SortedFor<T>(key: T, list: seq<T>, compare: (T, T) -> int) {
    forall i, j {:trigger compare(key, list[i]), compare(key, list[j])} :: 0 <= i < j < |list| ==>
      && (compare(key, list[i]) < 0 ==> compare(key, list[j]) < 0)
      && (compare(key, list[j]) > 0 ==> compare(key, list[i]) > 0)
  }

  // Everything before r is smaller than the key, and r is equal to it or the first
  // greater element among those up to end.
  ghost predicate IsSearchResult<T>(key: T, list: seq<T>, compare: (T, T) -> int, end: int, r: int)
    requires end < |list|
  {
    && 0 <= r <= end + 1
    && ( (r <= end && compare(key, list[r]) == 0)
      || ( && (forall i {:trigger list[i]} :: 0 <= i < r ==> compare(key, list[i]) > 0)
           && (forall i {:trigger list[i]} :: r <= i <= end ==> compare(key, list[i]) < 0)))
  }

  // The index at which the search between low and high ends.
  function SearchBetween<T>(key: T, list: seq<T>, compare: (T, T) -> int, low: int, high: int): int
    requires 0 <= low <= high + 1 && low < |list| && high < |list|
    decreases high - low + 1
  {
    var index := Middle(low, high);
    var c := compare(key, list[index]);
    if c == 0 then index
    else if low >= high then if c > 0 then index + 1 else index
    else if c < 0 then SearchBetween(key, list, compare, low, index - 1)
    else SearchBetween(key, list, compare, index + 1, high)
  }

  function SearchIndex<T>(key: T, list: seq<T>, compare: (T, T) -> int, end: int): int
    requires -1 <= end < |list|
  {
    if end < 0 then 0 else SearchBetween(key, list, compare, 0, end)
  }

  lemma {:induction false} SearchBetweenFinds<T>(key: T, list: seq<T>, compare: (T, T) -> int, end: int, low: int, high: int)
    requires 0 <= low <= high + 1 && low <= end && high <= end < |list| && SortedFor(key, list, compare)
    requires forall i {:trigger list[i]} :: 0 <= i < low ==> compare(key, list[i]) > 0
    requires forall i {:trigger list[i]} :: high < i <= end ==> compare(key, list[i]) < 0
    ensures IsSearchResult(key, list, compare, end, SearchBetween(key, list, compare, low, high))
    decreases high - low + 1
  {
    var index := Middle(low, high);
    var c := compare(key, list[index]);
    if c < 0 && low < high {
      SearchBetweenFinds(key, list, compare, end, low, index - 1);
    } else if c > 0 && low < high {
      SearchBetweenFinds(key, list, compare, end, index + 1, high);
    }
  }

  lemma SearchIndexFinds<T>(key: T, list: seq<T>, compare: (T, T) -> int, end: int)
    requires -1 <= end < |list| && SortedFor(key, list, compare)
    ensures IsSearchResult(key, list, compare, end, SearchIndex(key, list, compare, end))
  {
    if end >= 0 {
      SearchBetweenFinds(key, list, compare, end, 0, end);
    }
  }

  method BSearch<T>(key: T, list: seq<T>, compare: (T, T) -> int, end: int) returns (result: int)
    requires -1 <= end < |list| && SortedFor(key, list, compare)
    ensures IsSearchResult(key, list, compare, end, result)
    ensures result == SearchIndex(key, list, compare, end)
  {
    SearchIndexFinds(key, list, compare, end);
    if 0 > end {
      return 0;
    }
    var low, high := 0, end;
    while true
      invariant 0 <= low && high <= end && low <= high + 1 && low <= end
      invariant SearchBetween(key, list, compare, low, high) == SearchIndex(key, list, compare, end)
      decreases high - low
    {
      var index := Middle(low, high);
      var c := compare(key, list[index]);
      if c == 0 {
        return index;
      }
      if low >= high {
        return if c > 0 then index + 1 else index;
      }
      if c < 0 {
        high := index - 1;
      } else {
        low := index + 1;
      }
    }
  }
}
