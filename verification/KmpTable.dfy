// Searching with any failure table, and when such a search is right: dw/findtext.cc:271-277.
module KmpTables {
  import opened Common
  import opened Kmp

  // A table leads to smaller candidates, whatever it has been made for.
  predicate LeadsDown(tab: seq<int>, l: nat) {
    l <= |tab| && forall i {:trigger tab[i]} :: 0 <= i < l ==> -1 <= tab[i] < i
  }

  // The loop of search0 within the text: the end of what it finds.
  ghost function ScanRun(t: seq<Byte>, k: seq<Byte>, tab: seq<int>, q: nat, j: int): (e: Option<nat>)
    requires LeadsDown(tab, |k|) && -1 <= j < |k|
    ensures e.Some? ==> q + |k| - j <= e.value <= |t|
    decreases |t| - q, j
  {
    if q >= |t| then None
    else if j == -1 || t[q] == k[j] then
      if j + 1 == |k| then Some(q + 1) else ScanRun(t, k, tab, q + 1, j + 1)
    else ScanRun(t, k, tab, q, tab[j])
  }

  // What a search for the first occurrence from start on should find.
  ghost predicate IsFirstEnd(t: seq<Byte>, k: seq<Byte>, start: nat, e: Option<nat>) {
    match e
    case None => forall s {:trigger OccursAt(t, k, s)} :: s >= start ==> !OccursAt(t, k, s)
    case Some(end) =>
      && start <= end - |k| && OccursAt(t, k, end - |k|)
      && forall s {:trigger OccursAt(t, k, s)} :: start <= s < end - |k| ==> !OccursAt(t, k, s)
  }

  // ----- the condition on a table ------------------------------------------------------------

  // Where the loop gets from j when the character at i has not matched: smaller candidates
  // with the same character do not match either.
  function Strong(k: seq<Byte>, tab: seq<int>, i: nat, j: int): (s: int)
    requires LeadsDown(tab, |k|) && -1 <= j < i < |k|
    ensures -1 <= s <= j && (s >= 0 ==> k[s] != k[i])
    decreases j
  {
    if j == -1 || k[j] != k[i] then j else Strong(k, tab, i, tab[j])
  }

  // s is the longest border of k[..i] that is not followed by the character at i, or -1.
  ghost predicate IsStrongBorder(k: seq<Byte>, i: nat, s: int)
    requires i < |k|
  {
    && -1 <= s < i
    && (s >= 0 ==> IsBorder(k, i, s) && k[s] != k[i])
    && forall b: nat {:trigger IsBorder(k, i, b)} :: b > s && IsBorder(k, i, b) ==> k[b] == k[i]
  }

  // Every mismatch leads to the right candidate.
  ghost predicate Suits(k: seq<Byte>, tab: seq<int>) {
    && LeadsDown(tab, |k|)
    && forall i {:trigger tab[i]} :: 0 < i < |k| ==> IsStrongBorder(k, i, Strong(k, tab, i, tab[i]))
  }

  // ----- such a table is enough ------------------------------------------------------------------

  lemma {:induction false} ChainIsSkipped(t: seq<Byte>, k: seq<Byte>, tab: seq<int>, q: nat, i: nat, j: int)
    requires LeadsDown(tab, |k|) && -1 <= j < i < |k| && q < |t| && t[q] != k[i]
    ensures ScanRun(t, k, tab, q, j) == ScanRun(t, k, tab, q, Strong(k, tab, i, j))
    decreases j
  {
    if j >= 0 && k[j] == k[i] {
      ChainIsSkipped(t, k, tab, q, i, tab[j]);
    }
  }

  lemma StrongFails(t: seq<Byte>, k: seq<Byte>, start: int, p: int, i: nat, s: int)
    requires Searching(t, k, start, p, i) && i < |k| && p < |t| && t[p] != k[i] && IsStrongBorder(k, i, s)
    ensures Searching(t, k, start, p, s)
  {
    if s >= 0 {
      assert t[p - s..p] == t[p - i..p][i - s..] == k[..i][i - s..] == k[i - s..i];
    }
    forall b {:trigger OccursAt(t, k, b)} | start <= b < p - s ensures !OccursAt(t, k, b) {
      if OccursAt(t, k, b) && b >= p - i {
        OccurrenceChar(t, k, b, p - b);
        if b > p - i {
          OverlapIsBorder(t, k, p, i, b);
        }
        assert false;
      }
    }
  }

  lemma {:induction false} RunIsRight(t: seq<Byte>, k: seq<Byte>, tab: seq<int>, start: nat, q: nat, j: int)
    requires Suits(k, tab) && j < |k| && Searching(t, k, start, q, j)
    ensures IsFirstEnd(t, k, start, ScanRun(t, k, tab, q, j))
    decreases |t| - q, j, 1
  {
    if q == |t| {
      SearchEnds(t, k, start, j);
    } else if j == -1 || t[q] == k[j] {
      MatchIsRight(t, k, tab, start, q, j);
    } else {
      MismatchIsRight(t, k, tab, start, q, j);
    }
  }

  lemma {:induction false} MatchIsRight(t: seq<Byte>, k: seq<Byte>, tab: seq<int>, start: nat, q: nat, j: int)
    requires Suits(k, tab) && j < |k| && q < |t| && Searching(t, k, start, q, j) && (j == -1 || t[q] == k[j])
    ensures IsFirstEnd(t, k, start, ScanRun(t, k, tab, q, j))
    decreases |t| - q, j, 0
  {
    SearchMatches(t, k, start, q, j);
    if j + 1 == |k| {
      SearchSucceeds(t, k, start, q + 1);
    } else {
      RunIsRight(t, k, tab, start, q + 1, j + 1);
    }
  }

  lemma {:induction false} MismatchIsRight(t: seq<Byte>, k: seq<Byte>, tab: seq<int>, start: nat, q: nat, j: nat)
    requires Suits(k, tab) && j < |k| && q < |t| && Searching(t, k, start, q, j) && t[q] != k[j]
    ensures IsFirstEnd(t, k, start, ScanRun(t, k, tab, q, j))
    decreases |t| - q, j, 0
  {
    var s := Strong(k, tab, j, tab[j]);
    assert j == 0 ==> IsStrongBorder(k, j, s);
    ChainIsSkipped(t, k, tab, q, j, tab[j]);
    StrongFails(t, k, start, q, j, s);
    RunIsRight(t, k, tab, start, q, s);
  }

  // ----- and it is necessary ------------------------------------------------------------------------

  lemma {:induction false} RunMatches(t: seq<Byte>, k: seq<Byte>, tab: seq<int>, q: nat, j: nat, n: nat)
    requires LeadsDown(tab, |k|) && j + n < |k| && q + n <= |t| && t[q..q + n] == k[j..j + n]
    ensures ScanRun(t, k, tab, q, j) == ScanRun(t, k, tab, q + n, j + n)
    decreases n
  {
    if n > 0 {
      assert t[q] == t[q..q + n][0] == k[j..j + n][0] == k[j];
      assert t[q + 1..q + n] == t[q..q + n][1..] == k[j..j + n][1..] == k[j + 1..j + n];
      RunMatches(t, k, tab, q + 1, j + 1, n - 1);
    }
  }

  // After k[..i] and another character the loop is at the end of the chain.
  lemma RunToStrong(t: seq<Byte>, k: seq<Byte>, tab: seq<int>, i: nat)
    requires LeadsDown(tab, |k|) && 0 < i < |k| && i < |t| && t[..i] == k[..i] && t[i] != k[i]
    ensures ScanRun(t, k, tab, 0, 0) == ScanRun(t, k, tab, i, Strong(k, tab, i, tab[i]))
  {
    assert t[0..0 + i] == k[0..0 + i];
    RunMatches(t, k, tab, 0, 0, i);
    ChainIsSkipped(t, k, tab, i, i, tab[i]);
  }

  // A border that is skipped: the occurrence that begins with it is missed.
  lemma MissedOccurrence(k: seq<Byte>, tab: seq<int>, i: nat, b: nat) returns (t: seq<Byte>)
    requires LeadsDown(tab, |k|) && 0 < i < |k| && IsBorder(k, i, b) && k[b] != k[i] && b > Strong(k, tab, i, tab[i])
    ensures OccursAt(t, k, i - b) && ScanRun(t, k, tab, 0, 0) == None
  {
    t := k[..i] + k[b..];
    RunToStrong(t, k, tab, i);
    assert t[i - b..i - b + |k|] == k[i - b..i] + k[b..] == k[..b] + k[b..] == k;
  }

  // A candidate that is no border: a place is found that is no occurrence.
  lemma FalseOccurrence(k: seq<Byte>, tab: seq<int>, i: nat) returns (t: seq<Byte>)
    requires LeadsDown(tab, |k|) && 0 < i < |k|
    requires var s := Strong(k, tab, i, tab[i]); s >= 0 && !IsBorder(k, i, s)
    ensures ScanRun(t, k, tab, 0, 0) == Some(|t|) && |t| >= |k| && !OccursAt(t, k, |t| - |k|)
  {
    var s := Strong(k, tab, i, tab[i]);
    t := k[..i] + k[s..];
    assert t[i] == k[s];
    RunToStrong(t, k, tab, i);
    var n := |k| - 1 - s;
    assert t[i..i + n] == k[s..s + n];
    RunMatches(t, k, tab, i, s, n);
    assert t[i + n] == k[s..][n] == k[|k| - 1];
    assert k[i - s..i] == t[i - s..i - s + |k|][..s];
  }

  // A search with a table finds the first occurrence in every text and from every start, if
  // and only if the table suits the key.
  lemma WhenSearchIsRight(k: seq<Byte>, tab: seq<int>)
    requires k != [] && LeadsDown(tab, |k|)
    ensures Suits(k, tab) <==>
              forall t, start: nat {:trigger ScanRun(t, k, tab, start, 0)} :: start <= |t| ==> IsFirstEnd(t, k, start, ScanRun(t, k, tab, start, 0))
  {
    if Suits(k, tab) {
      forall t: seq<Byte>, start: nat {:trigger ScanRun(t, k, tab, start, 0)} | start <= |t|
        ensures IsFirstEnd(t, k, start, ScanRun(t, k, tab, start, 0))
      {
        assert t[start..start] == k[..0];
        RunIsRight(t, k, tab, start, start, 0);
      }
    } else {
      var t := WrongText(k, tab);
      assert !IsFirstEnd(t, k, 0, ScanRun(t, k, tab, 0, 0));
    }
  }

  lemma WrongText(k: seq<Byte>, tab: seq<int>) returns (t: seq<Byte>)
    requires LeadsDown(tab, |k|) && !Suits(k, tab)
    ensures !IsFirstEnd(t, k, 0, ScanRun(t, k, tab, 0, 0))
  {
    var i :| 0 < i < |k| && !IsStrongBorder(k, i, Strong(k, tab, i, tab[i]));
    var s := Strong(k, tab, i, tab[i]);
    if s >= 0 && !IsBorder(k, i, s) {
      t := FalseOccurrence(k, tab, i);
    } else {
      var b: nat :| b > s && IsBorder(k, i, b) && k[b] != k[i];
      t := MissedOccurrence(k, tab, i, b);
    }
  }

  // ----- the tables of the source -------------------------------------------------------------------

  lemma {:induction false} StrongOfTable(k: seq<Byte>, tab: seq<int>, i: nat, j: int)
    requires LeadsDown(tab, |k|) && IsTable(k, tab, |k|) && -1 <= j < i < |k| && (j >= 0 ==> IsBorder(k, i, j))
    requires forall b: nat {:trigger IsBorder(k, i, b)} :: b > j && IsBorder(k, i, b) ==> k[b] == k[i]
    ensures IsStrongBorder(k, i, Strong(k, tab, i, j))
    decreases j
  {
    if j >= 0 && k[j] == k[i] {
      assert IsLongestBorder(k, j, tab[j]);
      if tab[j] >= 0 {
        BorderOfBorder(k, i, j, tab[j]);
      }
      forall b: nat {:trigger IsBorder(k, i, b)} | b > tab[j] && IsBorder(k, i, b) ensures k[b] == k[i] {
        BorderOfBorder(k, i, j, b);
      }
      StrongOfTable(k, tab, i, tab[j]);
    }
  }

  lemma TableLeadsDown(k: seq<Byte>, tab: seq<int>)
    requires |k| <= |tab| && IsTable(k, tab, |k|)
    ensures LeadsDown(tab, |k|)
  {
    forall i {:trigger tab[i]} | 0 <= i < |k| ensures -1 <= tab[i] < i {
      assert IsLongestBorder(k, i, tab[i]);
    }
  }

  // The table that is made for a key suits it.
  lemma OwnTableSuits(k: seq<Byte>, tab: seq<int>)
    requires |k| <= |tab| && IsTable(k, tab, |k|)
    ensures Suits(k, tab)
  {
    TableLeadsDown(k, tab);
    forall i {:trigger tab[i]} | 0 < i < |k| ensures IsStrongBorder(k, i, Strong(k, tab, i, tab[i])) {
      assert IsLongestBorder(k, i, tab[i]);
      StrongOfTable(k, tab, i, tab[i]);
    }
  }
}
