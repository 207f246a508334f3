// Borders of a key and occurrences in a text, as the search in dw/findtext.cc uses them.
module Kmp {
  import opened Common

  // The key occurs in the text at position p.
  predicate OccursAt(text: seq<Byte>, key: seq<Byte>, p: int) {
    0 <= p && p + |key| <= |text| && text[p..p + |key|] == key
  }

  // A proper prefix of key[..i] of length b is also a suffix of it.
  predicate IsBorder(key: seq<Byte>, i: nat, b: nat) {
    b < i <= |key| && key[..b] == key[i - b..i]
  }

  // t is the entry of the failure table for i: the length of the longest border.
  ghost predicate IsLongestBorder(key: seq<Byte>, i: nat, t: int)
    requires i <= |key|
  {
    if i == 0 then t == -1
    else t >= 0 && IsBorder(key, i, t) && forall b: nat :: IsBorder(key, i, b) ==> b <= t
  }

  // The first n entries of the table.
  ghost predicate IsTable(key: seq<Byte>, tab: seq<int>, n: nat)
    requires n <= |tab|
  {
    forall i {:trigger tab[i]} :: 0 <= i < n && i <= |key| ==> IsLongestBorder(key, i, tab[i])
  }

  // j is a border of key[..i], or -1, and no longer one can be extended by key[i].
  ghost predicate IsCandidate(key: seq<Byte>, i: nat, j: int)
    requires i < |key|
  {
    && -1 <= j < i
    && (j >= 0 ==> IsBorder(key, i, j))
    && forall b: nat {:trigger IsBorder(key, i, b)} :: b > j && IsBorder(key, i, b) ==> key[b] != key[i]
  }

  lemma BorderOfBorder(key: seq<Byte>, i: nat, j: nat, b: nat)
    requires IsBorder(key, i, j)
    ensures b < j ==> (IsBorder(key, i, b) <==> IsBorder(key, j, b))
  {
    if b < j {
      assert key[..j][j - b..] == key[j - b..j];
      assert key[i - j..i][j - b..] == key[i - b..i];
    }
  }

  // The candidate fails: the next one is the longest border of it.
  lemma CandidateFails(key: seq<Byte>, i: nat, j: nat, t: int)
    requires i < |key| && IsCandidate(key, i, j) && key[i] != key[j] && IsLongestBorder(key, j, t)
    ensures IsCandidate(key, i, t)
  {
    if t >= 0 {
      BorderOfBorder(key, i, j, t);
    }
    forall b: nat {:trigger IsBorder(key, i, b)} | b > t && IsBorder(key, i, b) ensures key[b] != key[i] {
      if b < j {
        BorderOfBorder(key, i, j, b);
      }
    }
  }

  lemma BorderExtends(key: seq<Byte>, i: nat, b: nat)
    requires i < |key|
    ensures IsBorder(key, i + 1, b + 1) <==> IsBorder(key, i, b) && key[b] == key[i]
  {
    if b < i {
      assert key[..b + 1] == key[..b] + [key[b]];
      assert key[i - b..i + 1] == key[i - b..i] + [key[i]];
      assert key[..b + 1][..b] == key[..b] && key[i - b..i + 1][..b] == key[i - b..i];
      assert key[..b + 1][b] == key[b] && key[i - b..i + 1][b] == key[i];
    }
  }

  // The candidate is extended: this is the next entry.
  lemma CandidateExtends(key: seq<Byte>, i: nat, j: int)
    requires i < |key| && IsCandidate(key, i, j) && (j == -1 || key[i] == key[j])
    ensures IsLongestBorder(key, i + 1, j + 1)
    ensures i + 1 < |key| ==> IsCandidate(key, i + 1, j + 1)
  {
    if j >= 0 {
      BorderExtends(key, i, j);
    }
    forall b: nat {:trigger IsBorder(key, i + 1, b)} | IsBorder(key, i + 1, b) ensures b <= j + 1 {
      if b > 0 {
        BorderExtends(key, i, b - 1);
      }
    }
  }

  lemma TableExtends(key: seq<Byte>, tab: seq<int>, i: nat, t: int)
    requires i < |tab| && i <= |key| && IsTable(key, tab, i) && IsLongestBorder(key, i, t)
    ensures IsTable(key, tab[i := t], i + 1)
  {
  }

  // ----- searching ---------------------------------------------------------------

  // The state of the search at position p: the last j characters match the first j of
  // the key (j == -1 if not even the one at p can match the first), and no occurrence
  // begins from start on before that.
  ghost predicate Searching(text: seq<Byte>, key: seq<Byte>, start: int, p: int, j: int) {
    && -1 <= j <= |key| && 0 <= start <= p - j && 0 <= p && p <= |text| && (j == -1 ==> p < |text|)
    && (j >= 0 ==> text[p - j..p] == key[..j])
    && forall s {:trigger OccursAt(text, key, s)} :: start <= s < p - j ==> !OccursAt(text, key, s)
  }

  lemma SearchMatches(text: seq<Byte>, key: seq<Byte>, start: int, p: int, j: int)
    requires Searching(text, key, start, p, j) && j < |key| && p < |text| && (j == -1 || text[p] == key[j])
    ensures Searching(text, key, start, p + 1, j + 1)
  {
    if j >= 0 {
      assert text[p - j..p + 1] == text[p - j..p] + [text[p]];
      assert key[..j + 1] == key[..j] + [key[j]];
    }
  }

  lemma OccurrenceChar(text: seq<Byte>, key: seq<Byte>, s: int, k: nat)
    requires OccursAt(text, key, s) && k < |key|
    ensures text[s + k] == key[k]
  {
    assert text[s..s + |key|][k] == text[s + k];
  }

  // An occurrence that begins within the matched part overlaps it in a border.
  lemma OverlapIsBorder(text: seq<Byte>, key: seq<Byte>, p: nat, j: nat, s: int)
    requires j <= |key| && j <= p <= |text| && text[p - j..p] == key[..j]
    requires OccursAt(text, key, s) && p - j < s <= p
    ensures IsBorder(key, j, p - s)
  {
    var b := p - s;
    assert key[..b] == text[s..s + |key|][..b] == text[s..p];
    assert key[j - b..j] == key[..j][j - b..] == text[p - j..p][j - b..] == text[s..p];
  }

  lemma SearchFails(text: seq<Byte>, key: seq<Byte>, start: int, p: int, j: nat, t: int)
    requires Searching(text, key, start, p, j) && j < |key| && p < |text| && text[p] != key[j]
    requires IsLongestBorder(key, j, t)
    ensures Searching(text, key, start, p, t)
  {
    if t >= 0 {
      assert text[p - t..p] == text[p - j..p][j - t..] == key[..j][j - t..] == key[j - t..j];
    }
    forall s {:trigger OccursAt(text, key, s)} | start <= s < p - t ensures !OccursAt(text, key, s) {
      if OccursAt(text, key, s) && s >= p - j {
        OccurrenceChar(text, key, s, p - s);
        if s > p - j {
          OverlapIsBorder(text, key, p, j, s);
        }
        assert false;
      }
    }
  }

  // At the end of the text nothing more can be found.
  lemma SearchEnds(text: seq<Byte>, key: seq<Byte>, start: int, j: int)
    requires Searching(text, key, start, |text|, j) && j < |key|
    ensures forall s {:trigger OccursAt(text, key, s)} :: s >= start ==> !OccursAt(text, key, s)
  {
  }

  lemma SearchSucceeds(text: seq<Byte>, key: seq<Byte>, start: int, p: int)
    requires Searching(text, key, start, p, |key|)
    ensures OccursAt(text, key, p - |key|)
    ensures forall s {:trigger OccursAt(text, key, s)} :: start <= s < p - |key| ==> !OccursAt(text, key, s)
  {
    assert key[..|key|] == key;
  }

  // ----- the same, backwards -------------------------------------------------------

  function Reversed(s: seq<Byte>): (r: seq<Byte>)
    ensures |r| == |s| && forall i {:trigger r[i]} :: 0 <= i < |s| ==> r[i] == s[|s| - 1 - i]
  {
    seq(|s|, i requires 0 <= i < |s| => s[|s| - 1 - i])
  }

  // Occurrences in the reversed text are those in the text, counted from its end.
  lemma OccursReversed(text: seq<Byte>, key: seq<Byte>, p: int)
    ensures OccursAt(text, key, p) <==> OccursAt(Reversed(text), Reversed(key), |text| - |key| - p)
  {
    var q := |text| - |key| - p;
    if OccursAt(text, key, p) {
      forall k | 0 <= k < |key| ensures Reversed(text)[q + k] == Reversed(key)[k] {
        OccurrenceChar(text, key, p, |key| - 1 - k);
      }
      assert Reversed(text)[q..q + |key|] == Reversed(key);
    }
    if OccursAt(Reversed(text), Reversed(key), q) {
      forall k | 0 <= k < |key| ensures text[p + k] == key[k] {
        OccurrenceChar(Reversed(text), Reversed(key), q, |key| - 1 - k);
        assert Reversed(key)[|key| - 1 - k] == key[k];
      }
      assert text[p..p + |key|] == key;
    }
  }
}
