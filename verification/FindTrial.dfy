// What a search in a text should answer, and what the trials of the source answer, as functions on
// values: dw/findtext.cc:75-146, 225-295 and dw/findtext.hh.
//
// The text and the key are given in canonical form: equal characters are the same.
module FindTrials {
  import opened Common
  import opened Kmp
  import opened KmpTables

  // ----- comparing characters ----------------------------------------------------

  function ToLower(c: Byte): Byte {
    if 65 <= c <= 90 then c + 32 else c
  }

  predicate IsSpace(c: Byte) {
    9 <= c <= 13 || c == 32
  }

  predicate CharsEqual(c1: Byte, c2: Byte, caseSens: bool) {
    if caseSens then c1 == c2 else ToLower(c1) == ToLower(c2) || (IsSpace(c1) && IsSpace(c2))
  }

  // A representative of all characters equal to c.
  function Canonical(c: Byte, caseSens: bool): Byte {
    if caseSens then c else if IsSpace(c) then 32 else ToLower(c)
  }

  // So equality of characters is an equivalence relation, which the search relies on.
  lemma EqualIsSameCanonical(c1: Byte, c2: Byte, caseSens: bool)
    ensures CharsEqual(c1, c2, caseSens) <==> Canonical(c1, caseSens) == Canonical(c2, caseSens)
  {
  }

  function Folded(s: seq<Byte>, caseSens: bool): (r: seq<Byte>)
    ensures |r| == |s| && forall i {:trigger r[i]} :: 0 <= i < |s| ==> r[i] == Canonical(s[i], caseSens)
  {
    seq(|s|, i requires 0 <= i < |s| => Canonical(s[i], caseSens))
  }

  // Without regard to case, two characters are equal if they are the same, or an upper case letter
  // and its lower case one, or both white space.
  lemma WhenCharsEqual(c1: Byte, c2: Byte)
    ensures CharsEqual(c1, c2, true) <==> c1 == c2
    ensures CharsEqual(c1, c2, false) <==>
              || c1 == c2 || (65 <= c1 <= 90 && c2 == c1 + 32) || (65 <= c2 <= 90 && c1 == c2 + 32)
              || ((9 <= c1 <= 13 || c1 == 32) && (9 <= c2 <= 13 || c2 == 32))
  {
  }

  // The key is at place p of the text, as it is read.
  predicate IsPlace(text: seq<Byte>, key: seq<Byte>, caseSens: bool, p: int) {
    && 0 <= p && p + |key| <= |text|
    && forall i {:trigger key[i]} :: 0 <= i < |key| ==> CharsEqual(text[p + i], key[i], caseSens)
  }

  // What the search finds in the canonical texts are these places.
  lemma OccursIsPlace(text: seq<Byte>, key: seq<Byte>, caseSens: bool, p: int)
    ensures OccursAt(Folded(text, caseSens), Folded(key, caseSens), p) <==> IsPlace(text, key, caseSens, p)
    ensures IsPlace(text, key, caseSens, p) <==>
              && 0 <= p && p + |key| <= |text|
              && forall i {:trigger key[i]} :: 0 <= i < |key| ==>
                   var c1, c2 := text[p + i], key[i];
                   || c1 == c2
                   || (!caseSens && (|| (65 <= c1 <= 90 && c2 == c1 + 32) || (65 <= c2 <= 90 && c1 == c2 + 32)
                                     || ((9 <= c1 <= 13 || c1 == 32) && (9 <= c2 <= 13 || c2 == 32))))
  {
    var t, k := Folded(text, caseSens), Folded(key, caseSens);
    if 0 <= p && p + |key| <= |text| {
      forall i {:trigger key[i]} | 0 <= i < |key| ensures CharsEqual(text[p + i], key[i], caseSens) <==> t[p + i] == k[i] {
        EqualIsSameCanonical(text[p + i], key[i], caseSens);
      }
      assert forall i {:trigger key[i]} :: 0 <= i < |key| ==> t[p..p + |key|][i] == t[p + i];
      if forall i {:trigger key[i]} :: 0 <= i < |key| ==> CharsEqual(text[p + i], key[i], caseSens) {
        assert t[p..p + |key|] == k;
      }
      assert OccursAt(t, k, p) ==> forall i {:trigger key[i]} :: 0 <= i < |key| ==> t[p..p + |key|][i] == k[i];
    }
  }

  // ----- the direction ---------------------------------------------------------------

  function Directed(s: seq<Byte>, backwards: bool): (r: seq<Byte>)
    ensures |r| == |s|
  {
    if backwards then Reversed(s) else s
  }

  // ----- the next occurrence ---------------------------------------------------------

  // p is the first occurrence beyond p0 in the direction of the search, or the very
  // first one if there is no p0.
  predicate Beyond(backwards: bool, p0: Option<int>, p: int) {
    p0.Some? ==> if backwards then p < p0.value else p > p0.value
  }

  ghost predicate IsNext(text: seq<Byte>, key: seq<Byte>, backwards: bool, p0: Option<int>, p: int) {
    && OccursAt(text, key, p) && Beyond(backwards, p0, p)
    && forall p' {:trigger OccursAt(text, key, p')} ::
         OccursAt(text, key, p') && Beyond(backwards, p0, p') ==> p' == p || Beyond(backwards, Some(p), p')
  }

  ghost predicate NoneBeyond(text: seq<Byte>, key: seq<Byte>, backwards: bool, p0: Option<int>) {
    forall p {:trigger OccursAt(text, key, p)} :: Beyond(backwards, p0, p) ==> !OccursAt(text, key, p)
  }

  // The outcome of a pass from start on, which has stopped at end.
  ghost predicate Scanned(t: seq<Byte>, k: seq<Byte>, start: int, end: int, found: bool) {
    if found then
      && start <= end - |k| && OccursAt(t, k, end - |k|)
      && forall s {:trigger OccursAt(t, k, s)} :: start <= s < end - |k| ==> !OccursAt(t, k, s)
    else forall s {:trigger OccursAt(t, k, s)} :: s >= start ==> !OccursAt(t, k, s)
  }

  lemma FoldedDirected(s: seq<Byte>, caseSens: bool, backwards: bool)
    ensures Folded(Directed(s, backwards), caseSens) == Directed(Folded(s, caseSens), backwards)
  {
  }

  // The position of an occurrence in the text, given its position in search direction.
  function Undirected(text: seq<Byte>, key: seq<Byte>, backwards: bool, s: int): int {
    if backwards then |text| - |key| - s else s
  }

  lemma OccursDirected(text: seq<Byte>, key: seq<Byte>, backwards: bool, s: int)
    ensures OccursAt(Directed(text, backwards), Directed(key, backwards), s)
            <==> OccursAt(text, key, Undirected(text, key, backwards, s))
  {
    if backwards {
      OccursReversed(text, key, |text| - |key| - s);
    }
  }

  // What one pass has found, told in positions of the text.
  lemma FoundIsNext(text: seq<Byte>, key: seq<Byte>, backwards: bool, p0: Option<int>, start: int, s: int)
    requires var t, k := Directed(text, backwards), Directed(key, backwards);
             start <= s && OccursAt(t, k, s)
             && forall s' {:trigger OccursAt(t, k, s')} :: start <= s' < s ==> !OccursAt(t, k, s')
    requires forall s' {:trigger OccursAt(Directed(text, backwards), Directed(key, backwards), s')} ::
               OccursAt(Directed(text, backwards), Directed(key, backwards), s') ==>
               (start <= s' <==> Beyond(backwards, p0, Undirected(text, key, backwards, s')))
    ensures IsNext(text, key, backwards, p0, Undirected(text, key, backwards, s))
  {
    var t, k, p := Directed(text, backwards), Directed(key, backwards), Undirected(text, key, backwards, s);
    OccursDirected(text, key, backwards, s);
    forall p' {:trigger OccursAt(text, key, p')} | OccursAt(text, key, p') && Beyond(backwards, p0, p')
      ensures p' == p || Beyond(backwards, Some(p), p')
    {
      var s' := Undirected(text, key, backwards, p');
      OccursDirected(text, key, backwards, s');
      assert OccursAt(t, k, s');
    }
  }

  lemma NothingIsNoneBeyond(text: seq<Byte>, key: seq<Byte>, backwards: bool, p0: Option<int>, start: int)
    requires var t, k := Directed(text, backwards), Directed(key, backwards);
             forall s {:trigger OccursAt(t, k, s)} :: s >= start ==> !OccursAt(t, k, s)
    requires forall s' {:trigger OccursAt(Directed(text, backwards), Directed(key, backwards), s')} ::
               OccursAt(Directed(text, backwards), Directed(key, backwards), s') ==>
               (start <= s' <==> Beyond(backwards, p0, Undirected(text, key, backwards, s')))
    ensures NoneBeyond(text, key, backwards, p0)
  {
    var t, k := Directed(text, backwards), Directed(key, backwards);
    forall p {:trigger OccursAt(text, key, p)} | Beyond(backwards, p0, p) ensures !OccursAt(text, key, p) {
      var s := Undirected(text, key, backwards, p);
      OccursDirected(text, key, backwards, s);
      assert OccursAt(t, k, s) ==> start <= s;
    }
  }

  // A pass from the start that belongs to p0 finds the next occurrence beyond p0.
  lemma PassIsSearch(text: seq<Byte>, key: seq<Byte>, backwards: bool, p0: Option<int>, start: int, end: int, found: bool)
    requires key != [] && Scanned(Directed(text, backwards), Directed(key, backwards), start, end, found)
    requires p0 == None ==> start <= 0 || NoneBeyond(text, key, backwards, None)
    requires p0.Some? ==> start == if backwards then |text| - |key| - p0.value + 1 else p0.value + 1
    requires p0.Some? ==> OccursAt(text, key, p0.value)
    ensures found ==> IsNext(text, key, backwards, p0, Undirected(text, key, backwards, end - |key|))
    ensures !found ==> NoneBeyond(text, key, backwards, p0)
  {
    var t, k := Directed(text, backwards), Directed(key, backwards);
    forall s' {:trigger OccursAt(t, k, s')} | OccursAt(t, k, s')
      ensures start <= s' <==> Beyond(backwards, p0, Undirected(text, key, backwards, s'))
    {
      OccursDirected(text, key, backwards, s');
      assert OccursAt(text, key, Undirected(text, key, backwards, s'));
    }
    if found {
      FoundIsNext(text, key, backwards, p0, start, end - |key|);
    } else {
      NothingIsNoneBeyond(text, key, backwards, p0, start);
    }
  }

  // ----- one pass over the text --------------------------------------------------------

  // START and END, seen as characters: a pass may begin there.
  function MarkBefore(backwards: bool): Byte {
    if backwards then 2 else 1
  }

  function MarkBehind(backwards: bool): Byte {
    if backwards then 1 else 2
  }

  function Marked(t: seq<Byte>, backwards: bool): seq<Byte> {
    [MarkBefore(backwards)] + t
  }

  // The loop of search0 that starts a characters ahead: how far ahead the iterator is when it
  // has found something, with whichever table.
  ghost function ScanFrom(t: seq<Byte>, k: seq<Byte>, tab: seq<int>, backwards: bool, a: int): Option<int>
    requires LeadsDown(tab, |k|) && k != [] && -1 <= a <= |t|
  {
    if a == |t| then
      if k == [MarkBehind(backwards)] then Some(a) else None
    else
      match ScanRun(Marked(t, backwards), k, tab, a + 1, 0)
      case None => None
      case Some(e) => Some(e - 1)
  }

  // The key matches the mark at which the pass begins.
  predicate HitsMark(t: seq<Byte>, k: seq<Byte>, backwards: bool, a: int) {
    (a == -1 && OccursAt(Marked(t, backwards), k, 0)) || (a == |t| && k == [MarkBehind(backwards)])
  }

  ghost predicate IsScanned(t: seq<Byte>, k: seq<Byte>, a: int, found: Option<int>) {
    match found
    case None => Scanned(t, k, a, 0, false)
    case Some(e) => Scanned(t, k, a, e, true)
  }

  lemma OccursMarked(t: seq<Byte>, k: seq<Byte>, backwards: bool, s: int)
    ensures s >= 0 ==> (OccursAt(t, k, s) <==> OccursAt(Marked(t, backwards), k, s + 1))
  {
    if s >= 0 && s + |k| <= |t| {
      assert t[s..s + |k|] == Marked(t, backwards)[s + 1..s + 1 + |k|];
    }
  }

  // With a table that suits the key, the loop finds the first occurrence, if and only if the
  // key does not match a mark.
  lemma ScanFromIsRight(t: seq<Byte>, k: seq<Byte>, tab: seq<int>, backwards: bool, a: int)
    requires Suits(k, tab) && k != [] && -1 <= a <= |t|
    ensures IsScanned(t, k, a, ScanFrom(t, k, tab, backwards, a)) <==> !HitsMark(t, k, backwards, a)
    ensures HitsMark(t, k, backwards, a) ==> ScanFrom(t, k, tab, backwards, a) == Some(if a == -1 then |k| - 1 else a)
  {
    if a < |t| {
      var e := MarkedRun(t, k, tab, backwards, a);
      MarkedIsScanned(t, k, backwards, a, e);
      assert ScanFrom(t, k, tab, backwards, a) == if e.None? then None else Some(e.value - 1);
    } else {
      NothingAtEnd(t, k);
    }
  }

  lemma MarkedRun(t: seq<Byte>, k: seq<Byte>, tab: seq<int>, backwards: bool, a: int) returns (e: Option<nat>)
    requires Suits(k, tab) && k != [] && -1 <= a < |t|
    ensures e == ScanRun(Marked(t, backwards), k, tab, a + 1, 0) && IsFirstEnd(Marked(t, backwards), k, a + 1, e)
  {
    var m := Marked(t, backwards);
    assert m[a + 1..a + 1] == k[..0];
    RunIsRight(m, k, tab, a + 1, a + 1, 0);
    e := ScanRun(m, k, tab, a + 1, 0);
  }

  lemma NothingAtEnd(t: seq<Byte>, k: seq<Byte>)
    requires k != []
    ensures forall s {:trigger OccursAt(t, k, s)} :: s >= |t| ==> !OccursAt(t, k, s)
  {
  }

  lemma MarkedIsScanned(t: seq<Byte>, k: seq<Byte>, backwards: bool, a: int, e: Option<nat>)
    requires k != [] && -1 <= a < |t| && IsFirstEnd(Marked(t, backwards), k, a + 1, e)
    ensures IsScanned(t, k, a, if e.None? then None else Some(e.value - 1)) <==> !HitsMark(t, k, backwards, a)
    ensures HitsMark(t, k, backwards, a) ==> e == Some(|k|)
  {
    var m := Marked(t, backwards);
    forall s {:trigger OccursAt(t, k, s)} ensures s >= 0 ==> (OccursAt(t, k, s) <==> OccursAt(m, k, s + 1)) {
      OccursMarked(t, k, backwards, s);
    }
    match e
    case None =>
    case Some(end) =>
      OccursMarked(t, k, backwards, end - 1 - |k|);
      if end == |k| {
        assert !OccursAt(t, k, -1);
      }
  }

  // ----- one trial ---------------------------------------------------------------------

  // A position, counted in the direction of the search.
  function Ahead(n: nat, pos: int, backwards: bool): int {
    if backwards then n - 1 - pos else pos
  }

  // Where the loop starts when the iterator is at pos: backwards, after a success, at the last
  // character but one of the occurrence.
  function StartPos(n: nat, l: nat, pos: int, backwards: bool, first: bool): (s: int)
    requires -1 <= pos <= n
    ensures -1 <= s <= n
  {
    if backwards && !first then
      if l == 1 then Max(pos - 2, -1)
      else if l == 2 then Max(pos - 1, -1)
      else if l >= 4 then Min(pos + (l - 3), n)
      else pos
    else if backwards && l == 1 then Min(pos + 1, n)
    else pos
  }

  function StartAhead(n: nat, l: nat, pos: int, backwards: bool, first: bool): (a: int)
    requires -1 <= pos <= n
    ensures -1 <= a <= n
  {
    Ahead(n, StartPos(n, l, pos, backwards, first), backwards)
  }

  // The first character of what has been found, when the loop is e characters ahead.
  function FoundPos(n: nat, l: nat, e: int, backwards: bool): int {
    if backwards then Min(n - e, n) else Max(e - l, -1)
  }

  // search0: the place at which the iterator is when something has been found.
  ghost function Trial(text: seq<Byte>, key: seq<Byte>, tab: seq<int>, pos: int, backwards: bool, first: bool): (p: Option<int>)
    requires LeadsDown(tab, |key|) && key != [] && -1 <= pos <= |text|
  {
    if pos == |text| then None
    else
      match ScanFrom(Directed(text, backwards), Directed(key, backwards), tab, backwards, StartAhead(|text|, |key|, pos, backwards, first))
      case None => None
      case Some(e) => Some(FoundPos(|text|, |key|, e, backwards))
  }

  lemma TrialEnds(text: seq<Byte>, key: seq<Byte>, tab: seq<int>, pos: int, backwards: bool, first: bool, found: bool, e: int)
    requires LeadsDown(tab, |key|) && key != [] && -1 <= pos < |text|
    requires ScanFrom(Directed(text, backwards), Directed(key, backwards), tab, backwards, StartAhead(|text|, |key|, pos, backwards, first))
             == if found then Some(e) else None
    ensures Trial(text, key, tab, pos, backwards, first)
            == if found then Some(FoundPos(|text|, |key|, e, backwards)) else None
  {
  }

  predicate TrialHitsMark(text: seq<Byte>, key: seq<Byte>, pos: int, backwards: bool, first: bool)
    requires -1 <= pos <= |text|
  {
    pos != |text| && HitsMark(Directed(text, backwards), Directed(key, backwards), backwards, StartAhead(|text|, |key|, pos, backwards, first))
  }

  // The first position in the direction of a search.
  function FirstPos(n: nat, backwards: bool): int {
    if backwards then n - 1 else 0
  }

  // The iterator stands behind the occurrence prev; without it, at the first position, or there
  // is no occurrence at all.
  ghost predicate StandsAfter(text: seq<Byte>, key: seq<Byte>, pos: int, backwards: bool, prev: Option<int>) {
    && -1 <= pos <= |text|
    && match prev
       case None => pos == FirstPos(|text|, backwards) || NoneBeyond(text, key, backwards, None)
       case Some(p) => pos == p + 1 && OccursAt(text, key, p)
  }

  ghost predicate IsNextOrNone(text: seq<Byte>, key: seq<Byte>, backwards: bool, prev: Option<int>, p: Option<int>) {
    match p
    case None => NoneBeyond(text, key, backwards, prev)
    case Some(place) => IsNext(text, key, backwards, prev, place)
  }

  lemma StartsBehind(text: seq<Byte>, key: seq<Byte>, pos: int, backwards: bool, prev: Option<int>)
    requires key != [] && StandsAfter(text, key, pos, backwards, prev) && pos != |text|
    ensures var a := StartAhead(|text|, |key|, pos, backwards, prev == None);
            && (prev == None ==> a <= 0 || NoneBeyond(text, key, backwards, None))
            && (prev.Some? ==> a == if backwards then |text| - |key| - prev.value + 1 else prev.value + 1)
  {
  }

  // With a table that suits the key, a trial finds the next occurrence, if and only if it does
  // not hit a mark.
  lemma TrialIsRight(text: seq<Byte>, key: seq<Byte>, tab: seq<int>, pos: int, backwards: bool, prev: Option<int>)
    requires key != [] && Suits(Directed(key, backwards), tab) && StandsAfter(text, key, pos, backwards, prev) && pos != |text|
    ensures IsNextOrNone(text, key, backwards, prev, Trial(text, key, tab, pos, backwards, prev == None))
            <==> !TrialHitsMark(text, key, pos, backwards, prev == None)
    ensures TrialHitsMark(text, key, pos, backwards, prev == None) ==> Trial(text, key, tab, pos, backwards, prev == None).Some?
  {
    var t, k, a := Directed(text, backwards), Directed(key, backwards), StartAhead(|text|, |key|, pos, backwards, prev == None);
    ScanFromIsRight(t, k, tab, backwards, a);
    StartsBehind(text, key, pos, backwards, prev);
    var e := ScanFrom(t, k, tab, backwards, a);
    if TrialHitsMark(text, key, pos, backwards, prev == None) {
      MarkIsNoPlace(text, key, pos, backwards, prev, e);
    } else {
      PassIsSearch(text, key, backwards, prev, a, if e.None? then 0 else e.value, e.Some?);
      assert e.Some? ==> OccursAt(t, k, e.value - |k|);
    }
  }

  // What is found at a mark is no next occurrence.
  lemma MarkIsNoPlace(text: seq<Byte>, key: seq<Byte>, pos: int, backwards: bool, prev: Option<int>, e: Option<int>)
    requires key != [] && StandsAfter(text, key, pos, backwards, prev) && TrialHitsMark(text, key, pos, backwards, prev == None)
    requires var a := StartAhead(|text|, |key|, pos, backwards, prev == None); e == Some(if a == -1 then |key| - 1 else a)
    ensures !IsNext(text, key, backwards, prev, FoundPos(|text|, |key|, e.value, backwards))
  {
    StartsBehind(text, key, pos, backwards, prev);
  }

  // ----- one search ------------------------------------------------------------------------

  // FAILED stands for the assertion of the source that the second search is a success.
  datatype Result = SUCCESS | RESTART | NOT_FOUND | FAILED

  // After an occurrence at prev has been highlighted, or at the beginning (None): the
  // result of a search, and what it highlights.
  ghost predicate IsOutcome(text: seq<Byte>, key: seq<Byte>, backwards: bool, prev: Option<int>, result: Result, highlighted: Option<int>) {
    match result
    case NOT_FOUND => NoneBeyond(text, key, backwards, None) && highlighted == None
    case SUCCESS => highlighted.Some? && IsNext(text, key, backwards, prev, highlighted.value)
    case RESTART =>
      && prev.Some? && NoneBeyond(text, key, backwards, prev)
      && highlighted.Some? && IsNext(text, key, backwards, None, highlighted.value)
    case FAILED => false
  }

  // Backwards, with a key of one character that is found at the very end: the iterator then
  // stands behind the text, where a search ends at once.
  predicate IsStuck(text: seq<Byte>, key: seq<Byte>, backwards: bool, prev: Option<int>) {
    backwards && |key| == 1 && prev == Some(|text| - 1)
  }

  ghost predicate IsAnswer(text: seq<Byte>, key: seq<Byte>, backwards: bool, prev: Option<int>, result: Result, highlighted: Option<int>) {
    if IsStuck(text, key, backwards, prev) then result == RESTART && highlighted == prev
    else IsOutcome(text, key, backwards, prev, result, highlighted)
  }

  // This is right exactly if there is no other occurrence.
  lemma WhenStuckIsRight(text: seq<Byte>, key: seq<Byte>, prev: int)
    requires OccursAt(text, key, prev) && IsStuck(text, key, true, Some(prev))
    ensures IsOutcome(text, key, true, Some(prev), RESTART, Some(prev)) <==> forall p {:trigger OccursAt(text, key, p)} :: OccursAt(text, key, p) ==> p == prev
  {
  }

  datatype Answer = Answer(result: Result, highlighted: Option<int>)

  // search: a trial, and if it is not the first one and fails, another one from the beginning.
  ghost function Outcome(text: seq<Byte>, key: seq<Byte>, tab: seq<int>, pos: int, backwards: bool, first: bool): Answer
    requires LeadsDown(tab, |key|) && key != [] && -1 <= pos <= |text|
  {
    match Trial(text, key, tab, pos, backwards, first)
    case Some(p) => Answer(SUCCESS, Some(p))
    case None =>
      if first then Answer(NOT_FOUND, None)
      else
        match Trial(text, key, tab, FirstPos(|text|, backwards), backwards, true)
        case Some(p) => Answer(RESTART, Some(p))
        case None => Answer(FAILED, None)
  }

  // One of the trials of a search hits a mark.
  ghost predicate MeetsMark(text: seq<Byte>, key: seq<Byte>, tab: seq<int>, pos: int, backwards: bool, first: bool)
    requires LeadsDown(tab, |key|) && key != [] && -1 <= pos <= |text|
  {
    || TrialHitsMark(text, key, pos, backwards, first)
    || (!first && Trial(text, key, tab, pos, backwards, first).None? && TrialHitsMark(text, key, FirstPos(|text|, backwards), backwards, true))
  }

  // With a table that suits the key, a search answers as it should, if and only if it does
  // not meet a mark.
  lemma SearchIsRight(text: seq<Byte>, key: seq<Byte>, tab: seq<int>, pos: int, backwards: bool, prev: Option<int>)
    requires key != [] && Suits(Directed(key, backwards), tab) && StandsAfter(text, key, pos, backwards, prev)
    ensures var answer := Outcome(text, key, tab, pos, backwards, prev == None);
            IsAnswer(text, key, backwards, prev, answer.result, answer.highlighted) <==> !MeetsMark(text, key, tab, pos, backwards, prev == None)
  {
    if pos != |text| {
      TrialIsRight(text, key, tab, pos, backwards, prev);
    }
    if prev.Some? && text != [] {
      TrialIsRight(text, key, tab, FirstPos(|text|, backwards), backwards, None);
    }
  }
}
