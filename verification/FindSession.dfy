// Whole sessions of searches with one key, and searches after a change of the direction:
// dw/findtext.cc:75-146.
module FindSessions {
  import opened Common
  import opened Kmp
  import opened KmpTables
  import opened FindTrials
  import opened FindText

  // ----- lists of occurrences -------------------------------------------------------------

  // A list of positions in the order of the search.
  ghost predicate InSearchOrder(ps: seq<int>, backwards: bool) {
    forall i, j :: 0 <= i < j < |ps| ==> Beyond(backwards, Some(ps[i]), ps[j])
  }

  // All occurrences up to the last listed one are listed.
  ghost predicate ListsUpToLast(ps: seq<int>, text: seq<Byte>, key: seq<Byte>, backwards: bool) {
    && ps != [] && InSearchOrder(ps, backwards)
    && (forall p :: p in ps ==> OccursAt(text, key, p))
    && forall p {:trigger OccursAt(text, key, p)} :: OccursAt(text, key, p) ==>
         p in ps || Beyond(backwards, Some(ps[|ps| - 1]), p)
  }

  lemma ListNext(ps: seq<int>, text: seq<Byte>, key: seq<Byte>, backwards: bool, p: int)
    requires if ps == [] then IsNext(text, key, backwards, None, p)
             else ListsUpToLast(ps, text, key, backwards) && IsNext(text, key, backwards, Some(ps[|ps| - 1]), p)
    ensures ListsUpToLast(ps + [p], text, key, backwards)
  {
  }

  // The occurrences, each one once, in the order of the search.
  ghost predicate ListsAll(ps: seq<int>, text: seq<Byte>, key: seq<Byte>, backwards: bool) {
    && InSearchOrder(ps, backwards)
    && forall p {:trigger OccursAt(text, key, p)} :: p in ps <==> OccursAt(text, key, p)
  }

  lemma ListComplete(ps: seq<int>, text: seq<Byte>, key: seq<Byte>, backwards: bool)
    requires if ps == [] then NoneBeyond(text, key, backwards, None)
             else ListsUpToLast(ps, text, key, backwards) && NoneBeyond(text, key, backwards, Some(ps[|ps| - 1]))
    ensures ListsAll(ps, text, key, backwards)
  {
  }

  lemma FirstOfList(ps: seq<int>, text: seq<Byte>, key: seq<Byte>, backwards: bool, p: int)
    requires ps != [] && ListsAll(ps, text, key, backwards) && IsNext(text, key, backwards, None, p)
    ensures p == ps[0]
  {
    assert p in ps && ps[0] in ps && OccursAt(text, key, ps[0]);
  }

  lemma SessionEnds(ps: seq<int>, text: seq<Byte>, key: seq<Byte>, backwards: bool, result: Result, highlighted: Option<int>)
    requires ps != [] ==> ListsUpToLast(ps, text, key, backwards)
    requires result != SUCCESS
    requires IsOutcome(text, key, backwards, if ps == [] then None else Some(ps[|ps| - 1]), result, highlighted)
    ensures ListsAll(ps, text, key, backwards)
    ensures result == if ps == [] then NOT_FOUND else RESTART
    ensures highlighted == if ps == [] then None else Some(ps[0])
  {
    if ps != [] {
      assert ps[0] in ps && OccursAt(text, key, ps[0]);
      ListComplete(ps, text, key, backwards);
      FirstOfList(ps, text, key, backwards, highlighted.value);
    }
  }

  // ----- a session with one key -----------------------------------------------------------

  // The session goes on with the same key in the same direction.
  ghost predicate InSession(state: FindtextState, text: seq<Byte>, key: seq<Byte>, caseSens: bool, backwards: bool)
    reads state, state.iter, state.hlIterator
  {
    match state.key
    case None => false
    case Some(stateKey) =>
      && state.Valid() && state.Settled()
      && state.widget == Some(text) && stateKey == key && state.caseSens == caseSens && state.direction == backwards
  }

  // Whether a session ends up at the end of the text.
  predicate EndsStuck(text: seq<Byte>, key: seq<Byte>, backwards: bool) {
    backwards && |key| == 1 && OccursAt(text, key, |text| - 1)
  }

  // After what a search of a session starts: an occurrence, unless it is the first search.
  ghost predicate InRun(text: seq<Byte>, key: seq<Byte>, backwards: bool, prev: Option<int>) {
    prev.Some? ==> OccursAt(text, key, prev.value) && (EndsStuck(text, key, backwards) ==> prev.value == |text| - 1)
  }

  function PosAfter(n: nat, backwards: bool, prev: Option<int>): int {
    if prev.Some? then prev.value + 1 else FirstPos(n, backwards)
  }

  // START and END are found backwards: the one of them as the character 2 at the beginning, the
  // other one as the character 1 after an occurrence at 0.
  predicate FindsMark(text: seq<Byte>, key: seq<Byte>, backwards: bool) {
    && backwards
    && (key == [2] || (key == [1] && text != [] && text[0] == 1 && text[|text| - 1] != 1))
  }

  lemma CharOccurs(text: seq<Byte>, c: Byte, p: int)
    ensures OccursAt(text, [c], p) <==> 0 <= p < |text| && text[p] == c
  {
    if 0 <= p < |text| {
      assert text[p..p + 1] == [text[p]];
    }
  }

  lemma MarkInRun(text: seq<Byte>, key: seq<Byte>, tab: seq<int>, backwards: bool, prev: Option<int>)
    requires LeadsDown(tab, |key|) && key != [] && InRun(text, key, backwards, prev)
    ensures MeetsMark(text, key, tab, PosAfter(|text|, backwards, prev), backwards, prev == None) ==> FindsMark(text, key, backwards)
  {
    if |key| == 1 {
      assert key == [key[0]] && Reversed(key) == key;
      CharOccurs(Marked(Directed(text, backwards), backwards), key[0], 0);
      CharOccurs(text, key[0], 0);
      CharOccurs(text, key[0], |text| - 1);
    }
  }

  // In some search of a session a mark is met, if and only if the session finds marks.
  lemma WhenMarkIsMet(text: seq<Byte>, key: seq<Byte>, tab: seq<int>, backwards: bool)
    requires LeadsDown(tab, |key|) && key != []
    ensures FindsMark(text, key, backwards) <==>
              exists prev {:trigger InRun(text, key, backwards, prev)} ::
                InRun(text, key, backwards, prev) && MeetsMark(text, key, tab, PosAfter(|text|, backwards, prev), backwards, prev == None)
  {
    forall prev | InRun(text, key, backwards, prev)
      ensures MeetsMark(text, key, tab, PosAfter(|text|, backwards, prev), backwards, prev == None) ==> FindsMark(text, key, backwards)
    {
      MarkInRun(text, key, tab, backwards, prev);
    }
    if FindsMark(text, key, backwards) {
      CharOccurs(Marked(Directed(text, backwards), backwards), key[0], 0);
      CharOccurs(text, key[0], 0);
      CharOccurs(text, key[0], |text| - 1);
      assert key == [key[0]] && Reversed(key) == key;
      var prev := if key == [2] then None else Some(0);
      assert InRun(text, key, backwards, prev);
    }
  }

  ghost predicate FoundSoFar(found: seq<int>, text: seq<Byte>, key: seq<Byte>, backwards: bool) {
    found != [] ==> ListsUpToLast(found, text, key, backwards) && (EndsStuck(text, key, backwards) ==> found == [|text| - 1])
  }

  function LastOf(found: seq<int>): Option<int> {
    if found == [] then None else Some(found[|found| - 1])
  }

  // The list so far, and the answer of the search after it.
  ghost predicate SoFar(found: seq<int>, text: seq<Byte>, key: seq<Byte>, backwards: bool, answer: Answer) {
    match answer
    case Answer(result, highlighted) =>
      FoundSoFar(found, text, key, backwards) && IsAnswer(text, key, backwards, LastOf(found), result, highlighted)
  }

  lemma OneMoreFound(found: seq<int>, text: seq<Byte>, key: seq<Byte>, backwards: bool, highlighted: Option<int>)
    requires FoundSoFar(found, text, key, backwards) && IsAnswer(text, key, backwards, LastOf(found), SUCCESS, highlighted)
    ensures highlighted.Some? && FoundSoFar(found + [highlighted.value], text, key, backwards)
    ensures found != [] ==> Beyond(backwards, Some(found[|found| - 1]), highlighted.value)
  {
    ListNext(found, text, key, backwards, highlighted.value);
  }

  lemma AllFound(found: seq<int>, text: seq<Byte>, key: seq<Byte>, backwards: bool, last: Result, highlighted: Option<int>)
    requires FoundSoFar(found, text, key, backwards)
    requires last != SUCCESS && IsAnswer(text, key, backwards, LastOf(found), last, highlighted)
    ensures if EndsStuck(text, key, backwards) then found == [|text| - 1] else ListsAll(found, text, key, backwards)
    ensures last == if found == [] then NOT_FOUND else RESTART
    ensures highlighted == if found == [] then None else Some(found[0])
  {
    if IsStuck(text, key, backwards, LastOf(found)) {
      assert found[|found| - 1] in found;
    } else {
      SessionEnds(found, text, key, backwards, last, highlighted);
    }
  }

  method SearchFirst(state: FindtextState, ghost text: seq<Byte>, key: seq<Byte>, caseSens: bool, backwards: bool)
    returns (result: Result)
    requires state.Valid() && state.widget == Some(text) && key != [] && state.key == None
    requires !FindsMark(Folded(text, caseSens), Folded(key, caseSens), backwards)
    modifies state, state.iter, state.hlIterator
    ensures InSession(state, text, key, caseSens, backwards)
    ensures fresh(state.iter) && (state.hlIterator != null ==> fresh(state.hlIterator))
    ensures IsAnswer(Folded(text, caseSens), Folded(key, caseSens), backwards, None, result, state.Highlighted())
  {
    result := state.Search(key, caseSens, backwards);
    MarkInRun(state.T(), state.K(), state.nexttab, backwards, None);
  }

  method SearchAgain(state: FindtextState, ghost text: seq<Byte>, key: seq<Byte>, caseSens: bool, backwards: bool)
    returns (result: Result)
    requires InSession(state, text, key, caseSens, backwards) && state.hlIterator != null && key != []
    requires var t, k := Folded(text, caseSens), Folded(key, caseSens);
             !FindsMark(t, k, backwards) && InRun(t, k, backwards, Some(state.start))
    modifies state, state.iter, state.hlIterator
    ensures InSession(state, text, key, caseSens, backwards)
    ensures (state.iter == old(state.iter) || fresh(state.iter)) && (state.hlIterator != null ==> fresh(state.hlIterator))
    ensures IsAnswer(Folded(text, caseSens), Folded(key, caseSens), backwards, Some(old(state.start)), result, state.Highlighted())
  {
    state.SameDirectionSuits();
    MarkInRun(state.T(), state.K(), state.nexttab, backwards, Some(state.start));
    result := state.Search(key, caseSens, backwards);
  }

  // What has been found is added to the list, and the search goes on.
  method AddFound(found: seq<int>, state: FindtextState, ghost text: seq<Byte>, key: seq<Byte>, caseSens: bool, backwards: bool)
    returns (more: seq<int>, last: Result)
    requires InSession(state, text, key, caseSens, backwards) && key != []
    requires var t, k := Folded(text, caseSens), Folded(key, caseSens);
             !FindsMark(t, k, backwards) && SoFar(found, t, k, backwards, Answer(SUCCESS, state.Highlighted()))
    modifies state, state.iter, state.hlIterator
    ensures InSession(state, text, key, caseSens, backwards)
    ensures (state.iter == old(state.iter) || fresh(state.iter)) && (state.hlIterator != null ==> fresh(state.hlIterator))
    ensures SoFar(more, Folded(text, caseSens), Folded(key, caseSens), backwards, Answer(last, state.Highlighted()))
    ensures last == SUCCESS ==> Beyond(backwards, Some(old(state.iter.pos)), state.iter.pos)
  {
    ghost var t, k := Folded(text, caseSens), Folded(key, caseSens);
    OneMoreFound(found, t, k, backwards, state.Highlighted());
    more := found + [state.iter.pos - 1];
    last := SearchAgain(state, text, key, caseSens, backwards);
  }

  lemma AllPlaces(found: seq<int>, text: seq<Byte>, key: seq<Byte>, caseSens: bool, backwards: bool)
    ensures ListsAll(found, Folded(text, caseSens), Folded(key, caseSens), backwards) ==>
              && (forall p {:trigger IsPlace(text, key, caseSens, p)} :: p in found <==> IsPlace(text, key, caseSens, p))
              && forall i, j {:trigger found[i], found[j]} :: 0 <= i < j < |found| ==> if backwards then found[i] > found[j] else found[i] < found[j]
  {
    forall p {:trigger IsPlace(text, key, caseSens, p)}
      ensures IsPlace(text, key, caseSens, p) <==> OccursAt(Folded(text, caseSens), Folded(key, caseSens), p)
    {
      OccursIsPlace(text, key, caseSens, p);
    }
  }

  // A whole session with one key: every occurrence is highlighted once, in the order of
  // the search, before the search starts again with the first one; but backwards, a key of
  // one character is found again and again at the end of the text, if it is there.
  method FindAll(state: FindtextState, key: seq<Byte>, caseSens: bool, backwards: bool) returns (found: seq<int>, last: Result)
    requires state.Valid() && state.widget.Some? && key != [] && state.key == None
    requires !FindsMark(Folded(state.widget.value, caseSens), Folded(key, caseSens), backwards)
    modifies state, state.iter, state.hlIterator
    ensures var text, k := Folded(old(state.widget).value, caseSens), Folded(key, caseSens);
            if EndsStuck(text, k, backwards) then found == [|text| - 1] else ListsAll(found, text, k, backwards)
    ensures !EndsStuck(Folded(old(state.widget).value, caseSens), Folded(key, caseSens), backwards) ==>
              && (forall p {:trigger IsPlace(old(state.widget).value, key, caseSens, p)} :: p in found <==> IsPlace(old(state.widget).value, key, caseSens, p))
              && forall i, j {:trigger found[i], found[j]} :: 0 <= i < j < |found| ==> if backwards then found[i] > found[j] else found[i] < found[j]
    ensures last == if found == [] then NOT_FOUND else RESTART
    ensures state.Highlighted() == if found == [] then None else Some(found[0])
  {
    ghost var widget := state.widget.value;
    ghost var text, k := Folded(widget, caseSens), Folded(key, caseSens);
    found := [];
    last := SearchFirst(state, widget, key, caseSens, backwards);
    while last == SUCCESS
      invariant InSession(state, widget, key, caseSens, backwards)
      invariant fresh(state.iter) && (state.hlIterator != null ==> fresh(state.hlIterator))
      invariant SoFar(found, text, k, backwards, Answer(last, state.Highlighted()))
      decreases last == SUCCESS, if backwards then state.iter.pos else |text| - state.iter.pos
    {
      found, last := AddFound(found, state, widget, key, caseSens, backwards);
    }
    AllFound(found, text, k, backwards, last, state.Highlighted());
    AllPlaces(found, widget, key, caseSens, backwards);
  }

  // ----- START and END are found ------------------------------------------------------------

  // Backwards, the character 2 is found behind every text.
  method MarkExample(text: seq<Byte>, caseSens: bool) returns (result: Result, state: FindtextState)
    ensures result == SUCCESS && state.Highlighted() == Some(|text|)
  {
    state := new FindtextState();
    state.SetWidget(text);
    result := state.Search([2], caseSens, true);
    ghost var t, k: seq<Byte> := state.T(), [2];
    assert state.K() == k && Reversed(k) == k;
    CharOccurs(Marked(Reversed(t), true), 2, 0);
    state.SameDirectionSuits();
    ScanFromIsRight(Reversed(t), k, state.nexttab, true, -1);
  }

  // Backwards, the character 1 at the beginning of a text, but not at its end, is found again
  // and again.
  method FoundAgain(state: FindtextState, ghost text: seq<Byte>, caseSens: bool) returns (result: Result)
    requires InSession(state, text, [1], caseSens, true) && state.Highlighted() == Some(0) && |text| > 1
    modifies state, state.iter, state.hlIterator
    ensures InSession(state, text, [1], caseSens, true) && (state.iter == old(state.iter) || fresh(state.iter)) && fresh(state.hlIterator)
    ensures result == SUCCESS && state.Highlighted() == Some(0)
  {
    ghost var t, k: seq<Byte> := state.T(), [1];
    assert state.K() == k && Reversed(k) == k;
    assert ScanFrom(Reversed(t), k, state.nexttab, true, |t|) == Some(|t|);
    result := state.Search([1], caseSens, true);
  }

  method EndlessExample(n: nat) returns (results: seq<Result>, state: FindtextState)
    ensures |results| == n + 1 && forall r :: r in results ==> r == SUCCESS
    ensures state.Highlighted() == Some(0)
  {
    var text: seq<Byte> := [1, 97];
    state := new FindtextState();
    state.SetWidget(text);
    var result := state.Search([1], true, true);
    assert state.T() == text && state.K() == [1] && Reversed(state.K()) == [1];
    CharOccurs(Marked(Reversed(text), true), 1, 0);
    CharOccurs(text, 1, 0);
    CharOccurs(text, 1, 1);
    results := [result];
    for i := 0 to n
      invariant InSession(state, text, [1], true, true) && state.Highlighted() == Some(0)
      invariant fresh(state.iter) && fresh(state.hlIterator)
      invariant |results| == i + 1 && forall r :: r in results ==> r == SUCCESS
    {
      result := FoundAgain(state, text, true);
      results := results + [result];
    }
  }

  // ----- a change of the direction -----------------------------------------------------------

  lemma TableOfBaa(nexttab: seq<int>)
    requires |nexttab| == 4 && IsTable([98, 97, 97], nexttab, 3)
    ensures nexttab[..3] == [-1, 0, 0]
  {
    var k: seq<Byte> := [98, 97, 97];
    assert IsLongestBorder(k, 0, nexttab[0]) && IsLongestBorder(k, 1, nexttab[1]) && IsLongestBorder(k, 2, nexttab[2]);
    assert k[..1] == [98] && k[1..2] == [97];
  }

  lemma TableOfAabcd(nexttab: seq<int>)
    requires |nexttab| == 6 && IsTable([97, 97, 98, 99, 100], nexttab, 5)
    ensures nexttab[..5] == [-1, 0, 1, 0, 0]
  {
    var l: seq<Byte> := [97, 97, 98, 99, 100];
    assert IsLongestBorder(l, 0, nexttab[0]) && IsLongestBorder(l, 1, nexttab[1]) && IsLongestBorder(l, 2, nexttab[2]);
    assert l[..1] == l[1..2] && IsBorder(l, 2, 1);
    assert IsLongestBorder(l, 3, nexttab[3]) && IsLongestBorder(l, 4, nexttab[4]);
    assert l[..1][0] != l[2..3][0] && l[..2][1] != l[1..3][1];
    assert l[..1][0] != l[3..4][0] && l[..2][1] != l[2..4][1] && l[..3][2] != l[1..4][2];
  }

  lemma MissingRun(m: seq<Byte>, k: seq<Byte>, nexttab: seq<int>)
    requires m == [1, 97, 97, 97, 98] && k == [97, 97, 98]
    requires |nexttab| == 4 && LeadsDown(nexttab, 3) && nexttab[..3] == [-1, 0, 0]
    ensures ScanRun(m, k, nexttab, 1, 0) == None && ScanRun(m, k, nexttab, 3, 0) == None
  {
    assert nexttab[0] == nexttab[..3][0] && nexttab[1] == nexttab[..3][1] && nexttab[2] == nexttab[..3][2];
    assert ScanRun(m, k, nexttab, 5, 0) == None;
    assert ScanRun(m, k, nexttab, 4, -1) == None;
    assert ScanRun(m, k, nexttab, 4, 1) == ScanRun(m, k, nexttab, 4, 0) == None;
    assert ScanRun(m, k, nexttab, 3, 2) == ScanRun(m, k, nexttab, 3, 0) == None;
    assert ScanRun(m, k, nexttab, 2, 1) == None;
  }

  lemma FalseRun(m: seq<Byte>, k: seq<Byte>, nexttab: seq<int>)
    requires m == [1, 100, 99, 99, 98, 97, 97] && k == [100, 99, 98, 97, 97]
    requires |nexttab| == 6 && LeadsDown(nexttab, 5) && nexttab[..5] == [-1, 0, 1, 0, 0]
    ensures ScanRun(m, k, nexttab, 0, 0) == Some(7)
  {
    assert nexttab[0] == nexttab[..5][0] && nexttab[2] == nexttab[..5][2];
    assert ScanRun(m, k, nexttab, 5, 3) == ScanRun(m, k, nexttab, 6, 4) == Some(7);
    assert ScanRun(m, k, nexttab, 3, 1) == ScanRun(m, k, nexttab, 4, 2) == Some(7);
    assert ScanRun(m, k, nexttab, 3, 2) == ScanRun(m, k, nexttab, 3, 1);
    assert ScanRun(m, k, nexttab, 1, 0) == ScanRun(m, k, nexttab, 2, 1) == ScanRun(m, k, nexttab, 3, 2);
    assert ScanRun(m, k, nexttab, 0, -1) == ScanRun(m, k, nexttab, 1, 0);
  }

  lemma OnlyPlace(text: seq<Byte>, key: seq<Byte>)
    requires text == [97, 97, 97, 98] && key == [97, 97, 98]
    ensures OccursAt(text, key, 1) && forall p {:trigger OccursAt(text, key, p)} :: OccursAt(text, key, p) ==> p == 1
  {
    forall p {:trigger OccursAt(text, key, p)} | OccursAt(text, key, p) ensures p == 1 {
      OccurrenceChar(text, key, p, 2);
    }
  }

  lemma NoPlace(text: seq<Byte>, key: seq<Byte>)
    requires text == [100, 99, 99, 98, 97, 97] && key == [100, 99, 98, 97, 97]
    ensures forall p {:trigger OccursAt(text, key, p)} :: !OccursAt(text, key, p)
  {
    forall p {:trigger OccursAt(text, key, p)} ensures !OccursAt(text, key, p) {
      if OccursAt(text, key, p) {
        OccurrenceChar(text, key, p, 0);
        OccurrenceChar(text, key, p, 2);
      }
    }
  }

  // A first search.
  method SearchOnce(text: seq<Byte>, key: seq<Byte>, backwards: bool) returns (result: Result, state: FindtextState)
    requires key != [] && !FindsMark(text, key, backwards)
    ensures fresh(state) && fresh(state.iter) && (state.hlIterator != null ==> fresh(state.hlIterator))
    ensures InSession(state, text, key, true, backwards) && state.T() == text && state.K() == key
    ensures IsAnswer(text, key, backwards, None, result, state.Highlighted())
    ensures result == NOT_FOUND ==> state.iter.pos == if backwards then -1 else |text|
  {
    state := new FindtextState();
    state.SetWidget(text);
    assert Folded(text, true) == text && Folded(key, true) == key;
    result := state.Search(key, true, backwards);
    MarkInRun(text, key, state.nexttab, backwards, None);
  }

  // The key aab is in the text aaab.  It is found backwards, but when the user then searches
  // forwards with the same key, the assertion of the source fails.
  method TurnExample() returns (first: Result, second: Result)
    ensures first == SUCCESS && second == FAILED
  {
    var text: seq<Byte>, key: seq<Byte> := [97, 97, 97, 98], [97, 97, 98];
    var state;
    first, state := SearchOnce(text, key, true);
    OnlyPlace(text, key);
    assert Reversed(key) == [98, 97, 97];
    TableOfBaa(state.nexttab);
    MissingRun(Marked(text, false), key, state.nexttab);
    second := state.Search(key, true, false);
  }

  // The key dcbaa is not in the text dccbaa.  It is not found backwards, but when the user then
  // searches forwards with the same key, a place is reported and highlighted.
  method FalseHitExample() returns (first: Result, second: Result, state: FindtextState)
    ensures first == NOT_FOUND && second == SUCCESS && state.Highlighted() == Some(1)
    ensures state.widget.Some? && state.key.Some? && !OccursAt(state.widget.value, state.key.value, 1)
  {
    var text: seq<Byte>, key: seq<Byte> := [100, 99, 99, 98, 97, 97], [100, 99, 98, 97, 97];
    first, state := SearchOnce(text, key, true);
    NoPlace(text, key);
    assert Reversed(key) == [97, 97, 98, 99, 100];
    TableOfAabcd(state.nexttab);
    FalseRun(Marked(text, false), key, state.nexttab);
    second := state.Search(key, true, false);
  }
}
