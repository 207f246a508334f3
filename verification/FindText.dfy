// The find-text session: dw/findtext.cc and dw/findtext.hh.
//
// The text of the widget tree is what a CharIterator runs through; CharIterators shows that
// such an iterator steps like a TextCursor.
module FindText {
  import opened Common
  import opened Kmp
  import opened KmpTables
  import opened FindTrials
  import opened TextCursors

  // ----- the failure table -----------------------------------------------------------

  method CreateNexttab(needle: seq<Byte>, caseSens: bool, backwards: bool) returns (nexttab: seq<int>)
    requires needle != []
    ensures |nexttab| == |needle| + 1
    ensures IsTable(Folded(Directed(needle, backwards), caseSens), nexttab, |needle|)
  {
    var key := Directed(needle, backwards);
    ghost var k := Folded(key, caseSens);
    var i, j, l := 0, -1, |key|;
    nexttab := seq(l + 1, _ => -1);
    while true
      invariant 0 <= i < l == |k| && |nexttab| == l + 1
      invariant IsTable(k, nexttab, i + 1) && IsCandidate(k, i, j)
      decreases l - i, j
    {
      if j != -1 {
        EqualIsSameCanonical(key[i], key[j], caseSens);
      }
      if j == -1 || CharsEqual(key[i], key[j], caseSens) {
        CandidateExtends(k, i, j);
        TableExtends(k, nexttab, i + 1, j + 1);
        i, j := i + 1, j + 1;
        nexttab := nexttab[i := j];
      } else {
        CandidateFails(k, i, j, nexttab[j]);
        j := nexttab[j];
      }
      if !(i < l - 1) {
        break;
      }
    }
  }

  // After a change of the direction the table is that of the other one.  Searches with it find
  // the first occurrence in every text and from every start, if and only if it suits the key.
  lemma WhenTurnIsSafe(key: seq<Byte>, backwards: bool, nexttab: seq<int>)
    requires key != [] && |key| <= |nexttab| && IsTable(Directed(key, !backwards), nexttab, |key|)
    ensures LeadsDown(nexttab, |key|)
    ensures Suits(Directed(key, backwards), nexttab) <==>
              forall t, start: nat {:trigger ScanRun(t, Directed(key, backwards), nexttab, start, 0)} :: start <= |t| ==>
                IsFirstEnd(t, Directed(key, backwards), start, ScanRun(t, Directed(key, backwards), nexttab, start, 0))
  {
    TableLeadsDown(Directed(key, !backwards), nexttab);
    WhenSearchIsRight(Directed(key, backwards), nexttab);
  }

  // ----- the loop of search0 ------------------------------------------------------------

  // The characters at all places of the iterator, the two marks included.
  function PlaceChar(t: seq<Byte>, backwards: bool, a: int): Byte
    requires -1 <= a <= |t|
  {
    if a == |t| then MarkBehind(backwards) else Marked(t, backwards)[a + 1]
  }

  // Whether the current character goes on with the key.
  method Matches(it: TextCursor, searchKey: seq<Byte>, j: int, caseSens: bool, ghost backwards: bool) returns (matches: bool)
    requires it.Valid() && -1 <= j < |searchKey|
    ensures matches <==> j == -1 || PlaceChar(Folded(Directed(it.text, backwards), caseSens), backwards, it.Ahead(backwards)) == Folded(searchKey, caseSens)[j]
  {
    matches := j == -1;
    if j != -1 {
      EqualIsSameCanonical(it.GetChar(), searchKey[j], caseSens);
      matches := CharsEqual(it.GetChar(), searchKey[j], caseSens);
    }
  }

  // The loop, in the course of finding what ScanFrom says.
  ghost predicate Running(t: seq<Byte>, k: seq<Byte>, tab: seq<int>, backwards: bool, start: int, a: int, j: int, nextit: bool)
    requires LeadsDown(tab, |k|) && k != []
  {
    && -1 <= start <= a <= |t| && -1 <= j <= |k|
    && if start == |t| then
         if nextit then j == 0 || (j == -1 && k[0] != MarkBehind(backwards)) else j == |k| <==> k == [MarkBehind(backwards)]
       else
         && (nextit <==> a < |t|)
         && ScanRun(Marked(t, backwards), k, tab, start + 1, 0) == if j == |k| then Some(a + 1) else ScanRun(Marked(t, backwards), k, tab, a + 1, j)
  }

  lemma RunningStep(t: seq<Byte>, k: seq<Byte>, tab: seq<int>, backwards: bool, start: int, a: int, j: int)
    requires LeadsDown(tab, |k|) && k != [] && Running(t, k, tab, backwards, start, a, j, true) && j < |k|
    ensures if j == -1 || PlaceChar(t, backwards, a) == k[j] then Running(t, k, tab, backwards, start, Min(a + 1, |t|), j + 1, Min(a + 1, |t|) < |t|)
            else Running(t, k, tab, backwards, start, a, tab[j], true)
  {
  }

  method ScanStep(it: TextCursor, searchKey: seq<Byte>, nexttab: seq<int>, caseSens: bool, backwards: bool, j: int, ghost start: int)
    returns (next: int, nextit: bool)
    requires it.Valid() && searchKey != [] && LeadsDown(nexttab, |searchKey|) && j < |searchKey|
    requires Running(Folded(Directed(it.text, backwards), caseSens), Folded(searchKey, caseSens), nexttab, backwards, start, it.Ahead(backwards), j, true)
    modifies it`pos
    ensures it.Valid()
    ensures Running(Folded(Directed(it.text, backwards), caseSens), Folded(searchKey, caseSens), nexttab, backwards, start, it.Ahead(backwards), next, nextit)
    ensures it.Ahead(backwards) > old(it.Ahead(backwards)) || (it.Ahead(backwards) == old(it.Ahead(backwards)) && (!nextit || next < j))
    ensures !nextit ==> it.Ahead(backwards) == |it.text|
  {
    ghost var t, k := Folded(Directed(it.text, backwards), caseSens), Folded(searchKey, caseSens);
    RunningStep(t, k, nexttab, backwards, start, it.Ahead(backwards), j);
    var matches := Matches(it, searchKey, j, caseSens, backwards);
    nextit := true;
    if matches {
      next := j + 1;
      nextit := it.Step(backwards);
    } else {
      next := nexttab[j];
    }
  }

  // From the current position on, up to the end of what is found, or of the text.
  method Scan(it: TextCursor, searchKey: seq<Byte>, nexttab: seq<int>, caseSens: bool, backwards: bool) returns (found: bool)
    requires it.Valid() && searchKey != [] && LeadsDown(nexttab, |searchKey|)
    modifies it`pos
    ensures it.Valid()
    ensures var t, k := Folded(Directed(it.text, backwards), caseSens), Folded(searchKey, caseSens);
            ScanFrom(t, k, nexttab, backwards, old(it.Ahead(backwards))) == if found then Some(it.Ahead(backwards)) else None
    ensures !found ==> it.Ahead(backwards) == |it.text|
  {
    ghost var t, k := Folded(Directed(it.text, backwards), caseSens), Folded(searchKey, caseSens);
    ghost var start := it.Ahead(backwards);
    var j, l := 0, |searchKey|;
    var nextit := true;
    while nextit && j < l
      invariant it.Valid() && Running(t, k, nexttab, backwards, start, it.Ahead(backwards), j, nextit)
      invariant !nextit ==> it.Ahead(backwards) == |t|
      decreases |t| - it.Ahead(backwards), nextit, j
    {
      j, nextit := ScanStep(it, searchKey, nexttab, caseSens, backwards, j, start);
    }
    found := j >= l;
  }

  ghost predicate IsMadeFor(nexttab: seq<int>, key: seq<Byte>, backwards: bool) {
    match backwards
    case true => |nexttab| == |key| + 1 && IsTable(Reversed(key), nexttab, |key|)
    case false => |nexttab| == |key| + 1 && IsTable(key, nexttab, |key|)
  }

  // ----- the session ---------------------------------------------------------------------

  class FindtextState {
    var key: Option<seq<Byte>>
    var caseSens: bool
    var nexttab: seq<int>
    var widget: Option<seq<Byte>>       // its text
    var iter: TextCursor?
    var hlIterator: TextCursor?       // end of the highlighted region, if any
    ghost var start: int                // start of this region
    ghost var direction: bool           // in which nexttab has been built

    ghost function T(): seq<Byte>
      reads this
      requires widget.Some?
    {
      Folded(widget.value, caseSens)
    }

    ghost function K(): seq<Byte>
      reads this
      requires key.Some?
    {
      Folded(key.value, caseSens)
    }

    ghost predicate Valid()
      reads this, iter, hlIterator
    {
      && (key.Some? ==>
            && widget.Some? && key.value != [] && iter != null && iter.Valid() && iter.text == widget.value
            && LeadsDown(nexttab, |key.value|) && IsMadeFor(nexttab, K(), direction))
      && (hlIterator != null ==> key.Some? && hlIterator != iter)
    }

    // After a search: an occurrence is highlighted, or there is nothing to be found.
    ghost predicate Settled()
      reads this, iter, hlIterator
    {
      key.Some? && widget.Some? && iter != null ==>
        if hlIterator == null then NoneBeyond(T(), K(), false, None) else iter.pos == start + 1 && OccursAt(T(), K(), start)
    }

    // The highlighted place, if any.
    ghost function Highlighted(): Option<int>
      reads this
    {
      if hlIterator != null then Some(start) else None
    }

    constructor ()
      ensures Valid() && Settled() && key == None && widget == None && hlIterator == null
    {
      key, widget, nexttab, iter, hlIterator := None, None, [], null, null;
    }

    method SetWidget(widget: seq<Byte>)
      requires Valid()
      modifies this
      ensures Valid() && Settled() && this.widget == Some(widget) && key == None && iter == null && hlIterator == null
    {
      this.widget, key, nexttab, iter, hlIterator := Some(widget), None, [], null, null;
    }

    method Unhighlight() returns (was: bool)
      requires Valid()
      modifies this`hlIterator
      ensures Valid() && hlIterator == null && was == (old(hlIterator) != null)
    {
      was := hlIterator != null;
      hlIterator := null;
    }

    method ResetSearch()
      requires Valid()
      modifies this
      ensures Valid() && Settled() && key == None && Highlighted() == None && widget == old(widget)
    {
      var _ := Unhighlight();
      key := None;
    }

    // A new iterator at the first position in the direction of the search.
    method NewIterator(backwards: bool)
      requires widget.Some?
      modifies this`iter
      ensures iter != null && fresh(iter) && iter.Valid() && iter.text == widget.value
      ensures iter.Ahead(backwards) == 0
    {
      var it := new TextCursor(widget.value);
      if backwards {
        var more := it.Next();
        while more
          invariant it.Valid() && more == (it.pos < |it.text|) && it.pos >= 0
          decreases |it.text| - it.pos
        {
          more := it.Next();
        }
        var _ := it.Prev();
      } else {
        var _ := it.Next();
      }
      iter := it;
    }

    // Backwards, after a success: start at the last character but one of the occurrence.
    method PositionBackwards(l: nat)
      requires iter != null && iter.Valid() && l >= 1
      modifies iter
      ensures iter.Valid() && iter.pos == StartPos(|iter.text|, l, old(iter.pos), true, false)
    {
      if l == 1 {
        var _ := iter.Prev();
        var _ := iter.Prev();
      } else if l == 2 {
        var _ := iter.Prev();
      } else if l >= 4 {
        for i := 0 to l - 3
          invariant iter.Valid() && iter.pos == Min(old(iter.pos) + i, |iter.text|)
        {
          var _ := iter.Next();
        }
      }
    }

    // From the end of what has been found, in search direction, to its first character.
    method GoToFound(l: nat, backwards: bool)
      requires iter != null && iter.Valid()
      modifies iter
      ensures iter.Valid() && iter.pos == FoundPos(|iter.text|, l, old(iter.Ahead(backwards)), backwards)
    {
      if backwards {
        var _ := iter.Next();
      } else {
        for i := 0 to l
          invariant iter.Valid() && iter.pos == Max(old(iter.pos) - i, -1)
        {
          var _ := iter.Prev();
        }
      }
    }

    // Where the loop of search0 starts.
    method Position(backwards: bool, firstTrial: bool)
      requires key.Some? && key.value != [] && iter != null && iter.Valid()
      modifies iter
      ensures iter.Valid() && iter.pos == StartPos(|iter.text|, |key.value|, old(iter.pos), backwards, firstTrial)
    {
      if backwards && !firstTrial {
        PositionBackwards(|key.value|);
      } else if backwards && |key.value| == 1 {
        var _ := iter.Next();
      }
    }

    // The loop of search0, started a characters ahead.
    method ScanText(backwards: bool, ghost a: int) returns (found: bool, ghost e: int)
      requires Valid() && key.Some? && a == iter.Ahead(backwards)
      modifies iter
      ensures iter.Valid() && e == iter.Ahead(backwards)
      ensures ScanFrom(Directed(T(), backwards), Directed(K(), backwards), nexttab, backwards, a) == if found then Some(e) else None
      ensures !found ==> e == |iter.text|
    {
      FoldedDirected(iter.text, caseSens, backwards);
      FoldedDirected(key.value, caseSens, backwards);
      found := Scan(iter, Directed(key.value, backwards), nexttab, caseSens, backwards);
      e := iter.Ahead(backwards);
    }

    // The part of search0 after its check for the end of the text.
    method SearchFrom(backwards: bool, firstTrial: bool) returns (ret: bool)
      requires Valid() && key.Some? && iter.pos != |iter.text|
      modifies iter
      ensures iter.Valid()
      ensures Trial(T(), K(), nexttab, old(iter.pos), backwards, firstTrial) == if ret then Some(iter.pos) else None
      ensures !ret ==> iter.pos == if backwards then -1 else |iter.text|
    {
      ghost var t, k, tab, pos, e := T(), K(), nexttab, iter.pos, 0;
      Position(backwards, firstTrial);
      ret, e := ScanText(backwards, StartAhead(|t|, |k|, pos, backwards, firstTrial));
      if ret {
        GoToFound(|key.value|, backwards);
      }
      TrialEnds(t, k, tab, pos, backwards, firstTrial, ret, e);
    }

    method Search0(backwards: bool, firstTrial: bool) returns (ret: bool)
      requires Valid() && key.Some?
      modifies iter
      ensures Valid()
      ensures Trial(T(), K(), nexttab, old(iter.pos), backwards, firstTrial) == if ret then Some(iter.pos) else None
      ensures !ret ==> iter.pos == if old(iter.pos) == |T()| || !backwards then |T()| else -1
    {
      if iter.pos == |iter.text| {
        return false;
      }
      ret := SearchFrom(backwards, firstTrial);
    }

    // The end of the highlighted region; if it is behind the text, the last character.
    method EndOfFound(l: nat) returns (hl: TextCursor)
      requires iter != null && iter.Valid()
      ensures fresh(hl) && hl.Valid() && hl.text == iter.text && hl.pos == Min(iter.pos + l, |iter.text| - 1)
    {
      hl := new TextCursor.Clone(iter);
      for i := 0 to l
        invariant fresh(hl) && hl.Valid() && hl.text == iter.text && hl.pos == Min(iter.pos + i, |iter.text|)
      {
        var _ := hl.Next();
      }
      if hl.pos == |hl.text| {
        var _ := hl.Prev();
      }
    }

    // What has been found is highlighted, and the iterator goes on by one character.
    method HighlightFound()
      requires Valid() && key.Some?
      modifies this`hlIterator, this`start, iter
      ensures Valid() && hlIterator != null && fresh(hlIterator) && start == old(iter.pos) && iter.pos == Min(start + 1, |iter.text|)
      ensures hlIterator.pos == Min(start + |key.value|, |T()| - 1)
    {
      start := iter.pos;
      hlIterator := EndOfFound(|key.value|);
      var _ := iter.Next();
    }

    // The key is new: the search starts from the beginning.
    method SetKey(newKey: seq<Byte>, newCaseSens: bool, backwards: bool)
      requires Valid() && widget.Some? && newKey != [] && hlIterator == null
      modifies this
      ensures Valid() && widget == old(widget) && hlIterator == null
      ensures key == Some(newKey) && caseSens == newCaseSens && direction == backwards
      ensures iter.pos == FirstPos(|T()|, backwards) && fresh(iter)
    {
      key, caseSens, direction := Some(newKey), newCaseSens, backwards;
      nexttab := CreateNexttab(newKey, newCaseSens, backwards);
      FoldedDirected(newKey, newCaseSens, backwards);
      TableLeadsDown(Directed(K(), backwards), nexttab);
      NewIterator(backwards);
    }

    predicate IsNewKey(newKey: seq<Byte>, newCaseSens: bool)
      reads this
    {
      key == None || caseSens != newCaseSens || key.value != newKey
    }

    // What a search from pos answers with the current key and table.
    ghost function Outcome(pos: int, backwards: bool, first: bool): Answer
      reads this, iter, hlIterator
      requires Valid() && key.Some? && -1 <= pos <= |T()|
    {
      FindTrials.Outcome(T(), K(), nexttab, pos, backwards, first)
    }

    // The part of search after the key has been set.
    method SearchKey(backwards: bool, firstTrial: bool) returns (result: Result)
      requires Valid() && key.Some? && hlIterator == null
      modifies this`iter, this`hlIterator, this`start, iter
      ensures Valid() && (iter == old(iter) || fresh(iter)) && (hlIterator != null ==> fresh(hlIterator))
      ensures Answer(result, Highlighted()) == old(Outcome(iter.pos, backwards, firstTrial))
      ensures hlIterator != null ==> iter.pos == Min(start + 1, |T()|) && hlIterator.pos == Min(start + |key.value|, |T()| - 1)
      ensures result == NOT_FOUND ==> iter.pos == if old(iter.pos) == |T()| || !backwards then |T()| else -1
    {
      var found := Search0(backwards, firstTrial);
      if found {
        HighlightFound();
        result := SUCCESS;
      } else if firstTrial {
        result := NOT_FOUND;
      } else {
        // The recursive call of the source: now nothing is highlighted, the key is not new.
        NewIterator(backwards);
        found := Search0(backwards, true);
        if found {
          HighlightFound();
          result := RESTART;
        } else {
          result := FAILED;
        }
      }
    }

    // Where a search starts, and whether its trial is the first one.
    ghost function Before(newKey: seq<Byte>, newCaseSens: bool, backwards: bool): (r: (int, bool))
      requires Valid() && widget.Some?
      reads this, iter, hlIterator
      ensures -1 <= r.0 <= |widget.value|
    {
      if IsNewKey(newKey, newCaseSens) then (FirstPos(|widget.value|, backwards), true) else (iter.pos, hlIterator == null)
    }

    // The occurrence after which the search goes on, if it does.
    ghost function Previous(newKey: seq<Byte>, newCaseSens: bool): Option<int>
      reads this
    {
      if IsNewKey(newKey, newCaseSens) then None else Highlighted()
    }

    // When a search can be relied on: its table suits the key, and the iterator stands behind
    // an occurrence.
    ghost predicate IsReliable(newKey: seq<Byte>, newCaseSens: bool, backwards: bool)
      requires Valid()
      reads this, iter, hlIterator
    {
      IsNewKey(newKey, newCaseSens) || (Settled() && Suits(Directed(K(), backwards), nexttab))
    }

    lemma SameDirectionSuits()
      requires Valid() && key.Some?
      ensures Suits(Directed(K(), direction), nexttab)
    {
      OwnTableSuits(Directed(K(), direction), nexttab);
    }

    // What a search answers, in terms of the occurrences in the text.
    ghost predicate Answers(backwards: bool, prev: Option<int>, result: Result)
      reads this, iter, hlIterator
      requires key.Some? && widget.Some?
    {
      IsAnswer(T(), K(), backwards, prev, result, Highlighted())
    }

    // This is about the places in the text of the widget at which the key is.
    lemma AnswersInText(backwards: bool, prev: Option<int>, result: Result)
      requires key.Some? && widget.Some? && Answers(backwards, prev, result)
      ensures result == NOT_FOUND ==> forall p {:trigger IsPlace(widget.value, key.value, caseSens, p)} :: !IsPlace(widget.value, key.value, caseSens, p)
      ensures result == SUCCESS ==>
                && Highlighted().Some? && IsPlace(widget.value, key.value, caseSens, Highlighted().value)
                && forall p {:trigger IsPlace(widget.value, key.value, caseSens, p)} :: IsPlace(widget.value, key.value, caseSens, p) ==>
                     if backwards then p <= Highlighted().value || (prev.Some? && p >= prev.value)
                     else p >= Highlighted().value || (prev.Some? && p <= prev.value)
      ensures result == SUCCESS && prev.Some? ==> if backwards then Highlighted().value < prev.value else Highlighted().value > prev.value
      ensures result == RESTART && !IsStuck(T(), K(), backwards, prev) ==>
                && Highlighted().Some? && IsPlace(widget.value, key.value, caseSens, Highlighted().value)
                && forall p {:trigger IsPlace(widget.value, key.value, caseSens, p)} :: IsPlace(widget.value, key.value, caseSens, p) ==>
                     && (if backwards then p <= Highlighted().value else p >= Highlighted().value)
                     && prev.Some? && (if backwards then p >= prev.value else p <= prev.value)
    {
      forall p {:trigger IsPlace(widget.value, key.value, caseSens, p)}
        ensures IsPlace(widget.value, key.value, caseSens, p) <==> OccursAt(T(), K(), p)
      {
        OccursIsPlace(widget.value, key.value, caseSens, p);
      }
      if Highlighted().Some? {
        OccursIsPlace(widget.value, key.value, caseSens, Highlighted().value);
      }
    }

    // One of the trials of a search from pos begins at START or END, and the key matches this.
    ghost predicate AtMark(pos: int, backwards: bool, first: bool)
      reads this, iter, hlIterator
      requires Valid() && key.Some? && -1 <= pos <= |T()|
    {
      MeetsMark(T(), K(), nexttab, pos, backwards, first)
    }

    lemma WhenAnswerIsRight(pos: int, backwards: bool, prev: Option<int>, result: Result)
      requires Valid() && key.Some? && Suits(Directed(K(), backwards), nexttab) && StandsAfter(T(), K(), pos, backwards, prev)
      requires Answer(result, Highlighted()) == Outcome(pos, backwards, prev == None)
      requires hlIterator != null ==> iter.pos == Min(start + 1, |T()|)
      ensures Answers(backwards, prev, result) <==> !AtMark(pos, backwards, prev == None)
      ensures Answers(backwards, prev, result) ==> Settled()
    {
      SearchIsRight(T(), K(), nexttab, pos, backwards, prev);
    }

    // The part of search before its trials.
    method PrepareSearch(newKey: seq<Byte>, newCaseSens: bool, backwards: bool) returns (firstTrial: bool)
      requires Valid() && widget.Some? && newKey != []
      modifies this
      ensures Valid() && widget == old(widget) && hlIterator == null && key == Some(newKey) && caseSens == newCaseSens
      ensures direction == if old(IsNewKey(newKey, newCaseSens)) then backwards else old(direction)
      ensures fresh(iter) || (iter == old(iter) && !old(IsNewKey(newKey, newCaseSens)))
      ensures !old(IsNewKey(newKey, newCaseSens)) ==> nexttab == old(nexttab)
      ensures (iter.pos, firstTrial) == old(Before(newKey, newCaseSens, backwards))
      ensures old(IsReliable(newKey, newCaseSens, backwards)) ==>
                var prev := old(Previous(newKey, newCaseSens));
                && StandsAfter(T(), K(), iter.pos, backwards, prev) && firstTrial == (prev == None)
                && Suits(Directed(K(), backwards), nexttab)
    {
      var wasHighlighted := Unhighlight();
      var isNew := IsNewKey(newKey, newCaseSens);
      if isNew {
        SetKey(newKey, newCaseSens, backwards);
        SameDirectionSuits();
      }
      firstTrial := !wasHighlighted || isNew;
    }

    // For every key and every table: the result and what is highlighted are those of the trials.
    // If the search can be relied on, it is right exactly if it does not begin at a mark.
    method Search(newKey: seq<Byte>, newCaseSens: bool, backwards: bool) returns (result: Result)
      requires Valid()
      modifies this, iter, hlIterator
      ensures Valid() && widget == old(widget)
      ensures widget == None || newKey == [] ==> result == NOT_FOUND && unchanged(this)
      ensures widget.Some? && newKey != [] ==> key == Some(newKey) && caseSens == newCaseSens && (hlIterator != null ==> fresh(hlIterator))
      ensures widget.Some? && newKey != [] ==>
                direction == if old(IsNewKey(newKey, newCaseSens)) then backwards else old(direction)
      ensures widget.Some? && newKey != [] ==> fresh(iter) || (iter == old(iter) && !old(IsNewKey(newKey, newCaseSens)))
      ensures widget.Some? && newKey != [] && !old(IsNewKey(newKey, newCaseSens)) ==> nexttab == old(nexttab)
      ensures widget.Some? && newKey != [] ==>
                var (pos, first) := old(Before(newKey, newCaseSens, backwards));
                && Answer(result, Highlighted()) == Outcome(pos, backwards, first)
                && (hlIterator != null ==> iter.pos == Min(start + 1, |T()|) && hlIterator.pos == Min(start + |newKey|, |T()| - 1))
                && (result == NOT_FOUND ==> iter.pos == if pos == |T()| || !backwards then |T()| else -1)
      ensures widget.Some? && newKey != [] && old(IsReliable(newKey, newCaseSens, backwards)) ==>
                var (pos, first) := old(Before(newKey, newCaseSens, backwards));
                var prev := old(Previous(newKey, newCaseSens));
                && (Answers(backwards, prev, result) <==> !AtMark(pos, backwards, first))
                && (Answers(backwards, prev, result) ==> Settled())
    {
      if widget == None || newKey == [] {
        return NOT_FOUND;
      }
      ghost var reliable := IsReliable(newKey, newCaseSens, backwards);
      ghost var prev := Previous(newKey, newCaseSens);
      var firstTrial := PrepareSearch(newKey, newCaseSens, backwards);
      ghost var pos := iter.pos;
      result := SearchKey(backwards, firstTrial);
      if reliable {
        WhenAnswerIsRight(pos, backwards, prev, result);
      }
    }
  }
}
