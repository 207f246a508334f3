// Iterators over the characters of a widget tree: dw/iterator.cc:734-857.
//
// They step like the cursors over a text on which the search in FindText relies.
module CharIterators {
  import opened Common
  import opened OofIterators
  import opened DeepIterators
  import opened TextCursors

  const START := 257
  const END := 258

  // The characters of a content; a space may follow a word, and a break is a newline.  An
  // empty word is skipped together with its space.
  function Chars(c: Content): seq<Byte> {
    match c
    case Text(text, space) => if text == [] then [] else text + if space then [32] else []
    case Break => [10]
    case _ => []
  }

  function CharsTo(cs: seq<Content>, k: nat): seq<Byte>
    requires k <= |cs|
  {
    if k == 0 then [] else CharsTo(cs, k - 1) + Chars(cs[k - 1])
  }

  function AllChars(cs: seq<Content>): seq<Byte> {
    CharsTo(cs, |cs|)
  }

  // A word, with and without a space, and a line break.
  lemma CharsExample()
    ensures AllChars([Text([97, 98], true), Text([], true), Text([99], false), Break]) == [97, 98, 32, 99, 10]
    ensures START == 257 && END == 258
  {
    var cs := [Text([97, 98], true), Text([], true), Text([99], false), Break];
    assert CharsTo(cs, 1) == [97, 98, 32];
    assert CharsTo(cs, 2) == [97, 98, 32];
    assert CharsTo(cs, 3) == [97, 98, 32, 99];
  }

  // Words are C strings.
  predicate IsReadable(c: Content) {
    !IsWidget(c) && (c.Text? ==> 0 !in c.text)
  }

  predicate IsEmptyWord(c: Content) {
    c.Text? && c.text == []
  }

  lemma {:induction false} CharsPrefix(cs: seq<Content>, k: nat, n: nat)
    requires k <= n <= |cs|
    ensures CharsTo(cs, k) <= CharsTo(cs, n)
    decreases n
  {
    if k < n {
      CharsPrefix(cs, k, n - 1);
    }
  }

  lemma CharsAt(cs: seq<Content>, k: nat, j: nat, n: nat)
    requires k < n <= |cs| && j < |Chars(cs[k])|
    ensures |CharsTo(cs, k)| + j < |CharsTo(cs, n)| && CharsTo(cs, n)[|CharsTo(cs, k)| + j] == Chars(cs[k])[j]
  {
    CharsPrefix(cs, k + 1, n);
    ConcatAt(CharsTo(cs, k), Chars(cs[k]), j);
  }

  lemma ConcatAt(a: seq<Byte>, b: seq<Byte>, j: nat)
    requires j < |b|
    ensures |a + b| == |a| + |b| && (a + b)[|a| + j] == b[j]
  {
  }

  // ----- positions as values ---------------------------------------------------------------

  // The character at a place of a content; pos is only used in words.
  predicate IsChar(c: Content, pos: int, ch: int) {
    match c
    case Break => ch == 10
    case Text(text, space) => (0 <= pos < |text| && ch == text[pos]) || (pos == |text| > 0 && space && ch == 32)
    case _ => false
  }

  // Going back from a break or from the end over an empty word before it, the code looks at
  // the pos of a word passed earlier; it must be 0.
  function NeedsZero(cs: seq<Content>, k: nat): bool
    requires k <= |cs|
  {
    k > 0 && (IsEmptyWord(cs[k - 1]) || (cs[k - 1].Break? && NeedsZero(cs, k - 1)))
  }

  ghost predicate IsPlace(cs: seq<Content>, state: State, k: int, pos: int, ch: int) {
    match state
    case AtStart => k == -1 && ch == START
    case AtEnd => k == |cs| && ch == END && (NeedsZero(cs, |cs|) ==> pos == 0)
    case At(c) => 0 <= k < |cs| && c == cs[k] && IsChar(c, pos, ch) && (c.Break? && NeedsZero(cs, k) ==> pos == 0)
  }

  ghost function CharPos(cs: seq<Content>, state: State, k: int, pos: int, ch: int): int
    requires IsPlace(cs, state, k, pos, ch)
  {
    match state
    case AtStart => -1
    case AtEnd => |AllChars(cs)|
    case At(c) => |CharsTo(cs, k)| + if c.Text? then pos else 0
  }

  ghost predicate AllStrings(cs: seq<Content>) {
    forall k {:trigger cs[k]} :: 0 <= k < |cs| && cs[k].Text? ==> 0 !in cs[k].text
  }

  // A flattened tree consists of words and breaks.
  lemma {:induction false} NoWidgets(w: Widget, f: Contents)
    requires AllFit(f)
    ensures forall k {:trigger Flatten(w, f)[k]} :: 0 <= k < |Flatten(w, f)| ==> !IsWidget(Flatten(w, f)[k])
    decreases Size(w) + 1
  {
    assert Fits(f, w);
    NoWidgetsFrom(f(w), 0, f);
  }

  lemma {:induction false} NoWidgetsFrom(items: seq<Content>, k: nat, f: Contents)
    requires AllFit(f)
    ensures forall j {:trigger FlatFrom(items, k, f)[j]} :: 0 <= j < |FlatFrom(items, k, f)| ==> !IsWidget(FlatFrom(items, k, f)[j])
    decreases SizeFrom(items, k)
  {
    if k < |items| {
      var c := items[k];
      if IsWidget(c) {
        assert PartSize(c) == 2 + Size(c.widget);
        NoWidgets(c.widget, f);
      }
      NoWidgetsFrom(items, k + 1, f);
    }
  }

  ghost predicate AllReadable(cs: seq<Content>) {
    forall k {:trigger cs[k]} :: 0 <= k < |cs| ==> IsReadable(cs[k])
  }

  lemma PlaceInText(cs: seq<Content>, c: Content, k: int, pos: int, ch: int)
    requires AllReadable(cs) && IsPlace(cs, At(c), k, pos, ch)
    ensures 0 <= CharPos(cs, At(c), k, pos, ch) < |AllChars(cs)| && AllChars(cs)[CharPos(cs, At(c), k, pos, ch)] == ch
    ensures CharPos(cs, At(c), k, pos, ch) < |CharsTo(cs, k + 1)|
  {
    CharsAt(cs, k, if c.Text? then pos else 0, |cs|);
    CharsAt(cs, k, if c.Text? then pos else 0, k + 1);
  }

  lemma FirstPlace(cs: seq<Content>, k: int, pos: int)
    requires AllReadable(cs) && 0 <= k < |cs| && !IsEmptyWord(cs[k]) && (cs[k].Text? || NeedsZero(cs, k) ==> pos == 0)
    ensures IsPlace(cs, At(cs[k]), k, pos, Chars(cs[k])[0])
    ensures CharPos(cs, At(cs[k]), k, pos, Chars(cs[k])[0]) == |CharsTo(cs, k)|
  {
  }

  lemma LastPlace(cs: seq<Content>, k: int, pos: int)
    requires AllReadable(cs) && 0 <= k < |cs| && !IsEmptyWord(cs[k]) && (cs[k].Text? ==> pos == |Chars(cs[k])| - 1)
    requires cs[k].Break? && NeedsZero(cs, k) ==> pos == 0
    ensures var ch := Chars(cs[k])[|Chars(cs[k])| - 1];
            IsPlace(cs, At(cs[k]), k, pos, ch) && CharPos(cs, At(cs[k]), k, pos, ch) == |CharsTo(cs, k + 1)| - 1
  {
  }

  // The last character of a content is followed by the first one of the next content.
  predicate IsLastOf(c: Content, pos: int) {
    c.Break? || (c.Text? && pos == |Chars(c)| - 1)
  }

  lemma AfterLast(cs: seq<Content>, c: Content, k: int, pos: int, ch: int)
    requires AllReadable(cs) && IsPlace(cs, At(c), k, pos, ch) && IsLastOf(c, pos)
    ensures CharPos(cs, At(c), k, pos, ch) + 1 == |CharsTo(cs, k + 1)|
  {
  }

  // The place at START, or on the last character of a content.
  lemma WordEnd(cs: seq<Content>, state: State, k: int, pos: int, ch: int)
    requires AllReadable(cs) && IsPlace(cs, state, k, pos, ch) && (state.AtStart? || (state.At? && IsLastOf(state.content, pos)))
    ensures -1 <= k < |cs| && CharPos(cs, state, k, pos, ch) + 1 == |CharsTo(cs, k + 1)| <= |AllChars(cs)|
    ensures NeedsZero(cs, k + 1) ==> pos == 0 && !(state.At? && state.content.Text?)
  {
    if state.At? {
      PlaceInText(cs, state.content, k, pos, ch);
      AfterLast(cs, state.content, k, pos, ch);
    }
  }

  // text[pos], with the NUL at the end of the word.
  function CharAt(text: seq<Byte>, pos: int): int
    requires 0 <= pos <= |text|
  {
    if pos < |text| then text[pos] else 0
  }

  class CharIterator {
    const it: DeepIterator
    ghost const flat: seq<Content>   // the contents of the tree
    var pos: int
    var ch: int

    ghost predicate IsReading()
      reads it, it.repr
    {
      it.Valid() && it.Flat() == flat && AllReadable(flat)
    }

    ghost predicate Valid()
      reads this, it, it.repr
    {
      match it.state
      case At(c) => IsReading() && IsPlace(flat, At(c), it.Pos(), pos, ch)
      case end => IsReading() && IsPlace(flat, end, it.Pos(), pos, ch)
    }

    ghost function Text(): seq<Byte> {
      AllChars(flat)
    }

    ghost function Pos(): int
      requires Valid()
      reads this, it, it.repr
    {
      CharPos(flat, it.state, it.Pos(), pos, ch)
    }

    constructor (widget: Widget, mask: set<Kind>)
      requires AllStrings(Flatten(widget, View(mask)))
      ensures Valid() && fresh(it) && fresh(it.repr) && Pos() == -1
      ensures Text() == AllChars(Flatten(widget, View(mask)))
    {
      NoWidgets(widget, View(mask));
      var start := new OOFAwareWidgetIterator(widget, mask, false);
      it := new DeepIterator(start);
      flat := Flatten(widget, View(mask));
      ch := START;
      pos := *;
    }

    // The copy has iterators of its own.
    constructor Clone(other: CharIterator)
      requires other.Valid()
      ensures Valid() && fresh(it) && fresh(it.repr) && flat == other.flat && Text() == other.Text() && Pos() == other.Pos() && ch == other.ch
    {
      it := new DeepIterator.Clone(other.it);
      flat, pos, ch := other.flat, other.pos, other.ch;
    }

    // Moved to the first or the last character of a content.
    method Enter(c: Content, atEnd: bool)
      requires IsReadable(c) && !IsEmptyWord(c)
      modifies `pos, `ch
      ensures c.Break? ==> pos == old(pos)
      ensures c.Text? ==> pos == if atEnd then |Chars(c)| - 1 else 0
      ensures ch == Chars(c)[if atEnd then |Chars(c)| - 1 else 0]
    {
      if c.Break? {
        ch := 10;
      } else if atEnd {
        pos := |c.text|;
        if c.space {
          ch := 32;
        } else {
          pos := pos - 1;
          ch := CharAt(c.text, pos);
        }
      } else {
        pos := 0;
        ch := CharAt(c.text, pos);
      }
    }

    method Advance(ghost k: int) returns (found: bool)
      requires IsReading() && k == Min(it.Pos() + 1, |flat|)
      modifies it, it.repr
      ensures IsReading() && fresh(it.repr - old(it.repr)) && it.Pos() == k && found == (k < |flat|)
      ensures it.state == if found then At(flat[k]) else AtEnd
    {
      found := it.Next();
    }

    method Retreat(ghost k: int) returns (found: bool)
      requires IsReading() && k == Max(it.Pos(), 0)
      modifies it, it.repr
      ensures IsReading() && fresh(it.repr - old(it.repr)) && it.Pos() == k - 1 < |flat| && found == (k > 0)
      ensures it.state == if found then At(flat[k - 1]) else AtStart
    {
      found := it.Prev();
    }

    method StandAtEnd(ghost k: nat)
      requires IsReading() && it.state == AtEnd && it.Pos() == k == |flat| && (NeedsZero(flat, k) ==> pos == 0)
      modifies `ch
      ensures Valid() && Pos() == |CharsTo(flat, k)|
    {
      ch := END;
    }

    method StandAtStart(ghost k: nat)
      requires IsReading() && it.state == AtStart && it.Pos() == -1 && k == 0
      modifies `ch
      ensures Valid() && Pos() == |CharsTo(flat, k)| - 1
    {
      ch := START;
    }

    method EnterFirst(ghost k: nat)
      requires IsReading() && it.Pos() == k < |flat| && it.state == At(flat[k]) && !IsEmptyWord(flat[k])
      requires NeedsZero(flat, k) ==> pos == 0
      modifies `pos, `ch
      ensures Valid() && Pos() == |CharsTo(flat, k)|
    {
      Enter(it.state.content, false);
      FirstPlace(flat, k, pos);
    }

    method EnterLast(ghost k: nat)
      requires IsReading() && 0 < k <= |flat| && it.Pos() == k - 1 && it.state == At(flat[k - 1]) && !IsEmptyWord(flat[k - 1])
      requires NeedsZero(flat, k) ==> pos == 0
      modifies `pos, `ch
      ensures Valid() && Pos() == |CharsTo(flat, k)| - 1
    {
      ghost var c := flat[k - 1];
      LastPlace(flat, k - 1, if c.Text? then |Chars(c)| - 1 else pos);
      Enter(it.state.content, true);
    }

    // The first branch of next.
    method NextWord(ghost k: nat) returns (found: bool)
      requires IsReading() && k == Min(it.Pos() + 1, |flat|) && (NeedsZero(flat, k) ==> pos == 0)
      modifies this, it, it.repr
      ensures Valid() && fresh(it.repr - old(it.repr))
      ensures Pos() == |CharsTo(flat, k)| && found == it.state.At?
      decreases |flat| - k, 1
    {
      found := Advance(k);
      if !found {
        StandAtEnd(k);
      } else if IsEmptyWord(it.state.content) {
        found := SkipForward(k);
      } else {
        EnterFirst(k);
      }
    }

    // At an empty word, next calls itself once more and takes this branch again.
    method SkipForward(ghost k: nat) returns (found: bool)
      requires IsReading() && it.Pos() == k < |flat| && IsEmptyWord(flat[k])
      modifies this, it, it.repr
      ensures Valid() && fresh(it.repr - old(it.repr))
      ensures Pos() == |CharsTo(flat, k)| && found == it.state.At?
      decreases |flat| - k, 0
    {
      pos, ch := 0, 0;
      found := NextWord(k + 1);
    }

    // The first branch of prev.
    method PrevWord(ghost k: nat) returns (found: bool)
      requires IsReading() && k == Max(it.Pos(), 0) <= |flat| && (NeedsZero(flat, k) ==> pos == 0)
      modifies this, it, it.repr
      ensures Valid() && fresh(it.repr - old(it.repr))
      ensures Pos() == |CharsTo(flat, k)| - 1 && found == it.state.At?
      decreases k, 1
    {
      found := Retreat(k);
      if !found {
        StandAtStart(k);
      } else if IsEmptyWord(it.state.content) {
        found := SkipBackward(k);
      } else {
        EnterLast(k);
      }
    }

    // At an empty word, prev calls itself once more; the assertion is the condition under which
    // it takes this branch again.
    method SkipBackward(ghost k: nat) returns (found: bool)
      requires IsReading() && 0 < k <= |flat| && it.Pos() == k - 1 && IsEmptyWord(flat[k - 1]) && (NeedsZero(flat, k) ==> pos == 0)
      modifies this, it, it.repr
      ensures Valid() && fresh(it.repr - old(it.repr))
      ensures Pos() == |CharsTo(flat, k)| - 1 && found == it.state.At?
      decreases k, 0
    {
      assert pos == 0;
      found := PrevWord(k - 1);
    }

    ghost predicate OnLast()
      reads this, it
    {
      it.state.At? && IsLastOf(it.state.content, pos)
    }

    predicate OnFirst()
      reads this, it
    {
      it.state.At? && (it.state.content.Break? || (it.state.content.Text? && pos == 0))
    }

    lemma AtWordStart()
      requires Valid() && (it.state.AtEnd? || OnFirst())
      ensures Pos() == |CharsTo(flat, Max(it.Pos(), 0))| && (NeedsZero(flat, Max(it.Pos(), 0)) ==> pos == 0)
    {
    }

    // Where the next content begins, seen from the last character of a content, and where the
    // content before ends, seen from the first one.
    lemma AtWordEnd(k: int)
      requires Valid() && k == it.Pos() + 1
      ensures it.state.AtStart? || OnLast() ==>
                && 0 <= k <= |flat| && Pos() + 1 == |CharsTo(flat, k)| <= |Text()|
                && (NeedsZero(flat, k) ==> pos == 0 && !(it.state.At? && it.state.content.Text?))
    {
      if it.state.AtStart? || OnLast() {
        WordEnd(flat, it.state, k - 1, pos, ch);
      }
    }

    lemma AtChar()
      requires Valid()
      ensures it.state.At? ==> 0 <= Pos() < |Text()| && Text()[Pos()] == ch && IsReadable(it.state.content) && IsChar(it.state.content, pos, ch)
      ensures it.state.AtStart? ==> Pos() == -1 && ch == START
      ensures it.state.AtEnd? ==> Pos() == |Text()| && ch == END
    {
      if it.state.At? {
        PlaceInText(flat, it.state.content, it.Pos(), pos, ch);
      }
    }

    method Leave(ghost p: int, ghost k: nat) returns (found: bool)
      requires IsReading() && it.Pos() + 1 == k <= |flat| && p == |CharsTo(flat, k)| && (NeedsZero(flat, k) ==> pos == 0)
      modifies this, it, it.repr
      ensures Valid() && fresh(it.repr - old(it.repr))
      ensures Pos() == p && found == it.state.At?
    {
      found := NextWord(k);
    }

    method NextFromEnd() returns (found: bool)
      requires Valid() && (it.state.AtStart? || OnLast())
      modifies this, it, it.repr
      ensures Valid() && fresh(it.repr - old(it.repr))
      ensures Pos() == old(Pos()) + 1 && found == it.state.At?
    {
      ghost var p, k := Pos() + 1, it.Pos() + 1;
      AtWordEnd(k);
      found := Leave(p, k);
    }

    // Within a word, at the end of which a space may follow.
    method StepInWord() returns (left: bool)
      requires Valid() && it.state.At? && it.state.content.Text? && CharAt(it.state.content.text, pos) != 0
      modifies `pos, `ch
      ensures left == old(OnLast())
      ensures !left ==> Valid() && Pos() == old(Pos()) + 1
    {
      pos := pos + 1;
      ch := CharAt(it.state.content.text, pos);
      left := false;
      if ch == 0 {
        if it.state.content.space {
          ch := 32;
        } else {
          left := true;
        }
      }
    }

    // At the end of a word that no space follows, next calls itself once more, and then takes
    // its first branch.
    method NextInWord() returns (found: bool)
      requires Valid() && it.state.At? && it.state.content.Text? && CharAt(it.state.content.text, pos) != 0
      modifies this, it, it.repr
      ensures Valid() && fresh(it.repr - old(it.repr))
      ensures Pos() == old(Pos()) + 1 && found == it.state.At?
    {
      ghost var p, k := Pos() + 1, it.Pos() + 1;
      AtWordEnd(k);
      var left := StepInWord();
      if left {
        found := Leave(p, k);
      } else {
        found := true;
      }
    }

    // Whether it is at the end of a content, so that next takes the first branch.
    predicate AtEndOfContent()
      requires Valid() && it.state.At?
      reads this, it, it.repr
    {
      it.state.content.Break? || CharAt(it.state.content.text, pos) == 0
    }

    method Next() returns (found: bool)
      requires Valid()
      modifies this, it, it.repr
      ensures Valid() && fresh(it.repr - old(it.repr))
      ensures found == it.state.At? && found == (Pos() < |Text()|) && Pos() == Min(old(Pos()) + 1, |Text()|)
    {
      AtChar();
      if ch == START || (it.state.At? && AtEndOfContent()) {
        found := NextFromEnd();
      } else if ch == END {
        found := false;
      } else {
        found := NextInWord();
      }
      AtChar();
    }

    method PrevFromStart() returns (found: bool)
      requires Valid() && (it.state.AtEnd? || OnFirst())
      modifies this, it, it.repr
      ensures Valid() && fresh(it.repr - old(it.repr))
      ensures Pos() == old(Pos()) - 1 && found == it.state.At?
    {
      AtWordStart();
      found := PrevWord(Max(it.Pos(), 0));
    }

    method PrevInWord()
      requires Valid() && it.state.At? && it.state.content.Text? && pos > 0
      modifies `pos, `ch
      ensures Valid() && Pos() == old(Pos()) - 1
    {
      pos := pos - 1;
      ch := CharAt(it.state.content.text, pos);
    }

    method Prev() returns (found: bool)
      requires Valid()
      modifies this, it, it.repr
      ensures Valid() && fresh(it.repr - old(it.repr))
      ensures found == it.state.At? && found == (Pos() >= 0) && Pos() == Max(old(Pos()) - 1, -1)
    {
      AtChar();
      if ch == END || OnFirst() {
        found := PrevFromStart();
      } else if ch == START {
        found := false;
      } else {
        PrevInWord();
        found := true;
      }
      AtChar();
    }
  }

  // ----- the iterator as a cursor ------------------------------------------------------------

  ghost predicate SteppingAlike(it: CharIterator, c: TextCursor)
    reads it, it.it, it.it.repr, c
  {
    it.Valid() && c.Valid() && it.Text() == c.text && it.Pos() == c.pos
  }

  // The character as the search sees it, in the width of a char.
  lemma SameChar(it: CharIterator, c: TextCursor)
    requires SteppingAlike(it, c)
    ensures c.GetChar() == if it.ch == START then 1 else if it.ch == END then 2 else it.ch
  {
    it.AtChar();
  }

  method NextAlike(it: CharIterator, c: TextCursor) returns (found: bool, ok: bool)
    requires SteppingAlike(it, c)
    modifies it, it.it, it.it.repr, c
    ensures SteppingAlike(it, c) && found == ok
  {
    found := it.Next();
    ok := c.Next();
  }

  method PrevAlike(it: CharIterator, c: TextCursor) returns (found: bool, ok: bool)
    requires SteppingAlike(it, c)
    modifies it, it.it, it.it.repr, c
    ensures SteppingAlike(it, c) && found == ok
  {
    found := it.Prev();
    ok := c.Prev();
  }

  method CloneAlike(it0: CharIterator, c0: TextCursor) returns (it: CharIterator, c: TextCursor)
    requires SteppingAlike(it0, c0)
    ensures SteppingAlike(it, c) && fresh(it) && fresh(c)
  {
    it := new CharIterator.Clone(it0);
    c := new TextCursor.Clone(c0);
  }

  method StartAlike(widget: Widget, mask: set<Kind>, text: seq<Byte>) returns (it: CharIterator, c: TextCursor)
    requires AllStrings(Flatten(widget, View(mask))) && text == AllChars(Flatten(widget, View(mask)))
    ensures SteppingAlike(it, c) && fresh(it) && fresh(c)
  {
    it := new CharIterator(widget, mask);
    c := new TextCursor(text);
  }
}
