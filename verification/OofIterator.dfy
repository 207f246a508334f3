// Iterators over the parts of one widget: dw/oofawarewidget_iterator.cc:36-223,
// dw/oofawarewidget.hh:85-118, dw/types.hh:199-240.
module OofIterators {
  import opened Common
  import opened Lexicographic

  const NUM_SECTIONS := 5

  // A reference to a widget and the widget itself are different contents.
  datatype Content =
    | Text(text: seq<Byte>, space: bool)
    | Break
    | WidgetInFlow(widget: Widget)
    | WidgetOofCont(widget: Widget)
    | WidgetOofRef(widget: Widget)

  // The parts in flow, and those of the four managers for floats and positioned elements.
  datatype Widget = Widget(id: int, inFlow: seq<Content>, floats: seq<Content>, absolute: seq<Content>,
                           relative: seq<Content>, fixed: seq<Content>)
  {
    function Sections(): (r: seq<seq<Content>>)
      ensures |r| == NUM_SECTIONS
    {
      [inFlow, floats, absolute, relative, fixed]
    }
  }

  datatype Kind = TEXT | BREAK | WIDGET_IN_FLOW | WIDGET_OOF_CONT | WIDGET_OOF_REF

  function KindOf(c: Content): Kind {
    match c
    case Text(_, _) => TEXT
    case Break => BREAK
    case WidgetInFlow(_) => WIDGET_IN_FLOW
    case WidgetOofCont(_) => WIDGET_OOF_CONT
    case WidgetOofRef(_) => WIDGET_OOF_REF
  }

  predicate IsWidget(c: Content) {
    c.WidgetInFlow? || c.WidgetOofCont? || c.WidgetOofRef?
  }

  // ----- all parts in order, and those that pass the mask --------------------------------

  function Concat(ss: seq<seq<Content>>): seq<Content> {
    if ss == [] then [] else Concat(ss[..|ss| - 1]) + ss[|ss| - 1]
  }

  function Filter(cs: seq<Content>, mask: set<Kind>): seq<Content> {
    if cs == [] then []
    else
      var rest, c := Filter(cs[..|cs| - 1], mask), cs[|cs| - 1];
      if KindOf(c) in mask then rest + [c] else rest
  }

  // What an iterator goes through.
  function Items(w: Widget, mask: set<Kind>): seq<Content> {
    Filter(Concat(w.Sections()), mask)
  }

  lemma {:induction false} FilterConcat(a: seq<Content>, b: seq<Content>, mask: set<Kind>)
    ensures Filter(a + b, mask) == Filter(a, mask) + Filter(b, mask)
    decreases |b|
  {
    if b == [] {
      assert a + b == a;
    } else {
      assert (a + b)[..|a + b| - 1] == a + b[..|b| - 1];
      FilterConcat(a, b[..|b| - 1], mask);
    }
  }

  lemma ConcatFive(a: seq<Content>, b: seq<Content>, c: seq<Content>, d: seq<Content>, e: seq<Content>)
    ensures Concat([a, b, c, d, e]) == a + b + c + d + e
  {
    assert [a, b, c, d, e][..4] == [a, b, c, d] && [a, b, c, d][..3] == [a, b, c] && [a, b, c][..2] == [a, b] && [a, b][..1] == [a];
    assert Concat([a]) == a;
    assert Concat([a, b]) == a + b;
    assert Concat([a, b, c]) == a + b + c;
    assert Concat([a, b, c, d]) == a + b + c + d;
  }

  // The parts in flow come first, then floats, and elements with absolute, relative and fixed
  // positions.
  lemma ItemsInOrder(w: Widget, mask: set<Kind>)
    ensures Items(w, mask) == Filter(w.inFlow, mask) + Filter(w.floats, mask) + Filter(w.absolute, mask) + Filter(w.relative, mask) + Filter(w.fixed, mask)
  {
    ConcatFive(w.inFlow, w.floats, w.absolute, w.relative, w.fixed);
    FilterConcat(w.inFlow + w.floats + w.absolute + w.relative, w.fixed, mask);
    FilterConcat(w.inFlow + w.floats + w.absolute, w.relative, mask);
    FilterConcat(w.inFlow + w.floats, w.absolute, mask);
    FilterConcat(w.inFlow, w.floats, mask);
  }

  // The kinds the mask has to contain for a part.
  lemma FilterOfOne(c: Content, mask: set<Kind>)
    ensures Filter([c], mask) == [c] <==>
              match c
              case Text(_, _) => TEXT in mask
              case Break => BREAK in mask
              case WidgetInFlow(_) => WIDGET_IN_FLOW in mask
              case WidgetOofCont(_) => WIDGET_OOF_CONT in mask
              case WidgetOofRef(_) => WIDGET_OOF_REF in mask
    ensures Filter([c], mask) == [c] || Filter([c], mask) == []
  {
    assert [c][..0] == [];
  }

  ghost function Offset(ss: seq<seq<Content>>, s: nat): nat
    requires s <= |ss|
  {
    |Concat(ss[..s])|
  }

  ghost function Count(cs: seq<Content>, k: nat, mask: set<Kind>): nat
    requires k <= |cs|
  {
    |Filter(cs[..k], mask)|
  }

  lemma {:induction false} OffsetAt(ss: seq<seq<Content>>, s: nat)
    requires s < |ss|
    ensures Offset(ss, s + 1) == Offset(ss, s) + |ss[s]| <= |Concat(ss)|
    ensures forall i {:trigger ss[s][i]} :: 0 <= i < |ss[s]| ==> Concat(ss)[Offset(ss, s) + i] == ss[s][i]
    decreases |ss|
  {
    assert ss[..s + 1][..s] == ss[..s];
    if s + 1 == |ss| {
      assert ss[..s + 1] == ss;
    } else {
      var t := ss[..|ss| - 1];
      assert t[..s] == ss[..s] && t[..s + 1] == ss[..s + 1];
      OffsetAt(t, s);
    }
  }

  lemma {:induction false} SectionOrder(ss: seq<seq<Content>>, s: nat, t: nat)
    requires s < t <= |ss|
    ensures Offset(ss, s) + |ss[s]| <= Offset(ss, t)
  {
    OffsetAt(ss, s);
    if s + 1 < t {
      OffsetAt(ss, t - 1);
      SectionOrder(ss, s, t - 1);
    }
  }

  // Parts are ordered by their sections and in a section by their indexes.
  lemma PlaceOrder(ss: seq<seq<Content>>, s: nat, i: nat, t: nat, j: nat)
    requires s < |ss| && t < |ss| && i < |ss[s]| && j < |ss[t]| && (s < t || (s == t && i < j))
    ensures Offset(ss, s) + i < Offset(ss, t) + j < |Concat(ss)|
    ensures Concat(ss)[Offset(ss, s) + i] == ss[s][i]
  {
    OffsetAt(ss, s);
    OffsetAt(ss, t);
    if s < t {
      SectionOrder(ss, s, t);
    }
  }

  lemma OffsetEnds(ss: seq<seq<Content>>)
    ensures Offset(ss, 0) == 0 && Offset(ss, |ss|) == |Concat(ss)|
  {
    assert ss[..|ss|] == ss;
  }

  lemma CountStep(cs: seq<Content>, k: nat, mask: set<Kind>)
    requires k < |cs|
    ensures Count(cs, k + 1, mask) == Count(cs, k, mask) + if KindOf(cs[k]) in mask then 1 else 0
  {
    assert cs[..k + 1][..k] == cs[..k];
  }

  lemma {:induction false} CountOver(cs: seq<Content>, lo: nat, hi: nat, mask: set<Kind>)
    requires lo <= hi <= |cs|
    ensures Count(cs, lo, mask) <= Count(cs, hi, mask)
    ensures (forall k :: lo <= k < hi ==> KindOf(cs[k]) !in mask) ==> Count(cs, lo, mask) == Count(cs, hi, mask)
    decreases hi
  {
    if lo < hi {
      CountOver(cs, lo, hi - 1, mask);
      CountStep(cs, hi - 1, mask);
    }
  }

  lemma CountEnds(cs: seq<Content>, mask: set<Kind>)
    ensures Count(cs, 0, mask) == 0 && Count(cs, |cs|, mask) == |Filter(cs, mask)|
  {
    assert cs[..|cs|] == cs;
  }

  lemma {:induction false} ItemAt(cs: seq<Content>, k: nat, mask: set<Kind>)
    requires k < |cs| && KindOf(cs[k]) in mask
    ensures Count(cs, k, mask) < |Filter(cs, mask)| && Filter(cs, mask)[Count(cs, k, mask)] == cs[k]
    decreases |cs|
  {
    CountStep(cs, k, mask);
    CountOver(cs, k + 1, |cs|, mask);
    CountEnds(cs, mask);
    var t := cs[..|cs| - 1];
    if k < |t| {
      assert t[..k] == cs[..k];
      ItemAt(t, k, mask);
    } else {
      assert t == cs[..k];
    }
  }

  ghost predicate NoneBetween(cs: seq<Content>, lo: int, hi: int, mask: set<Kind>) {
    forall k {:trigger cs[k]} :: lo <= k < hi && 0 <= k < |cs| ==> KindOf(cs[k]) !in mask
  }

  // The position of an item, seen from a place before it, and from one behind it.
  lemma CountBeforeItem(cs: seq<Content>, lo: nat, k: nat, mask: set<Kind>)
    requires lo <= k < |cs| && KindOf(cs[k]) in mask && NoneBetween(cs, lo, k, mask)
    ensures Count(cs, k, mask) == Count(cs, lo, mask)
  {
    CountOver(cs, lo, k, mask);
  }

  lemma CountBehindItem(cs: seq<Content>, k: nat, hi: nat, mask: set<Kind>)
    requires k < hi <= |cs| && KindOf(cs[k]) in mask && NoneBetween(cs, k + 1, hi, mask)
    ensures Count(cs, k, mask) == Count(cs, hi, mask) - 1
  {
    CountStep(cs, k, mask);
    CountOver(cs, k + 1, hi, mask);
  }

  lemma CountOrder(cs: seq<Content>, j: nat, k: nat, mask: set<Kind>)
    requires j < k < |cs| && KindOf(cs[j]) in mask
    ensures Count(cs, j, mask) < Count(cs, k, mask)
  {
    CountStep(cs, j, mask);
    CountOver(cs, j + 1, k, mask);
  }

  // ----- the iterator ------------------------------------------------------------------------

  datatype State = AtStart | AtEnd | At(content: Content)

  // How an iterator has come to its START or END: made there by the constructor, or reached by
  // a step.  In a widget without parts: by a step back from a new END, or by cloning a new END,
  // which yields a START, and steps from there.
  datatype Origin = MADE | REACHED | FROM_NEW_END | OF_CLONED_END

  predicate NoEndBehind(start: Origin, end: Origin) {
    end == MADE && (start == MADE || start == OF_CLONED_END)
  }

  // The last section with parts.
  function LastSection(ss: seq<seq<Content>>): (s: int)
    ensures -1 <= s < |ss| && (s >= 0 ==> ss[s] != [])
    ensures forall t {:trigger ss[t]} :: s < t < |ss| ==> ss[t] == []
  {
    if ss == [] then -1
    else if ss[|ss| - 1] != [] then |ss| - 1
    else LastSection(ss[..|ss| - 1])
  }

  lemma LastIsEnd(ss: seq<seq<Content>>, s: nat)
    requires s < |ss| && ss[s] != [] && Offset(ss, s) + |ss[s]| == |Concat(ss)|
    ensures LastSection(ss) == s
  {
    var t := LastSection(ss);
    if t > s {
      SectionOrder(ss, s, t);
      OffsetAt(ss, t);
    }
  }

  lemma NoLastSection(ss: seq<seq<Content>>)
    ensures Concat(ss) == [] ==> LastSection(ss) == -1
  {
    if LastSection(ss) >= 0 {
      OffsetAt(ss, LastSection(ss));
    }
  }

  class OOFAwareWidgetIterator {
    const widget: Widget
    const mask: set<Kind>
    var sectionIndex: int
    var index: int
    var state: State
    ghost var origin: Origin

    ghost function All(): seq<Content> {
      Concat(widget.Sections())
    }

    // The place in All(); that of the first part is 0.
    ghost function Place(): int
      reads this
    {
      if sectionIndex < 0 then -1
      else if sectionIndex >= NUM_SECTIONS then |All()|
      else Offset(widget.Sections(), sectionIndex) + index
    }

    ghost predicate InRange()
      reads this
    {
      && 0 <= sectionIndex < NUM_SECTIONS && 0 <= index < |widget.Sections()[sectionIndex]|
    }

    ghost predicate Standing()
      reads this
    {
      match state
      case AtStart =>
        index >= -1 && (sectionIndex < 0 || (sectionIndex == 0 && index == -1))
      case AtEnd =>
        && sectionIndex <= NUM_SECTIONS && index >= 0
        && (|| (sectionIndex >= 0 && Place() == |All()| && (sectionIndex == NUM_SECTIONS || index == |widget.Sections()[sectionIndex]|))
            || (sectionIndex == -1 && All() == []))
      case At(c) =>
        InRange() && c == widget.Sections()[sectionIndex][index] && KindOf(c) in mask
    }

    function LastIndex(): nat {
      NumParts(LastSection(widget.Sections()))
    }

    // A START or END is represented in the way it has been made, or reached.  Without any parts
    // there are more ways.
    ghost predicate Represented()
      reads this
    {
      match state
      case At(_) => true
      case AtStart =>
        (match origin
         case MADE => sectionIndex == 0 && index == -1
         case REACHED => sectionIndex == -1 && index == -1
         case FROM_NEW_END => sectionIndex == -2 && index == -1 && All() == []
         case OF_CLONED_END => sectionIndex == -1 && index == 0 && All() == [])
      case AtEnd =>
        (match origin
         case MADE => sectionIndex == LastSection(widget.Sections()) && index == LastIndex()
         case REACHED => sectionIndex == NUM_SECTIONS && index == LastIndex()
         case FROM_NEW_END => false
         case OF_CLONED_END => sectionIndex == NUM_SECTIONS && index == 1 && All() == [])
    }

    ghost predicate Valid()
      reads this
    {
      match state
      case At(_) => Standing() && origin == REACHED
      case _ => Standing() && Represented()
    }

    // The position as that of a cursor over Items(widget, mask).
    ghost function Pos(): (p: int)
      requires Standing()
      reads this
      ensures -1 <= p <= |Items(widget, mask)| && (state.At? <==> 0 <= p < |Items(widget, mask)|)
    {
      if state.AtStart? then -1
      else if state.AtEnd? then |Items(widget, mask)|
      else
        OffsetAt(widget.Sections(), sectionIndex);
        ItemAt(All(), Place(), mask);
        Count(All(), Place(), mask)
    }

    function NumParts(s: int): int
      requires s < NUM_SECTIONS
    {
      if s < 0 then 0 else |widget.Sections()[s]|
    }

    // cloneValues and setValues: the content is found anew.  An iterator before section 0
    // is at the start, even if it was put there as the end of a widget without parts.
    constructor Clone(other: OOFAwareWidgetIterator)
      requires other.Valid()
      ensures Valid() && widget == other.widget && mask == other.mask
      ensures state == (if other.sectionIndex < 0 then AtStart else other.state) && (state.AtEnd? ==> sectionIndex >= 0)
      ensures Pos() == other.Pos() <==> !(other.state.AtEnd? && other.sectionIndex < 0)
      ensures origin == if other.state.AtEnd? && other.sectionIndex < 0 then OF_CLONED_END else other.origin
    {
      widget, mask, sectionIndex, index := other.widget, other.mask, other.sectionIndex, other.index;
      state := AtStart;
      origin := if other.state.AtEnd? && other.sectionIndex < 0 then OF_CLONED_END else other.origin;
      new;
      if sectionIndex < 0 || index < 0 {
        state := AtStart;
      } else if sectionIndex >= NUM_SECTIONS || index >= NumParts(sectionIndex) {
        state := AtEnd;
      } else {
        state := At(widget.Sections()[sectionIndex][index]);
      }
    }

    constructor (widget: Widget, mask: set<Kind>, atEnd: bool)
      ensures Valid() && this.widget == widget && this.mask == mask
      ensures Pos() == if atEnd then |Items(widget, mask)| else -1
      ensures state == (if atEnd then AtEnd else AtStart) && origin == MADE
    {
      this.widget, this.mask := widget, mask;
      sectionIndex, index := 0, -1;
      state, origin := if atEnd then AtEnd else AtStart, MADE;
      new;
      if atEnd {
        sectionIndex := NUM_SECTIONS - 1;
        OffsetEnds(widget.Sections());
        OffsetAt(widget.Sections(), sectionIndex);
        while sectionIndex >= 0 && NumParts(sectionIndex) == 0
          invariant this.widget == widget && this.mask == mask && state == AtEnd && origin == MADE
          invariant LastSection(widget.Sections()) <= sectionIndex < NUM_SECTIONS
          invariant Offset(widget.Sections(), sectionIndex + 1) == |All()|
        {
          OffsetAt(widget.Sections(), sectionIndex);
          sectionIndex := sectionIndex - 1;
        }
        if sectionIndex >= 0 {
          OffsetAt(widget.Sections(), sectionIndex);
        }
        index := NumParts(sectionIndex);
      }
    }

    // One step of the inner loop of next: to the next section that has parts.
    method NextSection()
      requires sectionIndex < NUM_SECTIONS
      requires sectionIndex >= 0 ==> index == |widget.Sections()[sectionIndex]|
      modifies `sectionIndex, `index
      ensures old(sectionIndex) < sectionIndex <= NUM_SECTIONS && sectionIndex >= 0
      ensures sectionIndex < NUM_SECTIONS ==> index == -1 && |widget.Sections()[sectionIndex]| > 0
      ensures sectionIndex < NUM_SECTIONS ==> Place() == if old(sectionIndex) < 0 then -1 else old(Place()) - 1
      ensures sectionIndex == NUM_SECTIONS ==> index == old(index)
      ensures sectionIndex == NUM_SECTIONS ==> |All()| == if old(sectionIndex) < 0 then 0 else old(Place())
    {
      OffsetEnds(widget.Sections());
      if sectionIndex >= 0 {
        OffsetAt(widget.Sections(), sectionIndex);
      }
      ghost var start := if sectionIndex < 0 then 0 else Place();
      sectionIndex := sectionIndex + 1;
      while sectionIndex < NUM_SECTIONS && NumParts(sectionIndex) == 0
        invariant old(sectionIndex) < sectionIndex <= NUM_SECTIONS && index == old(index)
        invariant sectionIndex >= 0 ==> Offset(widget.Sections(), sectionIndex) == start
      {
        if sectionIndex >= 0 {
          OffsetAt(widget.Sections(), sectionIndex);
        }
        sectionIndex := sectionIndex + 1;
      }
      if sectionIndex < NUM_SECTIONS {
        index := -1;
      }
    }

    // The number of items up to a place from which the search for the next one starts.
    lemma CountBehind(start: int)
      requires Standing() && !state.AtEnd? && start == if state.AtStart? then -1 else Place()
      ensures -1 <= start < |All()| && Count(All(), start + 1, mask) == Pos() + 1
      ensures sectionIndex >= 0 ==> Place() == start
    {
      OffsetEnds(widget.Sections());
      if state.At? {
        OffsetAt(widget.Sections(), sectionIndex);
        CountStep(All(), start, mask);
      }
    }

    // Where the loop of next can be.
    ghost predicate Scanning()
      reads this
    {
      match state
      case AtEnd => false
      case _ =>
        && sectionIndex < NUM_SECTIONS && index >= -1
        && (sectionIndex >= 0 ==> -1 <= index < |widget.Sections()[sectionIndex]|)
        && (sectionIndex > 0 ==> widget.Sections()[sectionIndex] != [])
        && -1 <= Place() < |All()|
    }

    // The position after the search for the next item.
    lemma Arrived(lo: nat, hi: nat)
      requires Standing() && lo <= hi <= |All()| && NoneBetween(All(), lo, hi, mask)
      requires if state.AtEnd? then hi == |All()| else state.At? && Place() == hi
      ensures Pos() == Count(All(), lo, mask)
      ensures state.At? ==> Pos() < |Items(widget, mask)| && Items(widget, mask)[Pos()] == state.content
    {
      if state.At? {
        OffsetAt(widget.Sections(), sectionIndex);
        CountBeforeItem(All(), lo, hi, mask);
        ItemAt(All(), hi, mask);
      } else {
        CountEnds(All(), mask);
        CountOver(All(), lo, hi, mask);
      }
    }

    // One round of the loop: to the next part, or to the next section, or to the end.
    method TryNext() returns (found: bool)
      requires Scanning()
      modifies `sectionIndex, `index, `state
      ensures state.AtEnd? ==> Standing() && old(Place()) + 1 == |All()| && !found
      ensures !state.AtEnd? ==> Scanning() && old(Place()) <= Place() <= old(Place()) + 1
      ensures !state.AtEnd? && Place() == old(Place()) ==> sectionIndex > old(sectionIndex) && !found
      ensures !state.AtEnd? && Place() > old(Place()) ==> (found <==> KindOf(All()[Place()]) in mask)
      ensures found ==> Standing() && state == At(All()[Place()])
      ensures state.AtEnd? ==> sectionIndex == NUM_SECTIONS && index == if All() == [] then old(index) + 1 else LastIndex()
      ensures All() == [] ==> state.AtEnd?
    {
      index := index + 1;
      if sectionIndex >= 0 {
        OffsetAt(widget.Sections(), sectionIndex);
      }
      if 0 <= sectionIndex < NUM_SECTIONS && 0 <= index < NumParts(sectionIndex) {
        state := At(widget.Sections()[sectionIndex][index]);
        found := KindOf(state.content) in mask;
      } else {
        found := false;
        NextSection();
        if sectionIndex >= NUM_SECTIONS {
          state := AtEnd;
          if All() != [] {
            LastIsEnd(widget.Sections(), old(sectionIndex));
          }
        } else {
          OffsetAt(widget.Sections(), sectionIndex);
        }
      }
    }

    // How the end is reached by a step forward.
    lemma EndReached(oldIndex: int)
      requires Standing() && state.AtEnd? && sectionIndex == NUM_SECTIONS
      requires index == if All() == [] then oldIndex + 1 else LastIndex()
      requires origin == if All() == [] && oldIndex == 0 then OF_CLONED_END else REACHED
      requires All() == [] ==> -1 <= oldIndex <= 0
      ensures Valid()
    {
      NoLastSection(widget.Sections());
    }

    // The loop of next.
    method FindNext(ghost start: int) returns (found: bool)
      requires Valid() && state != AtEnd && start == (if state.AtStart? then -1 else Place()) && Scanning()
      modifies `sectionIndex, `index, `state
      ensures Standing() && found == state.At? && found == !state.AtEnd?
      ensures state.AtEnd? ==> sectionIndex == NUM_SECTIONS && index == if All() == [] then old(index) + 1 else LastIndex()
      ensures found ==> start < Place() < |All()|
      ensures NoneBetween(All(), start + 1, if found then Place() else |All()|, mask)
    {
      found := false;
      ghost var place := start;
      while !found && state != AtEnd
        invariant -1 <= start <= place
        invariant state.AtEnd? ==> Standing() && !found && place + 1 == |All()|
        invariant state.AtEnd? ==> sectionIndex == NUM_SECTIONS && index == if All() == [] then old(index) + 1 else LastIndex()
        invariant !state.AtEnd? ==> Scanning() && Place() == place && (All() == [] ==> index == old(index))
        invariant found ==> Standing() && start < place < |All()| && state == At(All()[place])
        invariant NoneBetween(All(), start + 1, if found then place else place + 1, mask)
        decreases !found, state != AtEnd, |All()| - place, NUM_SECTIONS - sectionIndex
      {
        found := TryNext();
        place := if state.AtEnd? then place else Place();
      }
    }

    method Next() returns (found: bool)
      requires Valid()
      modifies this
      ensures Valid() && Pos() == Min(old(Pos()) + 1, |Items(widget, mask)|)
      ensures found == (Pos() < |Items(widget, mask)|) && found == state.At?
      ensures found ==> state.content == Items(widget, mask)[Pos()]
      ensures old(state.AtEnd? ==> sectionIndex >= 0) ==> state.AtEnd? ==> sectionIndex >= 0
    {
      found := false;
      if state != AtEnd {
        ghost var start, oldIndex := if state.AtStart? then -1 else Place(), index;
        CountBehind(start);
        found := FindNext(start);
        Arrived(start + 1, if found then Place() else |All()|);
        Remember(oldIndex);
      }
    }

    // The way to the new place.
    method Remember(ghost oldIndex: int)
      requires Standing() && !state.AtStart? && (origin == OF_CLONED_END <==> All() == [] && oldIndex == 0)
      requires state.AtEnd? ==> sectionIndex == NUM_SECTIONS && index == if All() == [] then oldIndex + 1 else LastIndex()
      requires All() == [] ==> -1 <= oldIndex <= 0
      modifies `origin
      ensures Valid()
    {
      origin := if origin == OF_CLONED_END then origin else REACHED;
      if state.AtEnd? {
        EndReached(oldIndex);
      } else {
        OffsetAt(widget.Sections(), sectionIndex);
      }
    }

    // The same backwards.  With no parts at all the iterator may start before section 0.
    ghost function PlaceBack(): int
      reads this
    {
      if sectionIndex < 0 then 0 else Place()
    }

    // One step of the inner loop of prev: to the section before that has parts.
    method PrevSection(ghost place: nat)
      requires sectionIndex <= NUM_SECTIONS
      requires place == if sectionIndex < 0 then 0 else if sectionIndex >= NUM_SECTIONS then |All()| else Offset(widget.Sections(), sectionIndex)
      modifies `sectionIndex, `index
      ensures sectionIndex < old(sectionIndex) && sectionIndex < NUM_SECTIONS
      ensures sectionIndex >= 0 ==> index == |widget.Sections()[sectionIndex]| > 0 && Place() == place
      ensures sectionIndex < 0 ==> place == 0 && index == old(index) && sectionIndex == Min(old(sectionIndex) - 1, -1)
    {
      OffsetEnds(widget.Sections());
      sectionIndex := sectionIndex - 1;
      while sectionIndex >= 0 && NumParts(sectionIndex) == 0
        invariant sectionIndex < old(sectionIndex) && sectionIndex < NUM_SECTIONS && index == old(index)
        invariant sectionIndex >= -1 ==> Offset(widget.Sections(), sectionIndex + 1) == place
        invariant sectionIndex < -1 ==> place == 0 && sectionIndex == old(sectionIndex) - 1
      {
        OffsetAt(widget.Sections(), sectionIndex);
        sectionIndex := sectionIndex - 1;
      }
      if sectionIndex >= 0 {
        OffsetAt(widget.Sections(), sectionIndex);
        index := NumParts(sectionIndex);
      }
    }

    ghost predicate ScanningBack()
      reads this
    {
      match state
      case AtStart => false
      case _ =>
        && sectionIndex <= NUM_SECTIONS && index >= 0
        && (0 <= sectionIndex < NUM_SECTIONS ==> 0 <= index <= |widget.Sections()[sectionIndex]|)
        && 0 <= PlaceBack() <= |All()| && (sectionIndex < 0 ==> All() == [])
    }

    // One round of the loop of prev.
    method TryPrev() returns (found: bool)
      requires ScanningBack()
      modifies `sectionIndex, `index, `state
      ensures state.AtStart? ==> Standing() && old(PlaceBack()) == 0 && !found && sectionIndex < 0
      ensures !state.AtStart? ==> ScanningBack() && old(PlaceBack()) - 1 <= PlaceBack() <= old(PlaceBack())
      ensures !state.AtStart? && PlaceBack() == old(PlaceBack()) ==> sectionIndex < old(sectionIndex) && sectionIndex >= 0 && !found
      ensures !state.AtStart? && PlaceBack() < old(PlaceBack()) ==> (found <==> KindOf(All()[PlaceBack()]) in mask)
      ensures found ==> Standing() && state == At(All()[PlaceBack()])
      ensures state.AtStart? ==> sectionIndex == Min(old(sectionIndex) - 1, -1) && index == if All() == [] then old(index) - 1 else -1
      ensures All() == [] ==> state.AtStart?
    {
      ghost var place := PlaceBack();
      index := index - 1;
      if 0 <= sectionIndex < NUM_SECTIONS {
        OffsetAt(widget.Sections(), sectionIndex);
      }
      if 0 <= sectionIndex < NUM_SECTIONS && 0 <= index < NumParts(sectionIndex) {
        state := At(widget.Sections()[sectionIndex][index]);
        found := KindOf(state.content) in mask;
      } else {
        found := false;
        PrevSection(place);
        if sectionIndex < 0 {
          state := AtStart;
        } else {
          OffsetAt(widget.Sections(), sectionIndex);
        }
      }
    }

    lemma ArrivedBack(lo: nat, hi: nat)
      requires Standing() && lo <= hi <= |All()| && NoneBetween(All(), lo, hi, mask)
      requires if state.AtStart? then lo == 0 else state.At? && Place() + 1 == lo
      ensures Pos() == Count(All(), hi, mask) - 1
      ensures state.At? ==> 0 <= Pos() < |Items(widget, mask)| && Items(widget, mask)[Pos()] == state.content
    {
      if state.At? {
        OffsetAt(widget.Sections(), sectionIndex);
        CountBehindItem(All(), Place(), hi, mask);
        ItemAt(All(), Place(), mask);
      } else {
        CountEnds(All(), mask);
        CountOver(All(), lo, hi, mask);
      }
    }

    lemma CountBefore(start: int)
      requires Standing() && !state.AtStart? && start == if state.AtEnd? then |All()| else Place()
      ensures 0 <= start <= |All()| && Count(All(), start, mask) == Pos() && start == PlaceBack() && ScanningBack()
    {
      CountEnds(All(), mask);
      if state.At? {
        OffsetAt(widget.Sections(), sectionIndex);
      }
    }

    // How the start is reached by a step back.
    lemma StartReached(was: Origin, oldSection: int, oldIndex: int)
      requires Standing() && state.AtStart? && sectionIndex == Min(oldSection - 1, -1)
      requires index == if All() == [] then oldIndex - 1 else -1
      requires All() == [] && was == OF_CLONED_END ==> oldSection == NUM_SECTIONS && oldIndex == 1
      requires All() == [] && was == REACHED ==> oldSection == NUM_SECTIONS && oldIndex == 0
      requires All() == [] && was == MADE ==> oldSection == -1 && oldIndex == 0
      requires was != FROM_NEW_END && (All() != [] ==> was != OF_CLONED_END && oldSection >= 0)
      requires origin == BackFrom(was)
      ensures Valid()
    {
    }

    ghost function BackFrom(was: Origin): Origin {
      if was == MADE && All() == [] then FROM_NEW_END else if was == OF_CLONED_END then was else REACHED
    }

    // The loop of prev.
    method FindPrev(ghost start: int) returns (found: bool)
      requires Valid() && state != AtStart && start == (if state.AtEnd? then |All()| else Place())
      requires ScanningBack() && start == PlaceBack()
      modifies `sectionIndex, `index, `state
      ensures Standing() && found == state.At? && found == !state.AtStart?
      ensures state.AtStart? ==> sectionIndex == Min(old(sectionIndex) - 1, -1) && index == if All() == [] then old(index) - 1 else -1
      ensures found ==> 0 <= Place() < start
      ensures NoneBetween(All(), if found then Place() + 1 else 0, start, mask)
    {
      found := false;
      ghost var place := start;
      while !found && state != AtStart
        invariant 0 <= place <= start <= |All()|
        invariant state.AtStart? ==> Standing() && !found && place == 0
        invariant state.AtStart? ==> sectionIndex == Min(old(sectionIndex) - 1, -1) && index == if All() == [] then old(index) - 1 else -1
        invariant !state.AtStart? ==> ScanningBack() && PlaceBack() == place
        invariant !state.AtStart? && All() == [] ==> sectionIndex == old(sectionIndex) && index == old(index)
        invariant !state.AtStart? && All() != [] ==> sectionIndex >= 0 && old(sectionIndex) >= 0
        invariant found ==> Standing() && place < start && state == At(All()[place])
        invariant NoneBetween(All(), if found then place + 1 else place, start, mask)
        decreases !found, state != AtStart, place, sectionIndex
      {
        found := TryPrev();
        place := if state.AtStart? then place else PlaceBack();
      }
    }

    method Prev() returns (found: bool)
      requires Valid()
      modifies this
      ensures Valid() && Pos() == Max(old(Pos()) - 1, -1)
      ensures found == (Pos() >= 0) && found == state.At?
      ensures found ==> Pos() < |Items(widget, mask)| && state.content == Items(widget, mask)[Pos()]
      ensures !found && old(state) != AtStart && All() != [] ==> origin == REACHED
    {
      found := false;
      if state != AtStart {
        ghost var start, was, oldSection, oldIndex := if state.AtEnd? then |All()| else Place(), origin, sectionIndex, index;
        CountBefore(start);
        NoLastSection(widget.Sections());
        found := FindPrev(start);
        ArrivedBack(if found then Place() + 1 else 0, start);
        origin := BackFrom(origin);
        if !found {
          StartReached(was, oldSection, oldIndex);
        }
      }
    }

    ghost predicate IsBefore(other: OOFAwareWidgetIterator)
      reads this, other
    {
      sectionIndex < other.sectionIndex || (sectionIndex == other.sectionIndex && index < other.index)
    }

    lemma PartBeforeEnd(other: OOFAwareWidgetIterator)
      requires Standing() && other.Standing() && other.widget == widget && other.mask == mask && state.At? && other.state.AtEnd?
      ensures Pos() < other.Pos() && IsBefore(other)
    {
      OffsetAt(widget.Sections(), sectionIndex);
      ItemAt(All(), Place(), mask);
      assert Place() < |All()|;
      if other.sectionIndex < sectionIndex {
        SectionOrder(widget.Sections(), other.sectionIndex, sectionIndex);
      }
    }

    lemma PartBeforePart(other: OOFAwareWidgetIterator)
      requires Standing() && other.Standing() && other.widget == widget && other.mask == mask
      requires state.At? && other.state.At? && IsBefore(other)
      ensures Pos() < other.Pos()
    {
      PlaceOrder(widget.Sections(), sectionIndex, index, other.sectionIndex, other.index);
      CountOrder(All(), Place(), other.Place(), mask);
    }

    // Two ends are in the order of their positions: two starts, or two ends, only if they have
    // been made in the same way; a start and an end unless there are no parts, the end is a
    // new one, and the start is new as well, or the clone of a new end.
    ghost predicate EndsInOrder(other: OOFAwareWidgetIterator)
      reads this, other
    {
      if state == other.state then origin == other.origin
      else if state.AtStart? then All() != [] || !NoEndBehind(origin, other.origin)
      else All() != [] || !NoEndBehind(other.origin, origin)
    }

    lemma EndsCompare(other: OOFAwareWidgetIterator)
      requires Valid() && other.Valid() && other.widget == widget && !state.At? && !other.state.At?
      ensures state == other.state ==> (EndsInOrder(other) <==> sectionIndex == other.sectionIndex && index == other.index)
      ensures state.AtStart? && other.state.AtEnd? ==> (EndsInOrder(other) <==> IsBefore(other))
      ensures state.AtStart? && other.state.AtEnd? ==> (other.EndsInOrder(this) <==> IsBefore(other))
    {
      NoLastSection(widget.Sections());
      if All() != [] && state.AtStart? && other.state.AtEnd? {
        StartBeforeEnd(other);
      }
    }

    // In a widget with parts the end is always behind the start.
    lemma StartBeforeEnd(other: OOFAwareWidgetIterator)
      requires Standing() && other.Standing() && other.widget == widget && state.AtStart? && other.state.AtEnd? && All() != []
      ensures IsBefore(other)
    {
      OffsetEnds(widget.Sections());
      if other.sectionIndex == 0 {
        OffsetAt(widget.Sections(), 0);
      }
    }

    // The sign of compareTo is the order of the positions, unless the two are at ends that do
    // not stand in their order.
    method CompareTo(other: OOFAwareWidgetIterator) returns (r: int)
      requires Valid() && other.Valid() && other.widget == widget && other.mask == mask
      ensures Sign(r) == Sign(Pos() - other.Pos()) <==> state.At? || other.state.At? || EndsInOrder(other)
    {
      if state.At? && other.state.At? {
        if IsBefore(other) {
          PartBeforePart(other);
        } else if other.IsBefore(this) {
          other.PartBeforePart(this);
        }
      } else if state.At? && other.state.AtEnd? {
        PartBeforeEnd(other);
      } else if state.AtEnd? && other.state.At? {
        other.PartBeforeEnd(this);
      } else if !state.At? && !other.state.At? {
        EndsCompare(other);
        other.EndsCompare(this);
      }
      if sectionIndex != other.sectionIndex {
        r := sectionIndex - other.sectionIndex;
      } else {
        r := index - other.index;
      }
    }
  }

  // The start that prev reaches is not the one where an iterator begins.
  method StartsDiffer(widget: Widget, mask: set<Kind>) returns (r: int)
    requires Concat(widget.Sections()) != []
    ensures r != 0
  {
    var a := new OOFAwareWidgetIterator(widget, mask, false);
    var b := new OOFAwareWidgetIterator(widget, mask, true);
    var more := b.Prev();
    while more
      invariant b.Valid() && more == (b.Pos() >= 0) && (!more ==> b.state == AtStart && b.origin == REACHED)
      invariant a.Valid() && a.origin == MADE && a.state == AtStart && fresh(b)
      decreases b.Pos()
    {
      more := b.Prev();
    }
    r := a.CompareTo(b);
  }

  lemma ItemsEmpty(widget: Widget, mask: set<Kind>)
    requires forall i :: 0 <= i < NUM_SECTIONS ==> widget.Sections()[i] == []
    ensures Items(widget, mask) == []
  {
    AllEmpty(widget.Sections());
  }

  lemma {:induction false} AllEmpty(ss: seq<seq<Content>>)
    requires forall i :: 0 <= i < |ss| ==> ss[i] == []
    ensures Concat(ss) == []
  {
    if ss != [] {
      AllEmpty(ss[..|ss| - 1]);
    }
  }

  // In a widget without parts, the start of a new iterator is not before the end of a new one.
  method EmptyEndsDiffer(widget: Widget, mask: set<Kind>) returns (r: int)
    requires forall i :: 0 <= i < NUM_SECTIONS ==> widget.Sections()[i] == []
    ensures r >= 0
  {
    var a := new OOFAwareWidgetIterator(widget, mask, false);
    var b := new OOFAwareWidgetIterator(widget, mask, true);
    AllEmpty(widget.Sections());
    ItemsEmpty(widget, mask);
    r := a.CompareTo(b);
  }
}
