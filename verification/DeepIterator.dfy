// Iterators over a widget tree: dw/iterator.cc:533-730, dw/iterator.hh:136-200.
module DeepIterators {
  import opened Common
  import opened Lexicographic
  import opened OofIterators

  // ----- sizes, for termination ------------------------------------------------------------

  function PartSize(c: Content): (n: nat)
    ensures n > 0
  {
    match c
    case Text(_, _) => 1
    case Break => 1
    case WidgetInFlow(w) => 2 + Size(w)
    case WidgetOofCont(w) => 2 + Size(w)
    case WidgetOofRef(w) => 2 + Size(w)
  }

  function SizeOf(cs: seq<Content>): nat {
    if cs == [] then 0 else SizeOf(cs[..|cs| - 1]) + PartSize(cs[|cs| - 1])
  }

  function Size(w: Widget): nat {
    SizeOf(w.inFlow) + SizeOf(w.floats) + SizeOf(w.absolute) + SizeOf(w.relative) + SizeOf(w.fixed)
  }

  lemma {:induction false} SizeOfConcat(a: seq<Content>, b: seq<Content>)
    ensures SizeOf(a + b) == SizeOf(a) + SizeOf(b)
  {
    if b == [] {
      assert a + b == a;
    } else {
      SizeOfConcat(a, b[..|b| - 1]);
      assert (a + b)[..|a + b| - 1] == a + b[..|b| - 1];
    }
  }

  lemma {:induction false} FilterSize(cs: seq<Content>, mask: set<Kind>)
    ensures SizeOf(Filter(cs, mask)) <= SizeOf(cs)
  {
    if cs != [] {
      var rest := Filter(cs[..|cs| - 1], mask);
      FilterSize(cs[..|cs| - 1], mask);
      assert (rest + [cs[|cs| - 1]])[..|rest|] == rest;
    }
  }

  lemma ItemsSize(w: Widget, mask: set<Kind>)
    ensures SizeOf(Items(w, mask)) <= Size(w)
  {
    var ss := w.Sections();
    FilterSize(Concat(ss), mask);
    var a, b, c, d, e := ss[0], ss[1], ss[2], ss[3], ss[4];
    ConcatFive(a, b, c, d, e);
    SizeOfConcat(a + b + c + d, e);
    SizeOfConcat(a + b + c, d);
    SizeOfConcat(a + b, c);
    SizeOfConcat(a, b);
  }

  function SizeFrom(items: seq<Content>, k: nat): nat
    decreases |items| - k
  {
    if k >= |items| then 0 else PartSize(items[k]) + SizeFrom(items, k + 1)
  }

  function SizeTo(items: seq<Content>, k: nat): nat
    requires k <= |items|
  {
    if k == 0 then 0 else SizeTo(items, k - 1) + PartSize(items[k - 1])
  }

  lemma {:induction false} SizeSplit(items: seq<Content>, k: nat)
    requires k <= |items|
    ensures SizeTo(items, k) + SizeFrom(items, k) == SizeTo(items, |items|)
    decreases |items| - k
  {
    if k < |items| {
      SizeSplit(items, k + 1);
    }
  }

  lemma {:induction false} SizeToIsSizeOf(items: seq<Content>, k: nat)
    requires k <= |items|
    ensures SizeTo(items, k) == SizeOf(items[..k])
  {
    if k > 0 {
      assert items[..k][..k - 1] == items[..k - 1];
      SizeToIsSizeOf(items, k - 1);
    }
  }

  // ----- the tree as a sequence ----------------------------------------------------------

  // What an iterator goes through in each widget: Items(w, mask), for a fixed mask.
  type Contents = Widget -> seq<Content>

  predicate Fits(f: Contents, w: Widget) {
    SizeFrom(f(w), 0) <= Size(w)
  }

  ghost predicate AllFit(f: Contents) {
    forall w {:trigger Fits(f, w)} :: Fits(f, w)
  }

  lemma ItemsFit(w: Widget, mask: set<Kind>)
    ensures SizeFrom(Items(w, mask), 0) <= Size(w)
  {
    var items := Items(w, mask);
    ItemsSize(w, mask);
    SizeSplit(items, 0);
    SizeToIsSizeOf(items, |items|);
    assert items[..|items|] == items;
  }

  ghost function View(mask: set<Kind>): (f: Contents)
    ensures AllFit(f)
  {
    var f := (w: Widget) => Items(w, mask);
    assert AllFit(f) by {
      forall w {:trigger Fits(f, w)} ensures Fits(f, w) {
        ItemsFit(w, mask);
      }
    }
    f
  }

  // The contents of a widget where the widgets are replaced by their own contents.
  ghost function Flatten(w: Widget, f: Contents): seq<Content>
    requires AllFit(f)
    decreases Size(w) + 1
  {
    assert Fits(f, w);
    FlatFrom(f(w), 0, f)
  }

  ghost function FlatFrom(items: seq<Content>, k: nat, f: Contents): seq<Content>
    requires AllFit(f)
    decreases SizeFrom(items, k)
  {
    if k >= |items| then []
    else
      var c := items[k];
      assert IsWidget(c) ==> PartSize(c) == 2 + Size(c.widget);
      (if IsWidget(c) then Flatten(c.widget, f) else [c]) + FlatFrom(items, k + 1, f)
  }

  ghost function FlatOne(c: Content, f: Contents): seq<Content>
    requires AllFit(f)
  {
    if IsWidget(c) then Flatten(c.widget, f) else [c]
  }

  ghost function FlatTo(items: seq<Content>, k: nat, f: Contents): seq<Content>
    requires AllFit(f) && k <= |items|
  {
    if k == 0 then [] else FlatTo(items, k - 1, f) + FlatOne(items[k - 1], f)
  }

  lemma Assoc<T>(a: seq<T>, b: seq<T>, c: seq<T>)
    ensures a + (b + c) == (a + b) + c
  {
  }

  lemma {:induction false} FlatSplit(items: seq<Content>, k: nat, f: Contents)
    requires AllFit(f) && k <= |items|
    ensures FlatTo(items, k, f) + FlatFrom(items, k, f) == FlatFrom(items, 0, f)
  {
    if k == 0 {
      assert [] + FlatFrom(items, 0, f) == FlatFrom(items, 0, f);
    } else {
      FlatSplit(items, k - 1, f);
      Assoc(FlatTo(items, k - 1, f), FlatOne(items[k - 1], f), FlatFrom(items, k, f));
    }
  }

  lemma FlatToEnd(items: seq<Content>, f: Contents)
    requires AllFit(f)
    ensures FlatTo(items, |items|, f) == FlatFrom(items, 0, f)
  {
    FlatSplit(items, |items|, f);
    assert FlatTo(items, |items|, f) + [] == FlatTo(items, |items|, f);
  }

  // ----- a stack of cursors -------------------------------------------------------------------

  datatype Cursor = Cursor(widget: Widget, pos: int)

  datatype Stack = Bottom(top: Cursor) | On(below: Stack, top: Cursor)

  function Root(s: Stack): Widget {
    if s.Bottom? then s.top.widget else Root(s.below)
  }

  predicate OnItem(c: Cursor, f: Contents) {
    0 <= c.pos < |f(c.widget)|
  }

  predicate OnChild(c: Cursor, f: Contents, w: Widget) {
    OnItem(c, f) && IsWidget(f(c.widget)[c.pos]) && f(c.widget)[c.pos].widget == w
  }

  predicate OnLeaf(c: Cursor, f: Contents) {
    OnItem(c, f) && !IsWidget(f(c.widget)[c.pos])
  }

  predicate InBounds(c: Cursor, f: Contents) {
    -1 <= c.pos <= |f(c.widget)|
  }

  // Each cursor but the top one is on the widget of the next one.
  predicate Linked(s: Stack, f: Contents) {
    InBounds(s.top, f) && (s.On? ==> OnChild(s.below.top, f, s.top.widget) && Linked(s.below, f))
  }

  // What comes before and after the position in the whole tree.
  ghost function Before(s: Stack, f: Contents): seq<Content>
    requires AllFit(f) && Linked(s, f)
  {
    (if s.On? then Before(s.below, f) else []) + FlatTo(f(s.top.widget), Max(s.top.pos, 0), f)
  }

  ghost function After(s: Stack, f: Contents): seq<Content>
    requires AllFit(f) && Linked(s, f)
  {
    FlatFrom(f(s.top.widget), s.top.pos + 1, f) + if s.On? then After(s.below, f) else []
  }

  // One level inside another one, between what is before and what is after it.
  lemma Inside<T>(b: seq<T>, l: seq<T>, x: seq<T>, r: seq<T>, a: seq<T>, level: seq<T>)
    requires level == l + (x + r)
    ensures (b + l) + x + (r + a) == b + level + a
  {
    Assoc(b + l, x, r + a);
    Assoc(b, l, x + (r + a));
    Assoc(x, r, a);
    Assoc(l, x + r, a);
    Assoc(b, l + (x + r), a);
  }

  lemma Around<T>(before: seq<T>, x: seq<T>, after: seq<T>, b: seq<T>, l: seq<T>, r: seq<T>, a: seq<T>, level: seq<T>, whole: seq<T>)
    requires before == b + l && after == r + a && level == l + (x + r) && b + level + a == whole
    ensures before + x + after == whole
  {
    Inside(b, l, x, r, a, level);
  }

  lemma BelowAndLevel(s: Stack, f: Contents)
    requires AllFit(f) && Linked(s, f) && OnItem(s.top, f) && s.On?
    ensures Before(s, f) == Before(s.below, f) + FlatTo(f(s.top.widget), s.top.pos, f)
    ensures After(s, f) == FlatFrom(f(s.top.widget), s.top.pos + 1, f) + After(s.below, f)
  {
  }

  lemma WholeLevel(items: seq<Content>, k: nat, f: Contents)
    requires AllFit(f) && k < |items|
    ensures FlatTo(items, k, f) + (FlatOne(items[k], f) + FlatFrom(items, k + 1, f)) == FlatFrom(items, 0, f)
  {
    FlatSplit(items, k, f);
  }

  ghost predicate IsWhole(s: Stack, f: Contents)
    requires AllFit(f) && Linked(s, f) && OnItem(s.top, f)
  {
    Before(s, f) + FlatOne(f(s.top.widget)[s.top.pos], f) + After(s, f) == Flatten(Root(s), f)
  }

  lemma WholeBottom(s: Stack, f: Contents)
    requires AllFit(f) && Linked(s, f) && OnItem(s.top, f) && s.Bottom?
    ensures IsWhole(s, f)
  {
    var items, k := f(s.top.widget), s.top.pos;
    WholeLevel(items, k, f);
    var level := FlatFrom(items, 0, f);
    Inside([], FlatTo(items, k, f), FlatOne(items[k], f), FlatFrom(items, k + 1, f), [], level);
    assert [] + level + [] == level;
  }

  lemma WholeOn(s: Stack, f: Contents)
    requires AllFit(f) && Linked(s, f) && OnItem(s.top, f) && s.On? && OnItem(s.below.top, f) && IsWhole(s.below, f)
    ensures IsWhole(s, f)
  {
    var items, k := f(s.top.widget), s.top.pos;
    WholeLevel(items, k, f);
    BelowAndLevel(s, f);
    Around(Before(s, f), FlatOne(items[k], f), After(s, f), Before(s.below, f), FlatTo(items, k, f),
           FlatFrom(items, k + 1, f), After(s.below, f), FlatFrom(items, 0, f), Flatten(Root(s), f));
  }

  // The content at the position, between what is before and what is after it, is the whole tree.
  lemma {:induction false} Whole(s: Stack, f: Contents)
    requires AllFit(f) && Linked(s, f) && OnItem(s.top, f)
    ensures Before(s, f) + FlatOne(f(s.top.widget)[s.top.pos], f) + After(s, f) == Flatten(Root(s), f)
  {
    if s.On? {
      Whole(s.below, f);
      WholeOn(s, f);
    } else {
      WholeBottom(s, f);
    }
  }

  // ----- next as a function on the stack -----------------------------------------------------------

  ghost function Ahead(s: Stack, f: Contents): nat {
    (if s.On? then Ahead(s.below, f) else 0) + 1 + SizeFrom(f(s.top.widget), Max(s.top.pos + 1, 0))
  }

  ghost function Behind(s: Stack, f: Contents): nat {
    (if s.On? then Behind(s.below, f) else 0) + 1 + SizeTo(f(s.top.widget), Max(0, Min(s.top.pos, |f(s.top.widget)|)))
  }

  datatype Moved = Found(content: Content) | NotFound

  ghost function MovedPos(c: Cursor, backward: bool, f: Contents): int {
    if backward then Max(c.pos - 1, -1) else Min(c.pos + 1, |f(c.widget)|)
  }

  function AtTop(s: Stack, k: int): Stack {
    s.(top := s.top.(pos := k))
  }

  // Entering a widget leaves less to do, in either direction.
  lemma EnterIsLess(s: Stack, k: int, f: Contents)
    requires AllFit(f) && 0 <= k < |f(s.top.widget)| && IsWidget(f(s.top.widget)[k])
    ensures var w := f(s.top.widget)[k].widget;
            && Ahead(On(AtTop(s, k), Cursor(w, -1)), f) < Ahead(AtTop(s, k - 1), f)
            && Behind(On(AtTop(s, k), Cursor(w, |f(w)|)), f) < Behind(AtTop(s, k + 1), f)
  {
    var items := f(s.top.widget);
    var w := items[k].widget;
    assert Fits(f, w);
    assert PartSize(items[k]) == 2 + Size(w);
    assert SizeFrom(items, k) == PartSize(items[k]) + SizeFrom(items, k + 1);
    SizeSplit(f(w), |f(w)|);
    SizeSplit(f(w), 0);
  }

  // What next or prev do after the top cursor has been moved: an end, or a stack from which
  // the recursion goes on.
  ghost function Resume(s: Stack, backward: bool, f: Contents): (Stack, Option<Moved>) {
    if OnItem(s.top, f) then
      var c := f(s.top.widget)[s.top.pos];
      if IsWidget(c) then (On(s, Cursor(c.widget, if backward then |f(c.widget)| else -1)), None)
      else (s, Some(Found(c)))
    else if s.On? then (s.below, None)
    else (s, Some(NotFound))
  }

  ghost function OneStep(s: Stack, backward: bool, f: Contents): (Stack, Option<Moved>) {
    Resume(AtTop(s, MovedPos(s.top, backward, f)), backward, f)
  }

  lemma NextOneIsLess(s: Stack, f: Contents)
    requires AllFit(f) && Linked(s, f) && OneStep(s, false, f).1.None?
    ensures var t := OneStep(s, false, f).0; Linked(t, f) && Ahead(t, f) < Ahead(s, f)
  {
    var k := s.top.pos + 1;
    if k < |f(s.top.widget)| {
      EnterIsLess(s, k, f);
    }
  }

  ghost function NextStep(s: Stack, f: Contents): (Stack, Moved)
    requires AllFit(f) && Linked(s, f)
    decreases Ahead(s, f)
  {
    var (t, end) := OneStep(s, false, f);
    match end
    case Some(moved) => (t, moved)
    case None => NextOneIsLess(s, f); NextStep(t, f)
  }

  // The new stack is on the first content after the old position, if there is one.
  ghost predicate Follows(was: Stack, s: Stack, moved: Moved, f: Contents)
    requires AllFit(f) && Linked(was, f)
  {
    && Linked(s, f) && Root(s) == Root(was)
    && match moved
       case Found(c) => OnLeaf(s.top, f) && c == f(s.top.widget)[s.top.pos] && After(was, f) == [c] + After(s, f)
       case NotFound => After(was, f) == [] && s == Bottom(Cursor(Root(was), |f(Root(was))|))
  }

  lemma AfterItem(s: Stack, k: nat, f: Contents)
    requires AllFit(f) && Linked(s, f) && s.top.pos + 1 == k < |f(s.top.widget)|
    ensures Linked(AtTop(s, k), f) && Root(AtTop(s, k)) == Root(s)
    ensures After(s, f) == FlatOne(f(s.top.widget)[k], f) + After(AtTop(s, k), f)
  {
    var items := f(s.top.widget);
    Assoc(FlatOne(items[k], f), FlatFrom(items, k + 1, f), if s.On? then After(s.below, f) else []);
  }

  lemma EnterForward(s: Stack, k: nat, f: Contents)
    requires AllFit(f) && Linked(s, f) && s.top.pos + 1 == k < |f(s.top.widget)| && IsWidget(f(s.top.widget)[k])
    ensures var t := On(AtTop(s, k), Cursor(f(s.top.widget)[k].widget, -1));
            Linked(t, f) && Root(t) == Root(s) && After(t, f) == After(s, f)
  {
    AfterItem(s, k, f);
  }

  lemma ForwardToLeaf(s: Stack, k: nat, f: Contents)
    requires AllFit(f) && Linked(s, f) && s.top.pos + 1 == k < |f(s.top.widget)| && !IsWidget(f(s.top.widget)[k])
    ensures Follows(s, AtTop(s, k), Found(f(s.top.widget)[k]), f)
  {
    AfterItem(s, k, f);
  }

  lemma ForwardUp(s: Stack, f: Contents)
    requires AllFit(f) && Linked(s, f) && s.top.pos + 1 >= |f(s.top.widget)|
    ensures s.On? ==> Linked(s.below, f) && Root(s.below) == Root(s) && After(s.below, f) == After(s, f)
    ensures s.Bottom? ==> Follows(s, AtTop(s, |f(s.top.widget)|), NotFound, f)
  {
    if s.On? {
      assert [] + After(s.below, f) == After(s.below, f);
    }
  }

  lemma {:induction false} NextStepFollows(s: Stack, f: Contents)
    requires AllFit(f) && Linked(s, f)
    ensures Follows(s, NextStep(s, f).0, NextStep(s, f).1, f)
    decreases Ahead(s, f)
  {
    var items, k := f(s.top.widget), s.top.pos + 1;
    if k >= |items| {
      ForwardUp(s, f);
      if s.On? {
        NextStepFollows(s.below, f);
      }
    } else if IsWidget(items[k]) {
      EnterIsLess(s, k, f);
      EnterForward(s, k, f);
      NextStepFollows(On(AtTop(s, k), Cursor(items[k].widget, -1)), f);
    } else {
      ForwardToLeaf(s, k, f);
    }
  }

  lemma PrevOneIsLess(s: Stack, f: Contents)
    requires AllFit(f) && Linked(s, f) && OneStep(s, true, f).1.None?
    ensures var t := OneStep(s, true, f).0; Linked(t, f) && Behind(t, f) < Behind(s, f)
  {
    var k := s.top.pos - 1;
    if k >= 0 {
      EnterIsLess(s, k, f);
    }
  }

  ghost function PrevStep(s: Stack, f: Contents): (Stack, Moved)
    requires AllFit(f) && Linked(s, f)
    decreases Behind(s, f)
  {
    var (t, end) := OneStep(s, true, f);
    match end
    case Some(moved) => (t, moved)
    case None => PrevOneIsLess(s, f); PrevStep(t, f)
  }

  // The new stack is on the last content before the old position, if there is one.
  ghost predicate Precedes(was: Stack, s: Stack, moved: Moved, f: Contents)
    requires AllFit(f) && Linked(was, f)
  {
    && Linked(s, f) && Root(s) == Root(was)
    && match moved
       case Found(c) => OnLeaf(s.top, f) && c == f(s.top.widget)[s.top.pos] && Before(was, f) == Before(s, f) + [c]
       case NotFound => Before(was, f) == [] && s == Bottom(Cursor(Root(was), -1))
  }

  lemma BeforeItem(s: Stack, k: nat, f: Contents)
    requires AllFit(f) && Linked(s, f) && s.top.pos - 1 == k
    ensures Linked(AtTop(s, k), f) && Root(AtTop(s, k)) == Root(s)
    ensures Before(s, f) == Before(AtTop(s, k), f) + FlatOne(f(s.top.widget)[k], f)
  {
    var items, rest := f(s.top.widget), if s.On? then Before(s.below, f) else [];
    Assoc(rest, FlatTo(items, k, f), FlatOne(items[k], f));
  }

  lemma EnterBackward(s: Stack, k: nat, f: Contents)
    requires AllFit(f) && Linked(s, f) && s.top.pos - 1 == k && IsWidget(f(s.top.widget)[k])
    ensures var w := f(s.top.widget)[k].widget;
            var t := On(AtTop(s, k), Cursor(w, |f(w)|));
            Linked(t, f) && Root(t) == Root(s) && Before(t, f) == Before(s, f)
  {
    BeforeItem(s, k, f);
    FlatToEnd(f(f(s.top.widget)[k].widget), f);
  }

  lemma BackToLeaf(s: Stack, k: nat, f: Contents)
    requires AllFit(f) && Linked(s, f) && s.top.pos - 1 == k && !IsWidget(f(s.top.widget)[k])
    ensures Precedes(s, AtTop(s, k), Found(f(s.top.widget)[k]), f)
  {
    BeforeItem(s, k, f);
  }

  lemma BackUp(s: Stack, f: Contents)
    requires AllFit(f) && Linked(s, f) && s.top.pos <= 0
    ensures s.On? ==> Linked(s.below, f) && Root(s.below) == Root(s) && Before(s.below, f) == Before(s, f)
    ensures s.Bottom? ==> Precedes(s, AtTop(s, -1), NotFound, f)
  {
    if s.On? {
      assert Before(s.below, f) + [] == Before(s.below, f);
    }
  }

  lemma {:induction false} PrevStepPrecedes(s: Stack, f: Contents)
    requires AllFit(f) && Linked(s, f)
    ensures Precedes(s, PrevStep(s, f).0, PrevStep(s, f).1, f)
    decreases Behind(s, f)
  {
    var items, k := f(s.top.widget), s.top.pos - 1;
    if k < 0 {
      BackUp(s, f);
      if s.On? {
        PrevStepPrecedes(s.below, f);
      }
    } else if IsWidget(items[k]) {
      EnterIsLess(s, k, f);
      EnterBackward(s, k, f);
      PrevStepPrecedes(On(AtTop(s, k), Cursor(items[k].widget, |f(items[k].widget)|)), f);
    } else {
      BackToLeaf(s, k, f);
    }
  }

  // ----- positions in the flattened tree ---------------------------------------------------------

  // Between two calls: on a content that is not a widget, or before or after all of them.
  ghost predicate Placed(s: Stack, state: State, f: Contents) {
    && Linked(s, f)
    && match state
       case AtStart => s == Bottom(Cursor(Root(s), -1))
       case AtEnd => s == Bottom(Cursor(Root(s), |f(Root(s))|))
       case At(c) => OnLeaf(s.top, f) && c == f(s.top.widget)[s.top.pos]
  }

  lemma LeafAtPosition(s: Stack, c: Content, f: Contents)
    requires AllFit(f) && Placed(s, At(c), f)
    ensures var flat, k := Flatten(Root(s), f), |Before(s, f)|;
            k < |flat| && flat[k] == c && |flat| == k + 1 + |After(s, f)|
  {
    Whole(s, f);
  }

  ghost function Position(s: Stack, state: State, f: Contents): (k: int)
    requires AllFit(f) && Placed(s, state, f)
    ensures -1 <= k <= |Flatten(Root(s), f)|
    ensures state.At? ==> 0 <= k < |Flatten(Root(s), f)| && Flatten(Root(s), f)[k] == state.content
  {
    match state
    case AtStart => -1
    case AtEnd => |Flatten(Root(s), f)|
    case At(c) => LeafAtPosition(s, c, f); |Before(s, f)|
  }

  function StateOf(moved: Moved, end: State): State {
    match moved
    case Found(c) => At(c)
    case NotFound => end
  }

  lemma NextPosition(was: Stack, state: State, s: Stack, moved: Moved, f: Contents)
    requires AllFit(f) && Placed(was, state, f) && Follows(was, s, moved, f)
    ensures Placed(s, StateOf(moved, AtEnd), f)
    ensures Position(s, StateOf(moved, AtEnd), f) == Min(Position(was, state, f) + 1, |Flatten(Root(was), f)|)
    ensures moved.Found? <==> Position(was, state, f) + 1 < |Flatten(Root(was), f)|
  {
    if state.At? {
      LeafAtPosition(was, state.content, f);
    } else if state.AtStart? {
      assert After(was, f) == FlatFrom(f(was.top.widget), 0, f) + [];
    } else {
      assert After(was, f) == [];
    }
    if moved.Found? {
      LeafAtPosition(s, moved.content, f);
    }
  }

  lemma PrevPosition(was: Stack, state: State, s: Stack, moved: Moved, f: Contents)
    requires AllFit(f) && Placed(was, state, f) && Precedes(was, s, moved, f)
    ensures Placed(s, StateOf(moved, AtStart), f)
    ensures Position(s, StateOf(moved, AtStart), f) == Max(Position(was, state, f) - 1, -1)
    ensures moved.Found? <==> Position(was, state, f) > 0
  {
    if state.At? {
      LeafAtPosition(was, state.content, f);
    } else if state.AtEnd? {
      FlatToEnd(f(was.top.widget), f);
      assert Before(was, f) == [] + FlatTo(f(was.top.widget), |f(was.top.widget)|, f);
    } else {
      assert Before(was, f) == [];
    }
    if moved.Found? {
      LeafAtPosition(s, moved.content, f);
    }
  }

  // ----- the stack as a list -----------------------------------------------------------------------

  ghost function ToStack(cs: seq<Cursor>): Stack
    requires cs != []
  {
    if |cs| == 1 then Bottom(cs[0]) else On(ToStack(cs[..|cs| - 1]), cs[|cs| - 1])
  }

  lemma ToStackPush(cs: seq<Cursor>, c: Cursor)
    requires cs != []
    ensures ToStack(cs + [c]) == On(ToStack(cs), c)
  {
    assert (cs + [c])[..|cs|] == cs;
  }

  lemma ToStackMove(cs: seq<Cursor>, k: int)
    requires cs != []
    ensures ToStack(cs).top == cs[|cs| - 1]
    ensures ToStack(cs[|cs| - 1 := Cursor(cs[|cs| - 1].widget, k)]) == AtTop(ToStack(cs), k)
  {
    assert cs[|cs| - 1 := Cursor(cs[|cs| - 1].widget, k)][..|cs| - 1] == cs[..|cs| - 1];
  }

  // ----- the order of two positions ------------------------------------------------------------

  lemma {:induction false} LinkedAt(cs: seq<Cursor>, f: Contents, l: nat)
    requires cs != [] && Linked(ToStack(cs), f) && l < |cs|
    ensures Root(ToStack(cs)) == cs[0].widget && Linked(ToStack(cs[..l + 1]), f) && InBounds(cs[l], f)
    ensures l + 1 < |cs| ==> OnChild(cs[l], f, cs[l + 1].widget)
  {
    if l + 1 < |cs| {
      var t := cs[..|cs| - 1];
      LinkedAt(t, f, l);
      assert t[..l + 1] == cs[..l + 1];
    } else {
      assert cs[..l + 1] == cs;
      if |cs| > 1 {
        LinkedAt(cs[..|cs| - 1], f, 0);
      }
    }
  }

  lemma {:induction false} FlatToGrows(items: seq<Content>, j: nat, k: nat, f: Contents)
    requires AllFit(f) && j <= k <= |items|
    ensures |FlatTo(items, j, f)| <= |FlatTo(items, k, f)|
  {
    if j < k {
      FlatToGrows(items, j, k - 1, f);
    }
  }

  ghost function BelowLength(cs: seq<Cursor>, l: nat, f: Contents): nat
    requires AllFit(f) && l < |cs| && Linked(ToStack(cs), f)
  {
    if l == 0 then 0 else LinkedAt(cs, f, l - 1); |Before(ToStack(cs[..l]), f)|
  }

  // What comes before the item k on a level.
  ghost function LengthAt(cs: seq<Cursor>, l: nat, k: nat, f: Contents): nat
    requires AllFit(f) && l < |cs| && Linked(ToStack(cs), f) && k <= |f(cs[l].widget)|
  {
    BelowLength(cs, l, f) + |FlatTo(f(cs[l].widget), k, f)|
  }

  lemma LengthAtGrows(cs: seq<Cursor>, l: nat, j: nat, k: nat, f: Contents)
    requires AllFit(f) && l < |cs| && Linked(ToStack(cs), f) && j <= k <= |f(cs[l].widget)|
    ensures LengthAt(cs, l, j, f) <= LengthAt(cs, l, k, f)
  {
    FlatToGrows(f(cs[l].widget), j, k, f);
  }

  // A position lies between the beginning and the end of the item on any level.
  lemma {:induction false} WithinItem(cs: seq<Cursor>, l: nat, f: Contents)
    requires AllFit(f) && l < |cs| && Linked(ToStack(cs), f) && OnItem(cs[|cs| - 1], f)
    ensures OnItem(cs[l], f)
    ensures LengthAt(cs, l, cs[l].pos, f) <= |Before(ToStack(cs), f)|
    ensures |Before(ToStack(cs), f)| + |FlatOne(f(cs[|cs| - 1].widget)[cs[|cs| - 1].pos], f)| <= LengthAt(cs, l, cs[l].pos + 1, f)
    decreases |cs|
  {
    var top := cs[|cs| - 1];
    if l < |cs| - 1 {
      var t := cs[..|cs| - 1];
      assert l > 0 ==> t[..l] == cs[..l];
      WithinItem(t, l, f);
      assert LengthAt(t, l, t[l].pos + 1, f) == LengthAt(cs, l, t[l].pos + 1, f);
      WithinChild(top, f);
    }
  }

  lemma WithinChild(c: Cursor, f: Contents)
    requires AllFit(f) && OnItem(c, f)
    ensures |FlatTo(f(c.widget), c.pos, f)| + |FlatOne(f(c.widget)[c.pos], f)| <= |Flatten(c.widget, f)|
  {
    FlatToEnd(f(c.widget), f);
    FlatToGrows(f(c.widget), c.pos + 1, |f(c.widget)|, f);
  }

  ghost predicate DistinctChildren(w: Widget, f: Contents) {
    forall i, j {:trigger f(w)[i], f(w)[j]} :: 0 <= i < j < |f(w)| && IsWidget(f(w)[i]) && IsWidget(f(w)[j]) ==> f(w)[i].widget != f(w)[j].widget
  }

  // The highest level on which the widgets are the same.
  ghost predicate IsCommonLevel(cs: seq<Cursor>, ds: seq<Cursor>, level: nat) {
    && level < |cs| && level < |ds|
    && (forall l {:trigger cs[l]} {:trigger ds[l]} :: 0 <= l <= level ==> cs[l].widget == ds[l].widget)
    && (level + 1 < |cs| && level + 1 < |ds| ==> cs[level + 1].widget != ds[level + 1].widget)
  }

  lemma SameBelow(cs: seq<Cursor>, ds: seq<Cursor>, level: nat, f: Contents)
    requires cs != [] && ds != [] && Linked(ToStack(cs), f) && Linked(ToStack(ds), f)
    requires IsCommonLevel(cs, ds, level) && forall c :: c in cs ==> DistinctChildren(c.widget, f)
    ensures cs[..level] == ds[..level]
  {
    forall l | 0 <= l < level ensures cs[l] == ds[l] {
      LinkedAt(cs, f, l);
      LinkedAt(ds, f, l);
      assert cs[l].widget == ds[l].widget && cs[l + 1].widget == ds[l + 1].widget;
      assert DistinctChildren(cs[l].widget, f);
    }
  }

  lemma SameLength(cs: seq<Cursor>, ds: seq<Cursor>, level: nat, k: nat, f: Contents)
    requires AllFit(f) && cs != [] && ds != [] && Linked(ToStack(cs), f) && Linked(ToStack(ds), f)
    requires level < |cs| && level < |ds| && k <= |f(cs[level].widget)|
    requires cs[..level] == ds[..level] && cs[level].widget == ds[level].widget
    ensures LengthAt(cs, level, k, f) == LengthAt(ds, level, k, f)
  {
  }

  lemma LaterAtLevel(cs: seq<Cursor>, ds: seq<Cursor>, level: nat, f: Contents)
    requires AllFit(f) && cs != [] && ds != [] && Linked(ToStack(cs), f) && Linked(ToStack(ds), f)
    requires OnLeaf(cs[|cs| - 1], f) && OnLeaf(ds[|ds| - 1], f) && level < |cs| && level < |ds|
    requires cs[..level] == ds[..level] && cs[level].widget == ds[level].widget && cs[level].pos < ds[level].pos
    ensures |Before(ToStack(cs), f)| < |Before(ToStack(ds), f)|
  {
    WithinItem(cs, level, f);
    WithinItem(ds, level, f);
    var k := ds[level].pos;
    LengthAtGrows(cs, level, cs[level].pos + 1, k, f);
    SameLength(cs, ds, level, k, f);
  }

  lemma SameAtLevel(cs: seq<Cursor>, ds: seq<Cursor>, level: nat, f: Contents)
    requires AllFit(f) && cs != [] && ds != [] && Linked(ToStack(cs), f) && Linked(ToStack(ds), f)
    requires OnLeaf(cs[|cs| - 1], f) && OnLeaf(ds[|ds| - 1], f) && IsCommonLevel(cs, ds, level)
    requires cs[..level] == ds[..level] && cs[level] == ds[level]
    ensures cs == ds
  {
    LinkedAt(cs, f, level);
    LinkedAt(ds, f, level);
    assert level + 1 == |cs| && level + 1 == |ds|;
    assert cs == cs[..level] + [cs[level]];
  }

  // The order of two positions is the order of the cursors on that level.
  lemma LevelOrder(cs: seq<Cursor>, st: State, ds: seq<Cursor>, su: State, level: nat, f: Contents)
    requires AllFit(f) && cs != [] && ds != [] && Placed(ToStack(cs), st, f) && Placed(ToStack(ds), su, f)
    requires IsCommonLevel(cs, ds, level) && forall c :: c in cs ==> DistinctChildren(c.widget, f)
    ensures Sign(cs[level].pos - ds[level].pos) == Sign(Position(ToStack(cs), st, f) - Position(ToStack(ds), su, f))
  {
    LinkedAt(cs, f, level);
    LinkedAt(ds, f, level);
    if st.At? {
      LeafAtPosition(ToStack(cs), st.content, f);
      WithinItem(cs, level, f);
    }
    if su.At? {
      LeafAtPosition(ToStack(ds), su.content, f);
      WithinItem(ds, level, f);
    }
    if st.At? && su.At? {
      SameBelow(cs, ds, level, f);
      if cs[level].pos < ds[level].pos {
        LaterAtLevel(cs, ds, level, f);
      } else if cs[level].pos > ds[level].pos {
        LaterAtLevel(ds, cs, level, f);
      } else {
        SameAtLevel(cs, ds, level, f);
      }
    }
  }

  // ----- the iterator ------------------------------------------------------------------------------

  // The iterator is at this position of the contents.
  ghost predicate Represents(it: OOFAwareWidgetIterator, c: Cursor, mask: set<Kind>, f: Contents)
    reads it
  {
    match c
    case Cursor(widget, pos) =>
      it.Valid() && it.mask == mask && it.widget == widget && it.Pos() == pos && f(widget) == Items(widget, mask)
  }

  // Not at an END that has been made for a widget without parts: the clone of this is at START.
  predicate IsCloneable(it: OOFAwareWidgetIterator)
    reads it
  {
    it.state.AtEnd? ==> it.sectionIndex >= 0
  }

  method Move(it: OOFAwareWidgetIterator, backward: bool, ghost mask: set<Kind>, ghost c: Cursor, ghost f: Contents)
    returns (ok: bool, content: State)
    requires Represents(it, c, mask, f)
    modifies it
    ensures old(IsCloneable(it)) ==> IsCloneable(it)
    ensures var k := MovedPos(c, backward, f);
            && Represents(it, Cursor(c.widget, k), mask, f) && -1 <= c.pos <= |f(c.widget)|
            && ok == (0 <= k < |f(c.widget)|) && (ok ==> content == At(f(c.widget)[k]))
  {
    if backward {
      ok := it.Prev();
    } else {
      ok := it.Next();
    }
    content := it.state;
  }

  ghost predicate IsView(f: Contents, mask: set<Kind>) {
    f == View(mask)
  }

  method NewIterator(w: Widget, mask: set<Kind>, atEnd: bool, ghost f: Contents) returns (it: OOFAwareWidgetIterator)
    requires IsView(f, mask)
    ensures fresh(it) && Represents(it, Cursor(w, if atEnd then |f(w)| else -1), mask, f)
  {
    it := new OOFAwareWidgetIterator(w, mask, atEnd);
  }

  class DeepIterator {
    const mask: set<Kind>
    ghost const items: Contents
    var stack: seq<OOFAwareWidgetIterator>
    var state: State
    ghost var cursors: seq<Cursor>                  // what the iterators on the stack are
    ghost var repr: set<OOFAwareWidgetIterator>     // all iterators that have been on the stack

    ghost predicate Distinct()
      reads `stack, `repr
    {
      && stack != []
      && (forall i, j {:trigger stack[i], stack[j]} :: 0 <= i < j < |stack| ==> stack[i] != stack[j])
      && (forall i {:trigger stack[i]} :: 0 <= i < |stack| ==> stack[i] in repr)
    }

    ghost predicate Stands(cs: seq<Cursor>)
      requires Distinct()
      reads `stack, `repr, repr
    {
      && |cs| == |stack|
      && (forall i {:trigger stack[i]} {:trigger cs[i]} :: 0 <= i < |stack| ==> Represents(stack[i], cs[i], mask, items))
    }

    ghost predicate Stacked()
      reads this, repr
    {
      Distinct() && Stands(cursors) && IsCloneable(stack[0])
    }

    method Push(w: Widget, atEnd: bool)
      requires Stacked() && IsView(items, mask)
      modifies `stack, `cursors, `repr
      ensures Stacked() && fresh(repr - old(repr)) && |cursors| == |old(cursors)| + 1
      ensures ToStack(cursors) == On(ToStack(old(cursors)), Cursor(w, if atEnd then |items(w)| else -1))
    {
      var it := NewIterator(w, mask, atEnd, items);
      ToStackPush(cursors, Cursor(w, if atEnd then |items(w)| else -1));
      repr := repr + {it};
      stack := stack + [it];
      cursors := cursors + [Cursor(w, if atEnd then |items(w)| else -1)];
    }

    method Pop()
      requires Stacked() && |stack| > 1
      modifies `stack, `cursors
      ensures Stacked() && old(ToStack(cursors)).On? && ToStack(cursors) == old(ToStack(cursors)).below
    {
      stack, cursors := stack[..|stack| - 1], cursors[..|stack| - 1];
    }

    ghost function MovedCursors(backward: bool): seq<Cursor>
      requires Stacked()
      reads this, repr
    {
      var top := cursors[|stack| - 1];
      cursors[|stack| - 1 := Cursor(top.widget, MovedPos(top, backward, items))]
    }

    method MoveLast(backward: bool) returns (ok: bool, content: State)
      requires Stacked()
      modifies repr
      ensures Distinct() && Stands(old(MovedCursors(backward))) && IsCloneable(stack[0])
      ensures var top := old(MovedCursors(backward))[|stack| - 1];
              && InBounds(old(cursors)[|stack| - 1], items) && ok == OnItem(top, items)
              && (ok ==> content == At(items(top.widget)[top.pos]))
    {
      ghost var cs, top := MovedCursors(backward), cursors[|stack| - 1];
      var it := stack[|stack| - 1];
      ok, content := Move(it, backward, mask, top, items);
      forall i {:trigger stack[i]} {:trigger cs[i]} | 0 <= i < |stack| ensures Represents(stack[i], cs[i], mask, items) {
        assert i < |stack| - 1 ==> cs[i] == cursors[i] && stack[i] != it;
      }
    }

    method MoveTop(backward: bool) returns (ok: bool, content: State)
      requires Stacked()
      modifies repr, `cursors
      ensures Stacked() && |cursors| == |old(cursors)|
      ensures InBounds(old(ToStack(cursors)).top, items)
      ensures ToStack(cursors) == AtTop(old(ToStack(cursors)), MovedPos(old(ToStack(cursors)).top, backward, items))
      ensures ok == OnItem(ToStack(cursors).top, items)
      ensures ok ==> content == At(items(ToStack(cursors).top.widget)[ToStack(cursors).top.pos])
    {
      ToStackMove(cursors, MovedPos(cursors[|stack| - 1], backward, items));
      ghost var cs := MovedCursors(backward);
      ok, content := MoveLast(backward);
      cursors := cs;
    }

    method Continue(backward: bool, content: State) returns (end: Option<Moved>)
      requires Stacked() && IsView(items, mask)
      requires OnItem(ToStack(cursors).top, items) ==> content == At(items(ToStack(cursors).top.widget)[ToStack(cursors).top.pos])
      requires !OnItem(ToStack(cursors).top, items) ==> content == if backward then AtStart else AtEnd
      modifies this
      ensures Stacked() && fresh(repr - old(repr))
      ensures (ToStack(cursors), end) == Resume(old(ToStack(cursors)), backward, items)
      ensures end.Some? ==> state == content && content == StateOf(end.value, if backward then AtStart else AtEnd)
    {
      if content.At? {
        if IsWidget(content.content) {
          Push(content.content.widget, backward);
          end := None;
        } else {
          state := content;
          end := Some(Found(content.content));
        }
      } else if |stack| > 1 {
        Pop();
        end := None;
      } else {
        state := content;
        end := Some(NotFound);
      }
    }

    // next and prev up to the recursive call.
    method MoveOnce(backward: bool) returns (end: Option<Moved>)
      requires Stacked() && IsView(items, mask)
      modifies this, repr
      ensures Stacked() && fresh(repr - old(repr)) && InBounds(old(ToStack(cursors)).top, items)
      ensures (ToStack(cursors), end) == OneStep(old(ToStack(cursors)), backward, items)
      ensures end.Some? ==> state == StateOf(end.value, if backward then AtStart else AtEnd)
    {
      var ok, content := MoveTop(backward);
      end := Continue(backward, if ok then content else if backward then AtStart else AtEnd);
    }

    // The recursion of next.
    method Forward() returns (moved: Moved)
      requires Stacked() && IsView(items, mask) && AllFit(items) && Linked(ToStack(cursors), items)
      modifies this, repr
      ensures Stacked() && fresh(repr - old(repr))
      ensures (ToStack(cursors), moved) == NextStep(old(ToStack(cursors)), items)
      ensures state == StateOf(moved, AtEnd)
      decreases Ahead(ToStack(cursors), items)
    {
      var end := MoveOnce(false);
      if end.None? {
        NextOneIsLess(old(ToStack(cursors)), items);
        moved := Forward();
      } else {
        moved := end.value;
      }
    }

    // The recursion of prev.
    method Backward() returns (moved: Moved)
      requires Stacked() && IsView(items, mask) && AllFit(items) && Linked(ToStack(cursors), items)
      modifies this, repr
      ensures Stacked() && fresh(repr - old(repr))
      ensures (ToStack(cursors), moved) == PrevStep(old(ToStack(cursors)), items)
      ensures state == StateOf(moved, AtStart)
      decreases Behind(ToStack(cursors), items)
    {
      var end := MoveOnce(true);
      if end.None? {
        PrevOneIsLess(old(ToStack(cursors)), items);
        moved := Backward();
      } else {
        moved := end.value;
      }
    }

    ghost predicate Sound()
      reads this, repr
    {
      Stacked() && IsView(items, mask) && AllFit(items)
    }

    ghost predicate Valid()
      reads this, repr
    {
      match state
      case At(c) => Sound() && Placed(ToStack(cursors), At(c), items)
      case end => Sound() && Placed(ToStack(cursors), end, items)
    }

    // The contents of the whole tree that pass the mask, and the place among them.
    ghost function Flat(): seq<Content>
      requires Valid()
      reads this, repr
    {
      Flatten(Root(ToStack(cursors)), items)
    }

    ghost function Pos(): (k: int)
      requires Valid()
      reads this, repr
      ensures -1 <= k <= |Flat()| && (state.At? ==> 0 <= k < |Flat()| && Flat()[k] == state.content)
    {
      Position(ToStack(cursors), state, items)
    }

    // For an iterator at the start or at the end of a widget without a parent: it is cloned first.
    constructor (from: OOFAwareWidgetIterator)
      requires from.Valid() && !from.state.At?
      ensures Valid() && fresh(repr) && mask == from.mask && Flat() == Flatten(from.widget, View(mask))
      ensures state == (if IsCloneable(from) then from.state else AtStart) && !state.At?
      ensures Pos() == if state.AtStart? then -1 else |Flat()|
    {
      mask, items := from.mask, View(from.mask);
      var it := new OOFAwareWidgetIterator.Clone(from);
      stack, state, cursors, repr := [it], it.state, [Cursor(from.widget, it.Pos())], {it};
    }

    lemma AllAreCloneable(i: nat)
      requires Valid() && i < |stack|
      ensures Represents(stack[i], cursors[i], mask, items) && IsCloneable(stack[i])
    {
      LevelStates(i);
    }

    // clone: every iterator on the stack is cloned.
    constructor Clone(other: DeepIterator)
      requires other.Valid()
      ensures Valid() && fresh(repr) && mask == other.mask && state == other.state
      ensures Flat() == other.Flat() && Pos() == other.Pos()
    {
      mask, items := other.mask, other.items;
      stack, state, cursors, repr := [], other.state, other.cursors, {};
      new;
      for i := 0 to |other.stack|
        invariant mask == other.mask && items == other.items && state == other.state && cursors == other.cursors
        invariant |stack| == i && fresh(repr) && PartlyStacked(i)
      {
        other.AllAreCloneable(i);
        CloneOnto(other.stack[i]);
      }
    }

    // The first i iterators are on the stack.
    ghost predicate PartlyStacked(i: nat)
      reads this, repr
    {
      && i == |stack| <= |cursors|
      && (forall k {:trigger stack[k]} :: 0 <= k < i ==> stack[k] in repr)
      && (forall j, k {:trigger stack[j], stack[k]} :: 0 <= j < k < i ==> stack[j] != stack[k])
      && (forall k {:trigger stack[k]} {:trigger cursors[k]} :: 0 <= k < i ==> Represents(stack[k], cursors[k], mask, items) && IsCloneable(stack[k]))
    }

    method CloneOnto(other: OOFAwareWidgetIterator)
      requires PartlyStacked(|stack|) && |stack| < |cursors|
      requires Represents(other, cursors[|stack|], mask, items) && IsCloneable(other)
      modifies `stack, `repr
      ensures |stack| == |old(stack)| + 1 && PartlyStacked(|stack|) && fresh(repr - old(repr))
    {
      var it := new OOFAwareWidgetIterator.Clone(other);
      stack, repr := stack + [it], repr + {it};
    }

    method Next() returns (found: bool)
      requires Valid()
      modifies this, repr
      ensures Valid() && fresh(repr - old(repr)) && Flat() == old(Flat())
      ensures Pos() == Min(old(Pos()) + 1, |Flat()|)
      ensures found == (Pos() < |Flat()|) && state == if found then At(Flat()[Pos()]) else AtEnd
    {
      ghost var s := ToStack(cursors);
      NextStepFollows(s, items);
      var moved := Forward();
      NextPosition(s, old(state), ToStack(cursors), moved, items);
      found := moved.Found?;
    }

    method Prev() returns (found: bool)
      requires Valid()
      modifies this, repr
      ensures Valid() && fresh(repr - old(repr)) && Flat() == old(Flat())
      ensures Pos() == Max(old(Pos()) - 1, -1)
      ensures found == (0 <= Pos() < |Flat()|) && state == if found then At(Flat()[Pos()]) else AtStart
    {
      ghost var s := ToStack(cursors);
      PrevStepPrecedes(s, items);
      var moved := Backward();
      PrevPosition(s, old(state), ToStack(cursors), moved, items);
      found := moved.Found?;
    }

    // The search of compareTo.
    method CommonLevel(other: DeepIterator) returns (level: nat)
      requires stack != [] && other.stack != [] && other.stack[0].widget == stack[0].widget
      ensures level < |stack| && level < |other.stack|
      ensures forall l {:trigger stack[l]} {:trigger other.stack[l]} :: 0 <= l <= level ==> stack[l].widget == other.stack[l].widget
      ensures level + 1 < |stack| && level + 1 < |other.stack| ==> stack[level + 1].widget != other.stack[level + 1].widget
    {
      level := 0;
      while stack[level].widget == other.stack[level].widget
        invariant level < |stack| && level < |other.stack|
        invariant forall l {:trigger stack[l]} {:trigger other.stack[l]} :: 0 <= l < level ==> stack[l].widget == other.stack[l].widget
        decreases |stack| - level
      {
        if level == |stack| - 1 || level == |other.stack| - 1 {
          break;
        }
        level := level + 1;
      }
      while stack[level].widget != other.stack[level].widget
        invariant level < |stack| && level < |other.stack|
        invariant forall l {:trigger stack[l]} {:trigger other.stack[l]} :: 0 <= l < level ==> stack[l].widget == other.stack[l].widget
        invariant level + 1 < |stack| && level + 1 < |other.stack| ==>
                    stack[level].widget != other.stack[level].widget || stack[level + 1].widget != other.stack[level + 1].widget
        decreases level
      {
        level := level - 1;
      }
    }

    lemma CommonCursors(other: DeepIterator, level: nat)
      requires Stacked() && other.Stacked() && level < |stack| && level < |other.stack|
      requires forall l {:trigger stack[l]} {:trigger other.stack[l]} :: 0 <= l <= level ==> stack[l].widget == other.stack[l].widget
      requires level + 1 < |stack| && level + 1 < |other.stack| ==> stack[level + 1].widget != other.stack[level + 1].widget
      ensures IsCommonLevel(cursors, other.cursors, level)
    {
      forall l | 0 <= l < |stack| ensures cursors[l].widget == stack[l].widget {
        assert Represents(stack[l], cursors[l], mask, items);
      }
      forall l | 0 <= l < |other.stack| ensures other.cursors[l].widget == other.stack[l].widget {
        assert Represents(other.stack[l], other.cursors[l], other.mask, other.items);
      }
    }

    // The iterators on one level; only at the ends of the root widget they may have no content.
    lemma LevelStates(level: nat)
      requires Valid() && level < |stack|
      ensures IsLevel(level) && stack[level].Pos() == cursors[level].pos && stack[level].widget == cursors[level].widget
      ensures state.At? || level == 0
    {
      assert Represents(stack[level], cursors[level], mask, items);
      LinkedAt(cursors, items, level);
      if state.At? {
        WithinItem(cursors, level, items);
        assert Items(stack[level].widget, mask) != [];
      }
    }

    ghost predicate IsComparable(other: DeepIterator)
      reads this, repr, other, other.repr
    {
      && Valid() && other.Valid() && other.mask == mask && other.stack[0].widget == stack[0].widget
      && forall c :: c in cursors ==> DistinctChildren(c.widget, items)
    }

    // The iterators on the common level are in the order of the whole ones.
    lemma LevelPositions(other: DeepIterator, level: nat)
      requires IsComparable(other) && level < |stack| && level < |other.stack|
      requires IsCommonLevel(cursors, other.cursors, level)
      ensures IsLevel(level) && other.IsLevel(level)
      ensures stack[level].widget == other.stack[level].widget
      ensures Sign(stack[level].Pos() - other.stack[level].Pos()) == Sign(Pos() - other.Pos())
      ensures state.At? || other.state.At? || level == 0
    {
      assert other.items == items;
      LevelStates(level);
      other.LevelStates(level);
      LevelOrder(cursors, state, other.cursors, other.state, level, items);
    }

    // What the comparison needs to know about an iterator on the stack.
    ghost predicate IsLevel(level: nat)
      reads this, repr, stack
    {
      && level < |stack| && stack[level].Valid() && stack[level].mask == mask
      && (stack[level].state.At? <==> state.At?) && (stack[level].state.AtStart? <==> state.AtStart?)
      && (stack[level].state.AtEnd? <==> state.AtEnd?)
    }

    lemma CommonPositions(other: DeepIterator, level: nat)
      requires IsComparable(other) && level < |stack| && level < |other.stack|
      requires forall l {:trigger stack[l]} {:trigger other.stack[l]} :: 0 <= l <= level ==> stack[l].widget == other.stack[l].widget
      requires level + 1 < |stack| && level + 1 < |other.stack| ==> stack[level + 1].widget != other.stack[level + 1].widget
      ensures IsLevel(level) && other.IsLevel(level)
      ensures Sign(stack[level].Pos() - other.stack[level].Pos()) == Sign(Pos() - other.Pos())
      ensures state.At? || other.state.At? || level == 0
    {
      CommonCursors(other, level);
      LevelPositions(other, level);
    }

    method OrderedLevel(other: DeepIterator) returns (level: nat)
      requires IsComparable(other)
      ensures IsLevel(level) && other.IsLevel(level) && stack[level].widget == other.stack[level].widget
      ensures Sign(stack[level].Pos() - other.stack[level].Pos()) == Sign(Pos() - other.Pos())
      ensures state.At? || other.state.At? || level == 0
    {
      level := CommonLevel(other);
      CommonPositions(other, level);
    }

    method CompareLevel(other: DeepIterator, level: nat) returns (r: int)
      requires IsLevel(level) && other.IsLevel(level) && other.mask == mask
      requires stack[level].widget == other.stack[level].widget && (state.At? || other.state.At? || level == 0)
      ensures Sign(r) == Sign(stack[level].Pos() - other.stack[level].Pos())
              <==> state.At? || other.state.At? || stack[0].EndsInOrder(other.stack[0])
    {
      r := stack[level].CompareTo(other.stack[level]);
    }

    // The iterators must go through the same tree in the same way.  The sign is the order of
    // the positions, with the same exception at the ends as for one widget.
    method CompareTo(other: DeepIterator) returns (r: int)
      requires IsComparable(other)
      ensures Sign(r) == Sign(Pos() - other.Pos()) <==> state.At? || other.state.At? || stack[0].EndsInOrder(other.stack[0])
    {
      var level := OrderedLevel(other);
      r := CompareLevel(other, level);
    }
  }
}
