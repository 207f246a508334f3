// Crossing events: dw/layout.cc:1158-1241, dw/widget.cc:1578-1657.
module Crossing {
  class Widget {
    const parent: Widget?
    ghost const level: nat   // the length of the way to the top

    constructor (parent: Widget?)
      requires parent == null || IsRooted(parent)
      ensures this.parent == parent && IsRooted(this)
    {
      this.parent := parent;
      level := if parent == null then 0 else parent.level + 1;
    }
  }

  // The parents form a tree.
  ghost predicate IsRooted(w: Widget)
    decreases w.level
  {
    if w.parent == null then w.level == 0 else w.level == w.parent.level + 1 && IsRooted(w.parent)
  }

  // A widget and its ancestors, bottom-up.
  ghost function Chain(w: Widget): (r: seq<Widget>)
    requires IsRooted(w)
    ensures |r| == w.level + 1 && r[0] == w
    decreases w.level
  {
    [w] + if w.parent == null then [] else Chain(w.parent)
  }

  ghost function Elements<T>(s: seq<T>): set<T> {
    set x | x in s
  }

  ghost function ChainSet(w: Widget?): set<Widget>
    requires w != null ==> IsRooted(w)
  {
    if w == null then {} else Elements(Chain(w))
  }

  lemma {:induction false} ChainAt(w: Widget, i: nat)
    requires IsRooted(w) && i <= w.level
    ensures IsRooted(Chain(w)[i]) && Chain(w)[i].level == w.level - i && Chain(w)[i..] == Chain(Chain(w)[i])
    decreases w.level
  {
    if i > 0 {
      ChainAt(w.parent, i - 1);
      assert Chain(w)[i..] == Chain(w.parent)[i - 1..];
    }
  }

  // ----- getNearestCommonAncestor ------------------------------------------------------------

  ghost function Nearest(v: Widget, w: Widget): (a: Widget?)
    requires IsRooted(v) && IsRooted(w)
    ensures a != null ==> IsRooted(a) && a.level <= v.level && a.level <= w.level
    decreases v.level + w.level
  {
    if v.level > w.level then Nearest(v.parent, w)
    else if w.level > v.level then Nearest(v, w.parent)
    else if v == w then v
    else if v.parent == null then null
    else Nearest(v.parent, w.parent)
  }

  // The ancestor is in its place in the chain.
  ghost predicate IsBelow(w: Widget, ancestor: Widget) {
    IsRooted(w) && IsRooted(ancestor) && ancestor.level <= w.level && Chain(w)[w.level - ancestor.level] == ancestor
  }

  lemma BelowParent(w: Widget, ancestor: Widget)
    requires IsRooted(w) && w.parent != null && IsBelow(w.parent, ancestor)
    ensures IsBelow(w, ancestor)
  {
    var k := w.parent.level - ancestor.level;
    assert Chain(w) == [w] + Chain(w.parent);
    assert Chain(w)[k + 1] == Chain(w.parent)[k];
  }

  lemma {:induction false} NearestIsCommon(v: Widget, w: Widget)
    requires IsRooted(v) && IsRooted(w) && Nearest(v, w) != null
    ensures IsBelow(v, Nearest(v, w)) && IsBelow(w, Nearest(v, w))
    decreases v.level + w.level
  {
    var a := Nearest(v, w);
    if v.level > w.level {
      NearestIsCommon(v.parent, w);
      BelowParent(v, a);
    } else if w.level > v.level {
      NearestIsCommon(v, w.parent);
      BelowParent(w, a);
    } else if v != w {
      NearestIsCommon(v.parent, w.parent);
      BelowParent(v, a);
      BelowParent(w, a);
    }
  }

  // No common ancestor is below it.
  lemma {:induction false} NearestIsNearest(v: Widget, w: Widget, x: Widget)
    requires IsRooted(v) && IsRooted(w) && x in Chain(v) && x in Chain(w)
    ensures Nearest(v, w) != null && x.level <= Nearest(v, w).level
    decreases v.level + w.level
  {
    LevelInChain(v, x);
    LevelInChain(w, x);
    if v.level > w.level {
      assert x in Chain(v.parent);
      NearestIsNearest(v.parent, w, x);
    } else if w.level > v.level {
      assert x in Chain(w.parent);
      NearestIsNearest(v, w.parent, x);
    } else if v != w {
      LevelOfSelf(v, w, x);
      NearestIsNearest(v.parent, w.parent, x);
    }
  }

  lemma LevelInChain(w: Widget, x: Widget)
    requires IsRooted(w) && x in Chain(w)
    ensures x.level <= w.level && (x.level == w.level ==> x == w)
  {
    var i :| 0 <= i < |Chain(w)| && Chain(w)[i] == x;
    ChainAt(w, i);
  }

  lemma LevelOfSelf(v: Widget, w: Widget, x: Widget)
    requires IsRooted(v) && IsRooted(w) && x in Chain(v) && x in Chain(w) && v != w && v.level == w.level
    ensures v.parent != null && w.parent != null && x in Chain(v.parent) && x in Chain(w.parent)
  {
    LevelInChain(v, x);
    LevelInChain(w, x);
    assert x != v && x != w;
  }

  method GetLevel(w: Widget) returns (level: nat)
    requires IsRooted(w)
    ensures level == w.level
  {
    var v: Widget := w;
    level := 0;
    while v.parent != null
      invariant IsRooted(v) && level + v.level == w.level
      decreases v.level
    {
      level := level + 1;
      v := v.parent;
    }
  }

  method GetTopLevel(w: Widget) returns (top: Widget)
    requires IsRooted(w)
    ensures IsRooted(top) && top.parent == null && Chain(w)[w.level] == top
  {
    top := w;
    ChainAt(w, 0);
    ghost var i := 0;
    while top.parent != null
      invariant IsRooted(top) && i + top.level == w.level && Chain(w)[i] == top
      decreases top.level
    {
      ChainAt(w, i);
      top := top.parent;
      i := i + 1;
      assert Chain(w)[i - 1..][1] == top;
    }
  }

  method GetNearestCommonAncestor(v: Widget, w: Widget) returns (a: Widget?)
    requires IsRooted(v) && IsRooted(w)
    ensures a == Nearest(v, w)
  {
    var widget1: Widget, widget2: Widget := v, w;
    var level1 := GetLevel(v);
    var level2 := GetLevel(w);
    while level1 > level2
      invariant IsRooted(widget1) && level1 == widget1.level && Nearest(widget1, w) == Nearest(v, w)
    {
      widget1 := widget1.parent;
      level1 := level1 - 1;
    }
    while level2 > level1
      invariant level1 <= level2 == widget2.level && IsRooted(widget2) && Nearest(widget1, widget2) == Nearest(v, w)
    {
      widget2 := widget2.parent;
      level2 := level2 - 1;
    }
    while widget1 != widget2
      invariant IsRooted(widget1) && IsRooted(widget2) && widget1.level == widget2.level
      invariant Nearest(widget1, widget2) == Nearest(v, w)
      decreases widget1.level
    {
      if widget1.parent == null {
        return null;
      }
      widget1 := widget1.parent;
      widget2 := widget2.parent;
    }
    a := widget1;
  }

  // ----- notifications ----------------------------------------------------------------------------

  datatype Event = Enter(widget: Widget) | Leave(widget: Widget)

  // The widgets whose last notification was an enter.
  ghost function Entered(log: seq<Event>): set<Widget> {
    if log == [] then {}
    else
      var before := Entered(log[..|log| - 1]);
      match log[|log| - 1]
      case Enter(w) => before + {w}
      case Leave(w) => before - {w}
  }

  // A leave is sent to entered widgets only.
  ghost predicate LeavesEntered(log: seq<Event>) {
    forall k {:trigger log[k]} :: 0 <= k < |log| && log[k].Leave? ==> log[k].widget in Entered(log[..k])
  }

  ghost function Leaves(ws: seq<Widget>): (r: seq<Event>)
    ensures |r| == |ws|
  {
    seq(|ws|, i requires 0 <= i < |ws| => Leave(ws[i]))
  }

  // Top-down.
  ghost function Enters(ws: seq<Widget>): (r: seq<Event>)
    ensures |r| == |ws|
  {
    seq(|ws|, i requires 0 <= i < |ws| => Enter(ws[|ws| - 1 - i]))
  }

  ghost predicate NoDup(ws: seq<Widget>) {
    forall i, j {:trigger ws[i], ws[j]} :: 0 <= i < j < |ws| ==> ws[i] != ws[j]
  }

  lemma EnteredNext(log: seq<Event>, e: Event)
    ensures Entered(log + [e]) == if e.Enter? then Entered(log) + {e.widget} else Entered(log) - {e.widget}
  {
    assert (log + [e])[..|log|] == log;
  }

  lemma LeavesEnteredNext(log: seq<Event>, e: Event)
    requires LeavesEntered(log) && (e.Leave? ==> e.widget in Entered(log))
    ensures LeavesEntered(log + [e])
  {
    forall k {:trigger (log + [e])[k]} | 0 <= k <= |log| && (log + [e])[k].Leave? ensures (log + [e])[k].widget in Entered((log + [e])[..k]) {
      assert (log + [e])[..k] == log[..k];
      if k == |log| {
        assert log[..k] == log;
      }
    }
  }

  lemma {:induction false} AfterLeaves(log: seq<Event>, ws: seq<Widget>)
    requires LeavesEntered(log) && NoDup(ws) && Elements(ws) <= Entered(log)
    ensures LeavesEntered(log + Leaves(ws)) && Entered(log + Leaves(ws)) == Entered(log) - Elements(ws)
  {
    if ws == [] {
      assert log + Leaves(ws) == log;
    } else {
      var t, w := ws[..|ws| - 1], ws[|ws| - 1];
      AfterLeaves(log, t);
      assert log + Leaves(ws) == log + Leaves(t) + [Leave(w)];
      assert Elements(ws) == Elements(t) + {w};
      assert w !in t;
      EnteredNext(log + Leaves(t), Leave(w));
      LeavesEnteredNext(log + Leaves(t), Leave(w));
    }
  }

  lemma {:induction false} AfterEnters(log: seq<Event>, ws: seq<Widget>)
    requires LeavesEntered(log)
    ensures LeavesEntered(log + Enters(ws)) && Entered(log + Enters(ws)) == Entered(log) + Elements(ws)
  {
    if ws == [] {
      assert log + Enters(ws) == log;
    } else {
      var t, w := ws[1..], ws[0];
      AfterEnters(log, t);
      assert log + Enters(ws) == log + Enters(t) + [Enter(w)];
      assert Elements(ws) == Elements(t) + {w};
      EnteredNext(log + Enters(t), Enter(w));
      LeavesEnteredNext(log + Enters(t), Enter(w));
    }
  }

  // ----- moveToWidget -----------------------------------------------------------------------------

  // The widgets that are left: from the old one up to the common ancestor, which stays, or
  // all when there is no new widget.
  ghost function LeftWidgets(source: Widget?, target: Widget?): seq<Widget>
    requires (source != null ==> IsRooted(source)) && (target != null ==> IsRooted(target))
  {
    if source == null || source == target then []
    else if target == null then Chain(source)
    else var a := Nearest(source, target); if a == null then [] else Chain(source)[..source.level - a.level]
  }

  // The widgets that are entered, bottom-up; an ancestor that becomes the new widget is
  // entered once more.
  ghost function EnteredWidgets(source: Widget?, target: Widget?): seq<Widget>
    requires (source != null ==> IsRooted(source)) && (target != null ==> IsRooted(target))
  {
    if target == null || source == target then []
    else if source == null then Chain(target)
    else
      var a := Nearest(source, target);
      if a == null then [] else if a == target then [target] else Chain(target)[..target.level - a.level]
  }

  ghost predicate SameTree(source: Widget?, target: Widget?)
    requires (source != null ==> IsRooted(source)) && (target != null ==> IsRooted(target))
  {
    source != null && target != null ==> Nearest(source, target) != null
  }

  lemma ChainNoDup(w: Widget)
    requires IsRooted(w)
    ensures NoDup(Chain(w))
  {
    forall i | 0 <= i < |Chain(w)| ensures Chain(w)[i].level == w.level - i {
      ChainAt(w, i);
    }
  }

  lemma NotAbove(w: Widget, a: Widget, i: nat)
    requires IsRooted(w) && IsRooted(a) && a.level <= w.level && i < w.level - a.level
    ensures Chain(w)[i] !in Chain(a)
  {
    ChainAt(w, i);
    var x := Chain(w)[i];
    if x in Chain(a) {
      LevelInChain(a, x);
    }
  }

  lemma SplitAtAncestor(w: Widget, a: Widget)
    requires IsRooted(w) && IsRooted(a) && a.level <= w.level && Chain(w)[w.level - a.level] == a
    ensures var up := Chain(w)[..w.level - a.level];
            NoDup(up) && ChainSet(w) == Elements(up) + ChainSet(a) && Elements(up) !! ChainSet(a)
  {
    var k := w.level - a.level;
    ChainNoDup(w);
    ChainAt(w, k);
    assert Chain(w) == Chain(w)[..k] + Chain(a);
    forall i | 0 <= i < k ensures Chain(w)[i] !in Chain(a) {
      NotAbove(w, a, i);
    }
  }

  lemma CrossingSets(source: Widget?, target: Widget?)
    requires (source != null ==> IsRooted(source)) && (target != null ==> IsRooted(target)) && SameTree(source, target)
    ensures NoDup(LeftWidgets(source, target)) && Elements(LeftWidgets(source, target)) <= ChainSet(source)
    ensures ChainSet(source) - Elements(LeftWidgets(source, target)) + Elements(EnteredWidgets(source, target)) == ChainSet(target)
  {
    if source != null {
      ChainNoDup(source);
    }
    if source != null && target != null && source != target {
      var a := Nearest(source, target);
      NearestIsCommon(source, target);
      SplitAtAncestor(source, a);
      SplitAtAncestor(target, a);
      assert target in Chain(target);
      assert a == target ==> Elements([target]) == {target};
    }
  }

  // ----- the layout ----------------------------------------------------------------------------------

  class Layout {
    var widgetAtPoint: Widget?
    var log: seq<Event>   // the notifications that have been sent

    ghost predicate Valid()
      reads this
    {
      && (widgetAtPoint != null ==> IsRooted(widgetAtPoint))
      && LeavesEntered(log) && Entered(log) == ChainSet(widgetAtPoint)
    }

    constructor ()
      ensures Valid() && widgetAtPoint == null && log == []
    {
      widgetAtPoint, log := null, [];
    }

    // The widgets from w up to, but without, the ancestor.
    method CountTo(w: Widget, ancestor: Widget) returns (n: nat)
      requires IsBelow(w, ancestor)
      ensures n == w.level - ancestor.level
    {
      var v: Widget := w;
      n := 0;
      while v != ancestor
        invariant IsRooted(v) && n <= w.level - ancestor.level && Chain(w)[n] == v && v.level == w.level - n
        decreases v.level
      {
        NotYet(w, ancestor, n);
        v := v.parent;
        n := n + 1;
      }
    }

    // The first part of the track, bottom-up, and the second one, top-down from the end.
    method FillUp(track: array<Widget>, w: Widget, ancestor: Widget, n: nat)
      requires IsBelow(w, ancestor) && n == w.level - ancestor.level < track.Length
      modifies track
      ensures forall k {:trigger track[k]} :: 0 <= k < track.Length ==> track[k] == if k < n then Chain(w)[k] else old(track[k])
    {
      var v: Widget, i := w, 0;
      while v != ancestor
        invariant IsRooted(v) && 0 <= i <= n && Chain(w)[i] == v && v.level == w.level - i
        invariant forall k {:trigger track[k]} :: 0 <= k < track.Length ==> track[k] == if k < i then Chain(w)[k] else old(track[k])
        decreases v.level
      {
        track[i] := v;
        NotYet(w, ancestor, i);
        v := v.parent;
        i := i + 1;
      }
      assert i == n;
    }

    method FillDown(track: array<Widget>, w: Widget, ancestor: Widget, n: nat)
      requires IsBelow(w, ancestor) && n == w.level - ancestor.level < track.Length
      modifies track
      ensures forall k {:trigger track[k]} :: 0 <= k < track.Length ==>
                track[k] == if k < track.Length - n then old(track[k]) else Chain(w)[track.Length - 1 - k]
    {
      var v: Widget, i := w, track.Length - 1;
      while v != ancestor
        invariant IsRooted(v) && track.Length - 1 - n <= i < track.Length
        invariant Chain(w)[track.Length - 1 - i] == v && v.level == w.level - (track.Length - 1 - i)
        invariant forall k {:trigger track[k]} :: 0 <= k < track.Length ==>
                    track[k] == if k <= i then old(track[k]) else Chain(w)[track.Length - 1 - k]
        decreases v.level
      {
        track[i] := v;
        NotYet(w, ancestor, track.Length - 1 - i);
        v := v.parent;
        i := i - 1;
      }
      assert track.Length - 1 - i == n;
    }

    // Events for the part of the track before the ancestor.
    method SendLeaves(track: array<Widget>, iA: nat)
      requires iA < track.Length
      modifies `log
      ensures log == old(log) + Leaves(track[..iA])
    {
      for i := 0 to iA
        invariant log == old(log) + Leaves(track[..i])
      {
        log := log + [Leave(track[i])];
        assert Leaves(track[..i + 1]) == Leaves(track[..i]) + [Leave(track[i])];
      }
    }

    // The ancestor is not touched unless the pointer moves from or to no widget, or to the
    // ancestor.
    method SendAncestor(track: array<Widget>, iA: nat, newWidgetAtPoint: Widget?)
      requires iA < track.Length
      modifies `log
      ensures log == old(log) + AncestorEvents(track[iA], iA == 0 && widgetAtPoint == null, iA == track.Length - 1, newWidgetAtPoint)
    {
      if iA == track.Length - 1 && newWidgetAtPoint == null {
        log := log + [Leave(track[iA])];
      } else if (iA == 0 && widgetAtPoint == null) || (iA == track.Length - 1 && newWidgetAtPoint != null) {
        log := log + [Enter(track[iA])];
      }
    }

    method SendEnters(track: array<Widget>, iA: nat)
      requires iA < track.Length
      modifies `log
      ensures log == old(log) + Enters(Reversed(track[iA + 1..]))
    {
      for i := iA + 1 to track.Length
        invariant log == old(log) + Enters(Reversed(track[iA + 1..i]))
      {
        log := log + [Enter(track[i])];
        EntersNext(track[iA + 1..i], track[i]);
        assert track[iA + 1..i + 1] == track[iA + 1..i] + [track[i]];
      }
      assert track[iA + 1..track.Length] == track[iA + 1..];
    }

    // The track from the old widget to the new one by way of the ancestor.
    method BuildTrack(newWidgetAtPoint: Widget?, ancestor: Widget) returns (track: array<Widget>, iA: nat)
      requires widgetAtPoint != null ==> IsBelow(widgetAtPoint, ancestor)
      requires newWidgetAtPoint != null ==> IsBelow(newWidgetAtPoint, ancestor)
      ensures iA == WayTo(widgetAtPoint, ancestor) < track.Length == iA + 1 + WayTo(newWidgetAtPoint, ancestor)
      ensures IsTrack(track[..], Way(widgetAtPoint, ancestor), ancestor, Way(newWidgetAtPoint, ancestor))
    {
      var n1, n2: nat := 0, 0;
      if widgetAtPoint != null {
        n1 := CountTo(widgetAtPoint, ancestor);
      }
      if newWidgetAtPoint != null {
        n2 := CountTo(newWidgetAtPoint, ancestor);
      }
      track, iA := new Widget[n1 + 1 + n2](_ => ancestor), n1;
      if widgetAtPoint != null {
        FillUp(track, widgetAtPoint, ancestor, n1);
      }
      if newWidgetAtPoint != null {
        FillDown(track, newWidgetAtPoint, ancestor, n2);
      }
    }

    method FindAncestor(newWidgetAtPoint: Widget?) returns (ancestor: Widget)
      requires Valid() && (newWidgetAtPoint != null ==> IsRooted(newWidgetAtPoint)) && newWidgetAtPoint != widgetAtPoint
      requires SameTree(widgetAtPoint, newWidgetAtPoint)
      ensures IsRooted(ancestor)
      ensures widgetAtPoint != null ==> IsBelow(widgetAtPoint, ancestor)
      ensures newWidgetAtPoint != null ==> IsBelow(newWidgetAtPoint, ancestor)
      ensures if widgetAtPoint != null && newWidgetAtPoint != null then ancestor == Nearest(widgetAtPoint, newWidgetAtPoint)
              else ancestor.parent == null
    {
      if newWidgetAtPoint != null && widgetAtPoint != null {
        NearestIsSymmetric(widgetAtPoint, newWidgetAtPoint);
        NearestIsCommon(widgetAtPoint, newWidgetAtPoint);
        ancestor := GetNearestCommonAncestor(newWidgetAtPoint, widgetAtPoint);
      } else if newWidgetAtPoint != null {
        ancestor := GetTopLevel(newWidgetAtPoint);
      } else {
        ancestor := GetTopLevel(widgetAtPoint);
      }
    }

    // Along the track by way of the ancestor.
    method SendAlong(newWidgetAtPoint: Widget?, ancestor: Widget)
      requires (widgetAtPoint != null ==> IsBelow(widgetAtPoint, ancestor)) && (newWidgetAtPoint != null ==> IsBelow(newWidgetAtPoint, ancestor))
      modifies `log
      ensures log == old(log) + Leaves(Way(widgetAtPoint, ancestor))
                     + AncestorEvents(ancestor, widgetAtPoint == null, WayTo(newWidgetAtPoint, ancestor) == 0, newWidgetAtPoint)
                     + Enters(Way(newWidgetAtPoint, ancestor))
    {
      var track, iA := BuildTrack(newWidgetAtPoint, ancestor);
      TrackParts(track[..], Way(widgetAtPoint, ancestor), ancestor, Way(newWidgetAtPoint, ancestor));
      assert track[..][..iA] == track[..iA] && track[..][iA + 1..] == track[iA + 1..];
      SendLeaves(track, iA);
      SendAncestor(track, iA, newWidgetAtPoint);
      SendEnters(track, iA);
    }

    // The pointer moves within one tree.  Leaves are sent bottom-up, then enters top-down.
    method MoveToWidget(newWidgetAtPoint: Widget?)
      requires Valid() && (newWidgetAtPoint != null ==> IsRooted(newWidgetAtPoint))
      requires SameTree(widgetAtPoint, newWidgetAtPoint)
      modifies this
      ensures Valid() && widgetAtPoint == newWidgetAtPoint
      ensures log == old(log) + Leaves(LeftWidgets(old(widgetAtPoint), newWidgetAtPoint)) + Enters(EnteredWidgets(old(widgetAtPoint), newWidgetAtPoint))
    {
      CrossingLog(log, widgetAtPoint, newWidgetAtPoint);
      if newWidgetAtPoint != widgetAtPoint {
        var ancestor := FindAncestor(newWidgetAtPoint);
        TrackEvents(widgetAtPoint, newWidgetAtPoint, ancestor, log);
        SendAlong(newWidgetAtPoint, ancestor);
        widgetAtPoint := newWidgetAtPoint;
      } else {
        assert log + [] + [] == log;
      }
    }
  }

  lemma CrossingLog(log: seq<Event>, source: Widget?, target: Widget?)
    requires (source != null ==> IsRooted(source)) && (target != null ==> IsRooted(target)) && SameTree(source, target)
    requires LeavesEntered(log) && Entered(log) == ChainSet(source)
    ensures var r := log + Leaves(LeftWidgets(source, target)) + Enters(EnteredWidgets(source, target));
            LeavesEntered(r) && Entered(r) == ChainSet(target)
  {
    CrossingSets(source, target);
    AfterLeaves(log, LeftWidgets(source, target));
    AfterEnters(log + Leaves(LeftWidgets(source, target)), EnteredWidgets(source, target));
  }

  ghost function WayTo(w: Widget?, ancestor: Widget): nat
    requires w != null ==> IsBelow(w, ancestor)
  {
    if w == null then 0 else w.level - ancestor.level
  }

  // The widgets from w up to, but without, the ancestor.
  ghost function Way(w: Widget?, ancestor: Widget): (r: seq<Widget>)
    requires w != null ==> IsBelow(w, ancestor)
    ensures |r| == WayTo(w, ancestor)
  {
    if w == null then [] else Chain(w)[..w.level - ancestor.level]
  }

  // Up one way and down the other one.
  ghost predicate IsTrack(track: seq<Widget>, up: seq<Widget>, ancestor: Widget, down: seq<Widget>) {
    && |track| == |up| + 1 + |down|
    && (forall k {:trigger track[k]} :: 0 <= k < |up| ==> track[k] == up[k])
    && track[|up|] == ancestor
    && (forall k {:trigger track[k]} :: |up| < k < |track| ==> track[k] == down[|track| - 1 - k])
  }

  lemma TrackParts(track: seq<Widget>, up: seq<Widget>, ancestor: Widget, down: seq<Widget>)
    requires IsTrack(track, up, ancestor, down)
    ensures track[..|up|] == up && Reversed(track[|up| + 1..]) == down
  {
  }

  ghost function AncestorEvents(a: Widget, fromNone: bool, atEnd: bool, target: Widget?): seq<Event> {
    if atEnd && target == null then [Leave(a)]
    else if fromNone || (atEnd && target != null) then [Enter(a)]
    else []
  }

  ghost function Reversed(ws: seq<Widget>): (r: seq<Widget>)
    ensures |r| == |ws|
  {
    seq(|ws|, i requires 0 <= i < |ws| => ws[|ws| - 1 - i])
  }

  lemma EntersNext(ws: seq<Widget>, w: Widget)
    ensures Enters(Reversed(ws + [w])) == Enters(Reversed(ws)) + [Enter(w)]
  {
  }

  // Before the ancestor is reached, the next widget is the parent.
  lemma NotYet(w: Widget, ancestor: Widget, n: nat)
    requires IsBelow(w, ancestor) && n <= w.level - ancestor.level && Chain(w)[n] != ancestor
    ensures n < w.level - ancestor.level && IsRooted(Chain(w)[n]) && Chain(w)[n].level == w.level - n
    ensures Chain(w)[n].parent != null && IsRooted(Chain(w)[n].parent) && Chain(w)[n].parent == Chain(w)[n + 1]
  {
    ChainUpFrom(w, n);
    ChainAt(w, n);
  }

  lemma ChainUpFrom(w: Widget, n: nat)
    requires IsRooted(w) && n < w.level
    ensures IsRooted(Chain(w)[n]) && Chain(w)[n].parent == Chain(w)[n + 1]
  {
    ChainAt(w, n);
    ChainAt(w, n + 1);
    assert Chain(w)[n..][1] == Chain(w)[n + 1];
  }

  lemma {:induction false} NearestIsSymmetric(v: Widget, w: Widget)
    requires IsRooted(v) && IsRooted(w)
    ensures Nearest(v, w) == Nearest(w, v)
    decreases v.level + w.level
  {
    if v.level > w.level {
      NearestIsSymmetric(v.parent, w);
    } else if w.level > v.level {
      NearestIsSymmetric(v, w.parent);
    } else if v != w && v.parent != null {
      NearestIsSymmetric(v.parent, w.parent);
    }
  }

  lemma EntersFromTop(w: Widget, top: Widget)
    requires IsBelow(w, top) && top.parent == null
    ensures Enters(Chain(w)) == [Enter(top)] + Enters(Way(w, top))
  {
    ChainAt(w, w.level);
  }

  lemma LeavesToTop(w: Widget, top: Widget)
    requires IsBelow(w, top) && top.parent == null
    ensures Leaves(Chain(w)) == Leaves(Way(w, top)) + [Leave(top)]
  {
    ChainAt(w, w.level);
  }

  lemma Regroup<T>(a: seq<T>, b: seq<T>, c: seq<T>, d: seq<T>)
    ensures a + b + c + d == a + b + (c + d)
    ensures a + b + c + d == a + (b + c) + d
  {
  }

  // What is sent along the track is what belongs to the widgets that are left and entered.
  lemma TrackEvents(source: Widget?, target: Widget?, a: Widget, log: seq<Event>)
    requires (source != null ==> IsBelow(source, a)) && (target != null ==> IsBelow(target, a)) && source != target
    requires if source != null && target != null then a == Nearest(source, target) else a.parent == null && IsRooted(a)
    ensures log + Leaves(Way(source, a)) + AncestorEvents(a, source == null, WayTo(target, a) == 0, target) + Enters(Way(target, a))
            == log + Leaves(LeftWidgets(source, target)) + Enters(EnteredWidgets(source, target))
  {
    Regroup(log, Leaves(Way(source, a)), AncestorEvents(a, source == null, WayTo(target, a) == 0, target), Enters(Way(target, a)));
    if source == null {
      EntersFromTop(target, a);
    } else if target == null {
      LeavesToTop(source, a);
    } else {
      TrackBetween(source, target, a);
    }
  }

  lemma TrackBetween(source: Widget, target: Widget, a: Widget)
    requires IsBelow(source, a) && IsBelow(target, a) && source != target && a == Nearest(source, target)
    ensures Leaves(LeftWidgets(source, target)) == Leaves(Way(source, a))
    ensures Enters(EnteredWidgets(source, target)) == AncestorEvents(a, false, WayTo(target, a) == 0, target) + Enters(Way(target, a))
  {
    if WayTo(target, a) == 0 {
      assert Chain(target)[0] == target;
      assert Enters([target]) == [Enter(target)];
    }
  }
}
