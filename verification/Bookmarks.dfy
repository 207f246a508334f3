// The bookmarks in memory: dpi/bookmarks.c:66-97, 368-565.
module Bookmarks {
  import opened Common
  import opened Dlists

  datatype BmRec = BmRec(key: int, section: int, url: string, title: string)

  datatype BmSec = BmSec(section: int, title: string, oSec: int)

  // ----- the lists -------------------------------------------------------------------------

  // dList_find_custom with Bms_node_by_key_cmp
  function FindKey(bms: seq<BmRec>, key: int): (r: Option<nat>)
    ensures r.Some? ==> r.value < |bms| && bms[r.value].key == key
    ensures r.None? ==> forall j :: 0 <= j < |bms| ==> bms[j].key != key
  {
    if bms == [] then None
    else if bms[0].key == key then Some(0)
    else match FindKey(bms[1..], key) { case Some(i) => Some(i + 1) case None => None }
  }

  // with Bms_node_by_section_cmp
  function FindSection(bms: seq<BmRec>, section: int): (r: Option<nat>)
    ensures r.Some? ==> r.value < |bms| && bms[r.value].section == section
    ensures r.None? ==> forall j :: 0 <= j < |bms| ==> bms[j].section != section
  {
    if bms == [] then None
    else if bms[0].section == section then Some(0)
    else match FindSection(bms[1..], section) { case Some(i) => Some(i + 1) case None => None }
  }

  // with Bms_sec_by_number_cmp
  function FindNumber(secs: seq<BmSec>, number: int): (r: Option<nat>)
    ensures r.Some? ==> r.value < |secs| && secs[r.value].section == number
    ensures r.None? ==> forall j {:trigger secs[j]} :: 0 <= j < |secs| ==> secs[j].section != number
  {
    if secs == [] then None
    else if secs[0].section == number then Some(0)
    else match FindNumber(secs[1..], number) { case Some(i) => Some(i + 1) case None => None }
  }

  // The bookmarks of the other sections, in their order.
  function Elsewhere(bms: seq<BmRec>, section: int): seq<BmRec> {
    if bms == [] then []
    else (if bms[0].section == section then [] else [bms[0]]) + Elsewhere(bms[1..], section)
  }

  lemma {:induction false} ElsewhereElements(bms: seq<BmRec>, section: int)
    ensures forall b :: b in Elsewhere(bms, section) ==> b in bms && b.section != section
    ensures forall b :: b in bms && b.section != section ==> b in Elsewhere(bms, section)
  {
    if bms != [] {
      ElsewhereElements(bms[1..], section);
      assert forall b :: b in bms <==> b == bms[0] || b in bms[1..];
    }
  }

  lemma {:induction false} ElsewhereAll(bms: seq<BmRec>, section: int)
    requires FindSection(bms, section).None?
    ensures Elsewhere(bms, section) == bms
  {
    if bms != [] {
      ElsewhereAll(bms[1..], section);
    }
  }

  lemma {:induction false} ElsewhereWithout(bms: seq<BmRec>, i: nat)
    requires i < |bms|
    ensures Elsewhere(RemovedAt(bms, i), bms[i].section) == Elsewhere(bms, bms[i].section)
  {
    var r := RemovedAt(bms, i);
    if i == 0 {
      assert r == bms[1..];
    } else {
      assert r[0] == bms[0] && r[1..] == RemovedAt(bms[1..], i - 1);
      ElsewhereWithout(bms[1..], i - 1);
    }
  }

  // Keys are given in increasing order, and new bookmarks are put at the end.
  ghost predicate KeysAscend(bms: seq<BmRec>) {
    forall i, j {:trigger bms[i], bms[j]} :: 0 <= i < j < |bms| ==> bms[i].key < bms[j].key
  }

  ghost predicate KeysUpTo(bms: seq<BmRec>, bmKey: int) {
    bmKey >= 0 && forall i {:trigger bms[i]} :: 0 <= i < |bms| ==> 0 < bms[i].key <= bmKey
  }

  ghost predicate NumbersAscend(secs: seq<BmSec>) {
    forall i, j {:trigger secs[i], secs[j]} :: 0 <= i < j < |secs| ==> secs[i].section < secs[j].section
  }

  lemma KeyIsUnique(bms: seq<BmRec>, i: nat, j: nat)
    requires KeysAscend(bms) && i < |bms| && j < |bms| && bms[i].key == bms[j].key
    ensures i == j
  {
  }

  lemma WithoutKey(bms: seq<BmRec>, i: nat)
    requires KeysAscend(bms) && i < |bms|
    ensures KeysAscend(RemovedAt(bms, i))
    ensures forall b :: b in RemovedAt(bms, i) ==> b in bms && b.key != bms[i].key
    ensures forall b :: b in bms && b.key != bms[i].key ==> b in RemovedAt(bms, i)
  {
    forall j | 0 <= j < |bms| && j != i ensures bms[j] in RemovedAt(bms, i) && bms[j].key != bms[i].key {
      assert RemovedAt(bms, i)[if j < i then j else j - 1] == bms[j];
    }
    ElementsWithout(bms, i);
  }

  lemma ElementsWithout<T>(s: seq<T>, i: nat)
    requires i < |s|
    ensures forall x :: x in RemovedAt(s, i) ==> exists j {:trigger s[j]} :: 0 <= j < |s| && j != i && s[j] == x
  {
    var r := RemovedAt(s, i);
    forall x | x in r ensures exists j {:trigger s[j]} :: 0 <= j < |s| && j != i && s[j] == x {
      var k :| 0 <= k < |r| && r[k] == x;
      assert s[if k < i then k else k + 1] == x;
    }
  }

  // Removing a section leaves the other numbers.
  lemma OtherNumbers(secs: seq<BmSec>, i: nat, number: int)
    requires i < |secs| && number != secs[i].section && FindNumber(secs, number).Some?
    ensures FindNumber(RemovedAt(secs, i), number).Some?
  {
    var j := FindNumber(secs, number).value;
    assert RemovedAt(secs, i)[if j < i then j else j - 1].section == number;
  }

  ghost predicate NumbersBelow(secs: seq<BmSec>, secKey: int) {
    && (forall i {:trigger secs[i]} :: 0 <= i < |secs| ==> 0 <= secs[i].section < secKey)
    && (secs == [] ==> secKey == 0)
  }

  lemma NumbersWithout(secs: seq<BmSec>, i: nat, secKey: int)
    requires NumbersAscend(secs) && NumbersBelow(secs, secKey) && i < |secs|
    ensures var r := RemovedAt(secs, i); NumbersAscend(r) && NumbersBelow(r, if r == [] then 0 else secKey)
  {
    var r := RemovedAt(secs, i);
    assert forall k {:trigger r[k]} :: 0 <= k < |r| ==> r[k] == secs[if k < i then k else k + 1];
  }

  lemma StillHoused(secs: seq<BmSec>, i: nat, before: seq<BmRec>, bms: seq<BmRec>)
    requires i < |secs| && forall b :: b in before ==> FindNumber(secs, b.section).Some?
    requires forall b :: b in bms ==> b in before && b.section != secs[i].section
    ensures forall b :: b in bms ==> FindNumber(RemovedAt(secs, i), b.section).Some?
  {
    forall b | b in bms ensures FindNumber(RemovedAt(secs, i), b.section).Some? {
      OtherNumbers(secs, i, b.section);
    }
  }

  // ----- renumbering ---------------------------------------------------------------------------

  // All numbers are replaced at once: the number of the section i by i.
  function Renumbered(b: BmRec, secs: seq<BmSec>): BmRec {
    match FindNumber(secs, b.section)
    case Some(i) => b.(section := i)
    case None => b
  }

  // The same with the first n sections only.
  function RenumberedTo(b: BmRec, secs: seq<BmSec>, n: nat): BmRec
    requires n <= |secs|
  {
    match FindNumber(secs, b.section)
    case Some(i) => if i < n then b.(section := i) else b
    case None => b
  }

  // The step for one section, on a bookmark to which the sections before have been applied.
  // As the numbers ascend, no new number is taken for an old one that is still to come.
  lemma RenumberStep(b: BmRec, secs: seq<BmSec>, n: nat)
    requires NumbersAscend(secs) && n < |secs| && secs[0].section >= 0
    ensures var c := RenumberedTo(b, secs, n);
            RenumberedTo(b, secs, n + 1) == if c.section == secs[n].section then c.(section := n) else c
  {
    NumbersAtLeast(secs, n);
    match FindNumber(secs, b.section) {
      case Some(i) =>
        if i < n {
          assert secs[i].section < secs[n].section;
        } else if i > n {
          assert secs[n].section < secs[i].section;
        }
      case None =>
        assert secs[n].section != b.section;
    }
  }

  lemma {:induction false} NumbersAtLeast(secs: seq<BmSec>, n: nat)
    requires NumbersAscend(secs) && n < |secs| && secs[0].section >= 0
    ensures secs[n].section >= n
  {
    if n > 0 {
      NumbersAtLeast(secs, n - 1);
      assert secs[n - 1].section < secs[n].section;
    }
  }

  function Numbered(secs: seq<BmSec>): (r: seq<BmSec>)
    ensures |r| == |secs|
  {
    seq(|secs|, i requires 0 <= i < |secs| => secs[i].(oSec := secs[i].section, section := i))
  }

  // Sections are never given up altogether.
  function AtLeastOne(secs: seq<BmSec>): (r: seq<BmSec>)
    ensures r != []
  {
    if secs == [] then [BmSec(0, "Unclassified", 0)] else secs
  }

  lemma NumbersStayBelow(secs: seq<BmSec>, secKey: int)
    requires NumbersAscend(secs) && NumbersBelow(secs, secKey)
    ensures NumbersAscend(Numbered(secs)) && NumbersBelow(Numbered(secs), secKey)
  {
    if secs != [] {
      NumbersAtLeast(secs, |secs| - 1);
    }
  }

  class Bms {
    var bms: seq<BmRec>
    var bmKey: int
    var secs: seq<BmSec>
    var secKey: int

    ghost predicate Valid()
      reads this
    {
      KeysAscend(bms) && KeysUpTo(bms, bmKey) && NumbersAscend(secs) && NumbersBelow(secs, secKey)
    }

    // Every bookmark is in a section that exists.
    ghost predicate Housed()
      reads this
    {
      forall b :: b in bms ==> FindNumber(secs, b.section).Some?
    }

    constructor ()
      ensures Valid() && Housed() && bms == [] && secs == [] && bmKey == 0 && secKey == 0
    {
      bms, bmKey, secs, secKey := [], 0, [], 0;
    }

    method Add(section: int, url: string, title: string)
      requires Valid()
      modifies `bms, `bmKey
      ensures Valid() && bms == old(bms) + [BmRec(bmKey, section, url, title)] && bmKey == old(bmKey) + 1
      ensures forall b :: b in old(bms) ==> b.key != bmKey
      ensures old(Housed()) && FindNumber(secs, section).Some? ==> Housed()
    {
      bmKey := bmKey + 1;
      bms := bms + [BmRec(bmKey, section, url, title)];
    }

    method SecAdd(title: string)
      requires Valid()
      modifies `secs, `secKey
      ensures Valid() && |secs| == |old(secs)| + 1 && secs[..|old(secs)|] == old(secs)
      ensures secs[|old(secs)|] == BmSec(old(secKey), title, 0) && secKey == old(secKey) + 1
      ensures old(Housed()) ==> Housed()
    {
      ghost var before := secs;
      secs := secs + [BmSec(secKey, title, 0)];
      secKey := secKey + 1;
      forall n: int | FindNumber(before, n).Some? ensures FindNumber(secs, n).Some? {
        assert secs[FindNumber(before, n).value].section == n;
      }
    }

    method Del(key: int)
      requires Valid()
      modifies `bms, `bmKey
      ensures Valid() && (old(Housed()) ==> Housed())
      ensures bms == match FindKey(old(bms), key) { case Some(i) => RemovedAt(old(bms), i) case None => old(bms) }
      ensures forall b :: b in bms ==> b in old(bms) && b.key != key
      ensures forall b :: b in old(bms) && b.key != key ==> b in bms
      ensures bmKey == if bms == [] then 0 else old(bmKey)
    {
      var i := FindKey(bms, key);
      if i.Some? {
        WithoutKey(bms, i.value);
        bms := RemovedAt(bms, i.value);
      }
      if |bms| == 0 {
        bmKey := 0;
      }
    }

    method SecDel(section: int)
      requires Valid()
      modifies this
      ensures Valid() && (old(Housed()) ==> Housed())
      ensures FindNumber(old(secs), section).None? ==> secs == old(secs) && bms == old(bms)
      ensures FindNumber(old(secs), section).Some? ==>
                && secs == RemovedAt(old(secs), FindNumber(old(secs), section).value)
                && bms == Elsewhere(old(bms), section)
      ensures secKey == if secs == [] then 0 else old(secKey)
      ensures bmKey == if bms == [] && old(bms) != [] && FindNumber(old(secs), section).Some? then 0 else old(bmKey)
    {
      var n := FindNumber(secs, section);
      ghost var secs0 := secs;
      ghost var housed := Housed();
      if n.Some? {
        secs := RemovedAt(secs, n.value);
        DelSection(section);
      }
      if n.Some? {
        NumbersWithout(secs0, n.value, secKey);
        if housed {
          StillHoused(secs0, n.value, old(bms), bms);
        }
      }
      if |secs| == 0 {
        secKey := 0;
      }
    }

    // The loop of Bms_sec_del.
    method DelSection(section: int)
      requires KeysAscend(bms) && KeysUpTo(bms, bmKey)
      modifies `bms, `bmKey
      ensures KeysAscend(bms) && KeysUpTo(bms, bmKey)
      ensures bms == Elsewhere(old(bms), section) && forall b :: b in bms ==> b in old(bms) && b.section != section
      ensures bmKey == if bms == [] && old(bms) != [] then 0 else old(bmKey)
    {
      ghost var before, all := bms, Elsewhere(bms, section);
      while FindSection(bms, section).Some?
        invariant KeysAscend(bms) && KeysUpTo(bms, bmKey)
        invariant Elsewhere(bms, section) == all && (forall b :: b in bms ==> b in before)
        invariant bmKey == if bms == [] && before != [] then 0 else old(bmKey)
        decreases |bms|
      {
        var i := FindSection(bms, section).value;
        DelAt(i);
      }
      ElsewhereAll(bms, section);
    }

    // Bms_del with the key of a bookmark that is in the list.
    method DelAt(i: nat)
      requires KeysAscend(bms) && KeysUpTo(bms, bmKey) && i < |bms|
      modifies `bms, `bmKey
      ensures KeysAscend(bms) && KeysUpTo(bms, bmKey)
      ensures forall b :: b in bms ==> b in old(bms)
      ensures bmKey == if bms == [] then 0 else old(bmKey)
      ensures bms == RemovedAt(old(bms), i) && Elsewhere(bms, old(bms)[i].section) == Elsewhere(old(bms), old(bms)[i].section)
    {
      var j := FindKey(bms, bms[i].key);
      KeyIsUnique(bms, i, j.value);
      ElsewhereWithout(bms, i);
      bms := RemovedAt(bms, j.value);
      if |bms| == 0 {
        bmKey := 0;
      }
    }

    method Move(key: int, target: int)
      requires Valid()
      modifies `bms
      ensures Valid() && (old(Housed()) && FindNumber(secs, target).Some? ==> Housed())
      ensures bms == match FindKey(old(bms), key) {
                       case Some(i) => old(bms)[i := old(bms)[i].(section := target)]
                       case None => old(bms)
                     }
    {
      var i := FindKey(bms, key);
      if i.Some? {
        bms := bms[i.value := bms[i.value].(section := target)];
      }
    }

    // The sections get the numbers 0 to n - 1.
    method NumberSections()
      modifies `secs
      ensures secs == Numbered(old(secs))
    {
      var i := 0;
      while i < |secs|
        invariant 0 <= i <= |secs| == |old(secs)|
        invariant forall k {:trigger secs[k]} :: 0 <= k < |secs| ==> secs[k] == if k < i then Numbered(old(secs))[k] else old(secs)[k]
      {
        secs := secs[i := secs[i].(oSec := secs[i].section)];
        secs := secs[i := secs[i].(section := i)];
        i := i + 1;
      }
    }

    // The inner loop of Bms_normalize.
    method Replace(number: int, other: int)
      modifies `bms
      ensures |bms| == |old(bms)|
      ensures forall j {:trigger bms[j]} :: 0 <= j < |bms| ==>
                bms[j] == if old(bms)[j].section == number then old(bms)[j].(section := other) else old(bms)[j]
    {
      var j := 0;
      while j < |bms|
        invariant 0 <= j <= |bms| == |old(bms)|
        invariant forall k {:trigger bms[k]} :: 0 <= k < |bms| ==>
                    bms[k] == if k < j && old(bms)[k].section == number then old(bms)[k].(section := other) else old(bms)[k]
      {
        if bms[j].section == number {
          bms := bms[j := bms[j].(section := other)];
        }
        j := j + 1;
      }
    }

    // The loop over the sections.
    method RenumberBookmarks(ghost secs0: seq<BmSec>)
      requires secs == Numbered(secs0) && |secs0| > 0 && NumbersAscend(secs0) && secs0[0].section >= 0
      modifies `bms
      ensures |bms| == |old(bms)|
      ensures forall j {:trigger bms[j]} :: 0 <= j < |bms| ==> bms[j] == RenumberedTo(old(bms)[j], secs0, |secs0|)
    {
      ghost var bms0 := bms;
      var i := 0;
      while i < |secs|
        invariant 0 <= i <= |secs| && |bms| == |bms0|
        invariant forall j {:trigger bms[j]} :: 0 <= j < |bms| ==> bms[j] == RenumberedTo(bms0[j], secs0, i)
      {
        forall j | 0 <= j < |bms0|
          ensures var c := RenumberedTo(bms0[j], secs0, i);
                  RenumberedTo(bms0[j], secs0, i + 1) == if c.section == secs0[i].section then c.(section := i) else c
        {
          RenumberStep(bms0[j], secs0, i);
        }
        if secs[i].section != secs[i].oSec {
          Replace(secs[i].oSec, secs[i].section);
        }
        i := i + 1;
      }
    }

    // One section after the other is renumbered in the bookmarks; the result is the same as
    // if all numbers were replaced at once, and each bookmark stays in its own section.
    method Normalize()
      requires Valid()
      modifies `bms, `secs, `secKey
      ensures Valid() && (old(Housed()) ==> Housed())
      ensures secs == Numbered(AtLeastOne(old(secs))) && |bms| == |old(bms)|
      ensures forall j {:trigger bms[j]} :: 0 <= j < |bms| ==> bms[j] == Renumbered(old(bms)[j], AtLeastOne(old(secs)))
      ensures secKey == old(secKey) + if old(secs) == [] then 1 else 0
      ensures old(secs) == [] ==> secs == [BmSec(0, "Unclassified", secs[0].oSec)]
      ensures old(secs) != [] ==> |secs| == |old(secs)| && forall i {:trigger secs[i]} :: 0 <= i < |secs| ==> secs[i].section == i && secs[i].title == old(secs)[i].title
    {
      ghost var housed := Housed();
      if |secs| == 0 {
        SecAdd("Unclassified");
      }
      ghost var secs0, bms0 := secs, bms;
      NumbersStayBelow(secs0, secKey);
      NumberSections();
      RenumberBookmarks(secs0);
      if housed {
        forall j | 0 <= j < |bms| ensures FindNumber(secs, bms[j].section).Some? {
          NewNumber(bms0[j], secs0);
        }
      }
    }
  }

  // A bookmark follows its section.
  lemma NewNumber(b: BmRec, secs: seq<BmSec>)
    requires FindNumber(secs, b.section).Some?
    ensures var i := FindNumber(secs, b.section).value;
            Renumbered(b, secs).section == i == Numbered(secs)[i].section && FindNumber(Numbered(secs), i) == Some(i)
  {
    var i := FindNumber(secs, b.section).value;
    var r := FindNumber(Numbered(secs), i);
    assert Numbered(secs)[i].section == i;
  }
}
