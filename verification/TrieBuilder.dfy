// The builder of the packed pattern trie: dw/hyphenator.cc:376-528.
//
// Keys are inserted in byte order.  The states on the path of the last key are
// kept open on a stack; a state is written into the array when it is left.
module TrieBuilding {
  import opened Common
  import opened Trie

  // ----- byte order ----------------------------------------------------------

  // strcmp(a, b) < 0 on unsigned characters
  predicate Less(a: Word, b: Word) {
    if b == [] then false
    else if a == [] then true
    else a[0] < b[0] || (a[0] == b[0] && Less(a[1..], b[1..]))
  }

  lemma {:induction false} LessAsymmetric(a: Word, b: Word)
    requires Less(a, b)
    ensures !Less(b, a)
  {
    if a != [] && a[0] == b[0] {
      LessAsymmetric(a[1..], b[1..]);
    }
  }

  // Where two words in order part, the second one has the greater byte.
  lemma {:induction false} OrderAt(a: Word, b: Word, i: nat)
    requires !Less(b, a) && i <= |a| && i <= |b| && a[..i] == b[..i]
    ensures i < |a| ==> i < |b| && a[i] <= b[i]
  {
    if i > 0 {
      assert a[0] == a[..i][0] == b[..i][0] == b[0];
      assert a[1..][..i - 1] == a[..i][1..] == b[..i][1..] == b[1..][..i - 1];
      OrderAt(a[1..], b[1..], i - 1);
    }
  }

  datatype DataEntry = DataEntry(key: Word, value: string)

  ghost predicate InOrder(list: seq<DataEntry>) {
    forall i {:trigger list[i]} :: 0 < i < |list| ==> !Less(list[i].key, list[i - 1].key)
  }

  // qsort(3) with keyCompare; only its specification matters here.
  function Sorted(list: seq<DataEntry>): (r: seq<DataEntry>)
    ensures InOrder(r)
    ensures multiset(r) == multiset(list)
  {
    if list == [] then []
    else
      assert list == [list[0]] + list[1..];
      Inserted(list[0], Sorted(list[1..]))
  }

  function Inserted(x: DataEntry, list: seq<DataEntry>): (r: seq<DataEntry>)
    requires InOrder(list)
    ensures InOrder(r)
    ensures multiset(r) == multiset{x} + multiset(list)
    ensures |r| > 0 && (r[0] == x || (|list| > 0 && r[0] == list[0]))
  {
    if list == [] then [x]
    else if Less(x.key, list[0].key) then
      LessAsymmetric(x.key, list[0].key);
      [x] + list
    else
      assert InOrder(list[1..]);
      assert list == [list[0]] + list[1..];
      var rest := Inserted(x, list[1..]);
      [list[0]] + rest
  }

  // ----- the path of the open states -----------------------------------------

  ghost function Path(ss: seq<StackEntry>, i: nat): (r: Word)
    requires i < |ss|
    ensures |r| == i
  {
    seq(i, k requires 0 <= k < i => ss[k + 1].c)
  }

  // The keys known so far that start with prefix and do not continue with skip
  // are exactly those stored in the transitions.
  ghost predicate Covers(p: Index, cells: Cells, prefix: Word, skip: int, m: map<Word, string>) {
    forall w: Word {:trigger Agrees(p, cells, prefix, m, w)} ::
      |w| > 0 && w[0] != skip ==> Agrees(p, cells, prefix, m, w)
  }

  ghost predicate Agrees(p: Index, cells: Cells, prefix: Word, m: map<Word, string>, w: Word)
    requires |w| > 0
  {
    Sem(p, cells, w) == Get(m, prefix + w)
  }

  // An open state: skip is the character of the next open state, or -1.
  ghost predicate EntryOk(e: StackEntry, p: Index, prefix: Word, skip: int, m: map<Word, string>) {
    && Shaped(e)
    && CellsClosed(p, CellsOf(e))
    && e.count == |CellsOf(e)|
    && (skip >= 0 ==> UsedUpTo(e, skip - 1))
    && Covers(p, CellsOf(e), prefix, skip, m)
    && (prefix != [] ==> e.c != 0 && e.data1 == Get(m, prefix))
  }

  ghost predicate UsedUpTo(e: StackEntry, limit: int)
    requires Shaped(e)
  {
    forall j :: j in CellsOf(e) ==> j <= limit
  }

  ghost function Skip(ss: seq<StackEntry>, i: nat): int
    requires i < |ss|
  {
    if i + 1 < |ss| then ss[i + 1].c else -1
  }

  ghost predicate StackOk(ss: seq<StackEntry>, p: Index, m: map<Word, string>) {
    forall i {:trigger OpenState(ss, i, p, m)} :: 0 <= i < |ss| ==> OpenState(ss, i, p, m)
  }

  ghost predicate OpenState(ss: seq<StackEntry>, i: nat, p: Index, m: map<Word, string>)
    requires i < |ss|
  {
    EntryOk(ss[i], p, Path(ss, i), Skip(ss, i), m)
  }

  // Leaving the innermost open state stores something in its parent.
  predicate TopNonEmpty(ss: seq<StackEntry>) {
    |ss| <= 1 || ss[|ss| - 1].data1.Some? || ss[|ss| - 1].count > 0
  }

  ghost predicate TopUnused(ss: seq<StackEntry>) {
    |ss| > 0 && Shaped(ss[|ss| - 1]) && CellsOf(ss[|ss| - 1]) == map[]
  }

  // ----- how single steps keep the open states -------------------------------

  lemma EntryAfterPlacing(e: StackEntry, p: Index, b: nat, added: Cells, prefix: Word, skip: int, m: map<Word, string>)
    requires EntryOk(e, p, prefix, skip, m) && IndexClosed(p) && b !in p
    ensures EntryOk(e, p[b := added], prefix, skip, m)
  {
    var cells := CellsOf(e);
    forall w: Word | |w| > 0 && w[0] != skip ensures Agrees(p[b := added], cells, prefix, m, w) {
      assert Agrees(p, cells, prefix, m, w);
      SemExtends(p, b, added, cells, w);
    }
  }

  // The parent after its child has been left.
  function Absorb(e: StackEntry, c: Byte, next: nat, data: Option<string>): StackEntry
    requires |e.next| == 256 && |e.data| == 256
  {
    e.(next := e.next[c := next], data := e.data[c := data], count := e.count + 1)
  }

  lemma ParentAfterPop(e: StackEntry, child: StackEntry, next: nat, p: Index, prefix: Word, m: map<Word, string>)
    requires EntryOk(e, p, prefix, child.c, m)
    requires EntryOk(child, p, prefix + [child.c], -1, m)
    requires child.data1.Some? || child.count > 0
    requires child.count == 0 ==> next == 0
    requires child.count > 0 ==> next != 0 && next in p && p[next] == CellsOf(child)
    ensures e.next[child.c] == 0 && e.data[child.c] == None
    ensures EntryOk(Absorb(e, child.c, next, child.data1), p, prefix, -1, m)
    ensures UsedUpTo(Absorb(e, child.c, next, child.data1), child.c)
  {
    var c := child.c;
    assert child.c != 0;
    assert c !in CellsOf(e);
    var e' := Absorb(e, c, next, child.data1);
    var cells, cells' := CellsOf(e), CellsOf(e');
    assert cells' == cells[c := Cell(next, child.data1)];
    forall w: Word | |w| > 0 ensures Agrees(p, cells', prefix, m, w) {
      if w[0] != c {
        assert Agrees(p, cells, prefix, m, w);
      } else if |w| == 1 {
        assert prefix + w == prefix + [c];
      } else {
        assert prefix + w == prefix + [c] + w[1..];
        assert Agrees(p, CellsOf(child), prefix + [c], m, w[1..]);
      }
    }
  }

  lemma StackAfterPush(ss: seq<StackEntry>, c: Byte, p: Index, m: map<Word, string>)
    requires |ss| > 0 && StackOk(ss, p, m) && c > 0
    requires Shaped(ss[|ss| - 1]) && UsedUpTo(ss[|ss| - 1], c - 1)
    ensures StackOk(ss + [Fresh(c)], p, m)
  {
    var d := |ss| - 1;
    var ss' := ss + [Fresh(c)];
    assert OpenState(ss, d, p, m);
    forall i | 0 <= i < |ss'| ensures OpenState(ss', i, p, m) {
      if i <= d {
        assert OpenState(ss, i, p, m);
        assert Path(ss', i) == Path(ss, i);
        if i == d {
          forall w: Word | |w| > 0 && w[0] != c ensures Agrees(p, CellsOf(ss[d]), Path(ss, d), m, w) {
          }
        }
      } else {
        var prefix := Path(ss', i);
        assert prefix == Path(ss, d) + [c];
        assert c !in CellsOf(ss[d]);
        assert Agrees(p, CellsOf(ss[d]), Path(ss, d), m, [c]);
        forall w: Word | |w| > 0 ensures Agrees(p, map[], prefix, m, w) {
          assert Agrees(p, CellsOf(ss[d]), Path(ss, d), m, [c] + w);
          assert Path(ss, d) + ([c] + w) == prefix + w;
        }
      }
    }
  }

  // Storing the value of the key whose path is open.
  lemma StackAfterValue(ss: seq<StackEntry>, p: Index, m: map<Word, string>, value: string)
    requires |ss| > 0 && StackOk(ss, p, m)
    ensures var d := |ss| - 1;
            StackOk(ss[d := ss[d].(data1 := Some(value))], p, m[Path(ss, d) := value])
  {
    var d := |ss| - 1;
    var s := Path(ss, d);
    var ss', m' := ss[d := ss[d].(data1 := Some(value))], m[s := value];
    forall i | 0 <= i < |ss'| ensures OpenState(ss', i, p, m') {
      assert OpenState(ss, i, p, m);
      var prefix := Path(ss, i);
      assert Path(ss', i) == prefix && Skip(ss', i) == Skip(ss, i);
      assert CellsOf(ss'[i]) == CellsOf(ss[i]);
      forall w: Word | |w| > 0 && w[0] != Skip(ss, i) ensures Agrees(p, CellsOf(ss[i]), prefix, m', w) {
        assert Agrees(p, CellsOf(ss[i]), prefix, m, w);
        assert (prefix + w)[i] == w[0];
        assert prefix + w != s;
      }
      if i < d {
        assert |prefix| != |s|;
      }
    }
  }

  lemma StackAfterPlacing(ss: seq<StackEntry>, p: Index, b: nat, added: Cells, m: map<Word, string>)
    requires StackOk(ss, p, m) && IndexClosed(p) && b !in p
    ensures StackOk(ss, p[b := added], m)
  {
    forall i {:trigger OpenState(ss, i, p[b := added], m)} | 0 <= i < |ss| ensures OpenState(ss, i, p[b := added], m) {
      assert OpenState(ss, i, p, m);
      EntryAfterPlacing(ss[i], p, b, added, Path(ss, i), Skip(ss, i), m);
    }
  }

  // The stack after its innermost state has been left.
  function Popped(ss: seq<StackEntry>, next: nat): (r: seq<StackEntry>)
    requires |ss| > 1 && Shaped(ss[|ss| - 2])
    ensures |r| == |ss| - 1 && forall k {:trigger r[k]} :: 0 <= k < |r| ==> r[k].c == ss[k].c
  {
    var d := |ss| - 1;
    ss[..d][d - 1 := Absorb(ss[d - 1], ss[d].c, next, ss[d].data1)]
  }

  lemma StackAfterPop(ss: seq<StackEntry>, next: nat, p: Index, m: map<Word, string>)
    requires |ss| > 1 && StackOk(ss, p, m) && TopNonEmpty(ss) && Shaped(ss[|ss| - 1]) && Shaped(ss[|ss| - 2])
    requires var top := ss[|ss| - 1]; (top.count == 0 ==> next == 0) && (top.count > 0 ==> next != 0 && next in p && p[next] == CellsOf(top))
    ensures var d := |ss| - 1; ss[d - 1].next[ss[d].c] == 0 && ss[d - 1].data[ss[d].c] == None
    ensures var ss' := Popped(ss, next);
            StackOk(ss', p, m) && TopNonEmpty(ss') && Shaped(ss'[|ss'| - 1]) && UsedUpTo(ss'[|ss'| - 1], ss[|ss| - 1].c)
  {
    var d := |ss| - 1;
    assert OpenState(ss, d - 1, p, m) && OpenState(ss, d, p, m);
    assert Path(ss, d) == Path(ss, d - 1) + [ss[d].c];
    ParentAfterPop(ss[d - 1], ss[d], next, p, Path(ss, d - 1), m);
    var ss' := Popped(ss, next);
    forall i {:trigger OpenState(ss', i, p, m)} | 0 <= i < d ensures OpenState(ss', i, p, m) {
      assert OpenState(ss, i, p, m);
      assert Path(ss', i) == Path(ss, i);
    }
  }

  lemma RootPopped(ss: seq<StackEntry>, p: Index, m: map<Word, string>, w: Word)
    requires |ss| == 1 && StackOk(ss, p, m) && |w| > 0 && Shaped(ss[0])
    requires if 0 in p then p[0] == CellsOf(ss[0]) else CellsOf(ss[0]) == map[]
    ensures Get(m, w) == if 0 in p then Sem(p, p[0], w) else None
  {
    assert OpenState(ss, 0, p, m);
    assert Agrees(p, CellsOf(ss[0]), Path(ss, 0), m, w);
    assert Path(ss, 0) + w == w;
  }

  // The open path is not greater than the next key, so neither is its next character.
  lemma PathOrder(ss: seq<StackEntry>, s: Word, i: nat)
    requires i < |ss| && i <= |s| && Path(ss, i) == s[..i] && !Less(s, Path(ss, |ss| - 1))
    ensures i + 1 < |ss| ==> i < |s| && ss[i + 1].c <= s[i]
  {
    var path := Path(ss, |ss| - 1);
    assert path[..i] == Path(ss, i);
    OrderAt(path, s, i);
    assert i + 1 < |ss| ==> path[i] == ss[i + 1].c;
  }

  lemma PathNext(ss: seq<StackEntry>, s: Word, i: nat)
    requires i + 1 < |ss| && i < |s| && Path(ss, i) == s[..i] && ss[i + 1].c == s[i]
    ensures Path(ss, i + 1) == s[..i + 1]
  {
    assert Path(ss, i + 1) == Path(ss, i) + [s[i]];
  }

  // ----- the builder ---------------------------------------------------------

  class TrieBuilder {
    const pack: int
    var tree: seq<TrieNode>
    var dataList: seq<DataEntry>
    var stateStack: seq<StackEntry>

    // the states written so far, and the keys they and the open states stand for
    ghost var placed: Index
    ghost var known: map<Word, string>

    ghost predicate Valid()
      reads this
    {
      && Packed(tree, placed) && IndexClosed(placed)
      && StackOk(stateStack, placed, known)
      && (stateStack != [] ==> 0 !in placed)
    }

    // Before createTrie: keys are only collected.
    ghost predicate Collecting()
      reads this
    {
      && Valid() && |stateStack| == 1 && TopUnused(stateStack) && known == map[]
      && forall e :: e in dataList ==> 0 !in e.key
    }

    constructor (pack: int)
      ensures Collecting() && this.pack == pack && dataList == []
    {
      this.pack := pack;
      tree, dataList, stateStack := [], [], [Fresh(0)];
      placed, known := map[], map[];
      new;
      forall w: Word | |w| > 0 ensures Agrees(placed, map[], Path(stateStack, 0), known, w) {
      }
      assert OpenState(stateStack, 0, placed, known);
    }

    method Insert(key: Word, value: string)
      requires Collecting() && 0 !in key
      modifies this`dataList
      ensures Collecting() && dataList == old(dataList) + [DataEntry(key, value)]
    {
      dataList := dataList + [DataEntry(key, value)];
    }

    // Search the first suitable base from start on; the array grows on demand.
    method FindSlot(e: StackEntry, start: nat) returns (i: nat)
      requires Shaped(e) && Packed(tree, placed)
      requires start == 0 || start >= 256
      modifies this`tree
      ensures Packed(tree, placed) && |tree| >= |old(tree)|
      ensures start <= i && i + 256 <= |tree| && Suitable(tree, e, i)
      ensures start == 0 && 0 !in placed ==> i == 0
      ensures |tree| == Max(|old(tree)|, i + 256) && forall k {:trigger Blocked(old(tree), e, k)} :: start <= k < i ==> Blocked(old(tree), e, k)
    {
      i := start;
      ghost var last := Max(start, |tree|);
      while true
        invariant start <= i <= last
        invariant Packed(tree, placed) && |tree| >= |old(tree)|
        invariant forall k :: |old(tree)| <= k < |tree| ==> tree[k] == NULL_NODE
        invariant tree[..|old(tree)|] == old(tree) && |tree| <= Max(|old(tree)|, i + 256)
        invariant forall k {:trigger Blocked(old(tree), e, k)} :: start <= k < i ==> Blocked(old(tree), e, k)
        invariant start == 0 && 0 !in placed ==> i == 0
        decreases last - i
      {
        if i + 256 > |tree| {
          PackedAfterGrow(tree, placed, i + 256 - |tree|);
          tree := tree + seq(i + 256 - |tree|, _ => NULL_NODE);
        }
        var j := 1;
        while j < 256 && !Clash(tree, e, i, j)
          invariant 1 <= j <= 256
          invariant forall j': Byte :: 0 < j' < j ==> !Clash(tree, e, i, j')
        {
          j := j + 1;
        }
        if j == 256 {
          return;
        }
        assert tree[i + j].c != 0;
        assert Owned(tree, placed, i + j);
        assert HasRoom(tree, placed, i + j - tree[i + j].c);
        assert BlockedAt(old(tree), e, i, j);
        i := i + 1;
      }
    }

    // Write the transitions of e at base i.
    method WriteState(e: StackEntry, i: nat)
      requires Shaped(e) && i + 256 <= |tree|
      modifies this`tree
      ensures Written(old(tree), tree, e, i, 256)
    {
      for j := 1 to 256
        invariant Written(old(tree), tree, e, i, j)
      {
        if Used(e, j) {
          tree := tree[i + j := TrieNode(j, e.next[j] % NEXT_LIMIT, e.data[j])];
        }
      }
    }

    method InsertState(e: StackEntry, root: bool) returns (i: nat)
      requires Shaped(e) && Packed(tree, placed) && IndexClosed(placed)
      requires CellsClosed(placed, CellsOf(e)) && (e.count == 0 <==> CellsOf(e) == map[])
      requires 0 !in placed
      modifies this`tree, this`placed
      ensures Packed(tree, placed) && IndexClosed(placed) && |tree| >= |old(tree)|
      ensures e.count == 0 ==> i == 0 && placed == old(placed)
      ensures e.count > 0 ==> i !in old(placed) && placed == old(placed)[i := CellsOf(e)]
      ensures e.count > 0 ==> (root <==> i == 0)
      ensures e.count > 0 ==>
                var start := if root then 0 else Max(|old(tree)| - pack + 2 * e.count, 256);
                && i >= start && |tree| == Max(|old(tree)|, i + 256)
                && forall k {:trigger Blocked(old(tree), e, k)} :: start <= k < i ==> Blocked(old(tree), e, k)
    {
      if e.count == 0 {
        return 0;
      }
      if root {
        i := 0;
      } else {
        var start := |tree| - pack + 2 * e.count;
        i := if start < 256 then 256 else start;
      }
      i := FindSlot(e, i);
      ghost var before := tree;
      WriteState(e, i);
      PackedAfterWrite(before, tree, placed, e, i);
      ghost var placed' := placed[i := CellsOf(e)];
      forall b | b in placed' ensures CellsClosed(placed', placed'[b]) {
        assert b in placed ==> CellsClosed(placed, placed[b]);
      }
      placed := placed';
    }

    method StateStackPush(c: Byte)
      requires Valid() && stateStack != [] && c > 0
      requires Shaped(stateStack[|stateStack| - 1]) && UsedUpTo(stateStack[|stateStack| - 1], c - 1)
      modifies this`stateStack
      ensures Valid() && stateStack == old(stateStack) + [Fresh(c)]
    {
      StackAfterPush(stateStack, c, placed, known);
      stateStack := stateStack + [Fresh(c)];
    }

    // Leave the innermost open state.  The two assertions are those of the source.
    method StateStackPop() returns (next: nat)
      requires Valid() && stateStack != [] && TopNonEmpty(stateStack)
      modifies this`tree, this`placed, this`stateStack
      ensures Valid() && TopNonEmpty(stateStack) && |tree| >= |old(tree)|
      ensures var d := |old(stateStack)| - 1;
              && |stateStack| == d
              && (forall k :: 0 <= k < d ==> stateStack[k].c == old(stateStack)[k].c)
              && (d > 0 ==> Shaped(stateStack[d - 1]) && UsedUpTo(stateStack[d - 1], old(stateStack)[d].c))
      ensures stateStack == [] ==> forall w: Word :: |w| > 0 ==>
                Get(known, w) == if 0 in placed then Sem(placed, placed[0], w) else None
    {
      ghost var ss, p := stateStack, placed;
      var d := |stateStack| - 1;
      var top := stateStack[d];
      assert OpenState(ss, d, p, known);
      next := InsertState(top, |stateStack| == 1);
      if top.count > 0 {
        StackAfterPlacing(ss, p, next, CellsOf(top), known);
      }
      stateStack := stateStack[..d];
      if d > 0 {
        var parent := stateStack[d - 1];
        assert OpenState(ss, d - 1, placed, known);
        StackAfterPop(ss, next, placed, known);
        assert parent.next[top.c] == 0;
        assert parent.data[top.c] == None;
        stateStack := stateStack[d - 1 := Absorb(parent, top.c, next, top.data1)];
        assert stateStack == Popped(ss, next);
      } else {
        forall w: Word | |w| > 0
          ensures Get(known, w) == if 0 in placed then Sem(placed, placed[0], w) else None
        {
          RootPopped(ss, placed, known, w);
        }
      }
    }

    // Leave open states until only size of them are left.
    method PopDownTo(size: nat)
      requires Valid() && 0 < size <= |stateStack| && (size < |stateStack| ==> TopNonEmpty(stateStack))
      modifies this`tree, this`placed, this`stateStack
      ensures Valid() && |stateStack| == size
      ensures size == |old(stateStack)| ==> stateStack == old(stateStack)
      ensures Path(stateStack, size - 1) == Path(old(stateStack), size - 1)
      ensures size < |old(stateStack)| ==> TopNonEmpty(stateStack) && Shaped(stateStack[size - 1])
      ensures size < |old(stateStack)| ==> UsedUpTo(stateStack[size - 1], old(stateStack)[size].c)
    {
      ghost var ss := stateStack;
      while |stateStack| > size
        invariant Valid() && size <= |stateStack| <= |ss|
        invariant |stateStack| == |ss| ==> stateStack == ss
        invariant forall k :: 0 <= k < |stateStack| ==> stateStack[k].c == ss[k].c
        invariant size < |ss| ==> TopNonEmpty(stateStack)
        invariant |stateStack| < |ss| ==>
                    var d := |stateStack| - 1; Shaped(stateStack[d]) && UsedUpTo(stateStack[d], ss[d + 1].c)
      {
        var _ := StateStackPop();
      }
    }

    method InsertSorted(s: Word, value: string)
      requires Valid() && stateStack != [] && TopNonEmpty(stateStack) && TopUnused(stateStack)
      requires !Less(s, Path(stateStack, |stateStack| - 1)) && 0 !in s
      modifies this`tree, this`placed, this`stateStack, this`known
      ensures Valid() && stateStack != [] && TopNonEmpty(stateStack) && TopUnused(stateStack)
      ensures Path(stateStack, |stateStack| - 1) == s
      ensures known == old(known)[s := value]
    {
      ghost var pushed := false;
      for i := 0 to |s|
        invariant Valid() && known == old(known)
        invariant |stateStack| > i && Path(stateStack, i) == s[..i]
        invariant pushed ==> |stateStack| == i + 1
        invariant !pushed ==> !Less(s, Path(stateStack, |stateStack| - 1)) && TopNonEmpty(stateStack)
        invariant TopUnused(stateStack)
      {
        if !pushed {
          PathOrder(stateStack, s, i);
        }
        if |stateStack| > i + 1 && stateStack[i + 1].c != s[i] {
          PopDownTo(i + 1);
        }
        if i + 1 >= |stateStack| {
          StateStackPush(s[i]);
          pushed := true;
        }
        PathNext(stateStack, s, i);
      }
      if !pushed {
        PathOrder(stateStack, s, |s|);
      }
      PopDownTo(|s| + 1);
      SetValue(s, value);
    }

    method SetValue(s: Word, value: string)
      requires Valid() && |stateStack| == |s| + 1 && TopUnused(stateStack) && Path(stateStack, |s|) == s
      modifies this`stateStack, this`known
      ensures Valid() && |stateStack| == |s| + 1 && TopNonEmpty(stateStack) && TopUnused(stateStack)
      ensures Path(stateStack, |s|) == s
      ensures known == old(known)[s := value]
    {
      StackAfterValue(stateStack, placed, known, value);
      stateStack := stateStack[|s| := stateStack[|s|].(data1 := Some(value))];
      known := known[s := value];
      assert CellsOf(stateStack[|s|]) == map[];
    }

    // The loop body of createTrie.
    method InsertNext(sorted: seq<DataEntry>, i: nat)
      requires Valid() && stateStack != [] && TopNonEmpty(stateStack) && TopUnused(stateStack) && i < |sorted|
      requires InOrder(sorted) && 0 !in sorted[i].key && ListedIn(known, sorted[..i])
      requires Path(stateStack, |stateStack| - 1) == if i == 0 then [] else sorted[i - 1].key
      modifies this`tree, this`placed, this`stateStack, this`known
      ensures Valid() && stateStack != [] && TopNonEmpty(stateStack) && TopUnused(stateStack)
      ensures Path(stateStack, |stateStack| - 1) == sorted[i].key && ListedIn(known, sorted[..i + 1])
    {
      ListedNext(known, sorted, i);
      ghost var before := if i == 0 then [] else sorted[i - 1].key;
      assert !Less(sorted[i].key, before);
      InsertSorted(sorted[i].key, sorted[i].value);
    }

    method InsertAll(sorted: seq<DataEntry>)
      requires Valid() && |stateStack| == 1 && TopUnused(stateStack) && known == map[]
      requires InOrder(sorted) && forall e :: e in sorted ==> 0 !in e.key
      modifies this`tree, this`placed, this`stateStack, this`known
      ensures Valid() && stateStack != [] && TopNonEmpty(stateStack)
      ensures ListedIn(known, sorted)
    {
      for i := 0 to |sorted|
        invariant Valid() && stateStack != []
        invariant TopNonEmpty(stateStack) && TopUnused(stateStack)
        invariant Path(stateStack, |stateStack| - 1) == if i == 0 then [] else sorted[i - 1].key
        invariant ListedIn(known, sorted[..i])
      {
        InsertNext(sorted, i);
      }
      assert sorted[..|sorted|] == sorted;
    }

    method CloseAll()
      requires Valid() && stateStack != [] && TopNonEmpty(stateStack)
      modifies this`tree, this`placed, this`stateStack
      ensures Packed(tree, placed) && IndexClosed(placed)
      ensures forall w: Word :: |w| > 0 ==>
                Get(known, w) == if 0 in placed then Sem(placed, placed[0], w) else None
    {
      while stateStack != []
        invariant Valid() && TopNonEmpty(stateStack)
        invariant stateStack == [] ==> forall w: Word :: |w| > 0 ==>
                    Get(known, w) == if 0 in placed then Sem(placed, placed[0], w) else None
        decreases |stateStack|
      {
        var _ := StateStackPop();
      }
    }

    // The finished array.  It finds each key that was inserted, with a value that
    // was inserted for it, and nothing else.
    method CreateTrie() returns (trie: seq<TrieNode>)
      requires Collecting()
      modifies this
      ensures Closed(trie)
      ensures |trie| <= NEXT_LIMIT + 255 ==> Represents(trie, old(dataList))
      ensures tree == []
    {
      ghost var list := dataList;
      dataList := Sorted(dataList);
      SameElements(list, dataList);
      InsertAll(dataList);
      CloseAll();
      trie := tree;
      tree := [];
      PackedIsClosed(trie, placed);
      if |trie| <= NEXT_LIMIT + 255 {
        TrieAnswers(trie, placed, known, dataList, list);
      }
    }
  }

  lemma SameElements(a: seq<DataEntry>, b: seq<DataEntry>)
    requires multiset(a) == multiset(b)
    ensures forall e :: e in a <==> e in b
  {
    forall e ensures e in a <==> e in b {
      assert e in a <==> e in multiset(a);
      assert e in b <==> e in multiset(b);
    }
  }

  lemma TrieAnswers(trie: seq<TrieNode>, p: Index, m: map<Word, string>, sorted: seq<DataEntry>, list: seq<DataEntry>)
    requires Packed(trie, p) && IndexClosed(p) && Closed(trie) && |trie| <= NEXT_LIMIT + 255
    requires forall w: Word :: |w| > 0 ==> Get(m, w) == if 0 in p then Sem(p, p[0], w) else None
    requires ListedIn(m, sorted) && forall e :: e in sorted <==> e in list
    ensures Represents(trie, list)
  {
    forall w: Word | |w| > 0 ensures Answers(trie, list, w) {
      if 0 in p {
        WalkIsSem(trie, p, 0, w);
      } else {
        WalkWithoutRoot(trie, p, w);
      }
      assert Walk(trie, ROOT, w) == Get(m, w);
    }
  }

  // m has the keys of the list, each with one of its values.
  ghost predicate ListedIn(m: map<Word, string>, list: seq<DataEntry>) {
    && (forall k :: k in m ==> DataEntry(k, m[k]) in list)
    && (forall e :: e in list ==> e.key in m)
  }

  lemma ListedNext(m: map<Word, string>, list: seq<DataEntry>, i: nat)
    requires i < |list| && ListedIn(m, list[..i])
    ensures ListedIn(m[list[i].key := list[i].value], list[..i + 1])
  {
    assert list[..i + 1] == list[..i] + [list[i]];
    assert DataEntry(list[i].key, list[i].value) == list[i];
  }

  // Reading any non-empty word in the trie answers like a search in the list.
  ghost predicate Represents(trie: seq<TrieNode>, list: seq<DataEntry>)
    requires Closed(trie)
  {
    forall w: Word :: |w| > 0 ==> Answers(trie, list, w)
  }

  ghost predicate Answers(trie: seq<TrieNode>, list: seq<DataEntry>, w: Word)
    requires Closed(trie) && |w| > 0
  {
    match Walk(trie, ROOT, w)
    case Some(value) => DataEntry(w, value) in list
    case None => forall e :: e in list ==> e.key != w
  }

  lemma WalkWithoutRoot(tree: seq<TrieNode>, p: Index, w: Word)
    requires |w| > 0 && Closed(tree) && Packed(tree, p) && 0 !in p
    ensures Walk(tree, ROOT, w) == None
  {
    var c := w[0];
    if tree != [] {
      assert Owned(tree, p, c);
      assert tree[c].c != 0 ==> HasRoom(tree, p, c - tree[c].c);
      if |w| > 1 {
        WalkFromInvalid(tree, -1, w[1..]);
      }
    } else {
      WalkFromInvalid(tree, ROOT, w);
    }
  }
}
