// The packed pattern trie of dw/hyphenator.hh and dw/hyphenator.cc.
//
// All states of the trie share one array: the state at base b owns the slots
// b + j whose character is j.  States interleave, as long as no slot is claimed
// twice and no two states have the same base.
module Trie {
  import opened Common

  type Word = seq<Byte>

  // ----- the array and its reader -------------------------------------------

  datatype TrieNode = TrieNode(c: Byte, next: nat, data: Option<string>)

  const NULL_NODE := TrieNode(0, 0, None)

  const ROOT := 0

  // The field "next" of a node is a uint16_t.
  const NEXT_LIMIT := 0x10000

  predicate ValidState(tree: seq<TrieNode>, state: int) {
    0 <= state < |tree|
  }

  // Reading any byte in this state stays within the array.
  predicate Safe(tree: seq<TrieNode>, state: int) {
    ValidState(tree, state) ==> state + 256 <= |tree|
  }

  // The root and every state stored in a node can be read safely.
  predicate Closed(tree: seq<TrieNode>) {
    && Safe(tree, ROOT)
    && forall k :: 0 <= k < |tree| ==> Safe(tree, tree[k].next)
  }

  // One step of the reader: the datum of the transition, and the next state.
  function GetData(tree: seq<TrieNode>, c: Byte, state: int): (r: (Option<string>, int))
    requires Closed(tree) && Safe(tree, state)
    ensures Safe(tree, r.1)
  {
    if !ValidState(tree, state) then (None, state)
    else
      var tn := tree[state + c];
      if tn.c == c then (tn.data, if tn.next > 0 then tn.next else -1) else (None, -1)
  }

  // What the reader returns for the last byte when it is fed w from state.
  function Walk(tree: seq<TrieNode>, state: int, w: Word): Option<string>
    requires |w| > 0 && Closed(tree) && Safe(tree, state)
    decreases |w|
  {
    var (data, next) := GetData(tree, w[0], state);
    if |w| == 1 then data else Walk(tree, next, w[1..])
  }

  lemma {:induction false} WalkFromInvalid(tree: seq<TrieNode>, state: int, w: Word)
    requires |w| > 0 && Closed(tree) && !ValidState(tree, state)
    ensures Walk(tree, state, w) == None
  {
    if |w| > 1 {
      WalkFromInvalid(tree, state, w[1..]);
    }
  }

  // ----- an index of the states, independent of how they are packed ---------

  datatype Cell = Cell(next: nat, data: Option<string>)

  type Cells = map<Byte, Cell>

  // From the base of a state to its transitions.
  type Index = map<nat, Cells>

  // The datum reached from a state with these transitions by reading w.
  ghost function Sem(p: Index, cells: Cells, w: Word): Option<string>
    requires |w| > 0
    decreases |w|
  {
    if w[0] !in cells then None
    else if |w| == 1 then cells[w[0]].data
    else
      var next := cells[w[0]].next;
      if next == 0 || next !in p then None else Sem(p, p[next], w[1..])
  }

  ghost predicate CellsClosed(p: Index, cells: Cells) {
    forall j :: j in cells ==> j != 0 && (cells[j].next == 0 || cells[j].next in p)
  }

  ghost predicate IndexClosed(p: Index) {
    forall b {:trigger CellsClosed(p, p[b])} :: b in p ==> CellsClosed(p, p[b])
  }

  // p describes exactly what is stored in tree (up to the width of "next").
  ghost predicate Packed(tree: seq<TrieNode>, p: Index) {
    && (|tree| == 0 || |tree| >= 256)
    && (forall b {:trigger HasRoom(tree, p, b)} :: b in p ==> HasRoom(tree, p, b))
    && (forall b, j: Byte {:trigger Stored(tree, b, j, p[b][j])} ::
          b in p && j in p[b] ==> Stored(tree, b, j, p[b][j]))
    && (forall k {:trigger Owned(tree, p, k)} :: 0 <= k < |tree| ==> Owned(tree, p, k))
  }

  ghost predicate HasRoom(tree: seq<TrieNode>, p: Index, b: nat)
    requires b in p
  {
    (b == 0 || b >= 256) && b + 256 <= |tree| && p[b] != map[] && 0 !in p[b]
  }

  ghost predicate Stored(tree: seq<TrieNode>, b: nat, j: Byte, cell: Cell) {
    b + j < |tree| && tree[b + j] == TrieNode(j, cell.next % NEXT_LIMIT, cell.data)
  }

  // An occupied slot belongs to the state its character points back to.
  ghost predicate Owned(tree: seq<TrieNode>, p: Index, k: nat)
    requires k < |tree|
  {
    var c := tree[k].c;
    if c == 0 then tree[k] == NULL_NODE else k - c in p && c in p[k - c]
  }

  lemma {:induction false} SemExtends(p: Index, b: nat, added: Cells, cells: Cells, w: Word)
    requires |w| > 0 && IndexClosed(p) && CellsClosed(p, cells) && b !in p
    ensures Sem(p[b := added], cells, w) == Sem(p, cells, w)
    decreases |w|
  {
    if w[0] in cells && |w| > 1 && cells[w[0]].next != 0 {
      assert CellsClosed(p, p[cells[w[0]].next]);
      SemExtends(p, b, added, p[cells[w[0]].next], w[1..]);
    }
  }

  lemma PackedIsClosed(tree: seq<TrieNode>, p: Index)
    requires Packed(tree, p) && IndexClosed(p)
    ensures Closed(tree)
  {
    forall k | 0 <= k < |tree| ensures Safe(tree, tree[k].next) {
      assert Owned(tree, p, k);
      if tree[k].c != 0 {
        var b, j := k - tree[k].c, tree[k].c;
        assert Stored(tree, b, j, p[b][j]) && CellsClosed(p, p[b]);
        var next := p[b][j].next;
        assert next != 0 ==> HasRoom(tree, p, next);
      }
    }
  }

  // The packed array reads like the index, if every base fits into 16 bits.
  lemma {:induction false} WalkIsSem(tree: seq<TrieNode>, p: Index, b: nat, w: Word)
    requires |w| > 0 && Closed(tree) && Packed(tree, p) && IndexClosed(p)
    requires |tree| <= NEXT_LIMIT + 255
    requires b in p
    ensures Safe(tree, b) && Walk(tree, b, w) == Sem(p, p[b], w)
    decreases |w|
  {
    var c := w[0];
    assert HasRoom(tree, p, b) && Owned(tree, p, b + c);
    var (data, next) := GetData(tree, c, b);
    if c in p[b] {
      assert Stored(tree, b, c, p[b][c]) && CellsClosed(p, p[b]);
      if |w| > 1 {
        if p[b][c].next != 0 {
          assert HasRoom(tree, p, p[b][c].next);
          WalkIsSem(tree, p, next, w[1..]);
        } else {
          WalkFromInvalid(tree, next, w[1..]);
        }
      }
    } else {
      assert data == None && next == -1;
      if |w| > 1 {
        WalkFromInvalid(tree, next, w[1..]);
      }
    }
  }

  // ----- the builder's open states ------------------------------------------

  datatype StackEntry = StackEntry(
    c: Byte, count: nat, next: seq<nat>, data: seq<Option<string>>, data1: Option<string>)

  ghost predicate Shaped(e: StackEntry) {
    |e.next| == 256 && |e.data| == 256
  }

  predicate Used(e: StackEntry, j: Byte)
    requires |e.next| == 256 && |e.data| == 256
  {
    e.next[j] != 0 || e.data[j].Some?
  }

  ghost function CellsOf(e: StackEntry): Cells
    requires Shaped(e)
  {
    map j: Byte | 0 < j && Used(e, j) :: Cell(e.next[j], e.data[j])
  }

  function Fresh(c: Byte): (e: StackEntry)
    ensures Shaped(e) && CellsOf(e) == map[]
  {
    StackEntry(c, 0, seq(256, _ => 0), seq(256, _ => None), None)
  }

  // ----- placing a state ----------------------------------------------------

  // The state can be placed at base i: all slots it needs are free, and no
  // other state has this base.
  ghost predicate Suitable(tree: seq<TrieNode>, e: StackEntry, i: nat)
    requires Shaped(e) && i + 256 <= |tree|
  {
    forall j: Byte :: 0 < j ==> !Clash(tree, e, i, j)
  }

  predicate Clash(tree: seq<TrieNode>, e: StackEntry, i: nat, j: Byte)
    requires |e.next| == 256 && |e.data| == 256 && i + 256 <= |tree|
  {
    tree[i + j].c == j || (Used(e, j) && tree[i + j].c != 0)
  }

  // A state cannot be put there.
  ghost predicate Blocked(tree: seq<TrieNode>, e: StackEntry, k: nat)
    requires Shaped(e)
  {
    exists j: nat {:trigger BlockedAt(tree, e, k, j)} :: BlockedAt(tree, e, k, j)
  }

  ghost predicate BlockedAt(tree: seq<TrieNode>, e: StackEntry, k: nat, j: nat)
    requires Shaped(e)
  {
    0 < j < 256 && k + j < |tree| && (tree[k + j].c == j || (Used(e, j) && tree[k + j].c != 0))
  }

  lemma WhenBlocked(tree: seq<TrieNode>, e: StackEntry, k: nat)
    requires Shaped(e) && k + 256 <= |tree|
    ensures Blocked(tree, e, k) <==> !Suitable(tree, e, k)
    ensures forall j: Byte {:trigger Clash(tree, e, k, j)} {:trigger tree[k + j]} :: j > 0 ==>
              (Clash(tree, e, k, j) <==> tree[k + j].c == j || (tree[k + j].c != 0 && (e.next[j] != 0 || e.data[j].Some?)))
  {
    if !Suitable(tree, e, k) {
      var j: Byte :| 0 < j && Clash(tree, e, k, j);
      assert BlockedAt(tree, e, k, j);
    }
    if Blocked(tree, e, k) {
      var j: nat :| BlockedAt(tree, e, k, j);
      assert Clash(tree, e, k, j);
    }
  }

  // tree with the transitions below limit of e written at base i
  ghost predicate Written(before: seq<TrieNode>, after: seq<TrieNode>, e: StackEntry, i: nat, limit: nat)
    requires Shaped(e)
  {
    && |after| == |before|
    && forall k :: 0 <= k < |before| ==>
         after[k] == if 0 < k - i < limit <= 256 && Used(e, k - i)
                     then TrieNode(k - i, e.next[k - i] % NEXT_LIMIT, e.data[k - i])
                     else before[k]
  }

  lemma PackedAfterWrite(before: seq<TrieNode>, after: seq<TrieNode>, p: Index, e: StackEntry, i: nat)
    requires Shaped(e) && i + 256 <= |before| && (i == 0 || i >= 256)
    requires Packed(before, p) && Suitable(before, e, i) && Written(before, after, e, i, 256)
    requires CellsOf(e) != map[]
    ensures i !in p && Packed(after, p[i := CellsOf(e)])
  {
    var cells := CellsOf(e);
    if i in p {
      assert HasRoom(before, p, i);
      var j :| j in p[i];
      assert Stored(before, i, j, p[i][j]);
      assert Clash(before, e, i, j);
      assert false;
    }
    var p' := p[i := cells];
    forall b | b in p' ensures HasRoom(after, p', b) {
      assert b != i ==> HasRoom(before, p, b);
    }
    forall b, j: Byte | b in p' && j in p'[b] ensures Stored(after, b, j, p'[b][j]) {
      if b != i {
        assert HasRoom(before, p, b) && Stored(before, b, j, p[b][j]);
        assert 0 < b + j - i < 256 ==> !Clash(before, e, i, b + j - i);
      }
    }
    forall k | 0 <= k < |after| ensures Owned(after, p', k) {
      assert Owned(before, p, k);
    }
  }

  lemma PackedAfterGrow(tree: seq<TrieNode>, p: Index, n: nat)
    requires Packed(tree, p) && |tree| + n >= 256
    ensures Packed(tree + seq(n, _ => NULL_NODE), p)
  {
    var tree' := tree + seq(n, _ => NULL_NODE);
    forall b | b in p ensures HasRoom(tree', p, b) {
      assert HasRoom(tree, p, b);
    }
    forall b, j: Byte | b in p && j in p[b] ensures Stored(tree', b, j, p[b][j]) {
      assert Stored(tree, b, j, p[b][j]);
    }
    forall k | 0 <= k < |tree'| ensures Owned(tree', p, k) {
      assert k < |tree| ==> Owned(tree, p, k);
    }
  }
}
