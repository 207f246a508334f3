// The order of floats in the document: dw/ooffloatsmgr.cc:129-224, 527-543.
//
// A float belongs to a text block (its generator) and has an index there.  Text
// blocks form a tree; they are numbered in the order in which they register.
module FloatOrder {
  import opened Common
  import opened Lexicographic
  import opened VectorSearch

  // OOFFloatsMgr::TBInfo; the list of all of them plays the role of tbInfos.
  datatype TBInfo = TBInfo(parent: Option<nat>, parentExtIndex: int)

  // A place in the document: a generator and an external index there.
  datatype DocPoint = DocPoint(generator: nat, externalIndex: int)

  // Only the container has no parent, and parents register before children.
  ghost predicate IsTree(tbs: seq<TBInfo>) {
    && |tbs| > 0 && tbs[0].parent == None
    && forall t {:trigger tbs[t]} :: 0 < t < |tbs| ==> tbs[t].parent.Some? && tbs[t].parent.value < t
  }

  // External indices on the way from the container down to block t.
  ghost function Path(tbs: seq<TBInfo>, t: nat): seq<int>
    requires IsTree(tbs) && t < |tbs|
  {
    if t == 0 then [] else Path(tbs, tbs[t].parent.value) + [tbs[t].parentExtIndex]
  }

  ghost function PointPath(tbs: seq<TBInfo>, p: DocPoint): seq<int>
    requires IsTree(tbs) && p.generator < |tbs|
  {
    Path(tbs, p.generator) + [p.externalIndex]
  }

  // Blocks registered in document order.
  ghost predicate InDocumentOrder(tbs: seq<TBInfo>)
    requires IsTree(tbs)
  {
    forall s, t {:trigger Path(tbs, s), Path(tbs, t)} :: 0 <= s < t < |tbs| ==> LexSign(Path(tbs, s), Path(tbs, t)) == -1
  }

  // ----- the comparator --------------------------------------------------------

  // The block on the chain from t upwards whose parent is the given block.
  function ChildToward(tbs: seq<TBInfo>, t: nat, block: nat): (r: Option<nat>)
    requires IsTree(tbs) && t < |tbs|
    ensures r.Some? ==> r.value < |tbs| && tbs[r.value].parent == Some(block)
    ensures r.Some? ==> block < r.value <= t
  {
    if tbs[t].parent == Some(block) then Some(t)
    else if t == 0 then None
    else ChildToward(tbs, tbs[t].parent.value, block)
  }

  // CompareGBAndExtIndex::compare.  The loops of the source are in CompareLoops.
  function Compare(tbs: seq<TBInfo>, p1: DocPoint, p2: DocPoint): int
    requires IsTree(tbs) && p1.generator < |tbs| && p2.generator < |tbs|
  {
    if p1.generator == p2.generator then p1.externalIndex - p2.externalIndex
    else
      match ChildToward(tbs, p1.generator, p2.generator)
      case Some(t) => tbs[t].parentExtIndex - p2.externalIndex
      case None =>
        match ChildToward(tbs, p2.generator, p1.generator)
        case Some(t) => p1.externalIndex - tbs[t].parentExtIndex
        case None => p1.generator - p2.generator
  }

  // Only one block on the chain has the given parent: the later ones are smaller.
  lemma {:induction false} ChildIsUnique(tbs: seq<TBInfo>, t: nat, block: nat)
    requires IsTree(tbs) && t <= block < |tbs|
    ensures ChildToward(tbs, t, block) == None
  {
    if t > 0 {
      ChildIsUnique(tbs, tbs[t].parent.value, block);
    }
  }

  method CompareLoops(tbs: seq<TBInfo>, p1: DocPoint, p2: DocPoint) returns (r: int)
    requires IsTree(tbs) && p1.generator < |tbs| && p2.generator < |tbs|
    ensures r == Compare(tbs, p1, p2)
  {
    r := -123;
    if p1.generator == p2.generator {
      r := p1.externalIndex - p2.externalIndex;
    } else {
      var t1: int, t2: int := p1.generator, p2.generator;
      var rdef := false;
      var t: Option<nat> := Some(p1.generator);
      while t.Some?
        invariant t.Some? ==> t.value < |tbs|
        invariant !rdef ==> ChildToward(tbs, t1, t2) == if t.Some? then ChildToward(tbs, t.value, t2) else None
        invariant rdef ==> (t.Some? ==> ChildToward(tbs, t.value, t2) == None) && r == Compare(tbs, p1, p2)
        decreases if t.Some? then t.value + 1 else 0
      {
        if tbs[t.value].parent == Some(t2) {
          rdef := true;
          r := tbs[t.value].parentExtIndex - p2.externalIndex;
          ChildIsUnique(tbs, t2, t2);
        }
        t := tbs[t.value].parent;
      }
      t := Some(p2.generator);
      while !rdef && t.Some?
        invariant t.Some? ==> t.value < |tbs|
        invariant !rdef ==> ChildToward(tbs, t1, t2) == None
        invariant !rdef ==> ChildToward(tbs, t2, t1) == if t.Some? then ChildToward(tbs, t.value, t1) else None
        invariant rdef ==> r == Compare(tbs, p1, p2)
        decreases if t.Some? then t.value + 1 else 0
      {
        if tbs[t.value].parent == Some(t1) {
          r := p1.externalIndex - tbs[t.value].parentExtIndex;
          rdef := true;
        }
        t := tbs[t.value].parent;
      }
      if !rdef {
        r := t1 - t2;
      }
    }
  }

  // ----- the comparator is the document order ------------------------------------

  lemma {:induction false} PathBelowChild(tbs: seq<TBInfo>, t: nat, block: nat)
    requires IsTree(tbs) && t < |tbs| && block < |tbs|
    requires ChildToward(tbs, t, block).Some?
    ensures Path(tbs, ChildToward(tbs, t, block).value) <= Path(tbs, t)
  {
    if tbs[t].parent != Some(block) {
      PathBelowChild(tbs, tbs[t].parent.value, block);
    }
  }

  // A block whose path is a prefix of another one's is an ancestor of it.
  lemma {:induction false} PrefixIsAncestor(tbs: seq<TBInfo>, t: nat, block: nat)
    requires IsTree(tbs) && InDocumentOrder(tbs) && t < |tbs| && block < |tbs| && t != block
    requires Path(tbs, block) <= Path(tbs, t)
    ensures ChildToward(tbs, t, block).Some?
  {
    LexEqual(Path(tbs, block), Path(tbs, t));
    LexReverse(Path(tbs, block), Path(tbs, t));
    assert Path(tbs, block) != Path(tbs, t);
    if tbs[t].parent != Some(block) {
      PrefixIsAncestor(tbs, tbs[t].parent.value, block);
    }
  }

  // The two points denote different things at the same index of one block: one is
  // the index itself, the other lies within the child block at this index.
  predicate Clash(tbs: seq<TBInfo>, p1: DocPoint, p2: DocPoint)
    requires IsTree(tbs) && p1.generator < |tbs| && p2.generator < |tbs|
  {
    && p1.generator != p2.generator
    && var up, down := ChildToward(tbs, p1.generator, p2.generator), ChildToward(tbs, p2.generator, p1.generator);
       (up.Some? && tbs[up.value].parentExtIndex == p2.externalIndex)
       || (down.Some? && tbs[down.value].parentExtIndex == p1.externalIndex)
  }

  lemma CompareBelow(tbs: seq<TBInfo>, p1: DocPoint, p2: DocPoint)
    requires IsTree(tbs) && p1.generator < |tbs| && p2.generator < |tbs|
    requires ChildToward(tbs, p1.generator, p2.generator).Some?
    ensures var e := tbs[ChildToward(tbs, p1.generator, p2.generator).value].parentExtIndex;
            LexSign(PointPath(tbs, p1), PointPath(tbs, p2)) == if e == p2.externalIndex then 1 else Sign(e - p2.externalIndex)
  {
    var t := ChildToward(tbs, p1.generator, p2.generator).value;
    var base, e := Path(tbs, p2.generator), tbs[t].parentExtIndex;
    PathBelowChild(tbs, p1.generator, p2.generator);
    assert Path(tbs, t) == base + [e];
    var rest := Split(Path(tbs, p1.generator), base, e, p1.externalIndex);
    LexCommonPrefix(base, [e] + rest, [p2.externalIndex]);
  }

  // What follows after base and e.
  lemma Split(path: seq<int>, base: seq<int>, e: int, last: int) returns (rest: seq<int>)
    requires base + [e] <= path
    ensures path + [last] == base + ([e] + rest) && rest != []
  {
    rest := path[|base| + 1..] + [last];
    assert path == (base + [e]) + path[|base| + 1..];
  }

  // The comparator has the sign of the document order, except for clashing points:
  // those it calls equal although they are not.
  lemma CompareIsDocumentOrder(tbs: seq<TBInfo>, p1: DocPoint, p2: DocPoint)
    requires IsTree(tbs) && InDocumentOrder(tbs) && p1.generator < |tbs| && p2.generator < |tbs|
    ensures Sign(Compare(tbs, p1, p2)) == LexSign(PointPath(tbs, p1), PointPath(tbs, p2)) <==> !Clash(tbs, p1, p2)
    ensures Clash(tbs, p1, p2) ==> Compare(tbs, p1, p2) == 0
  {
    var g1, g2 := p1.generator, p2.generator;
    if g1 == g2 {
      LexCommonPrefix(Path(tbs, g1), [p1.externalIndex], [p2.externalIndex]);
    } else if ChildToward(tbs, g1, g2).Some? {
      ChildIsUnique(tbs, g2, g1);
      CompareBelow(tbs, p1, p2);
    } else if ChildToward(tbs, g2, g1).Some? {
      CompareBelow(tbs, p2, p1);
      LexReverse(PointPath(tbs, p1), PointPath(tbs, p2));
    } else {
      if Path(tbs, g1) <= Path(tbs, g2) {
        PrefixIsAncestor(tbs, g2, g1);
      }
      if Path(tbs, g2) <= Path(tbs, g1) {
        PrefixIsAncestor(tbs, g1, g2);
      }
      LexExtend(Path(tbs, g1), Path(tbs, g2), [p1.externalIndex], [p2.externalIndex]);
      LexReverse(Path(tbs, g1), Path(tbs, g2));
    }
  }

  // ----- points that can be told apart ---------------------------------------------

  predicate IsPoint(tbs: seq<TBInfo>, p: DocPoint) {
    p.generator < |tbs|
  }

  // Among points without clashes the comparator is a total order.
  lemma CompareTransitive(tbs: seq<TBInfo>, a: DocPoint, b: DocPoint, c: DocPoint)
    requires IsTree(tbs) && InDocumentOrder(tbs) && IsPoint(tbs, a) && IsPoint(tbs, b) && IsPoint(tbs, c)
    requires !Clash(tbs, a, b) && !Clash(tbs, b, c) && !Clash(tbs, a, c)
    ensures Compare(tbs, a, b) <= 0 && Compare(tbs, b, c) <= 0 ==> Compare(tbs, a, c) <= 0
    ensures Compare(tbs, a, b) <= 0 && Compare(tbs, b, c) < 0 ==> Compare(tbs, a, c) < 0
    ensures Compare(tbs, a, b) < 0 && Compare(tbs, b, c) <= 0 ==> Compare(tbs, a, c) < 0
    ensures Sign(Compare(tbs, b, a)) == -Sign(Compare(tbs, a, b))
    ensures Compare(tbs, a, b) == 0 <==> a == b
  {
    var pa, pb, pc := PointPath(tbs, a), PointPath(tbs, b), PointPath(tbs, c);
    CompareIsDocumentOrder(tbs, a, b);
    CompareIsDocumentOrder(tbs, b, a);
    CompareIsDocumentOrder(tbs, b, c);
    CompareIsDocumentOrder(tbs, a, c);
    LexReverse(pa, pb);
    if LexSign(pa, pb) <= 0 && LexSign(pb, pc) <= 0 {
      LexTransitive(pa, pb, pc);
    }
    LexEqual(pa, pb);
    if pa == pb {
      SamePathSamePoint(tbs, a, b);
    }
  }

  lemma SamePathSamePoint(tbs: seq<TBInfo>, a: DocPoint, b: DocPoint)
    requires IsTree(tbs) && InDocumentOrder(tbs) && IsPoint(tbs, a) && IsPoint(tbs, b)
    requires PointPath(tbs, a) == PointPath(tbs, b)
    ensures a == b
  {
    var pa, pb := Path(tbs, a.generator), Path(tbs, b.generator);
    assert pa == PointPath(tbs, a)[..|pa|] && pb == PointPath(tbs, b)[..|pb|];
    assert PointPath(tbs, a)[|pa|] == a.externalIndex && PointPath(tbs, b)[|pb|] == b.externalIndex;
    LexEqual(pa, pb);
    LexReverse(pa, pb);
  }

  // The points of a list of floats, in document order and without clashes.
  ghost predicate Registered(tbs: seq<TBInfo>, points: seq<DocPoint>)
    requires IsTree(tbs)
  {
    && (forall i {:trigger points[i]} :: 0 <= i < |points| ==> IsPoint(tbs, points[i]))
    && (forall i, j {:trigger points[i], points[j]} :: 0 <= i < j < |points| ==>
          LexSign(PointPath(tbs, points[i]), PointPath(tbs, points[j])) == -1)
  }

  // In a block, floats and child blocks are different words, so they have different indices.
  ghost predicate DistinctIndices(tbs: seq<TBInfo>, points: seq<DocPoint>)
    requires IsTree(tbs)
  {
    forall i, t {:trigger points[i], tbs[t]} :: 0 <= i < |points| && 0 < t < |tbs| ==>
      !(tbs[t].parent == Some(points[i].generator) && tbs[t].parentExtIndex == points[i].externalIndex)
  }

  // p lies within the child block at the key.
  predicate Within(tbs: seq<TBInfo>, p: DocPoint, key: DocPoint)
    requires IsTree(tbs) && p.generator < |tbs| && key.generator < |tbs|
  {
    && p.generator != key.generator
    && var t := ChildToward(tbs, p.generator, key.generator);
       t.Some? && tbs[t.value].parentExtIndex == key.externalIndex
  }

  // p is before the key in the document, or the key itself.
  ghost predicate NotAfter(tbs: seq<TBInfo>, p: DocPoint, key: DocPoint)
    requires IsTree(tbs) && IsPoint(tbs, p) && IsPoint(tbs, key)
  {
    LexSign(PointPath(tbs, p), PointPath(tbs, key)) <= 0
  }

  // The comparator as the search uses it.
  function Comparator(tbs: seq<TBInfo>): (DocPoint, DocPoint) -> int
    requires IsTree(tbs)
  {
    (p, q) => if IsPoint(tbs, p) && IsPoint(tbs, q) then Compare(tbs, p, q) else 0
  }

  lemma PointIsPath(tbs: seq<TBInfo>, p: DocPoint)
    requires IsTree(tbs) && IsPoint(tbs, p)
    ensures PointPath(tbs, p) == Path(tbs, p.generator) + [p.externalIndex] && |PointPath(tbs, p)| == |Path(tbs, p.generator)| + 1
  {
  }

  // A point lies within the child block at the key exactly if its path goes on behind that of the key.
  lemma WithinIsBelow(tbs: seq<TBInfo>, p: DocPoint, key: DocPoint)
    requires IsTree(tbs) && InDocumentOrder(tbs) && IsPoint(tbs, p) && IsPoint(tbs, key)
    ensures Within(tbs, p, key) <==> PointPath(tbs, key) <= PointPath(tbs, p) && PointPath(tbs, key) != PointPath(tbs, p)
  {
    var base, k, pp := Path(tbs, key.generator), PointPath(tbs, key), PointPath(tbs, p);
    PointIsPath(tbs, p);
    PointIsPath(tbs, key);
    if Within(tbs, p, key) {
      PathBelowChild(tbs, p.generator, key.generator);
      var t := ChildToward(tbs, p.generator, key.generator).value;
      assert Path(tbs, t) == k;
      assert k <= Path(tbs, p.generator) <= pp;
    }
    if k <= pp && k != pp {
      BelowIsWithin(tbs, p, key);
    }
  }

  lemma BelowIsWithin(tbs: seq<TBInfo>, p: DocPoint, key: DocPoint)
    requires IsTree(tbs) && InDocumentOrder(tbs) && IsPoint(tbs, p) && IsPoint(tbs, key)
    requires PointPath(tbs, key) <= PointPath(tbs, p) && PointPath(tbs, key) != PointPath(tbs, p)
    ensures Within(tbs, p, key)
  {
    var g, base, k, pp := p.generator, Path(tbs, key.generator), PointPath(tbs, key), PointPath(tbs, p);
    PointIsPath(tbs, p);
    PointIsPath(tbs, key);
    assert pp[..|k|] == k && pp[..|pp|] == pp;
    assert |k| < |pp|;
    assert k <= Path(tbs, g) by {
      assert Path(tbs, g) == pp[..|pp| - 1];
    }
    assert base <= Path(tbs, g) && g != key.generator;
    PrefixIsAncestor(tbs, g, key.generator);
    PathBelowChild(tbs, g, key.generator);
    var t := ChildToward(tbs, g, key.generator).value;
    assert Path(tbs, t) == base + [tbs[t].parentExtIndex];
    assert Path(tbs, t)[|base|] == Path(tbs, g)[|base|] == k[|base|];
  }

  // How a key compares with a float: like the paths, but equal to what lies within it.
  lemma CompareWithFloat(tbs: seq<TBInfo>, points: seq<DocPoint>, key: DocPoint, i: nat)
    requires IsTree(tbs) && InDocumentOrder(tbs) && Registered(tbs, points) && DistinctIndices(tbs, points)
    requires IsPoint(tbs, key) && i < |points|
    ensures var c, k, p := Compare(tbs, key, points[i]), PointPath(tbs, key), PointPath(tbs, points[i]);
            Sign(c) == if k <= p then 0 else LexSign(k, p)
    ensures Sign(Compare(tbs, points[i], key)) == -Sign(Compare(tbs, key, points[i]))
  {
    var p := points[i];
    WithinIsBelow(tbs, p, key);
    CompareIsDocumentOrder(tbs, key, p);
    CompareIsDocumentOrder(tbs, p, key);
    LexReverse(PointPath(tbs, key), PointPath(tbs, p));
    LexEqual(PointPath(tbs, key), PointPath(tbs, p));
    var up := ChildToward(tbs, key.generator, p.generator);
    assert up.Some? ==> tbs[up.value].parentExtIndex != p.externalIndex;
    assert Clash(tbs, key, p) <==> Within(tbs, p, key);
    assert Clash(tbs, p, key) <==> Within(tbs, p, key);
  }

  // What stands between a path and one that goes on behind it, goes on behind it, too.
  lemma {:induction false} BetweenIsBelow(k: seq<int>, p: seq<int>, q: seq<int>)
    requires LexSign(k, p) <= 0 && LexSign(p, q) <= 0 && k <= q
    ensures k <= p
  {
    if k != [] {
      assert k[0] == q[0] && p != [] && p[0] == k[0];
      assert k[1..] <= q[1..];
      BetweenIsBelow(k[1..], p[1..], q[1..]);
      assert k == [k[0]] + k[1..] && p == [p[0]] + p[1..];
    }
  }

  lemma {:induction false} PrefixIsBefore(k: seq<int>, p: seq<int>)
    requires k <= p
    ensures LexSign(k, p) <= 0
  {
    if k != [] {
      assert k[0] == p[0] && k[1..] <= p[1..];
      PrefixIsBefore(k[1..], p[1..]);
    }
  }

  // Floats registered in document order may be searched for any key.
  lemma ListIsSearchable(tbs: seq<TBInfo>, points: seq<DocPoint>, key: DocPoint)
    requires IsTree(tbs) && InDocumentOrder(tbs) && Registered(tbs, points) && DistinctIndices(tbs, points)
    requires IsPoint(tbs, key)
    ensures SortedFor(key, points, Comparator(tbs))
  {
    var compare, k := Comparator(tbs), PointPath(tbs, key);
    forall i, j {:trigger points[i], points[j]} | 0 <= i < j < |points|
      ensures compare(key, points[i]) < 0 ==> compare(key, points[j]) < 0
      ensures compare(key, points[j]) > 0 ==> compare(key, points[i]) > 0
    {
      var p, q := PointPath(tbs, points[i]), PointPath(tbs, points[j]);
      CompareWithFloat(tbs, points, key, i);
      CompareWithFloat(tbs, points, key, j);
      if LexSign(k, p) <= 0 {
        LexTransitive(k, p, q);
        if k <= q {
          BetweenIsBelow(k, p, q);
        }
      } else if k <= p {
        PrefixIsBefore(k, p);
      }
    }
  }

  // The floats up to index r: all that are not after the key, and otherwise only some that
  // lie within the child block at the key.
  ghost predicate IsLimit(tbs: seq<TBInfo>, points: seq<DocPoint>, key: DocPoint, r: int)
    requires IsTree(tbs) && IsPoint(tbs, key)
  {
    && -1 <= r < |points|
    && forall i {:trigger points[i]} :: 0 <= i < |points| ==>
         && IsPoint(tbs, points[i])
         && (NotAfter(tbs, points[i], key) ==> i <= r)
         && (i <= r ==> NotAfter(tbs, points[i], key) || Within(tbs, points[i], key))
  }

  // The limit is exactly the last float at or before the key.
  ghost predicate IsExactLimit(tbs: seq<TBInfo>, points: seq<DocPoint>, key: DocPoint, r: int)
    requires IsTree(tbs) && IsPoint(tbs, key)
  {
    forall i {:trigger points[i]} :: 0 <= i < |points| ==> IsPoint(tbs, points[i]) && (i <= r <==> NotAfter(tbs, points[i], key))
  }

  ghost predicate HasFloatWithin(tbs: seq<TBInfo>, points: seq<DocPoint>, key: DocPoint)
    requires IsTree(tbs) && IsPoint(tbs, key)
  {
    exists i {:trigger points[i]} :: 0 <= i < |points| && IsPoint(tbs, points[i]) && Within(tbs, points[i], key)
  }

  // What the comparisons say about each float.
  lemma FloatByCases(tbs: seq<TBInfo>, points: seq<DocPoint>, key: DocPoint, i: nat)
    requires IsTree(tbs) && InDocumentOrder(tbs) && Registered(tbs, points) && DistinctIndices(tbs, points)
    requires IsPoint(tbs, key) && i < |points|
    ensures var c := Compare(tbs, key, points[i]);
            && (c > 0 ==> NotAfter(tbs, points[i], key) && points[i] != key && !Within(tbs, points[i], key))
            && (c < 0 ==> !NotAfter(tbs, points[i], key) && !Within(tbs, points[i], key))
            && (c == 0 ==> if points[i] == key then NotAfter(tbs, points[i], key) && !Within(tbs, points[i], key)
                           else !NotAfter(tbs, points[i], key) && Within(tbs, points[i], key))
    ensures Compare(tbs, points[i], key) == 0 <==> Compare(tbs, key, points[i]) == 0
  {
    var k, p := PointPath(tbs, key), PointPath(tbs, points[i]);
    CompareWithFloat(tbs, points, key, i);
    WithinIsBelow(tbs, points[i], key);
    LexReverse(k, p);
    LexEqual(k, p);
    if k <= p {
      PrefixIsBefore(k, p);
    }
    if k == p {
      SamePathSamePoint(tbs, key, points[i]);
    }
  }

  // A float at the key excludes a child block there.
  lemma FloatOrBlock(tbs: seq<TBInfo>, points: seq<DocPoint>, key: DocPoint)
    requires IsTree(tbs) && IsPoint(tbs, key) && DistinctIndices(tbs, points) && key in points
    ensures !HasFloatWithin(tbs, points, key)
  {
    var j :| 0 <= j < |points| && points[j] == key;
    forall i {:trigger points[i]} | 0 <= i < |points| && IsPoint(tbs, points[i]) ensures !Within(tbs, points[i], key) {
      var t := ChildToward(tbs, points[i].generator, key.generator);
      assert t.Some? ==> tbs[t.value].parent == Some(points[j].generator);
    }
  }

  // SortedFloatsVector::findFloatIndex: the last float at or before a point, if and only if
  // there is no child block with floats at this point; then one of these floats is found.
  method FindFloatIndex(tbs: seq<TBInfo>, points: seq<DocPoint>, key: DocPoint) returns (r: int)
    requires IsTree(tbs) && InDocumentOrder(tbs) && Registered(tbs, points) && DistinctIndices(tbs, points)
    requires IsPoint(tbs, key)
    ensures IsLimit(tbs, points, key, r)
    ensures IsExactLimit(tbs, points, key, r) <==> !HasFloatWithin(tbs, points, key)
    ensures HasFloatWithin(tbs, points, key) ==> r >= 0 && Within(tbs, points[r], key)
    ensures forall i {:trigger points[i]} :: 0 <= i < |points| ==>
              && (NotAfter(tbs, points[i], key) ==> i <= r)
              && (i <= r && !HasFloatWithin(tbs, points, key) ==> NotAfter(tbs, points[i], key))
  {
    ListIsSearchable(tbs, points, key);
    var i := BSearch(key, points, Comparator(tbs), |points| - 1);
    if i == |points| {
      r := i - 1;
    } else if Comparator(tbs)(points[i], key) == 0 {
      r := i;
    } else {
      r := i - 1;
    }
    ResultIsLimit(tbs, points, key, i, r);
  }

  lemma ResultIsLimit(tbs: seq<TBInfo>, points: seq<DocPoint>, key: DocPoint, i: int, r: int)
    requires IsTree(tbs) && InDocumentOrder(tbs) && Registered(tbs, points) && DistinctIndices(tbs, points)
    requires IsPoint(tbs, key) && SortedFor(key, points, Comparator(tbs))
    requires IsSearchResult(key, points, Comparator(tbs), |points| - 1, i)
    requires r == if i < |points| && Comparator(tbs)(points[i], key) == 0 then i else i - 1
    ensures IsLimit(tbs, points, key, r)
    ensures IsExactLimit(tbs, points, key, r) <==> !HasFloatWithin(tbs, points, key)
    ensures HasFloatWithin(tbs, points, key) ==> r >= 0 && Within(tbs, points[r], key)
  {
    var compare := Comparator(tbs);
    forall j {:trigger points[j]} | 0 <= j < |points|
      ensures IsPoint(tbs, points[j]) && compare(key, points[j]) == Compare(tbs, key, points[j])
      ensures compare(key, points[j]) > 0 ==> NotAfter(tbs, points[j], key) && points[j] != key && !Within(tbs, points[j], key)
      ensures compare(key, points[j]) < 0 ==> !NotAfter(tbs, points[j], key) && !Within(tbs, points[j], key)
      ensures compare(key, points[j]) == 0 ==> if points[j] == key then NotAfter(tbs, points[j], key) && !Within(tbs, points[j], key)
                                               else !NotAfter(tbs, points[j], key) && Within(tbs, points[j], key)
      ensures compare(points[j], key) == 0 <==> compare(key, points[j]) == 0
    {
      FloatByCases(tbs, points, key, j);
    }
    if i < |points| && compare(key, points[i]) == 0 {
      EqualIsLimit(tbs, points, key, r);
    }
  }

  // The search has ended at a float that is called equal to the key.
  lemma EqualIsLimit(tbs: seq<TBInfo>, points: seq<DocPoint>, key: DocPoint, r: nat)
    requires IsTree(tbs) && InDocumentOrder(tbs) && Registered(tbs, points) && DistinctIndices(tbs, points)
    requires IsPoint(tbs, key) && r < |points| && Compare(tbs, key, points[r]) == 0
    ensures IsLimit(tbs, points, key, r)
    ensures IsExactLimit(tbs, points, key, r) <==> !HasFloatWithin(tbs, points, key)
    ensures HasFloatWithin(tbs, points, key) ==> Within(tbs, points[r], key)
  {
    FloatByCases(tbs, points, key, r);
    if points[r] == key {
      FloatOrBlock(tbs, points, key);
    }
    forall j {:trigger points[j]} | 0 <= j < |points|
      ensures IsPoint(tbs, points[j])
      ensures NotAfter(tbs, points[j], key) ==> j <= r
      ensures j <= r ==> NotAfter(tbs, points[j], key) || Within(tbs, points[j], key)
    {
      FloatByCases(tbs, points, key, j);
      var k, p, q := PointPath(tbs, key), PointPath(tbs, points[j]), PointPath(tbs, points[r]);
      CompareWithFloat(tbs, points, key, r);
      LexReverse(p, k);
      LexReverse(q, k);
      WithinIsBelow(tbs, points[j], key);
      WithinIsBelow(tbs, points[r], key);
      if j > r {
        LaterIsAfter(tbs, points, key, r, j);
      } else if j < r && LexSign(k, p) <= 0 {
        BetweenIsBelow(k, p, q);
      }
    }
  }

  lemma LaterIsAfter(tbs: seq<TBInfo>, points: seq<DocPoint>, key: DocPoint, r: nat, j: nat)
    requires IsTree(tbs) && InDocumentOrder(tbs) && Registered(tbs, points) && IsPoint(tbs, key)
    requires r < j < |points| && PointPath(tbs, key) <= PointPath(tbs, points[r])
    ensures !NotAfter(tbs, points[j], key)
  {
    var k, p, q := PointPath(tbs, key), PointPath(tbs, points[r]), PointPath(tbs, points[j]);
    PrefixIsBefore(k, p);
    LexTransitive(k, p, q);
    LexReverse(k, q);
  }

  // Child blocks are words, so none stands before the first word of its parent.
  ghost predicate NoNegativeIndex(tbs: seq<TBInfo>)
    requires IsTree(tbs)
  {
    forall t {:trigger tbs[t]} :: 0 < t < |tbs| ==> tbs[t].parentExtIndex >= 0
  }

  // For the start of a block the limit is always exact.
  lemma NothingWithinStart(tbs: seq<TBInfo>, points: seq<DocPoint>, widget: nat)
    requires IsTree(tbs) && NoNegativeIndex(tbs) && widget < |tbs|
    ensures !HasFloatWithin(tbs, points, DocPoint(widget, -1))
  {
    forall i {:trigger points[i]} | 0 <= i < |points| && IsPoint(tbs, points[i]) ensures !Within(tbs, points[i], DocPoint(widget, -1)) {
      var t := ChildToward(tbs, points[i].generator, widget);
      assert t.Some? ==> tbs[t.value].parentExtIndex >= 0;
    }
  }

  // A block with a child block as its first word, in which the first word is a float: for the
  // key at the child block, the search finds the float, although it is after the key.
  lemma WithinExample()
    ensures var tbs, points, key := [TBInfo(None, 0), TBInfo(Some(0), 0)], [DocPoint(1, 0)], DocPoint(0, 0);
            && IsTree(tbs) && InDocumentOrder(tbs) && Registered(tbs, points) && DistinctIndices(tbs, points)
            && IsPoint(tbs, key) && HasFloatWithin(tbs, points, key) && !NotAfter(tbs, points[0], key)
  {
    var tbs, points, key := [TBInfo(None, 0), TBInfo(Some(0), 0)], [DocPoint(1, 0)], DocPoint(0, 0);
    assert Path(tbs, 0) == [] && Path(tbs, 1) == [0];
    assert PointPath(tbs, points[0]) == [0, 0] && PointPath(tbs, key) == [0];
    assert [0, 0][1..] == [0] && [0][1..] == [];
    assert ChildToward(tbs, 1, 0) == Some(1);
    assert Within(tbs, points[0], key);
  }
}
