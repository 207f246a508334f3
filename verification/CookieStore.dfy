// The cookie store: dpi/cookies.c:81-135, 157-187, 653-794, 1014-1021.
//
// The same cookies are kept in a flat list and in one list for each domain.  A time of
// type int stands for time_t; the clock does not move during an operation.
module Cookies {
  import opened Common
  import opened Lexicographic
  import opened Dlists

  const MAX_DOMAIN_COOKIES := 20
  const MAX_TOTAL_COOKIES := 1200

  class CookieData {
    const name: string
    const value: string
    const domain: string
    const path: string
    const expiresAt: int
    const hostOnly: bool
    const secure: bool
    var lastUsed: int

    constructor (name: string, value: string, domain: string, path: string, expiresAt: int, hostOnly: bool, secure: bool)
      ensures this.name == name && this.value == value && this.domain == domain && this.path == path
      ensures this.expiresAt == expiresAt && this.hostOnly == hostOnly && this.secure == secure && lastUsed == 0
    {
      this.name, this.value, this.domain, this.path := name, value, domain, path;
      this.expiresAt, this.hostOnly, this.secure, lastUsed := expiresAt, hostOnly, secure, 0;
    }
  }

  datatype DomainNode = DomainNode(domain: string, cookies: seq<CookieData>)

  // ----- domains are compared without regard to case -----------------------------------

  function LowerCode(c: char): int {
    if 'A' <= c <= 'Z' then c as int + 32 else c as int
  }

  // Strings with the same key are equal for dStrAsciiCasecmp.
  function Key(s: string): (r: seq<int>)
    ensures |r| == |s| && forall i {:trigger r[i]} :: 0 <= i < |s| ==> r[i] == LowerCode(s[i])
  {
    seq(|s|, i requires 0 <= i < |s| => LowerCode(s[i]))
  }

  // Letters are compared without regard to case, all other characters as they are.
  lemma SameKey(a: string, b: string)
    ensures Key(a) == Key(b) <==>
              |a| == |b| && forall i {:trigger a[i]} {:trigger b[i]} :: 0 <= i < |a| ==>
                || a[i] == b[i]
                || ('A' <= a[i] <= 'Z' && b[i] as int == a[i] as int + 32)
                || ('A' <= b[i] <= 'Z' && a[i] as int == b[i] as int + 32)
  {
    if |a| == |b| {
      assert forall i {:trigger a[i]} {:trigger b[i]} :: 0 <= i < |a| ==> Key(a)[i] == LowerCode(a[i]) && Key(b)[i] == LowerCode(b[i]);
    }
  }

  // The key of a domain's node (Domain_node_by_domain_cmp).
  function CompareNode(node: DomainNode, key: seq<int>): int {
    LexSign(Key(node.domain), key)
  }

  // ----- lists of distinct elements ------------------------------------------------------

  ghost predicate NoDup<T>(s: seq<T>) {
    forall i, j {:trigger s[i], s[j]} :: 0 <= i < j < |s| ==> s[i] != s[j]
  }

  function Elements<T(==)>(s: seq<T>): set<T> {
    set x | x in s
  }

  function IndexOf<T(==)>(s: seq<T>, x: T): (i: nat)
    requires x in s
    ensures i < |s| && s[i] == x
  {
    if s[0] == x then 0 else 1 + IndexOf(s[1..], x)
  }

  // What dList_remove and dList_remove_fast leave.
  function Removed<T(==)>(s: seq<T>, x: T): seq<T>
    requires x in s
  {
    RemovedAt(s, IndexOf(s, x))
  }

  function RemovedFast<T(==)>(s: seq<T>, x: T): seq<T>
    requires x in s
  {
    RemovedFastAt(s, IndexOf(s, x))
  }

  lemma RemovedFacts<T>(s: seq<T>, x: T)
    requires NoDup(s) && x in s
    ensures NoDup(Removed(s, x)) && |Removed(s, x)| == |s| - 1
    ensures forall y :: y in Removed(s, x) <==> y in s && y != x
  {
    var i := IndexOf(s, x);
    var r := Removed(s, x);
    forall y | y in s && y != x ensures y in r {
      var j := IndexOf(s, y);
      assert r[if j < i then j else j - 1] == y;
    }
  }

  lemma RemovedFastFacts<T>(s: seq<T>, x: T)
    requires NoDup(s) && x in s
    ensures NoDup(RemovedFast(s, x)) && |RemovedFast(s, x)| == |s| - 1
    ensures forall y :: y in RemovedFast(s, x) <==> y in s && y != x
  {
    var i, n := IndexOf(s, x), |s| - 1;
    var r := RemovedFast(s, x);
    forall y | y in s && y != x ensures y in r {
      var j := IndexOf(s, y);
      assert r[if j == n then i else j] == y;
    }
  }

  // ----- what keeps the two views together ---------------------------------------------------

  // Cookies_cmp(a, b) == 0
  predicate SameCookie(a: CookieData, b: CookieData) {
    a.hostOnly == b.hostOnly && a.name == b.name && a.path == b.path
  }

  ghost predicate NodeOk(node: DomainNode) {
    && NoDup(node.cookies) && |node.cookies| <= MAX_DOMAIN_COOKIES
    && (forall c :: c in node.cookies ==> Key(c.domain) == Key(node.domain))
    && (forall c, d :: c in node.cookies && d in node.cookies && c != d ==> !SameCookie(c, d))
  }

  ghost predicate SortedNodes(ds: seq<DomainNode>) {
    forall i, j {:trigger ds[i], ds[j]} :: 0 <= i < j < |ds| ==> CompareNode(ds[i], Key(ds[j].domain)) == -1
  }

  ghost predicate InNodes(ds: seq<DomainNode>, c: CookieData) {
    exists i {:trigger ds[i]} :: 0 <= i < |ds| && c in ds[i].cookies
  }

  // The flat list is the disjoint union of the lists of the nodes (HolderIsUnique).
  ghost predicate Consistent(all: seq<CookieData>, ds: seq<DomainNode>) {
    && NoDup(all) && |all| <= MAX_TOTAL_COOKIES
    && SortedNodes(ds)
    && (forall i {:trigger ds[i]} :: 0 <= i < |ds| ==> NodeOk(ds[i]))
    && (forall c {:trigger InNodes(ds, c)} :: c in all ==> InNodes(ds, c))
    && (forall i, c {:trigger c in ds[i].cookies} :: 0 <= i < |ds| && c in ds[i].cookies ==> c in all)
  }

  // Only the node with this key may be empty.
  ghost predicate NonEmptyBut(ds: seq<DomainNode>, own: seq<int>) {
    forall i {:trigger ds[i]} :: 0 <= i < |ds| ==> ds[i].cookies != [] || own == Key(ds[i].domain)
  }

  lemma NodeByKey(ds: seq<DomainNode>, i: nat, j: nat)
    requires SortedNodes(ds) && i < |ds| && j < |ds| && Key(ds[i].domain) == Key(ds[j].domain)
    ensures i == j
  {
    LexEqual(Key(ds[i].domain), Key(ds[j].domain));
    LexEqual(Key(ds[j].domain), Key(ds[i].domain));
  }

  // Each cookie is in the node of its domain and in no other one.
  lemma HolderIsUnique(all: seq<CookieData>, ds: seq<DomainNode>, c: CookieData, i: nat)
    requires Consistent(all, ds) && i < |ds|
    ensures c in ds[i].cookies <==> c in all && Key(c.domain) == Key(ds[i].domain)
  {
    if c in all && Key(c.domain) == Key(ds[i].domain) {
      assert InNodes(ds, c);
      var j :| 0 <= j < |ds| && c in ds[j].cookies;
      NodeByKey(ds, i, j);
    }
  }

  lemma OnlyOwnMayBeEmpty(ds: seq<DomainNode>, i: nat)
    requires SortedNodes(ds) && i < |ds| && ds[i].cookies != [] && NonEmptyBut(ds, Key(ds[i].domain))
    ensures forall k {:trigger ds[k]} :: 0 <= k < |ds| ==> ds[k].cookies != []
  {
    forall k {:trigger ds[k]} | 0 <= k < |ds| ensures ds[k].cookies != [] {
      if Key(ds[k].domain) == Key(ds[i].domain) {
        NodeByKey(ds, k, i);
      }
    }
  }

  lemma OthersAreNotEmpty(ds: seq<DomainNode>, i: nat)
    requires SortedNodes(ds) && i < |ds| && NonEmptyBut(ds, Key(ds[i].domain))
    ensures var r := RemovedAt(ds, i); forall k {:trigger r[k]} :: 0 <= k < |r| ==> r[k].cookies != []
  {
    forall k {:trigger ds[k]} | 0 <= k < |ds| && k != i ensures ds[k].cookies != [] {
      if Key(ds[k].domain) == Key(ds[i].domain) {
        NodeByKey(ds, k, i);
      }
    }
  }

  lemma AllNonEmpty(ds: seq<DomainNode>, key: seq<int>)
    requires NonEmptyBut(ds, key) && !HasNode(ds, key)
    ensures forall k {:trigger ds[k]} :: 0 <= k < |ds| ==> ds[k].cookies != []
  {
  }

  // ----- finding a node ------------------------------------------------------------------------

  // dList_find_sorted: at most one node has the key.
  function FindNode(ds: seq<DomainNode>, key: seq<int>): (r: Option<nat>)
    ensures r.Some? ==> r.value < |ds| && Key(ds[r.value].domain) == key
    ensures r.None? ==> forall i {:trigger ds[i]} :: 0 <= i < |ds| ==> Key(ds[i].domain) != key
  {
    if ds == [] then None
    else if Key(ds[0].domain) == key then Some(0)
    else match FindNode(ds[1..], key) { case Some(i) => Some(i + 1) case None => None }
  }

  // The binary search of dList_find_sorted may be used on the nodes, and what it finds is
  // the node of FindNode.
  lemma NodesAreSearchable(ds: seq<DomainNode>, key: seq<int>)
    requires SortedNodes(ds)
    ensures Searchable(ds, key, CompareNode)
    ensures forall i {:trigger ds[i]} :: 0 <= i < |ds| ==> (CompareNode(ds[i], key) == 0 <==> FindNode(ds, key) == Some(i))
  {
    forall i, j {:trigger ds[i], ds[j]} | 0 <= i < j < |ds|
      ensures CompareNode(ds[i], key) > 0 ==> CompareNode(ds[j], key) > 0
      ensures CompareNode(ds[j], key) < 0 ==> CompareNode(ds[i], key) < 0
    {
      var a, b := Key(ds[i].domain), Key(ds[j].domain);
      LexReverse(a, key);
      LexReverse(b, key);
      LexReverse(a, b);
      if LexSign(key, a) <= 0 { LexTransitive(key, a, b); }
      if LexSign(b, key) <= 0 { LexTransitive(a, b, key); }
    }
    forall i {:trigger ds[i]} | 0 <= i < |ds| ensures CompareNode(ds[i], key) == 0 <==> FindNode(ds, key) == Some(i) {
      LexEqual(Key(ds[i].domain), key);
      var r := FindNode(ds, key);
      if Key(ds[i].domain) == key {
        NodeByKey(ds, i, r.value);
      }
    }
  }

  // The place of a new node.
  function Place(ds: seq<DomainNode>, key: seq<int>): (p: nat)
    ensures p <= |ds|
    ensures forall i {:trigger ds[i]} :: 0 <= i < p ==> CompareNode(ds[i], key) == -1
    ensures p < |ds| ==> CompareNode(ds[p], key) != -1
  {
    if ds == [] || CompareNode(ds[0], key) != -1 then 0 else 1 + Place(ds[1..], key)
  }

  // ----- elementary changes ----------------------------------------------------------------------

  function WithCookies(ds: seq<DomainNode>, i: nat, cookies: seq<CookieData>): seq<DomainNode>
    requires i < |ds|
  {
    ds[i := ds[i].(cookies := cookies)]
  }

  lemma ConsistentAfterRemove(all: seq<CookieData>, ds: seq<DomainNode>, i: nat, c: CookieData)
    requires Consistent(all, ds) && i < |ds| && c in ds[i].cookies
    ensures c in all
    ensures Consistent(RemovedFast(all, c), WithCookies(ds, i, Removed(ds[i].cookies, c)))
  {
    var ds' := WithCookies(ds, i, Removed(ds[i].cookies, c));
    RemovedFastFacts(all, c);
    RemovedFacts(ds[i].cookies, c);
    forall d | d in RemovedFast(all, c) ensures InNodes(ds', d) {
      assert InNodes(ds, d);
      var j :| 0 <= j < |ds| && d in ds[j].cookies;
      assert d in ds'[j].cookies;
    }
    forall j, d {:trigger d in ds'[j].cookies} | 0 <= j < |ds'| && d in ds'[j].cookies ensures d in RemovedFast(all, c) {
      assert d in ds[j].cookies;
      HolderIsUnique(all, ds, c, j);
      if d == c {
        NodeByKey(ds, i, j);
      }
    }
  }

  lemma ConsistentAfterDelete(all: seq<CookieData>, ds: seq<DomainNode>, i: nat)
    requires Consistent(all, ds) && i < |ds| && ds[i].cookies == []
    ensures Consistent(all, RemovedAt(ds, i))
  {
    var ds' := RemovedAt(ds, i);
    forall c | c in all ensures InNodes(ds', c) {
      assert InNodes(ds, c);
      var j :| 0 <= j < |ds| && c in ds[j].cookies;
      assert c in ds'[if j < i then j else j - 1].cookies;
    }
  }

  ghost predicate MayJoin(node: DomainNode, c: CookieData) {
    && |node.cookies| < MAX_DOMAIN_COOKIES && Key(node.domain) == Key(c.domain)
    && forall d :: d in node.cookies ==> !SameCookie(c, d)
  }

  lemma ConsistentAfterAppend(all: seq<CookieData>, ds: seq<DomainNode>, i: nat, c: CookieData)
    requires Consistent(all, ds) && |all| < MAX_TOTAL_COOKIES && c !in all
    requires i < |ds| && MayJoin(ds[i], c)
    ensures Consistent(all + [c], WithCookies(ds, i, ds[i].cookies + [c]))
  {
    var ds' := WithCookies(ds, i, ds[i].cookies + [c]);
    assert c !in ds[i].cookies;
    forall d | d in all + [c] ensures InNodes(ds', d) {
      if d == c {
        assert d in ds'[i].cookies;
      } else {
        assert InNodes(ds, d);
        var j :| 0 <= j < |ds| && d in ds[j].cookies;
        assert d in ds'[j].cookies;
      }
    }
    assert NodeOk(ds'[i]);
  }

  // a is before b in the list of a domain.
  ghost predicate Before(ds: seq<DomainNode>, a: CookieData, b: CookieData) {
    exists k, i, j {:trigger ds[k].cookies[i], ds[k].cookies[j]} ::
      0 <= k < |ds| && 0 <= i < j < |ds[k].cookies| && ds[k].cookies[i] == a && ds[k].cookies[j] == b
  }

  // No list has got another order.
  ghost predicate KeepsOrder(ds: seq<DomainNode>, ds': seq<DomainNode>) {
    AddsLast(ds, ds', None)
  }

  // And only this cookie may have been added, behind all others.
  ghost predicate AddsLast(ds: seq<DomainNode>, ds': seq<DomainNode>, added: Option<CookieData>) {
    match added
    case None =>
      forall k, i, j {:trigger Before(ds, ds'[k].cookies[i], ds'[k].cookies[j])} :: 0 <= k < |ds'| && 0 <= i < j < |ds'[k].cookies| ==>
        Before(ds, ds'[k].cookies[i], ds'[k].cookies[j])
    case Some(c) =>
      forall k, i, j {:trigger Before(ds, ds'[k].cookies[i], ds'[k].cookies[j])} :: 0 <= k < |ds'| && 0 <= i < j < |ds'[k].cookies| ==>
        Before(ds, ds'[k].cookies[i], ds'[k].cookies[j]) || ds'[k].cookies[j] == c
  }

  lemma StaysInOrder(ds: seq<DomainNode>, added: Option<CookieData>)
    ensures AddsLast(ds, ds, added)
  {
  }

  lemma OrderIsTransitive(ds: seq<DomainNode>, ds1: seq<DomainNode>, ds2: seq<DomainNode>, added: Option<CookieData>)
    requires KeepsOrder(ds, ds1) && AddsLast(ds1, ds2, added)
    ensures AddsLast(ds, ds2, added)
  {
    forall k, i, j {:trigger Before(ds, ds2[k].cookies[i], ds2[k].cookies[j])} | 0 <= k < |ds2| && 0 <= i < j < |ds2[k].cookies|
      ensures Before(ds, ds2[k].cookies[i], ds2[k].cookies[j]) || Some(ds2[k].cookies[j]) == added
    {
      assert Before(ds1, ds2[k].cookies[i], ds2[k].cookies[j]) || Some(ds2[k].cookies[j]) == added;
      if Some(ds2[k].cookies[j]) != added {
        var k', i', j' :| 0 <= k' < |ds1| && 0 <= i' < j' < |ds1[k'].cookies|
                          && ds1[k'].cookies[i'] == ds2[k].cookies[i] && ds1[k'].cookies[j'] == ds2[k].cookies[j];
        assert Before(ds, ds1[k'].cookies[i'], ds1[k'].cookies[j']);
      }
    }
  }

  lemma OrderAfterRemove(ds: seq<DomainNode>, n: nat, c: CookieData)
    requires n < |ds| && c in ds[n].cookies
    ensures KeepsOrder(ds, WithCookies(ds, n, Removed(ds[n].cookies, c)))
  {
    var p, ds' := IndexOf(ds[n].cookies, c), WithCookies(ds, n, Removed(ds[n].cookies, c));
    forall k, i, j {:trigger Before(ds, ds'[k].cookies[i], ds'[k].cookies[j])} | 0 <= k < |ds'| && 0 <= i < j < |ds'[k].cookies|
      ensures Before(ds, ds'[k].cookies[i], ds'[k].cookies[j])
    {
      var skip := k == n;
      assert ds[k].cookies[if skip && i >= p then i + 1 else i] == ds'[k].cookies[i];
      assert ds[k].cookies[if skip && j >= p then j + 1 else j] == ds'[k].cookies[j];
    }
  }

  lemma OrderAfterDelete(ds: seq<DomainNode>, n: nat)
    requires n < |ds|
    ensures KeepsOrder(ds, RemovedAt(ds, n))
  {
    var ds' := RemovedAt(ds, n);
    forall k, i, j {:trigger Before(ds, ds'[k].cookies[i], ds'[k].cookies[j])} | 0 <= k < |ds'| && 0 <= i < j < |ds'[k].cookies|
      ensures Before(ds, ds'[k].cookies[i], ds'[k].cookies[j])
    {
      assert ds'[k] == ds[if k < n then k else k + 1];
    }
  }

  lemma OrderAfterAppend(ds: seq<DomainNode>, n: nat, c: CookieData)
    requires n < |ds|
    ensures AddsLast(ds, WithCookies(ds, n, ds[n].cookies + [c]), Some(c))
  {
    var ds' := WithCookies(ds, n, ds[n].cookies + [c]);
    forall k, i, j {:trigger Before(ds, ds'[k].cookies[i], ds'[k].cookies[j])} | 0 <= k < |ds'| && 0 <= i < j < |ds'[k].cookies|
      ensures Before(ds, ds'[k].cookies[i], ds'[k].cookies[j]) || ds'[k].cookies[j] == c
    {
      if ds'[k].cookies[j] != c {
        assert ds[k].cookies[i] == ds'[k].cookies[i] && ds[k].cookies[j] == ds'[k].cookies[j];
      }
    }
  }

  lemma OrderAfterInsert(ds: seq<DomainNode>, node: DomainNode, p: nat)
    requires p <= |ds| && |node.cookies| == 1
    ensures KeepsOrder(ds, InsertedAt(ds, node, p))
  {
    var ds' := InsertedAt(ds, node, p);
    forall k, i, j {:trigger Before(ds, ds'[k].cookies[i], ds'[k].cookies[j])} | 0 <= k < |ds'| && 0 <= i < j < |ds'[k].cookies|
      ensures Before(ds, ds'[k].cookies[i], ds'[k].cookies[j])
    {
      assert ds'[k] == if k < p then ds[k] else if k == p then node else ds[k - 1];
    }
  }

  lemma SortedAfterInsert(ds: seq<DomainNode>, node: DomainNode)
    requires SortedNodes(ds) && FindNode(ds, Key(node.domain)) == None
    ensures SortedNodes(InsertedAt(ds, node, Place(ds, Key(node.domain))))
  {
    var key := Key(node.domain);
    var p := Place(ds, key);
    forall j {:trigger ds[j]} | p <= j < |ds| ensures LexSign(key, Key(ds[j].domain)) == -1 {
      var a, b := Key(ds[p].domain), Key(ds[j].domain);
      LexEqual(a, key);
      LexReverse(a, key);
      if p < j {
        LexTransitive(key, a, b);
      }
    }
  }

  lemma InNodesAfterInsert(ds: seq<DomainNode>, node: DomainNode, p: nat, c: CookieData)
    requires p <= |ds|
    ensures InNodes(InsertedAt(ds, node, p), c) <==> InNodes(ds, c) || c in node.cookies
  {
    var ds' := InsertedAt(ds, node, p);
    assert ds'[p] == node;
    if InNodes(ds, c) {
      var j :| 0 <= j < |ds| && c in ds[j].cookies;
      assert ds'[if j < p then j else j + 1] == ds[j];
    }
    if InNodes(ds', c) {
      var j :| 0 <= j < |ds'| && c in ds'[j].cookies;
      assert j == p || ds'[j] == ds[if j < p then j else j - 1];
    }
  }

  lemma ConsistentAfterInsert(all: seq<CookieData>, ds: seq<DomainNode>, c: CookieData)
    requires Consistent(all, ds) && |all| < MAX_TOTAL_COOKIES && c !in all
    requires FindNode(ds, Key(c.domain)) == None
    ensures Consistent(all + [c], InsertedAt(ds, DomainNode(c.domain, [c]), Place(ds, Key(c.domain))))
  {
    var node, p := DomainNode(c.domain, [c]), Place(ds, Key(c.domain));
    var ds' := InsertedAt(ds, node, p);
    SortedAfterInsert(ds, node);
    assert forall i {:trigger ds'[i]} :: 0 <= i < |ds'| ==> ds'[i] == node || ds'[i] in ds;
    forall d {:trigger InNodes(ds', d)} | d in all + [c] ensures InNodes(ds', d) {
      InNodesAfterInsert(ds, node, p, d);
    }
    forall i, d {:trigger d in ds'[i].cookies} | 0 <= i < |ds'| && d in ds'[i].cookies ensures d in all + [c] {
      assert InNodes(ds', d);
      InNodesAfterInsert(ds, node, p, d);
    }
  }

  // ----- limits and the removal of cookies -------------------------------------------------------

  function Own(s: set<CookieData>, key: seq<int>): set<CookieData> {
    set c | c in s && Key(c.domain) == key
  }

  predicate HasNode(ds: seq<DomainNode>, key: seq<int>) {
    FindNode(ds, key).Some?
  }

  function ExpiredIn(s: set<CookieData>, now: int): set<CookieData> {
    set c | c in s && c.expiresAt < now
  }

  // The cookies that have not been used for the longest time.
  ghost function LeastUsed(s: set<CookieData>): set<CookieData>
    reads s
  {
    set v | v in s && forall c :: c in s ==> v.lastUsed <= c.lastUsed
  }

  function NodeCookies(ds: seq<DomainNode>, key: seq<int>): seq<CookieData> {
    if HasNode(ds, key) then ds[FindNode(ds, key).value].cookies else []
  }

  // What is left when a limit is reached by the cookies of a list: the expired ones of the list
  // are removed, and if there is none, the first one of those unused for the longest time.
  ghost function LimitedBy(s: set<CookieData>, list: seq<CookieData>, now: int): (r: set<CookieData>)
    reads list
    ensures r <= s
  {
    if list == [] then s
    else if ExpiredIn(Elements(list), now) != {} then s - ExpiredIn(Elements(list), now)
    else s - {LRU(list)}
  }

  // The limit for a domain, and that for all cookies.
  ghost function DomainLimited(s: set<CookieData>, ds: seq<DomainNode>, key: seq<int>, now: int): (r: set<CookieData>)
    reads NodeCookies(ds, key)
    ensures r <= s
  {
    if |Own(s, key)| < MAX_DOMAIN_COOKIES then s else LimitedBy(s, NodeCookies(ds, key), now)
  }

  ghost function TotalLimited(s: set<CookieData>, all: seq<CookieData>, now: int): (r: set<CookieData>)
    reads all
    ensures r <= s
  {
    if |s| < MAX_TOTAL_COOKIES then s else LimitedBy(s, all, now)
  }

  // The one after the other.
  ghost function AfterLimits(s: set<CookieData>, all: seq<CookieData>, ds: seq<DomainNode>, key: seq<int>, now: int): (r: set<CookieData>)
    reads all, NodeCookies(ds, key)
    ensures r <= s
  {
    TotalLimited(DomainLimited(s, ds, key, now), all, now)
  }

  // The cookies of the same domain that a cookie replaces.
  function Replaced(s: set<CookieData>, cookie: CookieData): set<CookieData> {
    set c | c in s && Key(c.domain) == Key(cookie.domain) && SameCookie(c, cookie)
  }

  lemma ReplacedInPart(part: set<CookieData>, s: set<CookieData>, cookie: CookieData)
    requires part <= s && Replaced(s, cookie) == {} && cookie !in s
    ensures Replaced(part, cookie) == {} && cookie !in part
  {
    assert Replaced(part, cookie) <= Replaced(s, cookie);
  }

  function Others(s: set<CookieData>, cookie: CookieData): set<CookieData> {
    s - Replaced(s, cookie)
  }

  // A cookie of the same domain with the same name, path and host-only flag.
  predicate IsReplacedBy(c: CookieData, cookie: CookieData) {
    Key(c.domain) == Key(cookie.domain) && SameCookie(c, cookie)
  }

  lemma WhenReplaced(c: CookieData, cookie: CookieData)
    ensures IsReplacedBy(c, cookie) <==>
              Key(c.domain) == Key(cookie.domain) && c.name == cookie.name && c.path == cookie.path && c.hostOnly == cookie.hostOnly
  {
  }

  predicate Ignored(cookie: CookieData, now: int) {
    cookie.expiresAt == -1 || cookie.expiresAt <= now
  }

  // The total limit evicts the last cookie of a domain to make room for another one of the
  // same domain: the store is full, nothing has expired, and the only cookie of the domain is
  // the first one of the flat list among those unused for the longest time.
  ghost predicate LosesNode(all: seq<CookieData>, key: seq<int>, now: int)
    reads all
  {
    && |all| >= MAX_TOTAL_COOKIES && ExpiredIn(Elements(all), now) == {}
    && Own(Elements(all), key) == {LRU(all)}
  }

  // The same before a cookie is added, which must not replace one.
  ghost predicate WouldLose(all: seq<CookieData>, cookie: CookieData, now: int)
    reads all
  {
    LosesNode(all, Key(cookie.domain), now) && Replaced(Elements(all), cookie) == {}
  }

  // dList_find_custom with Cookies_cmp
  function FindSame(s: seq<CookieData>, cookie: CookieData): (r: Option<nat>)
    ensures r.Some? ==> r.value < |s| && SameCookie(s[r.value], cookie)
    ensures r.None? ==> forall c :: c in s ==> !SameCookie(c, cookie)
  {
    if s == [] then None
    else if SameCookie(s[0], cookie) then Some(0)
    else match FindSame(s[1..], cookie) { case Some(i) => Some(i + 1) case None => None }
  }

  // A node disappears with its last cookie, and only then.
  ghost predicate NodeFollows(ds: seq<DomainNode>, s: set<CookieData>, ds': seq<DomainNode>, s': set<CookieData>, key: seq<int>) {
    HasNode(ds', key) <==> HasNode(ds, key) && (Own(s', key) != {} || Own(s, key) == {})
  }

  lemma {:induction false} SizeOfNoDup<T>(s: seq<T>)
    requires NoDup(s)
    ensures |Elements(s)| == |s|
  {
    if s != [] {
      var t := s[1..];
      SizeOfNoDup(t);
      assert Elements(s) == Elements(t) + {s[0]};
    }
  }

  // The cookies of a node are those of its domain.
  lemma OwnIsNode(all: seq<CookieData>, ds: seq<DomainNode>, i: nat)
    requires Consistent(all, ds) && i < |ds|
    ensures Own(Elements(all), Key(ds[i].domain)) == Elements(ds[i].cookies)
    ensures |Own(Elements(all), Key(ds[i].domain))| == |ds[i].cookies|
  {
    forall c ensures c in ds[i].cookies <==> c in all && Key(c.domain) == Key(ds[i].domain) {
      HolderIsUnique(all, ds, c, i);
    }
    SizeOfNoDup(ds[i].cookies);
  }

  lemma OwnWithoutNode(all: seq<CookieData>, ds: seq<DomainNode>, key: seq<int>)
    requires Consistent(all, ds) && !HasNode(ds, key)
    ensures Own(Elements(all), key) == {}
  {
    forall c | c in all ensures Key(c.domain) != key {
      assert InNodes(ds, c);
    }
  }

  // A node goes with the only cookie of its domain.
  lemma NodeLost(ds: seq<DomainNode>, ds': seq<DomainNode>, s: set<CookieData>, s': set<CookieData>, v: CookieData, key: seq<int>)
    requires NodeFollows(ds, s, ds', s', key) && v in s && s' == s - {v}
    requires Own(s, key) != {} ==> HasNode(ds, key)
    ensures HasNode(ds, key) && !HasNode(ds', key) <==> Own(s, key) == {v}
  {
    assert Own(s', key) == Own(s, key) - {v};
  }

  lemma FollowsDrop(ds: seq<DomainNode>, ds': seq<DomainNode>, i: nat, own: seq<int>)
    requires SortedNodes(ds) && i < |ds| == |ds'| && ds' == WithCookies(ds, i, ds'[i].cookies)
    ensures HasNode(ds', own) <==> HasNode(ds, own)
    ensures HasNode(RemovedAt(ds', i), own) <==> HasNode(ds, own) && own != Key(ds[i].domain)
  {
    var r := FindNode(ds, own);
    if r.Some? {
      assert Key(ds'[r.value].domain) == own;
      if own != Key(ds[i].domain) {
        assert Key(RemovedAt(ds', i)[if r.value < i then r.value else r.value - 1].domain) == own;
      }
    }
    var t := FindNode(RemovedAt(ds', i), own);
    if t.Some? {
      var j := if t.value < i then t.value else t.value + 1;
      assert Key(ds[j].domain) == own;
      if own == Key(ds[i].domain) {
        NodeByKey(ds, i, j);
      }
    }
  }

  lemma GoneAfterDelete(ds: seq<DomainNode>, i: nat)
    requires SortedNodes(ds) && i < |ds|
    ensures !HasNode(RemovedAt(ds, i), Key(ds[i].domain))
  {
    FollowsDrop(ds, ds, i, Key(ds[i].domain));
  }

  // Cookies have been removed, all of them among these.
  ghost predicate RemovedSome(before: set<CookieData>, after: set<CookieData>, these: set<CookieData>) {
    after <= before && before - after <= these
  }

  ghost predicate NoneExpired(s: seq<CookieData>, now: int) {
    forall c :: c in s ==> c.expiresAt >= now
  }

  // So many of the due cookies are gone.
  ghost predicate Purging(before: set<CookieData>, after: set<CookieData>, due: set<CookieData>, removed: int) {
    RemovedSome(before, after, due) && (removed == 0 ==> after == before) && (removed > 0 ==> due != {})
  }

  lemma PurgeOne(before: set<CookieData>, after: set<CookieData>, due: set<CookieData>, removed: nat, c: CookieData)
    requires Purging(before, after, due, removed) && c in due
    ensures Purging(before, after - {c}, due, removed + 1)
  {
  }

  ghost predicate NodeIsFresh(ds: seq<DomainNode>, key: seq<int>, now: int) {
    HasNode(ds, key) ==> NoneExpired(ds[FindNode(ds, key).value].cookies, now)
  }

  lemma OwnAreFresh(all: seq<CookieData>, ds: seq<DomainNode>, key: seq<int>, now: int)
    requires Consistent(all, ds) && NodeIsFresh(ds, key, now)
    ensures forall c :: c in Own(Elements(all), key) ==> c.expiresAt >= now
  {
    if HasNode(ds, key) {
      OwnIsNode(all, ds, FindNode(ds, key).value);
    } else {
      OwnWithoutNode(all, ds, key);
    }
  }

  ghost predicate ScannedNode(ds: seq<DomainNode>, i: nat, key: seq<int>, n: nat, j: nat, now: int) {
    && i < |ds| && Key(ds[i].domain) == key && j <= n == |ds[i].cookies|
    && NoneExpired(ds[i].cookies[..j], now)
  }

  lemma NodeAtIsFresh(ds: seq<DomainNode>, i: nat, j: nat, now: int)
    requires SortedNodes(ds) && i < |ds| && j == |ds[i].cookies| && NoneExpired(ds[i].cookies[..j], now)
    ensures NodeIsFresh(ds, Key(ds[i].domain), now)
  {
    assert ds[i].cookies[..j] == ds[i].cookies;
    NodeByKey(ds, i, FindNode(ds, Key(ds[i].domain)).value);
  }

  lemma AllRemoved(before: set<CookieData>, after: set<CookieData>, due: set<CookieData>, key: seq<int>, now: int)
    requires RemovedSome(before, after, due) && due == ExpiredIn(Own(before, key), now)
    requires forall c :: c in Own(after, key) ==> c.expiresAt >= now
    ensures after == before - due
  {
    assert forall c :: c in due && c in after ==> c in Own(after, key);
  }

  lemma RemovedKeepsEarlier<T>(s: seq<T>, j: nat)
    requires NoDup(s) && j < |s|
    ensures Removed(s, s[j])[..j] == s[..j] && |Removed(s, s[j])| == |s| - 1
  {
  }

  lemma RemovedFastKeepsEarlier<T>(s: seq<T>, j: nat)
    requires NoDup(s) && j < |s|
    ensures RemovedFast(s, s[j])[..j] == s[..j]
  {
  }

  // The node of a stored cookie is found by its domain.
  lemma NodeOfCookie(all: seq<CookieData>, ds: seq<DomainNode>, c: CookieData)
    requires Consistent(all, ds) && c in all
    ensures HasNode(ds, Key(c.domain)) && c in ds[FindNode(ds, Key(c.domain)).value].cookies
  {
    assert InNodes(ds, c);
    var j :| 0 <= j < |ds| && c in ds[j].cookies;
    NodeByKey(ds, FindNode(ds, Key(c.domain)).value, j);
  }

  // The first one of the cookies unused for the longest time.
  ghost function LRU(s: seq<CookieData>): (r: CookieData)
    requires s != []
    reads s
    ensures r in s
  {
    if |s| == 1 then s[0]
    else
      var before, last := LRU(s[..|s| - 1]), s[|s| - 1];
      if last.lastUsed < before.lastUsed then last else before
  }

  // Cookies_get_LRU
  method GetLRU(cookies: seq<CookieData>) returns (lru: CookieData)
    requires cookies != []
    ensures lru == LRU(cookies) && lru in cookies && lru in LeastUsed(Elements(cookies))
    ensures forall c :: c in cookies[..IndexOf(cookies, lru)] ==> lru.lastUsed < c.lastUsed
  {
    lru := cookies[0];
    ghost var at := 0;
    for i := 1 to |cookies|
      invariant 0 <= at < i && lru == cookies[at] && lru == LRU(cookies[..i])
      invariant forall k :: 0 <= k < i ==> lru.lastUsed <= cookies[k].lastUsed
      invariant forall k :: 0 <= k < at ==> lru.lastUsed < cookies[k].lastUsed
    {
      assert cookies[..i + 1][..i] == cookies[..i];
      if cookies[i].lastUsed < lru.lastUsed {
        lru, at := cookies[i], i;
      }
    }
    assert cookies[..|cookies|] == cookies;
    assert IndexOf(cookies, lru) == at by {
      assert cookies[IndexOf(cookies, lru)] == lru;
      FirstIndex(cookies, at);
    }
  }

  lemma {:induction false} FirstIndex<T>(s: seq<T>, i: nat)
    requires i < |s|
    ensures IndexOf(s, s[i]) <= i
  {
    if s[0] != s[i] {
      FirstIndex(s[1..], i - 1);
    }
  }

  lemma {:induction false} LRUIsLeast(s: seq<CookieData>)
    requires s != []
    ensures LRU(s) in LeastUsed(Elements(s))
  {
    if |s| > 1 {
      LRUIsLeast(s[..|s| - 1]);
      assert forall c :: c in s ==> c in s[..|s| - 1] || c == s[|s| - 1];
    }
  }

  // The first one of those that have not been used for the longest time.
  ghost predicate IsOldest(s: seq<CookieData>, i: int)
    reads s
  {
    && 0 <= i < |s|
    && (forall j :: 0 <= j < i ==> s[i].lastUsed < s[j].lastUsed)
    && (forall j :: i <= j < |s| ==> s[i].lastUsed <= s[j].lastUsed)
  }

  lemma {:induction false} LRUIsOldest(s: seq<CookieData>) returns (i: nat)
    requires s != []
    ensures IsOldest(s, i) && s[i] == LRU(s)
  {
    i := |s| - 1;
    if |s| > 1 {
      var j := LRUIsOldest(s[..i]);
      if s[i].lastUsed >= s[j].lastUsed {
        i := j;
      }
    }
  }

  // What a limit removes from the cookies of a list.
  lemma WhatLimitsRemove(s: set<CookieData>, list: seq<CookieData>, now: int)
    requires list != []
    ensures (exists c :: c in list && c.expiresAt < now) ==>
              LimitedBy(s, list, now) == set c | c in s && (c in list ==> c.expiresAt >= now)
    ensures (forall c :: c in list ==> c.expiresAt >= now) ==>
              exists i :: IsOldest(list, i) && LimitedBy(s, list, now) == s - {list[i]}
  {
    assert forall c :: c in ExpiredIn(Elements(list), now) <==> c in list && c.expiresAt < now;
    var i := LRUIsOldest(list);
  }

  // After the limit of a domain there is room for one more.
  lemma LimitMakesRoom(all: seq<CookieData>, ds: seq<DomainNode>, key: seq<int>, now: int)
    requires Consistent(all, ds)
    ensures |Own(DomainLimited(Elements(all), ds, key, now), key)| < MAX_DOMAIN_COOKIES
  {
    var s := Elements(all);
    var own, after := Own(s, key), DomainLimited(s, ds, key, now);
    if |own| >= MAX_DOMAIN_COOKIES {
      if !HasNode(ds, key) {
        OwnWithoutNode(all, ds, key);
      }
      var list := NodeCookies(ds, key);
      OwnIsNode(all, ds, FindNode(ds, key).value);
      LRUIsLeast(list);
      var x :| x in own && x !in after;
      SubsetSize(Own(after, key), own - {x});
    }
  }

  // Who replaces a cookie needs no room.
  lemma ReplacedMakesRoom(all: seq<CookieData>, ds: seq<DomainNode>, cookie: CookieData)
    requires Consistent(all, ds) && Replaced(Elements(all), cookie) != {}
    ensures |Own(Others(Elements(all), cookie), Key(cookie.domain))| < MAX_DOMAIN_COOKIES
    ensures |Others(Elements(all), cookie)| < MAX_TOTAL_COOKIES
  {
    var s, key := Elements(all), Key(cookie.domain);
    SizeOfNoDup(all);
    var x :| x in Replaced(s, cookie);
    SubsetSize(Others(s, cookie), s - {x});
    if !HasNode(ds, key) {
      OwnWithoutNode(all, ds, key);
    }
    assert x in Own(s, key);
    OwnIsNode(all, ds, FindNode(ds, key).value);
    SubsetSize(Own(Others(s, cookie), key), Own(s, key) - {x});
  }

  // So no limit is reached, whatever the lists are then.
  lemma NoLimitAfterReplacing(all: seq<CookieData>, ds: seq<DomainNode>, cookie: CookieData, all': seq<CookieData>, ds': seq<DomainNode>, now: int)
    requires Consistent(all, ds) && Replaced(Elements(all), cookie) != {}
    ensures AfterLimits(Others(Elements(all), cookie), all', ds', Key(cookie.domain), now) == Others(Elements(all), cookie)
  {
    ReplacedMakesRoom(all, ds, cookie);
  }

  // While no limit is reached, only replaced cookies are removed.
  lemma OthersAreKept(all: seq<CookieData>, ds: seq<DomainNode>, cookie: CookieData, now: int)
    ensures Others(Elements(all), cookie) == set c | c in Elements(all) && !IsReplacedBy(c, cookie)
    ensures |Elements(all)| < 1200 && |Own(Elements(all), Key(cookie.domain))| < 20 ==>
              AfterLimits(Others(Elements(all), cookie), all, ds, Key(cookie.domain), now) == Others(Elements(all), cookie)
  {
    var s, key := Elements(all), Key(cookie.domain);
    SubsetSize(Others(s, cookie), s);
    SubsetSize(Own(Others(s, cookie), key), Own(s, key));
  }

  // At the limits something is removed: of the domain, or of all cookies.
  lemma LimitsRemove(all: seq<CookieData>, ds: seq<DomainNode>, key: seq<int>, now: int)
    requires Consistent(all, ds)
    ensures DomainLimited(Elements(all), ds, key, now) == Elements(all) <==> |Own(Elements(all), key)| < 20
    ensures TotalLimited(Elements(all), all, now) == Elements(all) <==> |Elements(all)| < 1200
    ensures |Own(Elements(all), key)| <= 20 && |Elements(all)| <= 1200
  {
    SizeOfNoDup(all);
    if HasNode(ds, key) {
      OwnIsNode(all, ds, FindNode(ds, key).value);
    } else {
      OwnWithoutNode(all, ds, key);
    }
  }

  lemma {:induction false} SubsetSize<T>(a: set<T>, b: set<T>)
    requires a <= b
    ensures |a| <= |b|
  {
    if x :| x in a {
      SubsetSize(a - {x}, b - {x});
    }
  }

  lemma JoinIsAllowed(all: seq<CookieData>, ds: seq<DomainNode>, cookie: CookieData)
    requires Consistent(all, ds) && HasNode(ds, Key(cookie.domain))
    requires |Own(Elements(all), Key(cookie.domain))| < MAX_DOMAIN_COOKIES && Replaced(Elements(all), cookie) == {}
    ensures MayJoin(ds[FindNode(ds, Key(cookie.domain)).value], cookie)
  {
    var key := Key(cookie.domain);
    var i := FindNode(ds, key).value;
    OwnIsNode(all, ds, i);
    forall d | d in ds[i].cookies ensures !SameCookie(cookie, d) {
      assert d in Own(Elements(all), key);
      assert d !in Replaced(Elements(all), cookie);
    }
  }

  lemma NoneReplaced(s: set<CookieData>, cookie: CookieData)
    requires Own(s, Key(cookie.domain)) == {}
    ensures Replaced(s, cookie) == {}
  {
    assert forall c :: c in Replaced(s, cookie) ==> c in Own(s, Key(cookie.domain));
  }

  class CookieStore {
    var all: seq<CookieData>
    var domains: seq<DomainNode>
    var useCounter: int

    ghost predicate Valid()
      reads this
    {
      Consistent(all, domains) && forall i {:trigger domains[i]} :: 0 <= i < |domains| ==> domains[i].cookies != []
    }

    function Contents(): set<CookieData>
      reads this
    {
      Elements(all)
    }

    constructor ()
      ensures Valid() && Contents() == {} && useCounter == 0
    {
      all, domains, useCounter := [], [], 0;
    }

    // dList_remove from the node, dList_remove_fast from the flat list.
    method Drop(i: nat, c: CookieData)
      requires Consistent(all, domains) && i < |domains| && c in domains[i].cookies
      modifies `all, `domains
      ensures Consistent(all, domains) && |all| == |old(all)| - 1 && Contents() == old(Contents()) - {c}
      ensures c in old(all) && all == RemovedFast(old(all), c)
      ensures domains == WithCookies(old(domains), i, Removed(old(domains)[i].cookies, c))
      ensures |domains[i].cookies| == |old(domains)[i].cookies| - 1 && Key(c.domain) == Key(domains[i].domain)
      ensures KeepsOrder(old(domains), domains)
    {
      OrderAfterRemove(domains, i, c);
      ConsistentAfterRemove(all, domains, i, c);
      RemovedFastFacts(all, c);
      RemovedFacts(domains[i].cookies, c);
      domains := WithCookies(domains, i, Removed(domains[i].cookies, c));
      all := RemovedFast(all, c);
    }

    // The same, and the node is deleted when it has become empty.
    method Expel(i: nat, c: CookieData, ghost own: seq<int>)
      requires Consistent(all, domains) && NonEmptyBut(domains, own) && i < |domains| && c in domains[i].cookies
      modifies `all, `domains
      ensures Consistent(all, domains) && NonEmptyBut(domains, own)
      ensures |all| == |old(all)| - 1 && Contents() == old(Contents()) - {c}
      ensures c in old(all) && all == RemovedFast(old(all), c)
      ensures NodeFollows(old(domains), old(Contents()), domains, Contents(), own)
      ensures domains == if |old(domains)[i].cookies| == 1 then RemovedAt(old(domains), i)
                         else WithCookies(old(domains), i, Removed(old(domains)[i].cookies, c))
      ensures KeepsOrder(old(domains), domains)
    {
      Drop(i, c);
      OwnIsNode(all, domains, i);
      assert c in Own(old(Contents()), Key(domains[i].domain));
      assert Own(Contents(), own) == Own(old(Contents()), own) || own == Key(domains[i].domain);
      FollowsDrop(old(domains), domains, i, own);
      if |domains[i].cookies| == 0 {
        ConsistentAfterDelete(all, domains, i);
        OrderAfterDelete(domains, i);
        OrderIsTransitive(old(domains), domains, RemovedAt(domains, i), None);
        domains := RemovedAt(domains, i);
      }
    }

    // The cookie at j in node i is removed; the ones before it stay where they are.
    method ExpelAt(i: nat, j: nat)
      requires Valid() && i < |domains| && j < |domains[i].cookies|
      modifies `all, `domains
      ensures Valid() && |all| == |old(all)| - 1 && Contents() == old(Contents()) - {old(domains)[i].cookies[j]}
      ensures NodeFollows(old(domains), old(Contents()), domains, Contents(), Key(old(domains)[i].domain))
      ensures |old(domains)[i].cookies| == 1 <==> !HasNode(domains, Key(old(domains)[i].domain))
      ensures |old(domains)[i].cookies| != 1 ==>
                && i < |domains| && domains[i].domain == old(domains)[i].domain
                && |domains[i].cookies| == |old(domains)[i].cookies| - 1
                && domains[i].cookies[..j] == old(domains)[i].cookies[..j]
      ensures KeepsOrder(old(domains), domains)
    {
      ghost var key, cookies, before := Key(domains[i].domain), domains[i].cookies, domains;
      RemovedKeepsEarlier(cookies, j);
      OwnIsNode(all, domains, i);
      Expel(i, domains[i].cookies[j], key);
      assert HasNode(before, key);
      if |cookies| == 1 {
        GoneAfterDelete(before, i);
      } else {
        assert Key(domains[i].domain) == key;
      }
    }

    // Cookies_rm_expired_cookies for a node.
    method RmExpiredOfNode(i: nat, now: int) returns (removed: nat)
      requires Valid() && i < |domains|
      modifies `all, `domains
      ensures Valid()
      ensures Contents() == old(Contents()) - ExpiredIn(Own(old(Contents()), Key(old(domains)[i].domain)), now)
      ensures removed == |old(all)| - |all|
      ensures removed == 0 <==> ExpiredIn(Own(old(Contents()), Key(old(domains)[i].domain)), now) == {}
      ensures removed == 0 ==> domains == old(domains)
      ensures removed < |old(domains)[i].cookies| <==> HasNode(domains, Key(old(domains)[i].domain))
      ensures KeepsOrder(old(domains), domains)
    {
      ghost var key, before := Key(domains[i].domain), Contents();
      ghost var due := ExpiredIn(Own(before, key), now);
      var j, n := 0, |domains[i].cookies|;
      removed := 0;
      while j < n
        invariant Valid() && 0 <= j <= n && removed + n == |old(domains)[i].cookies|
        invariant removed == |old(all)| - |all| && (removed == 0 ==> domains == old(domains))
        invariant if n == 0 then !HasNode(domains, key) else ScannedNode(domains, i, key, n, j, now)
        invariant Purging(before, Contents(), due, removed) && KeepsOrder(old(domains), domains)
      {
        var c := domains[i].cookies[j];
        if c.expiresAt < now {
          OwnIsNode(all, domains, i);
          assert c in Own(Contents(), key);
          PurgeOne(before, Contents(), due, removed, c);
          ghost var ds := domains;
          ExpelAt(i, j);
          OrderIsTransitive(old(domains), ds, domains, None);
          n := n - 1;
          removed := removed + 1;
        } else {
          j := j + 1;
        }
      }
      if n > 0 {
        NodeAtIsFresh(domains, i, j, now);
      }
      OwnAreFresh(all, domains, key, now);
      AllRemoved(before, Contents(), due, key, now);
    }

    // Cookies_rm_expired_cookies for all cookies.
    method RmExpiredOfAll(now: int, ghost own: seq<int>) returns (removed: nat)
      requires Consistent(all, domains) && NonEmptyBut(domains, own)
      modifies `all, `domains
      ensures Consistent(all, domains) && NonEmptyBut(domains, own)
      ensures Contents() == old(Contents()) - ExpiredIn(old(Contents()), now)
      ensures NodeFollows(old(domains), old(Contents()), domains, Contents(), own)
      ensures removed == |old(all)| - |all|
      ensures removed == 0 <==> ExpiredIn(old(Contents()), now) == {}
      ensures removed == 0 ==> domains == old(domains) && all == old(all)
      ensures KeepsOrder(old(domains), domains)
    {
      ghost var before := Contents();
      var j, n := 0, |all|;
      removed := 0;
      while j < n
        invariant Consistent(all, domains) && NonEmptyBut(domains, own) && 0 <= j <= n == |all|
        invariant removed == |old(all)| - |all| && (removed == 0 ==> domains == old(domains) && all == old(all))
        invariant NodeFollows(old(domains), before, domains, Contents(), own)
        invariant NoneExpired(all[..j], now)
        invariant Purging(before, Contents(), ExpiredIn(before, now), removed) && KeepsOrder(old(domains), domains)
      {
        var c := all[j];
        if c.expiresAt < now {
          NodeOfCookie(all, domains, c);
          RemovedFastKeepsEarlier(all, j);
          PurgeOne(before, Contents(), ExpiredIn(before, now), removed, c);
          ghost var ds := domains;
          Expel(FindNode(domains, Key(c.domain)).value, c, own);
          OrderIsTransitive(old(domains), ds, domains, None);
          n := n - 1;
          removed := removed + 1;
        } else {
          j := j + 1;
        }
      }
      assert all[..j] == all;
    }

    // Cookies_too_many with the cookies of a node.
    method TooManyOfNode(i: nat)
      requires Valid() && i < |domains| && |domains[i].cookies| > 1
      modifies `all, `domains
      ensures Valid() && |all| == |old(all)| - 1
      ensures HasNode(domains, Key(old(domains)[i].domain))
      ensures Contents() == old(Contents()) - {LRU(old(domains)[i].cookies)}
      ensures LRU(old(domains)[i].cookies) in LeastUsed(Own(old(Contents()), Key(old(domains)[i].domain)))
      ensures KeepsOrder(old(domains), domains)
    {
      OwnIsNode(all, domains, i);
      var lru := GetLRU(domains[i].cookies);
      ExpelOneOf(i, lru);
    }

    // The node keeps other cookies.
    method ExpelOneOf(i: nat, c: CookieData)
      requires Valid() && i < |domains| && |domains[i].cookies| > 1 && c in domains[i].cookies
      modifies `all, `domains
      ensures Valid() && |all| == |old(all)| - 1 && HasNode(domains, Key(old(domains)[i].domain))
      ensures Contents() == old(Contents()) - {c} && KeepsOrder(old(domains), domains)
    {
      Expel(i, c, Key(domains[i].domain));
      assert Key(domains[i].domain) == Key(old(domains)[i].domain);
    }

    // Cookies_too_many with all cookies.
    method TooManyOfAll(ghost own: seq<int>)
      requires Consistent(all, domains) && NonEmptyBut(domains, own) && all != []
      modifies `all, `domains
      ensures Consistent(all, domains) && NonEmptyBut(domains, own) && |all| == |old(all)| - 1
      ensures NodeFollows(old(domains), old(Contents()), domains, Contents(), own)
      ensures Contents() == old(Contents()) - {LRU(old(all))} && LRU(old(all)) in LeastUsed(old(Contents()))
      ensures KeepsOrder(old(domains), domains)
    {
      var lru := GetLRU(all);
      ExpelFromAll(lru, own);
    }

    method ExpelFromAll(c: CookieData, ghost own: seq<int>)
      requires Consistent(all, domains) && NonEmptyBut(domains, own) && c in all
      modifies `all, `domains
      ensures Consistent(all, domains) && NonEmptyBut(domains, own) && |all| == |old(all)| - 1
      ensures NodeFollows(old(domains), old(Contents()), domains, Contents(), own) && Contents() == old(Contents()) - {c}
      ensures KeepsOrder(old(domains), domains)
    {
      NodeOfCookie(all, domains, c);
      Expel(FindNode(domains, Key(c.domain)).value, c, own);
    }

    method RemoveReplaced(i: nat, cookie: CookieData)
      requires Consistent(all, domains) && i < |domains| && Key(domains[i].domain) == Key(cookie.domain)
      requires NonEmptyBut(domains, Key(cookie.domain))
      modifies `all, `domains
      ensures Consistent(all, domains) && NonEmptyBut(domains, Key(cookie.domain))
      ensures i < |domains| && domains[i].domain == old(domains)[i].domain
      ensures Contents() == old(Contents()) - Replaced(old(Contents()), cookie)
      ensures |all| < |old(all)| || (all == old(all) && domains == old(domains))
      ensures KeepsOrder(old(domains), domains)
    {
      ghost var before := Contents();
      while FindSame(domains[i].cookies, cookie).Some?
        invariant Consistent(all, domains) && NonEmptyBut(domains, Key(cookie.domain))
        invariant i < |domains| && domains[i].domain == old(domains)[i].domain
        invariant RemovedSome(before, Contents(), Replaced(before, cookie))
        invariant |all| < |old(all)| || (all == old(all) && domains == old(domains))
        invariant KeepsOrder(old(domains), domains)
        decreases |all|
      {
        OwnIsNode(all, domains, i);
        ghost var ds := domains;
        Drop(i, domains[i].cookies[FindSame(domains[i].cookies, cookie).value]);
        OrderIsTransitive(old(domains), ds, domains, None);
      }
      assert forall c :: c in all && Key(c.domain) == Key(cookie.domain) ==> !SameCookie(c, cookie) by {
        OwnIsNode(all, domains, i);
        assert forall c :: c in all && Key(c.domain) == Key(cookie.domain) ==> c in Own(Contents(), Key(domains[i].domain));
      }
    }

    method DeleteIfEmpty(i: nat)
      requires Consistent(all, domains) && i < |domains| && NonEmptyBut(domains, Key(domains[i].domain))
      modifies `domains
      ensures Valid() && KeepsOrder(old(domains), domains)
    {
      if domains[i].cookies == [] {
        OrderAfterDelete(domains, i);
        ConsistentAfterDelete(all, domains, i);
        OthersAreNotEmpty(domains, i);
        domains := RemovedAt(domains, i);
      } else {
        OnlyOwnMayBeEmpty(domains, i);
      }
    }

    // The cookie is appended to both lists; without a node a new one is put in its place.
    method Join(cookie: CookieData, node: bool)
      requires Consistent(all, domains) && NonEmptyBut(domains, Key(cookie.domain))
      requires |all| < MAX_TOTAL_COOKIES && cookie !in all && node == HasNode(domains, Key(cookie.domain))
      requires node ==> MayJoin(domains[FindNode(domains, Key(cookie.domain)).value], cookie)
      modifies `all, `domains
      ensures Valid() && Contents() == old(Contents()) + {cookie}
      ensures all == old(all) + [cookie] && AddsLast(old(domains), domains, Some(cookie))
    {
      var key := Key(cookie.domain);
      if node {
        var i := FindNode(domains, key).value;
        ConsistentAfterAppend(all, domains, i, cookie);
        OrderAfterAppend(domains, i, cookie);
        domains := WithCookies(domains, i, domains[i].cookies + [cookie]);
        OnlyOwnMayBeEmpty(domains, i);
      } else {
        ConsistentAfterInsert(all, domains, cookie);
        OrderAfterInsert(domains, DomainNode(cookie.domain, [cookie]), Place(domains, key));
        domains := InsertedAt(domains, DomainNode(cookie.domain, [cookie]), Place(domains, key));
      }
      all := all + [cookie];
    }

    method LimitFullNode(i: nat, now: int) returns (node: bool)
      requires Valid() && i < |domains| && |domains[i].cookies| == MAX_DOMAIN_COOKIES
      modifies `all, `domains
      ensures Valid() && node == HasNode(domains, Key(old(domains)[i].domain)) && |all| < |old(all)|
      ensures Contents() == old(LimitedBy(Contents(), domains[i].cookies, now)) && KeepsOrder(old(domains), domains)
    {
      OwnIsNode(all, domains, i);
      node := true;
      var removed := RmExpiredOfNode(i, now);
      if removed == 0 {
        TooManyOfNode(i);
      } else if removed >= MAX_DOMAIN_COOKIES {
        node := false;
      }
    }

    // The limit for a domain, when there is a node for it.
    method LimitNode(key: seq<int>, now: int) returns (node: bool)
      requires Consistent(all, domains) && NonEmptyBut(domains, key) && HasNode(domains, key)
      modifies `all, `domains
      ensures Consistent(all, domains) && NonEmptyBut(domains, key) && node == HasNode(domains, key)
      ensures Contents() == old(DomainLimited(Contents(), domains, key, now)) && |Own(Contents(), key)| < MAX_DOMAIN_COOKIES
      ensures if |Own(old(Contents()), key)| < MAX_DOMAIN_COOKIES then all == old(all) else |all| < |old(all)|
      ensures KeepsOrder(old(domains), domains)
    {
      LimitMakesRoom(all, domains, key, now);
      var i := FindNode(domains, key).value;
      OwnIsNode(all, domains, i);
      node := true;
      if |domains[i].cookies| >= MAX_DOMAIN_COOKIES {
        OnlyOwnMayBeEmpty(domains, i);
        node := LimitFullNode(i, now);
      }
    }

    // One cookie is evicted; the node is not looked up again.
    method EvictOne(key: seq<int>, ghost now: int)
      requires Consistent(all, domains) && NonEmptyBut(domains, key) && |all| >= MAX_TOTAL_COOKIES && ExpiredIn(Contents(), now) == {}
      modifies `all, `domains
      ensures Consistent(all, domains) && NonEmptyBut(domains, key) && |all| < MAX_TOTAL_COOKIES
      ensures HasNode(domains, key) ==> HasNode(old(domains), key)
      ensures Contents() == old(Contents()) - {LRU(old(all))} && LRU(old(all)) in LeastUsed(old(Contents()))
      ensures old(HasNode(domains, key)) && !HasNode(domains, key) <==> LosesNode(old(all), key, now)
      ensures KeepsOrder(old(domains), domains)
    {
      ghost var before, ds := all, domains;
      if !HasNode(domains, key) {
        OwnWithoutNode(all, domains, key);
      }
      TooManyOfAll(key);
      NodeLost(ds, domains, Elements(before), Contents(), LRU(before), key);
    }

    // The node is looked up again when cookies have expired, but not when one has been evicted.
    method LimitFull(key: seq<int>, now: int, node0: bool) returns (node: bool)
      requires Consistent(all, domains) && NonEmptyBut(domains, key) && node0 == HasNode(domains, key) && |all| >= MAX_TOTAL_COOKIES
      modifies `all, `domains
      ensures Consistent(all, domains) && NonEmptyBut(domains, key) && |all| < MAX_TOTAL_COOKIES
      ensures HasNode(domains, key) ==> node
      ensures Contents() == old(LimitedBy(Contents(), all, now)) && KeepsOrder(old(domains), domains)
      ensures node && !HasNode(domains, key) <==> LosesNode(old(all), key, now)
    {
      node := node0;
      var removed := RmExpiredOfAll(now, key);
      if removed == 0 {
        EvictOne(key, now);
      } else if node {
        node := HasNode(domains, key);
      }
    }

    // The limit for all cookies.
    method LimitTotal(key: seq<int>, now: int, node0: bool) returns (node: bool)
      requires Consistent(all, domains) && NonEmptyBut(domains, key) && node0 == HasNode(domains, key)
      modifies `all, `domains
      ensures Consistent(all, domains) && NonEmptyBut(domains, key) && |all| < MAX_TOTAL_COOKIES
      ensures HasNode(domains, key) ==> node
      ensures Contents() == old(TotalLimited(Contents(), all, now)) && KeepsOrder(old(domains), domains)
      ensures |old(all)| < MAX_TOTAL_COOKIES ==> all == old(all)
      ensures node && !HasNode(domains, key) <==> LosesNode(old(all), key, now)
    {
      SizeOfNoDup(all);
      node := node0;
      if |all| >= MAX_TOTAL_COOKIES {
        node := LimitFull(key, now, node);
      }
    }

    // Whoever has removed a cookie for the limit of the domain does not reach the total limit.
    method ApplyLimits(key: seq<int>, now: int, node0: bool) returns (node: bool)
      requires Consistent(all, domains) && NonEmptyBut(domains, key) && node0 == HasNode(domains, key)
      modifies `all, `domains
      ensures Consistent(all, domains) && NonEmptyBut(domains, key) && |all| < MAX_TOTAL_COOKIES
      ensures Contents() == old(AfterLimits(Contents(), all, domains, key, now)) && |Own(Contents(), key)| < MAX_DOMAIN_COOKIES
      ensures node && !HasNode(domains, key) <==> old(LosesNode(all, key, now))
      ensures HasNode(domains, key) ==> node
      ensures KeepsOrder(old(domains), domains)
      ensures |old(Contents())| < MAX_TOTAL_COOKIES && |Own(old(Contents()), key)| < MAX_DOMAIN_COOKIES ==> all == old(all)
    {
      node := node0;
      if node {
        node := LimitNode(key, now);
      } else {
        OwnWithoutNode(all, domains, key);
      }
      SizeOfNoDup(all);
      ghost var afterOwn, ds := Contents(), domains;
      node := LimitTotal(key, now, node);
      OrderIsTransitive(old(domains), ds, domains, None);
      SubsetSize(Own(Contents(), key), Own(afterOwn, key));
    }

    // The end of Cookies_add_cookie.
    method AddToNode(cookie: CookieData, node: bool) returns (ok: bool)
      requires Consistent(all, domains) && NonEmptyBut(domains, Key(cookie.domain)) && |all| < MAX_TOTAL_COOKIES
      requires cookie !in Contents() && (HasNode(domains, Key(cookie.domain)) ==> node)
      requires |Own(Contents(), Key(cookie.domain))| < MAX_DOMAIN_COOKIES && Replaced(Contents(), cookie) == {}
      modifies `all, `domains
      ensures Valid()
      ensures ok <==> !(node && !old(HasNode(domains, Key(cookie.domain))))
      ensures Contents() == if ok then old(Contents()) + {cookie} else old(Contents())
      ensures all == (if ok then old(all) + [cookie] else old(all)) && AddsLast(old(domains), domains, Some(cookie))
    {
      ok := !node || HasNode(domains, Key(cookie.domain));
      if ok {
        if node {
          JoinIsAllowed(all, domains, cookie);
        }
        Join(cookie, node);
      } else {
        AllNonEmpty(domains, Key(cookie.domain));
      }
    }

    // Cookies_add_cookie from 745 on.
    method AddFresh(cookie: CookieData, now: int, node0: bool) returns (ok: bool)
      requires Consistent(all, domains) && NonEmptyBut(domains, Key(cookie.domain))
      requires cookie !in Contents() && node0 == HasNode(domains, Key(cookie.domain)) && Replaced(Contents(), cookie) == {}
      modifies this, cookie`lastUsed
      ensures Valid() && (ok <==> !old(LosesNode(all, Key(cookie.domain), now)))
      ensures var left := old(AfterLimits(Contents(), all, domains, Key(cookie.domain), now));
              Contents() == if ok then left + {cookie} else left
      ensures cookie.lastUsed == old(useCounter) && useCounter == old(useCounter) + 1
      ensures AddsLast(old(domains), domains, Some(cookie))
      ensures |old(Contents())| < MAX_TOTAL_COOKIES && |Own(old(Contents()), Key(cookie.domain))| < MAX_DOMAIN_COOKIES ==> all == old(all) + [cookie]
    {
      var node := ApplyLimits(Key(cookie.domain), now, node0);
      ghost var ds := domains;
      ReplacedInPart(Contents(), old(Contents()), cookie);
      cookie.lastUsed := useCounter;
      useCounter := useCounter + 1;
      ok := AddToNode(cookie, node);
      OrderIsTransitive(old(domains), ds, domains, Some(cookie));
    }

    // The beginning of Cookies_add_cookie.
    method ReplaceOld(cookie: CookieData) returns (node: bool)
      requires Valid() && cookie !in all
      modifies `all, `domains
      ensures Consistent(all, domains) && NonEmptyBut(domains, Key(cookie.domain))
      ensures Contents() == Others(old(Contents()), cookie)
      ensures cookie !in Contents() && node == HasNode(domains, Key(cookie.domain)) && Replaced(Contents(), cookie) == {}
      ensures if Replaced(old(Contents()), cookie) == {} then all == old(all) && domains == old(domains) else |all| < |old(all)|
      ensures KeepsOrder(old(domains), domains)
    {
      SizeOfNoDup(all);
      var key := Key(cookie.domain);
      node := HasNode(domains, key);
      if node {
        RemoveReplaced(FindNode(domains, key).value, cookie);
      } else {
        OwnWithoutNode(all, domains, key);
        NoneReplaced(Contents(), cookie);
      }
      SizeOfNoDup(all);
      assert cookie !in old(Contents());
    }

    // What is left of the cookies when one is added.
    ghost function AfterAdding(cookie: CookieData, now: int): set<CookieData>
      reads this, all, NodeCookies(domains, Key(cookie.domain))
    {
      AfterLimits(Others(Contents(), cookie), all, domains, Key(cookie.domain), now)
    }

    // The same; it is clear from now on what the limits will do.
    method ReplaceOldFirst(cookie: CookieData, ghost now: int) returns (node: bool)
      requires Valid() && cookie !in all
      modifies `all, `domains
      ensures Consistent(all, domains) && NonEmptyBut(domains, Key(cookie.domain)) && Contents() == Others(old(Contents()), cookie)
      ensures cookie !in Contents() && node == HasNode(domains, Key(cookie.domain)) && Replaced(Contents(), cookie) == {}
      ensures if Replaced(old(Contents()), cookie) == {} then all == old(all) else |all| < |old(all)|
      ensures AfterLimits(Contents(), all, domains, Key(cookie.domain), now) == old(AfterAdding(cookie, now))
      ensures KeepsOrder(old(domains), domains)
    {
      ghost var hasOld := Replaced(Contents(), cookie) != {};
      if hasOld {
        NoLimitAfterReplacing(all, domains, cookie, all, domains, now);
      }
      ghost var all0, ds0 := all, domains;
      node := ReplaceOld(cookie);
      if hasOld {
        NoLimitAfterReplacing(all0, ds0, cookie, all, domains, now);
      }
    }

    // And whether the node will be lost.
    method Begin(cookie: CookieData, ghost now: int) returns (node: bool)
      requires Valid() && cookie !in all
      modifies `all, `domains
      ensures Consistent(all, domains) && NonEmptyBut(domains, Key(cookie.domain)) && Contents() == Others(old(Contents()), cookie)
      ensures cookie !in Contents() && node == HasNode(domains, Key(cookie.domain)) && Replaced(Contents(), cookie) == {}
      ensures LosesNode(all, Key(cookie.domain), now) <==> old(WouldLose(all, cookie, now))
      ensures AfterLimits(Contents(), all, domains, Key(cookie.domain), now) == old(AfterAdding(cookie, now))
      ensures KeepsOrder(old(domains), domains) && (Replaced(old(Contents()), cookie) == {} ==> all == old(all))
    {
      node := ReplaceOldFirst(cookie, now);
    }

    method EndIgnored(cookie: CookieData, node: bool)
      requires Consistent(all, domains) && NonEmptyBut(domains, Key(cookie.domain)) && node == HasNode(domains, Key(cookie.domain))
      modifies `all, `domains
      ensures Valid() && Contents() == old(Contents()) && KeepsOrder(old(domains), domains)
    {
      if node {
        DeleteIfEmpty(FindNode(domains, Key(cookie.domain)).value);
      } else {
        AllNonEmpty(domains, Key(cookie.domain));
      }
    }

    // Cookies_add_cookie.  If ok is false, the node of the cookie has been deleted while
    // it was still in use: the source then appends to a list that has been freed.
    method AddCookie(cookie: CookieData, now: int) returns (ok: bool)
      requires Valid() && cookie !in all
      modifies this, cookie`lastUsed
      ensures Valid()
      ensures Ignored(cookie, now) ==> ok && Contents() == Others(old(Contents()), cookie)
      ensures !Ignored(cookie, now) ==> (ok <==> !old(WouldLose(all, cookie, now)))
      ensures !Ignored(cookie, now) ==> Contents() == if ok then old(AfterAdding(cookie, now)) + {cookie} else old(AfterAdding(cookie, now))
      ensures !Ignored(cookie, now) ==> cookie.lastUsed == old(useCounter) && useCounter == old(useCounter) + 1
      ensures cookie.expiresAt == -1 || cookie.expiresAt <= now ==>
                ok && Contents() == set c | c in old(Contents()) && !IsReplacedBy(c, cookie)
      ensures cookie.expiresAt != -1 && cookie.expiresAt > now && |old(Contents())| < 1200 && |old(Own(Contents(), Key(cookie.domain)))| < 20 ==>
                ok && Contents() == (set c | c in old(Contents()) && !IsReplacedBy(c, cookie)) + {cookie}
      ensures AddsLast(old(domains), domains, Some(cookie))
      ensures !Ignored(cookie, now) && |old(Contents())| < 1200 && |old(Own(Contents(), Key(cookie.domain)))| < 20 ==>
                (forall c :: c in old(Contents()) ==> !IsReplacedBy(c, cookie)) ==> all == old(all) + [cookie]
    {
      OthersAreKept(all, domains, cookie, now);
      SizeOfNoDup(all);
      var node := Begin(cookie, now);
      ghost var ds := domains;
      if Ignored(cookie, now) {
        ok := true;
        EndIgnored(cookie, node);
      } else {
        ok := AddFresh(cookie, now, node);
      }
      OrderIsTransitive(old(domains), ds, domains, Some(cookie));
    }
  }

  // ----- a run in which the node is lost -----------------------------------------------------

  function Xs(n: nat): string {
    seq(n, _ => 'x')
  }

  // One cookie for each of n domains, which differ in their lengths.
  ghost predicate OneEach(s: set<CookieData>, n: nat) {
    && |s| == n
    && (forall c :: c in s ==> c.name == "a" && c.expiresAt == 100 && 1 <= |c.domain| <= n && c.domain == Xs(|c.domain|))
    && (forall c, d :: c in s && d in s && |c.domain| == |d.domain| ==> c == d)
    && (n > 0 ==> exists c :: c in s && |c.domain| == 1)
  }

  // The shorter the domain, the older the cookie.
  ghost predicate UsedInTurn(s: set<CookieData>)
    reads s
  {
    forall c :: c in s ==> c.lastUsed == |c.domain| - 1
  }

  method AddWithRoom(store: CookieStore, c: CookieData)
    requires store.Valid() && c !in store.all && !Ignored(c, 1)
    requires Own(store.Contents(), Key(c.domain)) == {} && |store.Contents()| < MAX_TOTAL_COOKIES
    modifies store, c`lastUsed
    ensures store.Valid() && store.Contents() == old(store.Contents()) + {c}
    ensures c.lastUsed == old(store.useCounter) && store.useCounter == old(store.useCounter) + 1
  {
    NoneReplaced(store.Contents(), c);
    var _ := store.AddCookie(c, 1);
  }

  method AddOne(store: CookieStore, n: nat)
    requires store.Valid() && OneEach(store.Contents(), n) && UsedInTurn(store.Contents())
    requires store.useCounter == n < MAX_TOTAL_COOKIES
    modifies store
    ensures store.Valid() && OneEach(store.Contents(), n + 1) && UsedInTurn(store.Contents())
    ensures store.useCounter == n + 1
  {
    var domain := Xs(n + 1);
    var c := new CookieData("a", "", domain, "/", 100, true, false);
    ghost var before := store.Contents();
    OneMore(before, c, n);
    assert c !in before;
    AddWithRoom(store, c);
  }

  lemma OneMore(s: set<CookieData>, c: CookieData, n: nat)
    requires OneEach(s, n) && c !in s
    requires c.name == "a" && c.expiresAt == 100 && c.domain == Xs(n + 1)
    ensures OneEach(s + {c}, n + 1) && Own(s, Key(c.domain)) == {}
  {
    forall d | d in s ensures Key(d.domain) != Key(c.domain) {
      assert |Key(d.domain)| <= n;
    }
  }

  lemma OnlyFirst(s: set<CookieData>, first: CookieData, c: CookieData)
    requires OneEach(s, MAX_TOTAL_COOKIES) && first in s && |first.domain| == 1
    requires c.name == "b" && c.domain == "x"
    ensures Own(s, Key("x")) == {first} && ExpiredIn(s, 1) == {} && Others(s, c) == s
  {
    assert Xs(1) == "x";
    assert forall d :: d in Own(s, Key("x")) ==> |Key(d.domain)| == 1;
    assert Replaced(s, c) == {};
  }

  lemma FirstIsOldest(s: set<CookieData>, first: CookieData)
    requires OneEach(s, MAX_TOTAL_COOKIES) && UsedInTurn(s) && first in s && |first.domain| == 1
    ensures LeastUsed(s) == {first}
  {
  }

  lemma FirstIsLost(all: seq<CookieData>, c: CookieData, first: CookieData)
    requires NoDup(all) && |Elements(all)| == MAX_TOTAL_COOKIES && c.domain == "x" && Others(Elements(all), c) == Elements(all)
    requires LeastUsed(Elements(all)) == Own(Elements(all), Key("x")) == {first} && ExpiredIn(Elements(all), 1) == {}
    ensures WouldLose(all, c, 1)
  {
    SizeOfNoDup(all);
    LRUIsLeast(all);
    assert forall d :: d in Replaced(Elements(all), c) ==> d in Elements(all) && d !in Others(Elements(all), c);
  }

  method AddSecond(store: CookieStore, c: CookieData, ghost first: CookieData) returns (ok: bool)
    requires store.Valid() && c !in store.all && !Ignored(c, 1) && |store.Contents()| == MAX_TOTAL_COOKIES
    requires Own(store.Contents(), Key("x")) == {first} && ExpiredIn(store.Contents(), 1) == {}
    requires c.domain == "x" && Others(store.Contents(), c) == store.Contents() && LeastUsed(store.Contents()) == {first}
    modifies store, c
    ensures !ok
  {
    FirstIsLost(store.all, c, first);
    ok := store.AddCookie(c, 1);
  }

  // Each of 1200 domains has one cookie.  A second cookie for the first of them makes the
  // total limit evict the first one, and its node goes with it.
  method LastOfItsDomainIsEvicted() returns (ok: bool)
    ensures !ok
  {
    var store := new CookieStore();
    for i := 0 to MAX_TOTAL_COOKIES
      invariant store.Valid() && OneEach(store.Contents(), i) && UsedInTurn(store.Contents())
      invariant store.useCounter == i && fresh(store)
    {
      AddOne(store, i);
    }
    ghost var all := store.Contents();
    ghost var first :| first in all && |first.domain| == 1;
    var c := new CookieData("b", "", "x", "/", 100, true, false);
    OnlyFirst(all, first, c);
    FirstIsOldest(all, first);
    ok := AddSecond(store, c, first);
  }
}
