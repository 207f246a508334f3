// Which cookies are sent to a host: dpi/cookies.c:1026-1072, 1097-1126, 1235-1351.
module CookieMatch {
  import opened Common
  import opened Dlists
  import opened Cookies

  // ----- what one cookie must satisfy ---------------------------------------------------

  predicate PathMatches(urlPath: Option<string>, cookiePath: string) {
    && urlPath.Some?
    && cookiePath <= urlPath.value
    && (|| |cookiePath| == |urlPath.value|
        || (cookiePath != "" && cookiePath[|cookiePath| - 1] == '/')
        || urlPath.value[|cookiePath|] == '/')
  }

  // The parts of a path between the slashes.
  function Segments(s: string): (r: seq<string>)
    ensures |r| > 0
  {
    if s == "" then [""]
    else
      var rest := Segments(s[1..]);
      if s[0] == '/' then [""] + rest else [[s[0]] + rest[0]] + rest[1..]
  }

  function Joined(parts: seq<string>): string
    requires parts != []
  {
    if |parts| == 1 then parts[0] else parts[0] + "/" + Joined(parts[1..])
  }

  // They have no slashes and make up the path again.
  lemma {:induction false} SegmentsJoin(s: string)
    ensures Joined(Segments(s)) == s
    ensures forall part :: part in Segments(s) ==> '/' !in part
  {
    if s != "" {
      var rest := Segments(s[1..]);
      SegmentsJoin(s[1..]);
      assert rest[0] in rest && forall part :: part in rest[1..] ==> part in rest;
      if s[0] == '/' {
        assert ([""] + rest)[1..] == rest;
      } else {
        assert ([[s[0]] + rest[0]] + rest[1..])[1..] == rest[1..];
      }
    }
  }

  // The segments of p are those of u up to some place.
  lemma {:induction false} SegmentsPrefix(p: string, u: string)
    ensures Segments(p) <= Segments(u) <==> p <= u && (|p| == |u| || u[|p|] == '/')
  {
    var sp, su := Segments(p), Segments(u);
    if p == "" {
      if u != "" && u[0] != '/' {
        assert su[0] != "";
      }
    } else if u == "" {
      FirstSegment(p);
    } else {
      var rp, ru := Segments(p[1..]), Segments(u[1..]);
      SegmentsPrefix(p[1..], u[1..]);
      assert p <= u <==> p[0] == u[0] && p[1..] <= u[1..];
      assert |p| < |u| ==> u[1..][|p| - 1] == u[|p|];
      SegmentStep(p, u);
    }
  }

  lemma FirstSegment(p: string)
    requires p != ""
    ensures !(Segments(p) <= [""])
  {
    if p[0] != '/' {
      assert Segments(p)[0] != "";
    }
  }

  lemma SegmentStep(p: string, u: string)
    requires p != "" && u != ""
    ensures Segments(p) <= Segments(u) <==> p[0] == u[0] && Segments(p[1..]) <= Segments(u[1..])
  {
    var sp, su, rp, ru := Segments(p), Segments(u), Segments(p[1..]), Segments(u[1..]);
    assert p[0] == '/' ==> sp[0] == "" && sp[1..] == rp;
    assert p[0] != '/' ==> sp[0] == [p[0]] + rp[0] && sp[1..] == rp[1..];
    assert u[0] == '/' ==> su[0] == "" && su[1..] == ru;
    assert u[0] != '/' ==> su[0] == [u[0]] + ru[0] && su[1..] == ru[1..];
    PrefixByParts(sp, su);
    PrefixByParts(rp, ru);
    if p[0] != '/' && u[0] != '/' {
      assert sp[0] == su[0] ==> sp[0][0] == su[0][0] && sp[0][1..] == su[0][1..];
      assert sp[0][1..] == rp[0] && su[0][1..] == ru[0];
    }
  }

  lemma PrefixByParts(a: seq<string>, b: seq<string>)
    requires a != [] && b != []
    ensures a <= b <==> a[0] == b[0] && a[1..] <= b[1..]
  {
    if a[0] == b[0] && a[1..] <= b[1..] {
      assert a == [a[0]] + a[1..] && b == [b[0]] + b[1..];
      assert forall i :: 0 <= i < |a| ==> a[i] == b[i] by {
        forall i | 0 <= i < |a| ensures a[i] == b[i] {
          assert i > 0 ==> a[1..][i - 1] == b[1..][i - 1];
        }
      }
    }
    if a <= b {
      assert a == b[..|a|];
    }
  }

  lemma SameSegments(q: string, u: string)
    ensures Segments(q) == Segments(u) <==> q == u
  {
    SegmentsJoin(q);
    SegmentsJoin(u);
  }

  lemma ProperSegments(q: string, u: string)
    ensures Segments(q) < Segments(u) <==> q + "/" <= u
  {
    SegmentsPrefix(q, u);
    SameSegments(q, u);
    BeginsWith(q, u);
    var a, b := Segments(q), Segments(u);
    assert a < b <==> a <= b && a != b;
  }

  lemma BeginsWith(q: string, u: string)
    ensures q + "/" <= u <==> q <= u && |q| < |u| && u[|q|] == '/'
  {
    var p := q + "/";
    if p <= u {
      assert u[..|p|][..|q|] == p[..|q|] == q && u[|q|] == p[|q|];
    }
    if q <= u && |q| < |u| && u[|q|] == '/' {
      assert u[..|q| + 1] == p;
    }
  }

  // A cookie path matches if its segments are the first ones of the requested path; one that
  // ends with a slash, if these are not all segments of it.
  lemma PathMatchesIs(urlPath: Option<string>, cookiePath: string)
    ensures urlPath == None ==> !PathMatches(urlPath, cookiePath)
    ensures urlPath.Some? && (cookiePath == "" || cookiePath[|cookiePath| - 1] != '/') ==>
              (PathMatches(urlPath, cookiePath) <==> Segments(cookiePath) <= Segments(urlPath.value))
    ensures urlPath.Some? && cookiePath != "" && cookiePath[|cookiePath| - 1] == '/' ==>
              (PathMatches(urlPath, cookiePath) <==> Segments(cookiePath[..|cookiePath| - 1]) < Segments(urlPath.value))
  {
    if urlPath.Some? {
      SegmentsPrefix(cookiePath, urlPath.value);
      if cookiePath != "" && cookiePath[|cookiePath| - 1] == '/' {
        ProperSegments(cookiePath[..|cookiePath| - 1], urlPath.value);
        assert cookiePath[..|cookiePath| - 1] + "/" == cookiePath;
      }
    }
  }

  predicate AllIn(s: string, accept: string) {
    forall i :: 0 <= i < |s| ==> s[i] in accept
  }

  // Cookies_domain_is_ip
  predicate IsIp(s: string) {
    AllIn(s, "0123456789.") || (':' in s && AllIn(s, "0123456789abcdefABCDEF:."))
  }

  function Stripped(domain: string): string {
    if domain != "" && domain[0] == '.' then domain[1..] else domain
  }

  // b is the tail of a, and the match is preceded by a dot.
  predicate IsTail(a: string, b: string) {
    |b| < |a| && Key(a[|a| - |b|..]) == Key(b) && a[|a| - |b| - 1] == '.'
  }

  // Cookies_domain_matches
  predicate DomainMatches(a: string, domain: string) {
    && a != "" && domain != ""
    && var b := Stripped(domain);
       Key(a) == Key(b) || (!IsIp(b) && IsTail(a, b))
  }

  // ----- the domains that are looked up for a host -----------------------------------------

  datatype Lookup = Lookup(domain: string, hostOnly: bool)

  // strchr(host + from, '.')
  function NextDot(host: string, from: nat): (p: nat)
    requires from <= |host|
    ensures from <= p <= |host| && (p < |host| ==> host[p] == '.')
    ensures forall i :: from <= i < p ==> host[i] != '.'
    decreases |host| - from
  {
    if from == |host| || host[from] == '.' then from else NextDot(host, from + 1)
  }

  // Every dot yields two domains, with and without it.
  function SuffixLookups(host: string, p: nat): seq<Lookup>
    requires p <= |host|
    decreases |host| - p
  {
    if p == |host| then []
    else if p + 1 == |host| then [Lookup(host[p..], false)]
    else [Lookup(host[p..], false), Lookup(host[p + 1..], false)] + SuffixLookups(host, NextDot(host, p + 2))
  }

  function Lookups(host: string): seq<Lookup> {
    if IsIp(host) then [Lookup(host, true), Lookup(host, false)]
    else [Lookup("." + host, false), Lookup(host, true), Lookup(host, false)] + SuffixLookups(host, NextDot(host, 1))
  }

  predicate IsLookup(l: Lookup, key: seq<int>, hostOnly: bool) {
    Key(l.domain) == key && l.hostOnly == hostOnly
  }

  ghost predicate LookedUp(ls: seq<Lookup>, key: seq<int>, hostOnly: bool) {
    exists l :: l in ls && IsLookup(l, key, hostOnly)
  }

  lemma LookedUpConcat(a: seq<Lookup>, b: seq<Lookup>, key: seq<int>, hostOnly: bool)
    ensures LookedUp(a + b, key, hostOnly) <==> LookedUp(a, key, hostOnly) || LookedUp(b, key, hostOnly)
  {
    assert forall x :: x in a + b <==> x in a || x in b;
  }

  // The dots that are tried: not one directly behind another one that is tried.
  predicate IsTried(host: string, d: int)
    decreases d
  {
    0 < d < |host| && host[d] == '.' && !IsTried(host, d - 1)
  }

  // A dot at d yields the key.
  predicate DotYields(host: string, d: nat, key: seq<int>) {
    IsTried(host, d) && (key == Key(host[d..]) || (d + 1 < |host| && key == Key(host[d + 1..])))
  }

  ghost predicate AtDot(host: string, p: nat, key: seq<int>) {
    exists d: nat :: p <= d && DotYields(host, d, key)
  }

  lemma NextDotYields(host: string, p: nat, key: seq<int>)
    requires IsTried(host, p) && p + 1 < |host|
    ensures AtDot(host, p, key) <==> DotYields(host, p, key) || AtDot(host, NextDot(host, p + 2), key)
    ensures NextDot(host, p + 2) < |host| ==> IsTried(host, NextDot(host, p + 2))
  {
    assert !IsTried(host, p + 1);
  }

  lemma LookupsAtDot(host: string, p: nat, key: seq<int>)
    requires IsTried(host, p) && p + 1 < |host|
    ensures !LookedUp([Lookup(host[p..], false), Lookup(host[p + 1..], false)], key, true)
    ensures LookedUp([Lookup(host[p..], false), Lookup(host[p + 1..], false)], key, false) <==> DotYields(host, p, key)
  {
    var l, m := Lookup(host[p..], false), Lookup(host[p + 1..], false);
    assert forall x :: x in [l, m] <==> x == l || x == m;
    assert IsLookup(l, key, false) <==> Key(host[p..]) == key;
    assert IsLookup(m, key, false) <==> Key(host[p + 1..]) == key;
  }

  lemma {:induction false} SuffixesAreDots(host: string, p: nat, key: seq<int>)
    requires 0 < p <= |host| && (p < |host| ==> IsTried(host, p))
    ensures !LookedUp(SuffixLookups(host, p), key, true)
    ensures LookedUp(SuffixLookups(host, p), key, false) <==> AtDot(host, p, key)
    decreases |host| - p
  {
    if p + 1 == |host| {
      assert IsLookup(Lookup(host[p..], false), key, false) <==> DotYields(host, p, key);
    } else if p < |host| {
      NextDotYields(host, p, key);
      var rest := SuffixLookups(host, NextDot(host, p + 2));
      SuffixesAreDots(host, NextDot(host, p + 2), key);
      LookupsAtDot(host, p, key);
      LookedUpConcat([Lookup(host[p..], false), Lookup(host[p + 1..], false)], rest, key, false);
      LookedUpConcat([Lookup(host[p..], false), Lookup(host[p + 1..], false)], rest, key, true);
    }
  }

  lemma FirstThree(host: string, key: seq<int>)
    ensures var three := [Lookup("." + host, false), Lookup(host, true), Lookup(host, false)];
            && (LookedUp(three, key, true) <==> key == Key(host))
            && (LookedUp(three, key, false) <==> key == Key("." + host) || key == Key(host))
  {
    var l, m, n := Lookup("." + host, false), Lookup(host, true), Lookup(host, false);
    assert forall x :: x in [l, m, n] <==> x == l || x == m || x == n;
    assert IsLookup(l, key, false) <==> Key("." + host) == key;
    assert IsLookup(m, key, true) <==> Key(host) == key;
    assert IsLookup(n, key, false) <==> Key(host) == key;
  }

  lemma KeyOfTail(s: string, i: nat)
    requires i <= |s|
    ensures Key(s[i..]) == Key(s)[i..]
  {
  }

  lemma KeyOfDot(s: string, i: nat)
    requires i < |s|
    ensures Key(s)[i] == LowerCode('.') <==> s[i] == '.'
  {
  }

  // The place of the dot before a tail.
  function DotBefore(host: string, tail: string): int {
    |host| - |tail| - 1
  }

  // A matching domain that is not looked up: for a host like an IP address every one but the
  // host itself; otherwise one that is written without a leading dot, behind a dot that is not
  // tried.
  predicate IsMissed(host: string, domain: string)
    requires DomainMatches(host, domain)
  {
    if IsIp(host) then Key(domain) != Key(host)
    else domain[0] != '.' && Key(domain) != Key(host) && !IsTried(host, DotBefore(host, domain))
  }

  // A domain that is looked up but does not match: for a host like an IP address this one, if it
  // begins with a dot; otherwise one that looks like an IP address.
  predicate IsExtra(host: string, domain: string) {
    if IsIp(host) then Key(domain) == Key(host) && (host == "" || host[0] == '.')
    else
      var b := Stripped(domain);
      domain != "" && IsIp(b) && IsTail(host, b) && (domain[0] == '.' || IsTried(host, DotBefore(host, b)))
  }

  // For every host and every domain: what is looked up is what matches, but for these.
  lemma LookupsAreMatches(host: string, domain: string)
    ensures LookedUp(Lookups(host), Key(domain), true) <==> Key(domain) == Key(host)
    ensures LookedUp(Lookups(host), Key(domain), false)
            <==> (DomainMatches(host, domain) && !IsMissed(host, domain)) || IsExtra(host, domain)
  {
    if IsIp(host) {
      HostIsLookedUp(host, Key(domain));
      if Key(domain) == Key(host) {
        OwnDomain(host, domain);
      }
    } else {
      DomainsLookedUp(host, Key(domain));
      LookupsByCases(host, domain);
    }
  }

  lemma HostIsLookedUp(host: string, key: seq<int>)
    requires IsIp(host)
    ensures LookedUp(Lookups(host), key, true) <==> key == Key(host)
    ensures LookedUp(Lookups(host), key, false) <==> key == Key(host)
  {
    var l, m := Lookup(host, true), Lookup(host, false);
    assert forall x :: x in [l, m] <==> x == l || x == m;
    assert IsLookup(l, key, true) <==> Key(host) == key;
    assert IsLookup(m, key, false) <==> Key(host) == key;
  }

  lemma OwnDomain(host: string, domain: string)
    requires IsIp(host) && Key(domain) == Key(host)
    ensures DomainMatches(host, domain) || host == "" || host[0] == '.'
  {
    if host != "" {
      KeyOfDot(domain, 0);
      KeyOfDot(host, 0);
    }
  }

  lemma DomainsLookedUp(host: string, key: seq<int>)
    requires !IsIp(host)
    ensures LookedUp(Lookups(host), key, true) <==> key == Key(host)
    ensures LookedUp(Lookups(host), key, false) <==> key == Key("." + host) || key == Key(host) || AtDot(host, 1, key)
  {
    var p := NextDot(host, 1);
    var three, rest := [Lookup("." + host, false), Lookup(host, true), Lookup(host, false)], SuffixLookups(host, p);
    SuffixesAreDots(host, p, key);
    FirstThree(host, key);
    LookedUpConcat(three, rest, key, true);
    LookedUpConcat(three, rest, key, false);
    assert AtDot(host, p, key) <==> AtDot(host, 1, key);
  }

  // The domains with and without a leading dot that are at a dot.
  predicate AtTriedTail(host: string, domain: string) {
    var b := Stripped(domain);
    domain != "" && IsTail(host, b) && (domain[0] == '.' || IsTried(host, DotBefore(host, b)))
  }

  lemma LookupsByCases(host: string, domain: string)
    requires !IsIp(host)
    ensures Key(domain) == Key("." + host) || Key(domain) == Key(host) || AtDot(host, 1, Key(domain))
            <==> (DomainMatches(host, domain) && !IsMissed(host, domain)) || IsExtra(host, domain)
  {
    var key, b := Key(domain), Stripped(domain);
    if key == Key("." + host) {
      KeyOfDot(domain, 0);
      KeyOfTail("." + host, 1);
      KeyOfTail(domain, 1);
      assert ("." + host)[1..] == host;
    } else if key == Key(host) {
      KeyOfDot(domain, 0);
      KeyOfDot(host, 0);
      KeyOfTail(domain, 1);
      KeyOfTail(host, 1);
    } else if AtDot(host, 1, key) {
      var d: nat :| 1 <= d && DotYields(host, d, key);
      TailAtDot(host, domain, d);
    }
    if Key(b) == Key(host) {
      KeyWithDot(domain, host);
    } else if AtTriedTail(host, domain) {
      DotAtTail(host, domain);
    }
  }

  lemma TailAtDot(host: string, domain: string, d: nat)
    requires DotYields(host, d, Key(domain))
    ensures AtTriedTail(host, domain)
  {
    KeyOfDot(domain, 0);
    KeyOfTail(host, d);
    KeyOfTail(domain, 1);
    KeyOfDot(host, d);
    KeyOfTail(host, d + 1);
    if Key(domain) == Key(host[d..]) {
      assert Key(domain)[0] == Key(host)[d];
      assert Key(host[d..])[1..] == Key(host[d + 1..]);
    } else {
      KeyOfDot(host, d + 1);
      KeyOfTail(host, d + 2);
      assert Key(domain)[0] == Key(host)[d + 1];
      assert Key(host[d + 1..])[1..] == Key(host[d + 2..]);
    }
  }

  lemma KeyWithDot(domain: string, host: string)
    requires Key(Stripped(domain)) == Key(host)
    ensures Key(domain) == Key(host) || Key(domain) == Key("." + host)
  {
    if domain != Stripped(domain) {
      assert Key(domain) == [LowerCode('.')] + Key(domain[1..]);
      assert Key("." + host) == [LowerCode('.')] + Key(host);
    }
  }

  lemma DotAtTail(host: string, domain: string)
    requires AtTriedTail(host, domain)
    ensures Key(domain) == Key(host) || AtDot(host, 1, Key(domain))
  {
    var b := Stripped(domain);
    var d := DotBefore(host, b);
    if domain[0] == '.' {
      assert Key(domain) == [LowerCode('.')] + Key(b);
      assert Key(host[d..]) == [LowerCode('.')] + Key(host[d + 1..]);
      if d > 0 {
        assert DotYields(host, d, Key(domain)) || DotYields(host, d - 1, Key(domain));
      } else {
        assert host[d..] == host;
      }
    } else {
      assert DotYields(host, d, Key(domain));
    }
  }

  // ----- collecting the cookies of one domain ------------------------------------------------

  datatype Query = Query(path: Option<string>, isTls: bool, now: int)

  // Unexpired, and the path and the scheme allow it.
  predicate Sendable(c: CookieData, q: Query) {
    c.expiresAt >= q.now && (c.secure ==> q.isTls) && PathMatches(q.path, c.path)
  }

  // Cookies_match
  predicate CookieMatches(c: CookieData, q: Query, hostOnly: bool) {
    if c.hostOnly != hostOnly then false
    else if c.secure && !q.isTls then false
    else PathMatches(q.path, c.path)
  }

  ghost predicate SortedByPath(m: seq<CookieData>) {
    forall i, j {:trigger m[i], m[j]} :: 0 <= i < j < |m| ==> |m[i].path| >= |m[j].path|
  }

  function PathPlace(m: seq<CookieData>, len: nat): (j: nat)
    ensures j <= |m| && (j < |m| ==> |m[j].path| < len)
    ensures forall i {:trigger m[i]} :: 0 <= i < j ==> |m[i].path| >= len
  {
    if m == [] || |m[0].path| < len then 0 else 1 + PathPlace(m[1..], len)
  }

  // Behind all cookies whose paths are at least as long.
  function InsertByPath(m: seq<CookieData>, c: CookieData): seq<CookieData> {
    InsertedAt(m, c, PathPlace(m, |c.path|))
  }

  function Unexpired(s: seq<CookieData>, now: int): seq<CookieData> {
    if s == [] then []
    else
      var rest, c := Unexpired(s[..|s| - 1], now), s[|s| - 1];
      if c.expiresAt < now then rest else rest + [c]
  }

  function InsertMatching(m: seq<CookieData>, s: seq<CookieData>, q: Query, hostOnly: bool): seq<CookieData> {
    if s == [] then m
    else
      var rest, c := InsertMatching(m, s[..|s| - 1], q, hostOnly), s[|s| - 1];
      if c.expiresAt >= q.now && CookieMatches(c, q, hostOnly) then InsertByPath(rest, c) else rest
  }

  lemma InsertedAtFacts<T>(m: seq<T>, x: T, p: nat)
    requires p <= |m|
    ensures forall y :: y in InsertedAt(m, x, p) <==> y in m || y == x
    ensures NoDup(m) && x !in m ==> NoDup(InsertedAt(m, x, p))
  {
    var r := InsertedAt(m, x, p);
    forall y | y in m ensures y in r {
      var j := IndexOf(m, y);
      assert r[if j < p then j else j + 1] == y;
    }
    assert r[p] == x;
  }

  lemma InsertByPathFacts(m: seq<CookieData>, c: CookieData)
    requires SortedByPath(m)
    ensures SortedByPath(InsertByPath(m, c))
  {
  }

  predicate Selected(c: CookieData, q: Query, hostOnly: bool) {
    Sendable(c, q) && c.hostOnly == hostOnly
  }

  ghost predicate NoneSelected(m: seq<CookieData>, s: seq<CookieData>, q: Query, hostOnly: bool) {
    forall c :: c in s && c in m ==> !Selected(c, q, hostOnly)
  }

  lemma {:induction false} InsertMatchingElements(m: seq<CookieData>, s: seq<CookieData>, q: Query, hostOnly: bool)
    ensures forall c :: c in InsertMatching(m, s, q, hostOnly) ==> c in m || (c in s && Selected(c, q, hostOnly))
    ensures forall c :: c in m || (c in s && Selected(c, q, hostOnly)) ==> c in InsertMatching(m, s, q, hostOnly)
  {
    if s != [] {
      var t, c := s[..|s| - 1], s[|s| - 1];
      InsertMatchingElements(m, t, q, hostOnly);
      var rest := InsertMatching(m, t, q, hostOnly);
      assert forall x :: x in s <==> x in t || x == c;
      InsertedAtFacts(rest, c, PathPlace(rest, |c.path|));
    }
  }

  lemma {:induction false} InsertMatchingSorted(m: seq<CookieData>, s: seq<CookieData>, q: Query, hostOnly: bool)
    requires SortedByPath(m) && NoDup(m) && NoDup(s) && NoneSelected(m, s, q, hostOnly)
    ensures var r := InsertMatching(m, s, q, hostOnly); SortedByPath(r) && NoDup(r)
  {
    if s != [] {
      var t, c := s[..|s| - 1], s[|s| - 1];
      InsertMatchingSorted(m, t, q, hostOnly);
      InsertMatchingElements(m, t, q, hostOnly);
      var rest := InsertMatching(m, t, q, hostOnly);
      if Selected(c, q, hostOnly) {
        assert s[|s| - 1] == c && c !in t;
        InsertByPathFacts(rest, c);
        InsertedAtFacts(rest, c, PathPlace(rest, |c.path|));
      }
    }
  }

  lemma {:induction false} UnexpiredFacts(s: seq<CookieData>, now: int)
    ensures forall c :: c in Unexpired(s, now) ==> c in s && c.expiresAt >= now
    ensures forall c :: c in s && c.expiresAt >= now ==> c in Unexpired(s, now)
  {
    if s != [] {
      UnexpiredFacts(s[..|s| - 1], now);
      assert forall x :: x in s <==> x in s[..|s| - 1] || x == s[|s| - 1];
    }
  }

  // They are still in the same order.
  lemma {:induction false} UnexpiredInOrder(s: seq<CookieData>, now: int, i: nat, j: nat) returns (i': nat, j': nat)
    requires i < j < |Unexpired(s, now)|
    ensures i' < j' < |s| && s[i'] == Unexpired(s, now)[i] && s[j'] == Unexpired(s, now)[j]
  {
    var t := s[..|s| - 1];
    if j < |Unexpired(t, now)| {
      i', j' := UnexpiredInOrder(t, now, i, j);
    } else {
      UnexpiredFacts(t, now);
      assert Unexpired(t, now)[i] in t;
      i' :| 0 <= i' < |t| && t[i'] == Unexpired(t, now)[i];
      j' := |s| - 1;
    }
  }

  lemma OrderAfterExpiry(ds: seq<DomainNode>, n: nat, now: int)
    requires n < |ds|
    ensures KeepsOrder(ds, WithCookies(ds, n, Unexpired(ds[n].cookies, now)))
  {
    var ds' := WithCookies(ds, n, Unexpired(ds[n].cookies, now));
    forall k, i, j {:trigger Before(ds, ds'[k].cookies[i], ds'[k].cookies[j])} | 0 <= k < |ds'| && 0 <= i < j < |ds'[k].cookies|
      ensures Before(ds, ds'[k].cookies[i], ds'[k].cookies[j])
    {
      if k == n {
        var i', j' := UnexpiredInOrder(ds[n].cookies, now, i, j);
      } else {
        assert ds[k].cookies[i] == ds'[k].cookies[i] && ds[k].cookies[j] == ds'[k].cookies[j];
      }
    }
  }

  // The cookies of a node while they are scanned: of those before k the expired ones are
  // gone, those from k on have not been looked at.
  function Scanned(was: seq<CookieData>, k: nat, now: int): seq<CookieData>
    requires k <= |was|
  {
    Unexpired(was[..k], now) + was[k..]
  }

  lemma ScanStep(was: seq<CookieData>, k: nat, now: int)
    requires k < |was| && NoDup(Scanned(was, k, now))
    ensures var i := |Unexpired(was[..k], now)|;
            && i < |Scanned(was, k, now)| && Scanned(was, k, now)[i] == was[k] && was[..k + 1][..k] == was[..k]
            && (if was[k].expiresAt < now then
                  |Unexpired(was[..k + 1], now)| == i && Scanned(was, k + 1, now) == Removed(Scanned(was, k, now), was[k])
                else
                  |Unexpired(was[..k + 1], now)| == i + 1 && Scanned(was, k + 1, now) == Scanned(was, k, now))
  {
    assert was[..k + 1][..k] == was[..k];
    assert was[k..] == [was[k]] + was[k + 1..];
    var cookies, i := Scanned(was, k, now), |Unexpired(was[..k], now)|;
    if was[k].expiresAt < now {
      assert cookies[IndexOf(cookies, was[k])] == was[k] == cookies[i];
      assert Removed(cookies, was[k]) == Unexpired(was[..k], now) + was[k + 1..];
    } else {
      assert cookies == Unexpired(was[..k], now) + [was[k]] + was[k + 1..];
    }
  }

  // The flat list follows the list of a node.
  lemma AllFollowsNode(all0: seq<CookieData>, ds0: seq<DomainNode>, n: nat, all: seq<CookieData>, cookies: seq<CookieData>)
    requires Consistent(all0, ds0) && n < |ds0| && Consistent(all, WithCookies(ds0, n, cookies))
    requires forall c :: c in cookies ==> c in ds0[n].cookies
    ensures Elements(all) == Elements(all0) - (Elements(ds0[n].cookies) - Elements(cookies))
  {
    var ds := WithCookies(ds0, n, cookies);
    forall c ensures c in all <==> c in all0 && (c in ds0[n].cookies ==> c in cookies) {
      if c in all {
        assert InNodes(ds, c);
        var j :| 0 <= j < |ds| && c in ds[j].cookies;
        assert c in ds0[j].cookies;
        HolderIsUnique(all0, ds0, c, n);
        HolderIsUnique(all, ds, c, n);
      }
      if c in all0 {
        assert InNodes(ds0, c);
        var j :| 0 <= j < |ds0| && c in ds0[j].cookies;
        if j != n {
          assert c in ds[j].cookies;
        } else if c in cookies {
          assert c in ds[n].cookies;
        }
      }
    }
  }

  lemma ScanDone(all0: seq<CookieData>, ds0: seq<DomainNode>, n: nat, all: seq<CookieData>, now: int)
    requires Consistent(all0, ds0) && n < |ds0|
    requires Consistent(all, WithCookies(ds0, n, Unexpired(ds0[n].cookies, now)))
    ensures Elements(all) == Elements(all0) - ExpiredIn(Own(Elements(all0), Key(ds0[n].domain)), now)
  {
    var was := ds0[n].cookies;
    UnexpiredFacts(was, now);
    assert forall c :: c in Unexpired(was, now) ==> c in was;
    AllFollowsNode(all0, ds0, n, all, Unexpired(was, now));
    OwnIsNode(all0, ds0, n);
  }

  // When each cookie was used last.
  ghost function Uses(s: set<CookieData>): map<CookieData, int>
    reads s
  {
    map c | c in s :: c.lastUsed
  }

  // The same after the cookies selected from a node have been used.
  ghost function Used(m: map<CookieData, int>, s: seq<CookieData>, q: Query, hostOnly: bool, counter: int): map<CookieData, int> {
    map c | c in m :: if c in s && Selected(c, q, hostOnly) then counter else m[c]
  }

  lemma UsedStep(m: map<CookieData, int>, s: seq<CookieData>, k: nat, q: Query, hostOnly: bool, counter: int)
    requires k < |s| && s[k] in m
    ensures var u := Used(m, s[..k], q, hostOnly, counter);
            Used(m, s[..k + 1], q, hostOnly, counter) == if Selected(s[k], q, hostOnly) then u[s[k] := counter] else u
  {
    assert s[..k + 1] == s[..k] + [s[k]];
    if !Selected(s[k], q, hostOnly) {
      assert forall c :: c in m && c in s[..k + 1] && Selected(c, q, hostOnly) ==> c in s[..k];
    }
  }

  // One round of the loop.
  method ScanOne(store: CookieStore, n: nat, i0: nat, q: Query, hostOnly: bool, matching0: seq<CookieData>,
                 ghost ds0: seq<DomainNode>, ghost k: nat, ghost before: set<CookieData>)
    returns (i: nat, matching: seq<CookieData>)
    requires n < |ds0| && k < |ds0[n].cookies| && ds0[n].cookies[k] in before
    requires Consistent(store.all, store.domains) && store.domains == WithCookies(ds0, n, Scanned(ds0[n].cookies, k, q.now))
    requires i0 == |Unexpired(ds0[n].cookies[..k], q.now)|
    modifies store`all, store`domains, ds0[n].cookies[k]
    ensures Consistent(store.all, store.domains) && store.domains == WithCookies(ds0, n, Scanned(ds0[n].cookies, k + 1, q.now))
    ensures i == |Unexpired(ds0[n].cookies[..k + 1], q.now)|
    ensures var c := ds0[n].cookies[k];
            if Selected(c, q, hostOnly)
            then matching == InsertByPath(matching0, c) && Uses(before) == old(Uses(before))[c := store.useCounter]
            else matching == matching0 && Uses(before) == old(Uses(before))
  {
    assert store.domains[n].cookies == Scanned(ds0[n].cookies, k, q.now);
    ScanStep(ds0[n].cookies, k, q.now);
    var cookie := store.domains[n].cookies[i0];
    i, matching := i0, matching0;
    if cookie.expiresAt < q.now {
      store.Drop(n, cookie);
    } else {
      if CookieMatches(cookie, q, hostOnly) {
        cookie.lastUsed := store.useCounter;
        matching := InsertByPath(matching, cookie);
      }
      i := i + 1;
    }
  }

  lemma MatchingStep(m: seq<CookieData>, s: seq<CookieData>, k: nat, q: Query, hostOnly: bool)
    requires k < |s|
    ensures var r := InsertMatching(m, s[..k], q, hostOnly);
            InsertMatching(m, s[..k + 1], q, hostOnly) == if Selected(s[k], q, hostOnly) then InsertByPath(r, s[k]) else r
  {
    assert s[..k + 1][..k] == s[..k];
  }

  // What holds in the loop when the first k cookies of the node have been looked at.
  ghost predicate ScannedTo(store: CookieStore, n: nat, q: Query, hostOnly: bool, matching0: seq<CookieData>, i: nat, matching: seq<CookieData>,
                            ds0: seq<DomainNode>, k: nat, before: set<CookieData>, uses: map<CookieData, int>)
    requires n < |ds0|
    reads store, before
  {
    match q
    case Query(_, _, now) =>
      var was := ds0[n].cookies;
      && k <= |was| && Consistent(store.all, store.domains)
      && store.domains == WithCookies(ds0, n, Scanned(was, k, now)) && i == |Unexpired(was[..k], now)|
      && matching == InsertMatching(matching0, was[..k], q, hostOnly)
      && Uses(before) == Used(uses, was[..k], q, hostOnly, store.useCounter)
  }

  method ScanNext(store: CookieStore, n: nat, q: Query, hostOnly: bool, ghost matching0: seq<CookieData>, i0: nat, m0: seq<CookieData>,
                  ghost ds0: seq<DomainNode>, ghost k: nat, ghost before: set<CookieData>, ghost uses: map<CookieData, int>)
    returns (i: nat, matching: seq<CookieData>)
    requires n < |ds0| && (forall c :: c in ds0[n].cookies ==> c in before) && uses.Keys == before
    requires ScannedTo(store, n, q, hostOnly, matching0, i0, m0, ds0, k, before, uses)
    requires n < |store.domains| && i0 < |store.domains[n].cookies|
    modifies store`all, store`domains, before
    ensures k < |ds0[n].cookies| && ScannedTo(store, n, q, hostOnly, matching0, i, matching, ds0, k + 1, before, uses)
  {
    MatchingStep(matching0, ds0[n].cookies, k, q, hostOnly);
    UsedStep(uses, ds0[n].cookies, k, q, hostOnly, store.useCounter);
    i, matching := ScanOne(store, n, i0, q, hostOnly, m0, ds0, k, before);
  }

  lemma ScanBegins(store: CookieStore, n: nat, q: Query, hostOnly: bool, matching0: seq<CookieData>)
    requires Consistent(store.all, store.domains) && n < |store.domains|
    ensures ScannedTo(store, n, q, hostOnly, matching0, 0, matching0, store.domains, 0, store.Contents(), Uses(store.Contents()))
    ensures forall c :: c in store.domains[n].cookies ==> c in store.Contents()
  {
    assert Scanned(store.domains[n].cookies, 0, q.now) == store.domains[n].cookies;
  }

  lemma ScanEnds(store: CookieStore, n: nat, q: Query, hostOnly: bool, matching0: seq<CookieData>, i: nat, matching: seq<CookieData>,
                 ds0: seq<DomainNode>, k: nat, before: set<CookieData>, uses: map<CookieData, int>)
    requires n < |ds0| && n < |store.domains| && i >= |store.domains[n].cookies|
    requires ScannedTo(store, n, q, hostOnly, matching0, i, matching, ds0, k, before, uses)
    ensures Consistent(store.all, store.domains) && store.domains == WithCookies(ds0, n, Unexpired(ds0[n].cookies, q.now))
    ensures matching == InsertMatching(matching0, ds0[n].cookies, q, hostOnly)
    ensures Uses(before) == Used(uses, ds0[n].cookies, q, hostOnly, store.useCounter)
  {
    var was := ds0[n].cookies;
    assert store.domains[n].cookies == Scanned(was, k, q.now);
    assert was[..k] == was;
    assert Scanned(was, k, q.now) == Unexpired(was, q.now);
  }

  // The loop.
  method ScanNode(store: CookieStore, n: nat, q: Query, hostOnly: bool, matching0: seq<CookieData>)
    returns (matching: seq<CookieData>)
    requires Consistent(store.all, store.domains) && n < |store.domains|
    modifies store`all, store`domains, store.Contents()
    ensures Consistent(store.all, store.domains)
    ensures store.domains == WithCookies(old(store.domains), n, Unexpired(old(store.domains)[n].cookies, q.now))
    ensures matching == InsertMatching(matching0, old(store.domains)[n].cookies, q, hostOnly)
    ensures Uses(old(store.Contents())) == Used(old(Uses(store.Contents())), old(store.domains)[n].cookies, q, hostOnly, store.useCounter)
  {
    matching := matching0;
    var i: nat := 0;
    ghost var ds0, before, uses, k := store.domains, store.Contents(), Uses(store.Contents()), 0;
    ScanBegins(store, n, q, hostOnly, matching0);
    while i < |store.domains[n].cookies|
      invariant n < |store.domains| && k <= |ds0[n].cookies|
      invariant ScannedTo(store, n, q, hostOnly, matching0, i, matching, ds0, k, before, uses)
      decreases |ds0[n].cookies| - k
    {
      i, matching := ScanNext(store, n, q, hostOnly, matching0, i, matching, ds0, k, before, uses);
      k := k + 1;
    }
    ScanEnds(store, n, q, hostOnly, matching0, i, matching, ds0, k, before, uses);
  }

  // Cookies_add_matching_cookies
  method AddMatching(store: CookieStore, domain: string, q: Query, hostOnly: bool, matching0: seq<CookieData>)
    returns (matching: seq<CookieData>)
    requires store.Valid()
    modifies store`all, store`domains, store.Contents()
    ensures store.Valid()
    ensures store.Contents() == old(store.Contents()) - ExpiredIn(Own(old(store.Contents()), Key(domain)), q.now)
    ensures matching == InsertMatching(matching0, NodeCookies(old(store.domains), Key(domain)), q, hostOnly)
    ensures Uses(old(store.Contents()))
            == Used(old(Uses(store.Contents())), NodeCookies(old(store.domains), Key(domain)), q, hostOnly, store.useCounter)
    ensures KeepsOrder(old(store.domains), store.domains)
  {
    var key := Key(domain);
    if HasNode(store.domains, key) {
      var n := FindNode(store.domains, key).value;
      matching := ScanNode(store, n, q, hostOnly, matching0);
      ScanDone(old(store.all), old(store.domains), n, store.all, q.now);
      ghost var ds := store.domains;
      OrderAfterExpiry(old(store.domains), n, q.now);
      store.DeleteIfEmpty(n);
      OrderIsTransitive(old(store.domains), ds, store.domains, None);
    } else {
      matching := matching0;
      OwnWithoutNode(store.all, store.domains, key);
    }
  }

  // ----- all cookies for a request ---------------------------------------------------------

  ghost predicate DomainDone(done: seq<Lookup>, key: seq<int>) {
    LookedUp(done, key, true) || LookedUp(done, key, false)
  }

  // Expired cookies are removed from the domains that are looked up.
  ghost function Left(s: set<CookieData>, done: seq<Lookup>, now: int): set<CookieData> {
    set c | c in s && !(c.expiresAt < now && DomainDone(done, Key(c.domain)))
  }

  ghost function Marked(uses: map<CookieData, int>, matching: seq<CookieData>, counter: int): map<CookieData, int> {
    map c | c in uses :: if c in matching then counter else uses[c]
  }

  ghost predicate Hits(matching: seq<CookieData>, s: set<CookieData>, done: seq<Lookup>, q: Query) {
    && NoDup(matching) && SortedByPath(matching)
    && (forall c :: c in matching ==> c in s && Sendable(c, q) && LookedUp(done, Key(c.domain), c.hostOnly))
    && (forall c {:trigger c in matching} :: c in s && Sendable(c, q) && LookedUp(done, Key(c.domain), c.hostOnly) ==> c in matching)
  }

  // The place of the first lookup of a domain.
  ghost function Turn(done: seq<Lookup>, c: CookieData): (t: nat)
    ensures t <= |done| && (t < |done| ==> IsLookup(done[t], Key(c.domain), c.hostOnly))
    ensures forall i {:trigger done[i]} :: 0 <= i < t ==> !IsLookup(done[i], Key(c.domain), c.hostOnly)
  {
    if done == [] || IsLookup(done[0], Key(c.domain), c.hostOnly) then 0 else 1 + Turn(done[1..], c)
  }

  // Longer paths come first, then what is found earlier, then what has been added earlier.
  ghost predicate ComesFirst(ds: seq<DomainNode>, done: seq<Lookup>, a: CookieData, b: CookieData) {
    || |a.path| > |b.path|
    || (|a.path| == |b.path| && Turn(done, a) < Turn(done, b))
    || (|a.path| == |b.path| && Turn(done, a) == Turn(done, b) && Before(ds, a, b))
  }

  ghost predicate InOrder(m: seq<CookieData>, ds: seq<DomainNode>, done: seq<Lookup>) {
    forall i, j {:trigger m[i], m[j]} :: 0 <= i < j < |m| ==> ComesFirst(ds, done, m[i], m[j])
  }

  lemma TurnLast(done: seq<Lookup>, l: Lookup, c: CookieData)
    ensures LookedUp(done, Key(c.domain), c.hostOnly) ==> Turn(done + [l], c) == Turn(done, c) < |done|
    ensures !LookedUp(done, Key(c.domain), c.hostOnly) && IsLookup(l, Key(c.domain), c.hostOnly) ==> Turn(done + [l], c) == |done|
  {
    var t, t', next := Turn(done, c), Turn(done + [l], c), done + [l];
    assert next[|done|] == l && forall i {:trigger next[i]} {:trigger done[i]} :: 0 <= i < |done| ==> next[i] == done[i];
    if LookedUp(done, Key(c.domain), c.hostOnly) {
      var x :| x in done && IsLookup(x, Key(c.domain), c.hostOnly);
      var i :| 0 <= i < |done| && done[i] == x;
      assert next[t] == done[t] && (t' < |done| ==> next[t'] == done[t']);
    } else {
      assert forall i {:trigger done[i]} :: 0 <= i < |done| ==> done[i] in done;
    }
  }

  lemma StillInOrder(m: seq<CookieData>, ds: seq<DomainNode>, done: seq<Lookup>, l: Lookup)
    requires InOrder(m, ds, done) && forall c :: c in m ==> LookedUp(done, Key(c.domain), c.hostOnly)
    ensures InOrder(m, ds, done + [l]) && forall c :: c in m ==> Turn(done + [l], c) < |done|
  {
    forall c | c in m ensures Turn(done + [l], c) == Turn(done, c) < |done| {
      TurnLast(done, l, c);
    }
    forall i, j {:trigger m[i], m[j]} | 0 <= i < j < |m| ensures ComesFirst(ds, done + [l], m[i], m[j]) {
      assert m[i] in m && m[j] in m && ComesFirst(ds, done, m[i], m[j]);
    }
  }

  // A cookie that is found after all others gets its place.
  lemma InsertInOrder(m: seq<CookieData>, c: CookieData, ds: seq<DomainNode>, done: seq<Lookup>)
    requires InOrder(m, ds, done)
    requires forall x :: x in m ==> Turn(done, x) < Turn(done, c) || (Turn(done, x) == Turn(done, c) && Before(ds, x, c))
    ensures InOrder(InsertByPath(m, c), ds, done)
  {
    var p, r := PathPlace(m, |c.path|), InsertByPath(m, c);
    forall i, j {:trigger r[i], r[j]} | 0 <= i < j < |r| ensures ComesFirst(ds, done, r[i], r[j]) {
      assert forall k {:trigger r[k]} :: 0 <= k < |r| ==> r[k] == if k < p then m[k] else if k == p then c else m[k - 1];
      if i == p {
        assert m[j - 1] in m;
        PathsAfter(m, p, j - 1, ds, done);
      } else if j == p {
        assert m[i] in m;
      }
    }
  }

  lemma PathsAfter(m: seq<CookieData>, p: nat, j: nat, ds: seq<DomainNode>, done: seq<Lookup>)
    requires InOrder(m, ds, done) && p <= j < |m|
    ensures |m[j].path| <= |m[p].path|
  {
    assert p < j ==> ComesFirst(ds, done, m[p], m[j]);
  }

  // So do the cookies of a node.
  lemma {:induction false} InsertMatchingInOrder(m: seq<CookieData>, s: seq<CookieData>, q: Query, hostOnly: bool,
                                                 ds: seq<DomainNode>, done: seq<Lookup>, turn: nat)
    requires InOrder(m, ds, done) && forall c :: c in m ==> Turn(done, c) < turn
    requires forall c :: c in s && Selected(c, q, hostOnly) ==> Turn(done, c) == turn
    requires forall i, j {:trigger Before(ds, s[i], s[j])} :: 0 <= i < j < |s| ==> Before(ds, s[i], s[j])
    ensures InOrder(InsertMatching(m, s, q, hostOnly), ds, done)
  {
    if s != [] {
      var t, c := s[..|s| - 1], s[|s| - 1];
      assert forall i, j {:trigger Before(ds, t[i], t[j])} :: 0 <= i < j < |t| ==> Before(ds, s[i], s[j]);
      InsertMatchingInOrder(m, t, q, hostOnly, ds, done, turn);
      InsertMatchingElements(m, t, q, hostOnly);
      var rest := InsertMatching(m, t, q, hostOnly);
      if Selected(c, q, hostOnly) {
        forall x | x in rest ensures Turn(done, x) < Turn(done, c) || (Turn(done, x) == Turn(done, c) && Before(ds, x, c)) {
          if x !in m {
            var i :| 0 <= i < |t| && t[i] == x;
            assert Before(ds, s[i], s[|s| - 1]);
          }
        }
        InsertInOrder(rest, c, ds, done);
      }
    }
  }

  // The list of a node at a later time.
  lemma NodeIsInOrder(ds0: seq<DomainNode>, ds: seq<DomainNode>, key: seq<int>)
    requires KeepsOrder(ds0, ds)
    ensures var s := NodeCookies(ds, key); forall i, j {:trigger Before(ds0, s[i], s[j])} :: 0 <= i < j < |s| ==> Before(ds0, s[i], s[j])
  {
    if HasNode(ds, key) {
      var n := FindNode(ds, key).value;
      forall i, j {:trigger Before(ds0, ds[n].cookies[i], ds[n].cookies[j])} | 0 <= i < j < |ds[n].cookies|
        ensures Before(ds0, ds[n].cookies[i], ds[n].cookies[j])
      {
      }
    }
  }

  lemma OrderStep(matching: seq<CookieData>, s: set<CookieData>, done: seq<Lookup>, l: Lookup, q: Query,
                  ds0: seq<DomainNode>, ds: seq<DomainNode>)
    requires Hits(matching, s, done, q) && InOrder(matching, ds0, done) && KeepsOrder(ds0, ds)
    requires !LookedUp(done, Key(l.domain), l.hostOnly)
    requires forall c :: c in NodeCookies(ds, Key(l.domain)) ==> Key(c.domain) == Key(l.domain)
    ensures InOrder(InsertMatching(matching, NodeCookies(ds, Key(l.domain)), q, l.hostOnly), ds0, done + [l])
  {
    var node := NodeCookies(ds, Key(l.domain));
    StillInOrder(matching, ds0, done, l);
    NodeIsInOrder(ds0, ds, Key(l.domain));
    forall c | c in node && Selected(c, q, l.hostOnly) ensures Turn(done + [l], c) == |done| {
      TurnLast(done, l, c);
    }
    InsertMatchingInOrder(matching, node, q, l.hostOnly, ds0, done + [l], |done|);
  }

  lemma NodeCookiesAreOwn(all: seq<CookieData>, ds: seq<DomainNode>, key: seq<int>)
    requires Consistent(all, ds)
    ensures NoDup(NodeCookies(ds, key))
    ensures forall c :: c in NodeCookies(ds, key) <==> c in all && Key(c.domain) == key
  {
    if HasNode(ds, key) {
      var n := FindNode(ds, key).value;
      assert NodeOk(ds[n]);
      forall c ensures c in ds[n].cookies <==> c in all && Key(c.domain) == key {
        HolderIsUnique(all, ds, c, n);
      }
    } else {
      OwnWithoutNode(all, ds, key);
      assert forall c :: c in all ==> c in Elements(all) && c !in Own(Elements(all), key);
    }
  }

  lemma LookedUpLast(done: seq<Lookup>, l: Lookup, key: seq<int>, hostOnly: bool)
    ensures LookedUp(done + [l], key, hostOnly) <==> LookedUp(done, key, hostOnly) || IsLookup(l, key, hostOnly)
  {
    assert forall x :: x in done + [l] <==> x in done || x == l;
  }

  lemma HitsStep(matching: seq<CookieData>, s: set<CookieData>, done: seq<Lookup>, l: Lookup, q: Query, node: seq<CookieData>)
    requires Hits(matching, s, done, q) && !LookedUp(done, Key(l.domain), l.hostOnly) && NoDup(node)
    requires forall c :: c in node <==> c in Left(s, done, q.now) && Key(c.domain) == Key(l.domain)
    ensures Hits(InsertMatching(matching, node, q, l.hostOnly), s, done + [l], q)
  {
    var r := InsertMatching(matching, node, q, l.hostOnly);
    InsertMatchingElements(matching, node, q, l.hostOnly);
    assert NoneSelected(matching, node, q, l.hostOnly);
    InsertMatchingSorted(matching, node, q, l.hostOnly);
    forall c | c in r ensures c in s && Sendable(c, q) && LookedUp(done + [l], Key(c.domain), c.hostOnly) {
      LookedUpLast(done, l, Key(c.domain), c.hostOnly);
      assert c in matching || (c in node && Selected(c, q, l.hostOnly));
    }
    forall c | c in s && Sendable(c, q) && LookedUp(done + [l], Key(c.domain), c.hostOnly) ensures c in r {
      LookedUpLast(done, l, Key(c.domain), c.hostOnly);
    }
  }

  lemma LeftStep(s: set<CookieData>, done: seq<Lookup>, l: Lookup, now: int)
    ensures Left(s, done + [l], now) == Left(s, done, now) - ExpiredIn(Own(Left(s, done, now), Key(l.domain)), now)
  {
    forall c | c in s ensures DomainDone(done + [l], Key(c.domain)) <==> DomainDone(done, Key(c.domain)) || Key(c.domain) == Key(l.domain) {
      LookedUpLast(done, l, Key(c.domain), true);
      LookedUpLast(done, l, Key(c.domain), false);
    }
  }

  lemma MarkedStep(uses: map<CookieData, int>, matching: seq<CookieData>, node: seq<CookieData>, q: Query, hostOnly: bool, counter: int)
    ensures Used(Marked(uses, matching, counter), node, q, hostOnly, counter)
            == Marked(uses, InsertMatching(matching, node, q, hostOnly), counter)
  {
    InsertMatchingElements(matching, node, q, hostOnly);
  }

  // All lookups so far were for longer domains.
  ghost predicate LongerThan(done: seq<Lookup>, len: int) {
    forall l :: l in done ==> |l.domain| > len
  }

  lemma LongerIsOther(done: seq<Lookup>, domain: string, hostOnly: bool)
    requires LongerThan(done, |domain|)
    ensures !LookedUp(done, Key(domain), hostOnly)
  {
    assert forall l :: l in done && IsLookup(l, Key(domain), hostOnly) ==> |Key(l.domain)| == |Key(domain)|;
  }

  lemma FirstThreeDiffer(host: string)
    ensures !LookedUp([Lookup("." + host, false)], Key(host), true)
    ensures !LookedUp([Lookup("." + host, false), Lookup(host, true)], Key(host), false)
    ensures !LookedUp([Lookup(host, true)], Key(host), false)
  {
    assert |Key("." + host)| != |Key(host)|;
  }

  // State between two lookups.
  ghost predicate LookedSoFar(store: CookieStore, matching: seq<CookieData>, s: set<CookieData>, uses: map<CookieData, int>,
                              ds: seq<DomainNode>, done: seq<Lookup>, q: Query)
    reads store, s
  {
    match q
    case Query(_, _, now) =>
      && store.Valid() && store.Contents() == Left(s, done, now) && Hits(matching, s, done, q)
      && Uses(s) == Marked(uses, matching, store.useCounter)
      && KeepsOrder(ds, store.domains) && InOrder(matching, ds, done)
  }

  // One lookup of Cookies_get.
  method Look(store: CookieStore, domain: string, hostOnly: bool, q: Query, matching0: seq<CookieData>,
              ghost s: set<CookieData>, ghost uses: map<CookieData, int>, ghost ds: seq<DomainNode>, ghost done: seq<Lookup>)
    returns (matching: seq<CookieData>)
    requires LookedSoFar(store, matching0, s, uses, ds, done, q)
    requires !LookedUp(done, Key(domain), hostOnly)
    modifies store`all, store`domains, s
    ensures LookedSoFar(store, matching, s, uses, ds, done + [Lookup(domain, hostOnly)], q)
  {
    var l := Lookup(domain, hostOnly);
    ghost var node := NodeCookies(store.domains, Key(domain));
    NodeCookiesAreOwn(store.all, store.domains, Key(domain));
    assert forall c :: c in store.all <==> c in store.Contents();
    HitsStep(matching0, s, done, l, q, node);
    OrderStep(matching0, s, done, l, q, ds, store.domains);
    LeftStep(s, done, l, q.now);
    MarkedStep(uses, matching0, node, q, hostOnly, store.useCounter);
    ghost var ds1 := store.domains;
    matching := AddMatching(store, domain, q, hostOnly, matching0);
    OrderIsTransitive(ds, ds1, store.domains, None);
    assert Uses(s) == Used(old(Uses(s)), node, q, hostOnly, store.useCounter) by {
      forall c | c in s ensures c.lastUsed == if c in node && Selected(c, q, hostOnly) then store.useCounter else old(c.lastUsed) {
        assert c in old(store.Contents()) ==> c.lastUsed == Uses(old(store.Contents()))[c];
      }
    }
  }

  // The lookups for a suffix with and without its dot.
  function BothLookups(host: string, p: nat): seq<Lookup>
    requires p < |host|
  {
    [Lookup(host[p..], false)] + if p + 1 < |host| then [Lookup(host[p + 1..], false)] else []
  }

  function AfterBoth(host: string, p: nat): nat
    requires p < |host|
  {
    NextDot(host, if p + 1 < |host| then p + 2 else p + 1)
  }

  lemma BothLookedUp(host: string, p: nat, done: seq<Lookup>)
    requires p < |host| && LongerThan(done, |host| - p)
    ensures LongerThan(done + BothLookups(host, p), |host| - AfterBoth(host, p))
    ensures done + BothLookups(host, p) + SuffixLookups(host, AfterBoth(host, p)) == done + SuffixLookups(host, p)
  {
    BothAreLonger(host, p, done);
    BothAreFirst(host, p);
    var both, rest := BothLookups(host, p), SuffixLookups(host, AfterBoth(host, p));
    assert done + both + rest == done + (both + rest);
  }

  lemma BothAreLonger(host: string, p: nat, done: seq<Lookup>)
    requires p < |host| && LongerThan(done, |host| - p)
    ensures LongerThan(done + BothLookups(host, p), |host| - AfterBoth(host, p))
  {
    forall l | l in done + BothLookups(host, p) ensures |l.domain| > |host| - AfterBoth(host, p) {
      assert l in done || l in BothLookups(host, p);
    }
  }

  lemma BothAreFirst(host: string, p: nat)
    requires p < |host|
    ensures SuffixLookups(host, p) == BothLookups(host, p) + SuffixLookups(host, AfterBoth(host, p))
  {
    if p + 1 == |host| {
      assert SuffixLookups(host, AfterBoth(host, p)) == [];
    } else {
      assert [Lookup(host[p..], false), Lookup(host[p + 1..], false)] == BothLookups(host, p);
    }
  }

  method LookBoth(store: CookieStore, host: string, p: nat, q: Query, matching0: seq<CookieData>,
                  ghost s: set<CookieData>, ghost uses: map<CookieData, int>, ghost ds: seq<DomainNode>, ghost done: seq<Lookup>)
    returns (matching: seq<CookieData>)
    requires 0 < p < |host| && LongerThan(done, |host| - p)
    requires LookedSoFar(store, matching0, s, uses, ds, done, q)
    modifies store`all, store`domains, s
    ensures LookedSoFar(store, matching, s, uses, ds, done + BothLookups(host, p), q)
  {
    LongerIsOther(done, host[p..], false);
    matching := Look(store, host[p..], false, q, matching0, s, uses, ds, done);
    ghost var next := done + [Lookup(host[p..], false)];
    if p + 1 < |host| {
      LongerIsOther(next, host[p + 1..], false);
      matching := Look(store, host[p + 1..], false, q, matching, s, uses, ds, next);
      assert next + [Lookup(host[p + 1..], false)] == done + BothLookups(host, p);
    } else {
      assert next == done + BothLookups(host, p);
    }
  }

  // The lookups for the suffixes of a host.
  method CollectSuffixes(store: CookieStore, host: string, q: Query, matching0: seq<CookieData>,
                         ghost s: set<CookieData>, ghost uses: map<CookieData, int>, ghost ds: seq<DomainNode>, ghost done0: seq<Lookup>)
    returns (matching: seq<CookieData>)
    requires host != "" && LongerThan(done0, |host| - 1) && LookedSoFar(store, matching0, s, uses, ds, done0, q)
    modifies store`all, store`domains, s
    ensures LookedSoFar(store, matching, s, uses, ds, done0 + SuffixLookups(host, NextDot(host, 1)), q)
  {
    var p := NextDot(host, 1);
    matching := matching0;
    ghost var done := done0;
    while p < |host|
      invariant 0 < p <= |host| && (p < |host| ==> host[p] == '.') && LongerThan(done, |host| - p)
      invariant done + SuffixLookups(host, p) == done0 + SuffixLookups(host, NextDot(host, 1))
      invariant LookedSoFar(store, matching, s, uses, ds, done, q)
    {
      BothLookedUp(host, p, done);
      matching := LookBoth(store, host, p, q, matching, s, uses, ds, done);
      done := done + BothLookups(host, p);
      p := AfterBoth(host, p);
    }
    assert done + [] == done;
  }

  // The lookups for the host itself.
  method CollectHost(store: CookieStore, host: string, q: Query, matching0: seq<CookieData>,
                     ghost s: set<CookieData>, ghost uses: map<CookieData, int>, ghost ds: seq<DomainNode>, ghost done: seq<Lookup>)
    returns (matching: seq<CookieData>)
    requires done == [] || done == [Lookup("." + host, false)]
    requires LookedSoFar(store, matching0, s, uses, ds, done, q)
    modifies store`all, store`domains, s
    ensures LookedSoFar(store, matching, s, uses, ds, done + [Lookup(host, true), Lookup(host, false)], q)
  {
    FirstThreeDiffer(host);
    matching := Look(store, host, true, q, matching0, s, uses, ds, done);
    assert done + [Lookup(host, true)] + [Lookup(host, false)] == done + [Lookup(host, true), Lookup(host, false)];
    matching := Look(store, host, false, q, matching, s, uses, ds, done + [Lookup(host, true)]);
  }

  lemma LookupsInTurn(host: string, dot: seq<Lookup>, own: seq<Lookup>)
    requires !IsIp(host) && dot == [Lookup("." + host, false)] && own == [Lookup(host, true), Lookup(host, false)]
    ensures dot + own + SuffixLookups(host, NextDot(host, 1)) == Lookups(host)
    ensures host != "" && LongerThan(dot + own, |host| - 1)
  {
    assert dot + own == [Lookup("." + host, false), Lookup(host, true), Lookup(host, false)];
  }

  method CollectDomains(store: CookieStore, host: string, q: Query, ghost s: set<CookieData>, ghost uses: map<CookieData, int>, ghost ds: seq<DomainNode>)
    returns (matching: seq<CookieData>)
    requires !IsIp(host) && LookedSoFar(store, [], s, uses, ds, [], q)
    modifies store`all, store`domains, s
    ensures LookedSoFar(store, matching, s, uses, ds, Lookups(host), q)
  {
    ghost var dot, own := [Lookup("." + host, false)], [Lookup(host, true), Lookup(host, false)];
    matching := Look(store, "." + host, false, q, [], s, uses, ds, []);
    assert [] + dot == dot;
    matching := CollectHost(store, host, q, matching, s, uses, ds, dot);
    LookupsInTurn(host, dot, own);
    matching := CollectSuffixes(store, host, q, matching, s, uses, ds, dot + own);
  }

  method Collect(store: CookieStore, host: string, q: Query, ghost s: set<CookieData>, ghost uses: map<CookieData, int>, ghost ds: seq<DomainNode>)
    returns (matching: seq<CookieData>)
    requires LookedSoFar(store, [], s, uses, ds, [], q)
    modifies store`all, store`domains, s
    ensures LookedSoFar(store, matching, s, uses, ds, Lookups(host), q)
  {
    matching := [];
    if IsIp(host) {
      matching := CollectHost(store, host, q, matching, s, uses, ds, []);
      assert [] + [Lookup(host, true), Lookup(host, false)] == Lookups(host);
    } else {
      matching := CollectDomains(store, host, q, s, uses, ds);
    }
  }

  // Cookies_get without the text of the header.
  method Get(store: CookieStore, host: string, path: Option<string>, isTls: bool, now: int) returns (matching: seq<CookieData>)
    requires store.Valid()
    modifies store, store.Contents()
    ensures store.Valid() && store.Contents() == Left(old(store.Contents()), Lookups(host), now)
    ensures Hits(matching, old(store.Contents()), Lookups(host), Query(path, isTls, now))
    ensures InOrder(matching, old(store.domains), Lookups(host)) && KeepsOrder(old(store.domains), store.domains)
    ensures Uses(old(store.Contents())) == Marked(old(Uses(store.Contents())), matching, old(store.useCounter))
    ensures forall c :: c in old(store.Contents()) ==> c.lastUsed == if c in matching then old(store.useCounter) else old(c.lastUsed)
    ensures store.useCounter == old(store.useCounter) + if matching != [] then 1 else 0
  {
    var q := Query(path, isTls, now);
    assert Left(store.Contents(), [], now) == store.Contents();
    StaysInOrder(store.domains, None);
    matching := Collect(store, host, q, store.Contents(), Uses(store.Contents()), store.domains);
    assert forall c :: c in old(store.Contents()) ==> c.lastUsed == Uses(old(store.Contents()))[c];
    if matching != [] {
      store.useCounter := store.useCounter + 1;
    }
  }

  // ----- the result as a filter ---------------------------------------------------------------

  // RFC 6265, section 5.4: a host-only cookie needs the same host, another one a matching domain.
  predicate SentTo(c: CookieData, host: string) {
    if c.hostOnly then Key(c.domain) == Key(host) else DomainMatches(host, c.domain)
  }

  // Such a cookie is not found, although it should be.
  predicate Missed(c: CookieData, host: string) {
    !c.hostOnly && DomainMatches(host, c.domain) && IsMissed(host, c.domain)
  }

  // Such a cookie is found, although it should not be.
  predicate Extra(c: CookieData, host: string) {
    !c.hostOnly && IsExtra(host, c.domain)
  }

  lemma Digits(c: char)
    ensures c in "0123456789." <==> '0' <= c <= '9' || c == '.'
  {
  }

  lemma HexDigits(c: char)
    ensures c in "0123456789abcdefABCDEF:." <==> '0' <= c <= ':' || 'a' <= c <= 'f' || 'A' <= c <= 'F' || c == '.'
  {
  }

  // A host looks like an IP address if it consists of digits and dots, or has a colon and
  // consists of hexadecimal digits, colons and dots.
  lemma WhenIp(s: string)
    ensures IsIp(s) <==>
              || (forall i {:trigger s[i]} :: 0 <= i < |s| ==> '0' <= s[i] <= '9' || s[i] == '.')
              || ((exists i {:trigger s[i]} :: 0 <= i < |s| && s[i] == ':')
                  && forall i {:trigger s[i]} :: 0 <= i < |s| ==>
                       '0' <= s[i] <= '9' || 'a' <= s[i] <= 'f' || 'A' <= s[i] <= 'F' || s[i] == ':' || s[i] == '.')
  {
    forall i {:trigger s[i]} | 0 <= i < |s|
      ensures s[i] in "0123456789." <==> '0' <= s[i] <= '9' || s[i] == '.'
      ensures s[i] in "0123456789abcdefABCDEF:."
              <==> '0' <= s[i] <= '9' || 'a' <= s[i] <= 'f' || 'A' <= s[i] <= 'F' || s[i] == ':' || s[i] == '.'
    {
      Digits(s[i]);
      HexDigits(s[i]);
    }
  }

  lemma IpCharByKey(c: char, d: char)
    requires LowerCode(c) == LowerCode(d)
    ensures c in "0123456789." <==> d in "0123456789."
    ensures c in "0123456789abcdefABCDEF:." <==> d in "0123456789abcdefABCDEF:."
    ensures c == ':' <==> d == ':'
  {
    Digits(c);
    Digits(d);
    HexDigits(c);
    HexDigits(d);
  }

  lemma IpByKey(a: string, b: string)
    requires Key(a) == Key(b) && IsIp(a)
    ensures IsIp(b)
  {
    forall i | 0 <= i < |b|
      ensures a[i] in "0123456789." <==> b[i] in "0123456789."
      ensures a[i] in "0123456789abcdefABCDEF:." <==> b[i] in "0123456789abcdefABCDEF:."
      ensures a[i] == ':' <==> b[i] == ':'
    {
      assert Key(a)[i] == Key(b)[i];
      IpCharByKey(a[i], b[i]);
    }
  }

  lemma ExtraDoesNotMatch(host: string, domain: string)
    requires IsExtra(host, domain)
    ensures !DomainMatches(host, domain)
  {
    if IsIp(host) && host != "" {
      IpByKey(host, domain);
      KeyOfDot(domain, 0);
      KeyOfDot(host, 0);
      assert ':' in domain ==> ':' in domain[1..];
    }
  }

  // What Get collects is what a filter over all cookies would collect, if and only if no cookie
  // that may be sent is missed or extra.
  lemma GetIsFilter(matching: seq<CookieData>, s: set<CookieData>, host: string, q: Query)
    requires Hits(matching, s, Lookups(host), q)
    ensures forall c :: c in s ==> (c in matching <==> Sendable(c, q) && ((SentTo(c, host) && !Missed(c, host)) || Extra(c, host)))
    ensures (forall c :: c in s ==> (c in matching <==> Sendable(c, q) && SentTo(c, host)))
            <==> forall c :: c in s && Sendable(c, q) ==> !Missed(c, host) && !Extra(c, host)
  {
    forall c | c in s
      ensures c in matching <==> Sendable(c, q) && ((SentTo(c, host) && !Missed(c, host)) || Extra(c, host))
      ensures Extra(c, host) ==> !SentTo(c, host)
    {
      LookupsAreMatches(host, c.domain);
      if Extra(c, host) {
        ExtraDoesNotMatch(host, c.domain);
      }
    }
  }

  // A cookie is collected if and only if it has not expired, is not a secure one without TLS, its
  // path is that of the request or one above it, and the host has set it for itself or is found.
  lemma WhoIsSent(matching: seq<CookieData>, s: set<CookieData>, host: string, q: Query, c: CookieData)
    requires Hits(matching, s, Lookups(host), q) && c in s
    ensures c in matching <==>
              && c.expiresAt >= q.now && (c.secure ==> q.isTls) && q.path.Some?
              && (if c.path == "" || c.path[|c.path| - 1] != '/' then Segments(c.path) <= Segments(q.path.value)
                  else Segments(c.path[..|c.path| - 1]) < Segments(q.path.value))
              && (if c.hostOnly then Key(c.domain) == Key(host)
                  else (DomainMatches(host, c.domain) && !IsMissed(host, c.domain)) || IsExtra(host, c.domain))
  {
    GetIsFilter(matching, s, host, q);
    PathMatchesIs(q.path, c.path);
  }

  // Of two cookies that are found, one comes first.
  lemma OneComesFirst(all: seq<CookieData>, ds: seq<DomainNode>, done: seq<Lookup>, a: CookieData, b: CookieData)
    requires Consistent(all, ds) && a in all && b in all && a != b
    requires LookedUp(done, Key(a.domain), a.hostOnly) && LookedUp(done, Key(b.domain), b.hostOnly)
    ensures ComesFirst(ds, done, a, b) <==> !ComesFirst(ds, done, b, a)
  {
    TurnLast(done, Lookup("", false), a);
    TurnLast(done, Lookup("", false), b);
    if Turn(done, a) == Turn(done, b) {
      assert InNodes(ds, a);
      var n :| 0 <= n < |ds| && a in ds[n].cookies;
      HolderIsUnique(all, ds, a, n);
      HolderIsUnique(all, ds, b, n);
      OneIsBefore(all, ds, n, a, b);
    }
  }

  lemma OneIsBefore(all: seq<CookieData>, ds: seq<DomainNode>, n: nat, a: CookieData, b: CookieData)
    requires Consistent(all, ds) && n < |ds| && a in ds[n].cookies && b in ds[n].cookies && a != b
    ensures Before(ds, a, b) <==> !Before(ds, b, a)
  {
    var i, j := IndexOf(ds[n].cookies, a), IndexOf(ds[n].cookies, b);
    assert ds[n].cookies[i] == a && ds[n].cookies[j] == b;
    assert i < j ==> Before(ds, a, b);
    assert j < i ==> Before(ds, b, a);
    BeforeInNode(all, ds, n, a, b);
    BeforeInNode(all, ds, n, b, a);
  }

  lemma BeforeInNode(all: seq<CookieData>, ds: seq<DomainNode>, n: nat, a: CookieData, b: CookieData)
    requires Consistent(all, ds) && n < |ds| && a in ds[n].cookies && b in ds[n].cookies
    ensures Before(ds, a, b) ==> IndexOf(ds[n].cookies, a) < IndexOf(ds[n].cookies, b)
  {
    if Before(ds, a, b) {
      var k, i, j :| 0 <= k < |ds| && 0 <= i < j < |ds[k].cookies| && ds[k].cookies[i] == a && ds[k].cookies[j] == b;
      HolderIsUnique(all, ds, a, n);
      HolderIsUnique(all, ds, a, k);
      NodeByKey(ds, n, k);
      assert NodeOk(ds[n]);
      assert ds[n].cookies[IndexOf(ds[n].cookies, a)] == a && ds[n].cookies[IndexOf(ds[n].cookies, b)] == b;
    }
  }

  // So there is one answer only.
  lemma AnswerIsUnique(m: seq<CookieData>, m': seq<CookieData>, all: seq<CookieData>, ds: seq<DomainNode>, done: seq<Lookup>, q: Query)
    requires Consistent(all, ds)
    requires Hits(m, Elements(all), done, q) && InOrder(m, ds, done)
    requires Hits(m', Elements(all), done, q) && InOrder(m', ds, done)
    ensures m == m'
  {
    assert forall c {:trigger c in m} {:trigger c in m'} :: c in m <==> c in m';
    SameOrder(m, m', all, ds, done);
  }

  lemma FirstComesFirst(m: seq<CookieData>, c: CookieData, ds: seq<DomainNode>, done: seq<Lookup>)
    requires c in m && InOrder(m, ds, done)
    ensures c == m[0] || ComesFirst(ds, done, m[0], c)
  {
    var i :| 0 <= i < |m| && m[i] == c;
    assert i > 0 ==> ComesFirst(ds, done, m[0], m[i]);
  }

  lemma HasFirst(m: seq<CookieData>)
    ensures m == [] || m[0] in m
  {
  }

  lemma {:induction false} SameOrder(m: seq<CookieData>, m': seq<CookieData>, all: seq<CookieData>, ds: seq<DomainNode>, done: seq<Lookup>)
    requires Consistent(all, ds) && NoDup(m) && NoDup(m') && InOrder(m, ds, done) && InOrder(m', ds, done)
    requires forall c {:trigger c in m} {:trigger c in m'} :: c in m <==> c in m'
    requires forall c :: c in m ==> c in all && LookedUp(done, Key(c.domain), c.hostOnly)
    ensures m == m'
  {
    HasFirst(m);
    HasFirst(m');
    if m != [] {
      var a, b := m[0], m'[0];
      FirstComesFirst(m, b, ds, done);
      FirstComesFirst(m', a, ds, done);
      if a != b {
        OneComesFirst(all, ds, done, a, b);
      }
      assert a == b && m == [a] + m[1..] && m' == [a] + m'[1..];
      forall c ensures c in m[1..] <==> c in m'[1..] {
        assert c in m[1..] <==> c in m && c != a;
        assert c in m'[1..] <==> c in m' && c != a;
      }
      SameOrder(m[1..], m'[1..], all, ds, done);
    }
  }

  // But perhaps the last one.
  ghost predicate NoEmptyLabel(host: string) {
    && host != "" && host[0] != '.'
    && forall i {:trigger host[i]} :: 0 < i < |host| && host[i] == '.' ==> host[i - 1] != '.'
  }

  // In a host with proper labels every dot is tried, so that no domain is missed.
  lemma NothingMissed(host: string, domain: string)
    requires NoEmptyLabel(host) && !IsIp(host) && DomainMatches(host, domain)
    ensures !IsMissed(host, domain)
  {
    if domain[0] != '.' && Key(domain) != Key(host) {
      var d := DotBefore(host, domain);
      assert !IsTried(host, d - 1);
    }
  }

  // For a host like an IP address, a domain that looks like one and matches is looked up if and
  // only if it is written without a leading dot.
  lemma IpNeedsNoDot(host: string, domain: string)
    requires IsIp(host) && host != "" && host[0] != '.' && DomainMatches(host, domain) && IsIp(Stripped(domain))
    ensures LookedUp(Lookups(host), Key(domain), false) <==> domain[0] != '.'
  {
    LookupsAreMatches(host, domain);
    KeyOfDot(domain, 0);
    KeyOfDot(host, 0);
  }

  lemma IpSuffixExample()
    ensures var host, domain := "a.3.4", "3.4";
            LookedUp(Lookups(host), Key(domain), false) && !DomainMatches(host, domain)
  {
    var host, domain := "a.3.4", "3.4";
    assert !IsIp(host) by {
      assert host[0] == 'a' && 'a' !in "0123456789." && ':' !in host;
    }
    assert IsExtra(host, domain) by {
      assert IsIp(domain) && host[2..] == domain && IsTried(host, 1);
    }
    LookupsAreMatches(host, domain);
    ExtraDoesNotMatch(host, domain);
  }

  lemma IpHostExample()
    ensures var host, domain := "1.2.3.4", ".1.2.3.4";
            DomainMatches(host, domain) && !LookedUp(Lookups(host), Key(domain), false)
  {
    var host, domain := "1.2.3.4", ".1.2.3.4";
    assert domain[1..] == host;
    LookupsAreMatches(host, domain);
    assert |Key(host)| != |Key(domain)|;
  }

  lemma EmptyLabelExample()
    ensures var host, domain := "a..b", "b";
            DomainMatches(host, domain) && !LookedUp(Lookups(host), Key(domain), false)
  {
    var host, domain := "a..b", "b";
    assert host[0] == 'a' && 'a' !in "0123456789." && domain[0] == 'b' && 'b' !in "0123456789." && ':' !in host && ':' !in domain;
    assert host[|host| - |domain|..] == domain;
    assert !IsTried(host, 0) && IsTried(host, 1) && !IsTried(host, 2);
    LookupsAreMatches(host, domain);
    assert |Key(host)| != |Key(domain)|;
  }
}
