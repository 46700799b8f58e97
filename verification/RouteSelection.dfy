/** The DNS endpoint of a Route hostname: which Gateway, or which merged Gateways, it points to. */
module RouteSelection {
  import opened Common
  import opened Ordering
  import opened GatewayIpCache

  // ---- Specificity of host names ----

  function CountDots(h: string): nat {
    if h == [] then 0 else CountDots(h[..|h| - 1]) + if h[|h| - 1] == '.' then 1 else 0
  }

  /** hostnameSpecificityRank */
  function Rank(h: string): int {
    if h == "" then -1
    else (CountDots(h) + 1) * 4 - if "*." <= h then 2 else 0
  }

  /** HostnameMoreSpecific */
  predicate MoreSpecific(a: string, b: string) {
    a != b && if Rank(a) != Rank(b) then Rank(a) > Rank(b) else StringLess(a, b)
  }

  lemma {:induction false} CountDotsMeaning(h: string)
    ensures CountDots(h) == multiset(h)['.']
  {
    if h != [] {
      CountDotsMeaning(h[..|h| - 1]);
      assert h == h[..|h| - 1] + [h[|h| - 1]];
    }
  }

  /** More dots win, then the name without a wildcard, then the alphabet; the empty name loses to all others. */
  lemma MoreSpecificExactly(a: string, b: string)
    ensures a != "" && b != "" ==>
              (MoreSpecific(a, b)
               <==> || multiset(a)['.'] > multiset(b)['.']
                    || (multiset(a)['.'] == multiset(b)['.']
                        && ((!("*." <= a) && "*." <= b) || (("*." <= a <==> "*." <= b) && StringLess(a, b)))))
    ensures a == "" || b == "" ==> (MoreSpecific(a, b) <==> a != "")
  {
    CountDotsMeaning(a);
    CountDotsMeaning(b);
    StringLessTotal(a, b);
  }

  /** No two names tie. */
  lemma SpecificityOrder()
    ensures StrictTotal(MoreSpecific)
  {
    StringOrder();
  }

  // ---- Targets ----

  /** unicode.IsSpace */
  predicate IsSpace(c: char) {
    || c == ' ' || '\t' <= c <= '\r' || c == '\U{0085}' || c == '\U{00a0}' || c == '\U{1680}'
    || '\U{2000}' <= c <= '\U{200a}' || c == '\U{2028}' || c == '\U{2029}' || c == '\U{202f}'
    || c == '\U{205f}' || c == '\U{3000}'
  }

  /** The characters with the property White_Space of Unicode. */
  const WHITE_SPACE: set<char> := {
    '\U{0009}', '\U{000a}', '\U{000b}', '\U{000c}', '\U{000d}', '\U{0020}', '\U{0085}', '\U{00a0}', '\U{1680}',
    '\U{2000}', '\U{2001}', '\U{2002}', '\U{2003}', '\U{2004}', '\U{2005}', '\U{2006}', '\U{2007}', '\U{2008}',
    '\U{2009}', '\U{200a}', '\U{2028}', '\U{2029}', '\U{202f}', '\U{205f}', '\U{3000}'}

  lemma SpaceExactly(c: char)
    ensures IsSpace(c) <==> c in WHITE_SPACE
  {
    assert c as int < 0x80 ==> (IsSpace(c) <==> c in WHITE_SPACE);
  }

  function TrimLeft(s: string): string {
    if s != [] && IsSpace(s[0]) then TrimLeft(s[1..]) else s
  }

  function TrimEnd(s: string): string {
    if s != [] && IsSpace(s[|s| - 1]) then TrimEnd(s[..|s| - 1]) else s
  }

  /** strings.TrimSpace */
  function Trim(s: string): string {
    TrimEnd(TrimLeft(s))
  }

  lemma {:induction false} TrimTwice(s: string)
    ensures Trim(Trim(s)) == Trim(s)
  {
    var t := TrimLeft(s);
    TrimLeftStart(s);
    TrimEndKeepsStart(t);
    TrimEndStop(t);
  }

  lemma {:induction false} TrimLeftStart(s: string)
    ensures TrimLeft(s) != [] ==> !IsSpace(TrimLeft(s)[0])
  {
    if s != [] && IsSpace(s[0]) {
      TrimLeftStart(s[1..]);
    }
  }

  lemma {:induction false} TrimEndKeepsStart(s: string)
    ensures |TrimEnd(s)| <= |s| && TrimEnd(s) == s[..|TrimEnd(s)|]
  {
    if s != [] && IsSpace(s[|s| - 1]) {
      TrimEndKeepsStart(s[..|s| - 1]);
    }
  }

  lemma {:induction false} TrimEndStop(s: string)
    ensures TrimEnd(TrimEnd(s)) == TrimEnd(s)
  {
    if s != [] && IsSpace(s[|s| - 1]) {
      TrimEndStop(s[..|s| - 1]);
    }
  }

  /** The trimmed targets, without empty ones, each once, in the order of their first appearance. */
  function Unique(ts: seq<string>): seq<string> {
    if ts == [] then []
    else
      var before, t := Unique(ts[..|ts| - 1]), Trim(ts[|ts| - 1]);
      if t == "" || t in before then before else before + [t]
  }

  predicate Offers(ts: seq<string>, x: string) {
    x != "" && exists i :: 0 <= i < |ts| && Trim(ts[i]) == x
  }

  lemma {:induction false} UniqueElements(ts: seq<string>, x: string)
    ensures x in Unique(ts) <==> Offers(ts, x)
    ensures Distinct(Unique(ts))
  {
    if ts != [] {
      var n := |ts| - 1;
      UniqueElements(ts[..n], x);
      UniqueElements(ts[..n], Trim(ts[n]));
      if Offers(ts[..n], x) {
        var i :| 0 <= i < n && Trim(ts[..n][i]) == x;
        assert Trim(ts[i]) == x;
      }
      if Offers(ts, x) && Trim(ts[n]) != x {
        var i :| 0 <= i < |ts| && Trim(ts[i]) == x;
        assert Trim(ts[..n][i]) == x;
      }
    }
  }

  /** endpoint.NewTargets */
  function NewTargets(ts: seq<string>): seq<string> {
    SortBy(StringLess, Unique(ts))
  }

  method MakeTargets(ts: seq<string>) returns (r: seq<string>)
    ensures r == NewTargets(ts)
  {
    var seen: set<string> := {};
    var out: seq<string> := [];
    for i := 0 to |ts|
      invariant out == Unique(ts[..i]) && seen == Elements(out)
    {
      assert ts[..i + 1][..i] == ts[..i];
      var t := Trim(ts[i]);
      if t == "" {
        continue;
      }
      if t in seen {
        continue;
      }
      seen := seen + {t};
      out := out + [t];
    }
    assert ts[..|ts|] == ts;
    r := SortBy(StringLess, out);
  }

  /** Sorted, without repetitions, and exactly the offered targets. */
  lemma NewTargetsMeaning(ts: seq<string>)
    ensures SortedBy(StringLess, NewTargets(ts)) && Distinct(NewTargets(ts))
    ensures forall x :: x in NewTargets(ts) <==> Offers(ts, x)
  {
    StringOrder();
    SortByCorrect(StringLess, Unique(ts));
    UniqueElements(ts, "");
    SameElements(Unique(ts), NewTargets(ts));
    forall x
      ensures x in NewTargets(ts) <==> Offers(ts, x)
    {
      UniqueElements(ts, x);
    }
  }

  // ---- Matches ----

  /** A parent of the Route: accepted or not, the Gateway it resolves to, the addresses cached for
    * that Gateway, and the filter that matches the host name best. */
  datatype Parent = Parent(accepted: bool, gateway: Option<NamespacedName>, filter: Option<string>)

  datatype Match = Match(nn: NamespacedName, filter: string, ips: seq<string>)

  type IpCache = map<NamespacedName, seq<string>>

  function MatchOf(cache: IpCache, p: Parent): Option<Match> {
    if p.accepted && p.gateway.Some? && p.gateway.value in cache && cache[p.gateway.value] != [] && p.filter.Some?
    then Some(Match(p.gateway.value, p.filter.value, cache[p.gateway.value]))
    else None
  }

  function Matches(cache: IpCache, ps: seq<Parent>): seq<Match> {
    if ps == [] then []
    else
      var before, m := Matches(cache, ps[..|ps| - 1]), MatchOf(cache, ps[|ps| - 1]);
      if m.Some? then before + [m.value] else before
  }

  /** The first loop of buildRouteDNSEndpointsForHostname. */
  method CollectMatches(cache: IpCache, ps: seq<Parent>) returns (matches: seq<Match>)
    ensures matches == Matches(cache, ps)
  {
    matches := [];
    for i := 0 to |ps|
      invariant matches == Matches(cache, ps[..i])
    {
      assert ps[..i + 1][..i] == ps[..i];
      if !ps[i].accepted {
        continue;
      }
      if ps[i].gateway.None? {
        continue;
      }
      var gw := ps[i].gateway.value;
      if gw !in cache || |cache[gw]| == 0 {
        continue;
      }
      if ps[i].filter.None? {
        continue;
      }
      matches := matches + [Match(gw, ps[i].filter.value, cache[gw])];
    }
    assert ps[..|ps|] == ps;
  }

  // ---- The choice ----

  /** What one turn of the loop over the matches prefers. */
  predicate Better(m: Match, best: Match) {
    MoreSpecific(m.filter, best.filter)
    || (!MoreSpecific(best.filter, m.filter) && StringLess(Key(m.nn), Key(best.nn)))
  }

  function Best(ms: seq<Match>): Match
    requires ms != []
  {
    if |ms| == 1 then ms[0]
    else if Better(ms[|ms| - 1], Best(ms[..|ms| - 1])) then ms[|ms| - 1]
    else Best(ms[..|ms| - 1])
  }

  predicate AllSame(ms: seq<Match>)
    requires ms != []
  {
    forall m :: m in ms ==> m.filter == ms[0].filter
  }

  function Union(ms: seq<Match>): seq<string>
    requires ms != []
  {
    if |ms| == 1 then ms[0].ips else NewTargets(Union(ms[..|ms| - 1]) + ms[|ms| - 1].ips)
  }

  function Keys(ms: seq<Match>): seq<string> {
    seq(|ms|, i requires 0 <= i < |ms| => Key(ms[i].nn))
  }

  datatype Endpoint = Endpoint(parentGateway: string, targets: seq<string>)

  function Choose(ms: seq<Match>, merge: bool): Endpoint
    requires ms != []
  {
    if |ms| >= 2 && AllSame(ms) && merge then Endpoint(Join(",", SortBy(StringLess, Keys(ms))), Union(ms))
    else Endpoint(Key(Best(ms).nn), Best(ms).ips)
  }

  /** Whether all filters are that of the first match. */
  method SameFilters(matches: seq<Match>) returns (allSame: bool)
    requires matches != []
    ensures allSame <==> AllSame(matches)
  {
    var refF := matches[0].filter;
    allSame := true;
    for i := 1 to |matches|
      invariant allSame && forall k :: 0 <= k < i ==> matches[k].filter == refF
    {
      if matches[i].filter != refF {
        allSame := false;
        assert matches[i] in matches;
        break;
      }
    }
  }

  /** The targets of all matches, merged one after the other with mergeTargetsUnion. */
  method MergeTargets(matches: seq<Match>) returns (targets: seq<string>)
    requires matches != []
    ensures targets == Union(matches)
  {
    targets := matches[0].ips;
    for i := 1 to |matches|
      invariant targets == Union(matches[..i])
    {
      assert matches[..i + 1][..i] == matches[..i];
      targets := MakeTargets(targets + matches[i].ips);
    }
    assert matches[..|matches|] == matches;
  }

  /** The loop that looks for the best match. */
  method PickBest(matches: seq<Match>) returns (best: Match)
    requires matches != []
    ensures best == Best(matches)
  {
    best := matches[0];
    for i := 1 to |matches|
      invariant best == Best(matches[..i])
    {
      assert matches[..i + 1][..i] == matches[..i];
      var m := matches[i];
      if MoreSpecific(m.filter, best.filter) {
        best := m;
      } else if !MoreSpecific(best.filter, m.filter) && StringLess(Key(m.nn), Key(best.nn)) {
        best := m;
      }
    }
    assert matches[..|matches|] == matches;
  }

  /** buildRouteDNSEndpointsForHostname up to the rendering of the endpoint. */
  method BuildEndpoint(cache: IpCache, h: string, ps: seq<Parent>, allowWild: bool, allowMerge: bool)
    returns (r: Option<Endpoint>)
    ensures r.None? <==> ("*." <= h && !allowWild) || Matches(cache, ps) == []
    ensures r.Some? ==> r.value == Choose(Matches(cache, ps), allowMerge)
  {
    if "*." <= h && !allowWild {
      return None;
    }
    var matches := CollectMatches(cache, ps);
    if |matches| == 0 {
      return None;
    }
    var allSame := SameFilters(matches);
    if |matches| >= 2 && allSame && allowMerge {
      var targets := MergeTargets(matches);
      return Some(Endpoint(Join(",", SortBy(StringLess, Keys(matches))), targets));
    }
    var best := PickBest(matches);
    return Some(Endpoint(Key(best.nn), best.ips));
  }

  // ---- What is chosen ----

  predicate AtLeastAsGood(b: Match, m: Match) {
    MoreSpecific(b.filter, m.filter) || (b.filter == m.filter && !StringLess(Key(m.nn), Key(b.nn)))
  }

  /** The most specific filter, and among its Gateways the least name. */
  predicate IsBest(ms: seq<Match>, b: Match) {
    b in ms && forall m :: m in ms ==> AtLeastAsGood(b, m)
  }

  lemma BetterThanBest(candidate: Match, best: Match, m: Match)
    requires AtLeastAsGood(best, m)
    ensures Better(candidate, best) ==> AtLeastAsGood(candidate, best) && AtLeastAsGood(candidate, m)
    ensures !Better(candidate, best) ==> AtLeastAsGood(best, candidate)
    ensures AtLeastAsGood(candidate, candidate)
  {
    StringOrder();
    SpecificityOrder();
  }

  lemma {:induction false} BestIsBest(ms: seq<Match>)
    requires ms != []
    ensures IsBest(ms, Best(ms))
  {
    var n := |ms| - 1;
    BetterThanBest(ms[n], ms[n], ms[n]) by {
      StringOrder();
    }
    if n > 0 {
      var best := Best(ms[..n]);
      BestIsBest(ms[..n]);
      assert ms == ms[..n] + [ms[n]];
      forall m | m in ms
        ensures AtLeastAsGood(Best(ms), m)
      {
        if m in ms[..n] {
          BetterThanBest(ms[n], best, m);
        } else {
          BetterThanBest(ms[n], best, best);
        }
      }
    }
  }

  /** Two Gateways or more that match with one and the same filter are merged if the mode allows it: all their names,
    * and the union of their targets. In every other case the best match is chosen alone. */
  lemma ChooseMeaning(ms: seq<Match>, merge: bool)
    requires ms != []
    ensures var merged := merge && |ms| >= 2 && forall i, j :: 0 <= i < j < |ms| ==> ms[i].filter == ms[j].filter;
            && (merged ==> Choose(ms, merge).targets == Union(ms))
            && (merged ==> Choose(ms, merge).parentGateway == Join(",", SortBy(StringLess, Keys(ms))))
            && (!merged ==> exists b :: IsBest(ms, b) && Choose(ms, merge) == Endpoint(Key(b.nn), b.ips))
  {
    BestIsBest(ms);
    if forall i, j :: 0 <= i < j < |ms| ==> ms[i].filter == ms[j].filter {
      forall m | m in ms ensures m.filter == ms[0].filter {
        var k :| 0 <= k < |ms| && ms[k] == m;
      }
    } else {
      var i, j :| 0 <= i < j < |ms| && ms[i].filter != ms[j].filter;
      assert ms[i] in ms && ms[j] in ms;
    }
  }

  /** Two best matches have the same Gateway and filter. */
  lemma BestUnique(ms: seq<Match>, a: Match, b: Match)
    requires IsBest(ms, a) && IsBest(ms, b)
    ensures a.nn == b.nn && a.filter == b.filter
  {
    assert AtLeastAsGood(a, b) && AtLeastAsGood(b, a);
    AsymmetricFilters(a.filter, b.filter);
    StringLessTotal(Key(a.nn), Key(b.nn));
    KeyInjectiveIfEqual(a.nn, b.nn);
  }

  lemma AsymmetricFilters(a: string, b: string)
    ensures !(MoreSpecific(a, b) && MoreSpecific(b, a))
  {
    SpecificityOrder();
  }

  lemma KeyInjectiveIfEqual(a: NamespacedName, b: NamespacedName)
    ensures Key(a) == Key(b) ==> a == b
  {
    if Key(a) == Key(b) {
      KeyInjective(a, b);
    }
  }

  /** The merged targets are the trimmed targets of all matches, sorted, each once. */
  lemma {:induction false} UnionMeaning(ms: seq<Match>, x: string)
    requires |ms| >= 2
    ensures x in Union(ms) <==> exists m :: m in ms && Offers(m.ips, x)
    ensures SortedBy(StringLess, Union(ms)) && Distinct(Union(ms))
  {
    var n := |ms| - 1;
    var before := Union(ms[..n]);
    NewTargetsMeaning(before + ms[n].ips);
    OffersConcat(before, ms[n].ips, x);
    assert ms == ms[..n] + [ms[n]];
    assert forall m :: m in ms <==> m in ms[..n] || m == ms[n];
    if n == 1 {
      assert ms[..1] == [ms[0]];
      assert forall m :: m in ms <==> m == ms[0] || m == ms[1];
    } else {
      UnionMeaning(ms[..n], x);
      OffersTrimmed(ms[..n], x);
    }
  }

  lemma OffersConcat(a: seq<string>, b: seq<string>, x: string)
    ensures Offers(a + b, x) <==> Offers(a, x) || Offers(b, x)
  {
    if Offers(a, x) {
      var i :| 0 <= i < |a| && Trim(a[i]) == x;
      assert Trim((a + b)[i]) == x;
    }
    if Offers(b, x) {
      var i :| 0 <= i < |b| && Trim(b[i]) == x;
      assert Trim((a + b)[|a| + i]) == x;
    }
    if Offers(a + b, x) {
      var i :| 0 <= i < |a + b| && Trim((a + b)[i]) == x;
      assert i < |a| ==> Trim(a[i]) == x;
      assert i >= |a| ==> Trim(b[i - |a|]) == x;
    }
  }

  /** Merged targets are trimmed already. */
  lemma OffersTrimmed(ms: seq<Match>, x: string)
    requires |ms| >= 2
    ensures Offers(Union(ms), x) <==> x in Union(ms)
  {
    var n := |ms| - 1;
    var raw := Union(ms[..n]) + ms[n].ips;
    NewTargetsMeaning(raw);
    forall y | y in Union(ms)
      ensures Trim(y) == y && y != ""
    {
      var i :| 0 <= i < |raw| && Trim(raw[i]) == y;
      TrimTwice(raw[i]);
    }
    if x in Union(ms) {
      var i :| 0 <= i < |Union(ms)| && Union(ms)[i] == x;
      assert Trim(Union(ms)[i]) == x;
    }
  }

  // ---- The order of the parents does not matter ----

  /** All matches of a Gateway carry its cached addresses. */
  predicate Consistent(ms: seq<Match>) {
    forall a, b :: a in ms && b in ms && a.nn == b.nn ==> a.ips == b.ips
  }

  lemma ChooseOrder(a: seq<Match>, b: seq<Match>, merge: bool)
    requires a != [] && b != [] && multiset(a) == multiset(b) && Consistent(a)
    ensures Choose(a, merge) == Choose(b, merge)
  {
    SameElements(a, b);
    assert |a| == |multiset(a)| == |multiset(b)| == |b|;
    assert a[0] in a && b[0] in b;
    assert AllSame(a) <==> AllSame(b);
    if |a| >= 2 && AllSame(a) && merge {
      UnionOrder(a, b);
      StringOrder();
      KeysMultiset(a, b);
      SortedCopies(StringLess, Keys(a), Keys(b));
    } else {
      BestIsBest(a);
      BestIsBest(b);
      assert IsBest(a, Best(b));
      BestUnique(a, Best(a), Best(b));
    }
  }

  lemma UnionOrder(a: seq<Match>, b: seq<Match>)
    requires |a| >= 2 && |b| >= 2 && forall m :: m in a <==> m in b
    ensures Union(a) == Union(b)
  {
    StringOrder();
    UnionMeaning(a, "");
    UnionMeaning(b, "");
    forall x
      ensures x in Union(a) <==> x in Union(b)
    {
      UnionMeaning(a, x);
      UnionMeaning(b, x);
    }
    SortedSetUnique(StringLess, Union(a), Union(b));
  }

  lemma KeysConcat(a: seq<Match>, b: seq<Match>)
    ensures Keys(a + b) == Keys(a) + Keys(b)
  {
  }

  lemma {:induction false} KeysMultiset(a: seq<Match>, b: seq<Match>)
    requires multiset(a) == multiset(b)
    ensures multiset(Keys(a)) == multiset(Keys(b))
  {
    assert |a| == |multiset(a)| == |multiset(b)| == |b|;
    if a != [] {
      var j := TakeOut(a, b);
      KeysMultiset(a[1..], Without(b, j));
      assert a == [a[0]] + a[1..];
      KeysConcat([a[0]], a[1..]);
      KeysConcat(b[..j], [b[j]] + b[j + 1..]);
      KeysConcat([b[j]], b[j + 1..]);
      KeysConcat(b[..j], b[j + 1..]);
      assert Keys([b[j]]) == Keys([a[0]]);
    } else {
      assert Keys(a) == Keys(b);
    }
  }

  lemma {:induction false} MatchesFromCache(cache: IpCache, ps: seq<Parent>)
    ensures forall m :: m in Matches(cache, ps) ==> m.nn in cache && m.ips == cache[m.nn]
  {
    if ps != [] {
      MatchesFromCache(cache, ps[..|ps| - 1]);
    }
  }

  lemma {:induction false} MatchesConcat(cache: IpCache, a: seq<Parent>, b: seq<Parent>)
    ensures Matches(cache, a + b) == Matches(cache, a) + Matches(cache, b)
  {
    if b == [] {
      assert a + b == a;
    } else {
      assert (a + b)[..|a + b| - 1] == a + b[..|b| - 1];
      MatchesConcat(cache, a, b[..|b| - 1]);
    }
  }

  lemma {:induction false} MatchesMultiset(cache: IpCache, a: seq<Parent>, b: seq<Parent>)
    requires multiset(a) == multiset(b)
    ensures multiset(Matches(cache, a)) == multiset(Matches(cache, b))
  {
    assert |a| == |multiset(a)| == |multiset(b)| == |b|;
    if a != [] {
      var j := TakeOut(a, b);
      assert a == [a[0]] + a[1..];
      MatchesMultiset(cache, a[1..], Without(b, j));
      MatchesConcat(cache, [a[0]], a[1..]);
      MatchesConcat(cache, b[..j], [b[j]] + b[j + 1..]);
      MatchesConcat(cache, [b[j]], b[j + 1..]);
      MatchesConcat(cache, b[..j], b[j + 1..]);
    }
  }

  /** The endpoint does not depend on the order of the Route's parents. */
  lemma ParentOrderIrrelevant(cache: IpCache, ps: seq<Parent>, qs: seq<Parent>, merge: bool)
    requires multiset(ps) == multiset(qs)
    ensures Matches(cache, ps) == [] <==> Matches(cache, qs) == []
    ensures Matches(cache, ps) != [] && Matches(cache, qs) != [] ==>
              Choose(Matches(cache, ps), merge) == Choose(Matches(cache, qs), merge)
  {
    var a, b := Matches(cache, ps), Matches(cache, qs);
    MatchesMultiset(cache, ps, qs);
    assert |a| == |multiset(a)| == |multiset(b)| == |b|;
    MatchesFromCache(cache, ps);
    if a != [] {
      ChooseOrder(a, b, merge);
    }
  }
}
