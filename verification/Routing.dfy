/** effectiveRoutes of internal/runtime/policy.go, and what a route table means in
    terms of addresses. */
module Routing {
  import opened Basics
  import opened Cidr
  import opened PolicyStore

  const BLACKHOLE_COMMUNITY: nat := 0xffff029a

  datatype Route = Route(prefix: Prefix, nextHop: Addr, communities: seq<nat>)
  datatype NextHops = NextHops(v4: Addr, v6: Addr)
  type Routes = map<Prefix, Route>

  function RouteFor(p: Prefix, hops: NextHops): Route {
    Route(p, if p.addr.family == V6 then hops.v6 else hops.v4, [BLACKHOLE_COMMUNITY])
  }

  /** The route table of a set of prefixes: a route depends on nothing but its prefix. */
  function Table(prefixes: set<Prefix>, hops: NextHops): Routes {
    map p | p in prefixes :: RouteFor(p, hops)
  }

  predicate Expired(p: Prefix, expirations: map<Prefix, Time>, now: Time) {
    p in expirations && expirations[p] <= now
  }

  predicate Suppressed(p: Prefix, whitelist: seq<Prefix>) {
    exists w <- whitelist :: Overlaps(p, w)
  }

  function Effective(blocklist: seq<Prefix>, whitelist: seq<Prefix>, expirations: map<Prefix, Time>,
                     now: Time): set<Prefix>
  {
    set p | p in blocklist && !Expired(p, expirations, now) && !Suppressed(p, whitelist)
  }

  function EffectiveOf(s: State, now: Time): set<Prefix> {
    Effective(s.blocklist, s.whitelist, s.expirations, now)
  }

  method EffectiveRoutes(blocklist: seq<Prefix>, whitelist: seq<Prefix>, expirations: map<Prefix, Time>,
                         now: Time, hops: NextHops)
    returns (routes: Routes)
    ensures routes == Table(Effective(blocklist, whitelist, expirations, now), hops)
    ensures forall p :: p in routes <==>
      && p in blocklist && (p in expirations ==> now < expirations[p])
      && forall w <- whitelist :: !(p.Contains(w.addr) || w.Contains(p.addr))
    ensures forall p <- routes ::
      routes[p] == Route(p, if p.addr.family == V6 then hops.v6 else hops.v4, [0xffff_029a])
  {
    routes := map[];
    for i := 0 to |blocklist|
      invariant routes == Table(Effective(blocklist[..i], whitelist, expirations, now), hops)
    {
      var prefix := blocklist[i];
      assert blocklist[..i + 1] == blocklist[..i] + [prefix];
      if prefix in expirations && expirations[prefix] <= now {
        assert Effective(blocklist[..i + 1], whitelist, expirations, now) ==
            Effective(blocklist[..i], whitelist, expirations, now);
        continue;
      }
      var suppressed := false;
      for j := 0 to |whitelist|
        invariant !suppressed && !Suppressed(prefix, whitelist[..j])
      {
        if prefix.Contains(whitelist[j].addr) || whitelist[j].Contains(prefix.addr) {
          assert Overlaps(prefix, whitelist[j]) && whitelist[j] in whitelist;
          suppressed := true;
          break;
        }
      }
      assert whitelist[..|whitelist|] == whitelist;
      assert suppressed == Suppressed(prefix, whitelist);
      if suppressed {
        assert Effective(blocklist[..i + 1], whitelist, expirations, now) ==
            Effective(blocklist[..i], whitelist, expirations, now);
        continue;
      }
      var nextHop := hops.v4;
      if prefix.addr.family == V6 {
        nextHop := hops.v6;
      }
      assert Effective(blocklist[..i + 1], whitelist, expirations, now)
          == Effective(blocklist[..i], whitelist, expirations, now) + {prefix};
      routes := routes[prefix := Route(prefix, nextHop, [BLACKHOLE_COMMUNITY])];
    }
    assert blocklist[..|blocklist|] == blocklist;
  }

  // ---- meaning ----

  /** A prefix is suppressed exactly when it shares an address with the whitelist. */
  lemma SuppressionIsSharedAddress(p: Prefix, whitelist: seq<Prefix>)
    requires p.Valid() && forall w <- whitelist :: w.Valid()
    ensures Suppressed(p, whitelist) <==> exists a :: p.Contains(a) && Covers(whitelist, a)
  {
    if Suppressed(p, whitelist) {
      var w :| w in whitelist && Overlaps(p, w);
      OverlapIsIntersection(p, w);
      var a :| p.Contains(a) && w.Contains(a);
      assert Covers(whitelist, a);
    }
    if a :| p.Contains(a) && Covers(whitelist, a) {
      var w :| w in whitelist && w.Contains(a);
      OverlapIsIntersection(p, w);
    }
  }

  /** Route suppression is exact: an unexpired blocked prefix is announced if and only
      if the store blocks every single address in it. */
  lemma AnnouncedIffEveryAddressBlocked(s: State, now: Time, p: Prefix)
    requires p in s.blocklist && !Expired(p, s.expirations, now)
    requires p.Valid() && forall w <- s.whitelist :: w.Valid()
    ensures p in EffectiveOf(s, now) <==> forall a :: p.Contains(a) ==> BlockedBy(s, a)
  {
    SuppressionIsSharedAddress(p, s.whitelist);
    forall a | p.Contains(a) ensures Covers(s.blocklist, a) {
    }
    if a :| p.Contains(a) && Covers(s.whitelist, a) {
      assert !BlockedBy(s, a);
    }
  }

  /** Two whitelists covering the same addresses suppress the same routes and block
      the same addresses, whatever their entries are. */
  lemma SameCoverageSameMeaning(s: State, whitelist: seq<Prefix>, now: Time)
    requires forall p <- s.blocklist :: p.Valid()
    requires (forall w <- s.whitelist :: w.Valid()) && (forall w <- whitelist :: w.Valid())
    requires forall a :: Covers(s.whitelist, a) <==> Covers(whitelist, a)
    ensures EffectiveOf(s, now) == EffectiveOf(s.(whitelist := whitelist), now)
    ensures forall a :: BlockedBy(s, a) <==> BlockedBy(s.(whitelist := whitelist), a)
  {
    forall p <- s.blocklist ensures Suppressed(p, s.whitelist) <==> Suppressed(p, whitelist) {
      SuppressionIsSharedAddress(p, s.whitelist);
      SuppressionIsSharedAddress(p, whitelist);
    }
  }
}
