/** applyDelta of internal/runtime/policy.go over a BGP engine that may refuse any call:
    the engine's table is moved route by route, and by hand taken back on a refusal. */
module Delta {
  import opened Basics
  import opened Cidr
  import opened Routing

  // ---- the BGP engine ----

  datatype Call = Announced(prefix: Prefix, ok: bool) | Withdrawn(prefix: Prefix, ok: bool)

  /** The engine's routing table. Any call may fail; a failed call has no effect. */
  class Engine {
    ghost var rib: Routes
    ghost var calls: seq<Call>
    ghost var ribs: seq<Routes>  // the table after each call

    constructor ()
      ensures rib == map[] && calls == [] && ribs == []
    {
      rib, calls, ribs := map[], [], [];
    }

    method Announce(route: Route) returns (ok: bool)
      modifies this
      ensures rib == if ok then old(rib)[route.prefix := route] else old(rib)
      ensures calls == old(calls) + [Announced(route.prefix, ok)] && ribs == old(ribs) + [rib]
    {
      ok := *;
      if ok {
        rib := rib[route.prefix := route];
      }
      calls, ribs := calls + [Announced(route.prefix, ok)], ribs + [rib];
    }

    method Withdraw(route: Route) returns (ok: bool)
      modifies this
      ensures rib == if ok then old(rib) - {route.prefix} else old(rib)
      ensures calls == old(calls) + [Withdrawn(route.prefix, ok)] && ribs == old(ribs) + [rib]
    {
      ok := *;
      if ok {
        rib := rib - {route.prefix};
      }
      calls, ribs := calls + [Withdrawn(route.prefix, ok)], ribs + [rib];
    }
  }

  // ---- one table change ----

  function Prefixes(routes: seq<Route>): set<Prefix> {
    set r <- routes :: r.prefix
  }

  /** Routes of distinct prefixes, each the one its prefix calls for. */
  ghost predicate RoutesOf(routes: seq<Route>, prefixes: set<Prefix>, hops: NextHops) {
    && (forall r <- routes :: r == RouteFor(r.prefix, hops))
    && (forall i, j :: 0 <= i < j < |routes| ==> routes[i].prefix != routes[j].prefix)
    && Prefixes(routes) == prefixes
  }

  /** A table that holds everything of low, nothing outside high, and only proper routes. */
  ghost predicate Between(rib: Routes, low: set<Prefix>, high: set<Prefix>, hops: NextHops) {
    low <= rib.Keys <= high && rib == Table(rib.Keys, hops)
  }

  function Withdrawals(routes: seq<Route>): seq<Call> {
    seq(|routes|, i requires 0 <= i < |routes| => Withdrawn(routes[i].prefix, true))
  }

  function Announcements(routes: seq<Route>): seq<Call> {
    seq(|routes|, i requires 0 <= i < |routes| => Announced(routes[i].prefix, true))
  }

  lemma RoutesOfAppend(routes: seq<Route>, prefixes: set<Prefix>, hops: NextHops, p: Prefix)
    requires RoutesOf(routes, prefixes, hops) && p !in prefixes
    ensures RoutesOf(routes + [RouteFor(p, hops)], prefixes + {p}, hops)
    ensures Withdrawals(routes + [RouteFor(p, hops)]) == Withdrawals(routes) + [Withdrawn(p, true)]
    ensures Announcements(routes + [RouteFor(p, hops)]) == Announcements(routes) + [Announced(p, true)]
  {
    var more := routes + [RouteFor(p, hops)];
    forall q ensures q in Prefixes(more) <==> q in prefixes + {p} {
      if q == p {
        assert more[|routes|].prefix == p && more[|routes|] in more;
      } else if q in prefixes {
        var r :| r in routes && r.prefix == q;
        assert r in more;
      }
    }
    forall i | 0 <= i < |routes| ensures more[i].prefix != p {
      assert routes[i].prefix in Prefixes(routes);
    }
  }

  lemma PrefixesAppend(routes: seq<Route>, i: nat)
    requires i < |routes|
    ensures Prefixes(routes[..i + 1]) == Prefixes(routes[..i]) + {routes[i].prefix}
    ensures routes[i].prefix in Prefixes(routes)
  {
    assert routes[..i + 1] == routes[..i] + [routes[i]];
  }

  lemma VisitedGrows(all: set<Prefix>, rest: set<Prefix>, other: set<Prefix>, p: Prefix)
    requires p in rest && rest <= all
    ensures (all - (rest - {p})) - other == (all - rest) - other + (if p in other then {} else {p})
    ensures p in other ==> (all - (rest - {p})) - other == (all - rest) - other
    ensures p !in (all - rest) - other
  {
  }

  lemma CallsAppend(calls: seq<Call>, made: seq<Call>, call: Call)
    ensures (calls + made) + [call] == calls + (made + [call])
  {
  }

  lemma TableGrows(rib: Routes, prefixes: set<Prefix>, p: Prefix, hops: NextHops)
    ensures (rib + Table(prefixes, hops))[p := RouteFor(p, hops)] == rib + Table(prefixes + {p}, hops)
  {
  }

  lemma BetweenWithout(rib: Routes, p: Prefix, low: set<Prefix>, high: set<Prefix>, hops: NextHops)
    requires Between(rib, low, high, hops) && p !in low
    ensures Between(rib - {p}, low, high, hops)
  {
  }

  lemma BetweenWith(rib: Routes, p: Prefix, low: set<Prefix>, high: set<Prefix>, hops: NextHops)
    requires Between(rib, low, high, hops) && p in high
    ensures Between(rib[p := RouteFor(p, hops)], low, high, hops)
  {
  }

  /** What an engine saw during a stretch of calls: its logs only grew, the table is the last
      one logged, and if it was between low and high at the start, it was so after every
      call. */
  twostate predicate Stayed(engine: Engine, low: set<Prefix>, high: set<Prefix>, hops: NextHops)
    reads engine
  {
    && old(engine.calls) <= engine.calls && old(engine.ribs) <= engine.ribs
    && engine.rib == (if engine.ribs == old(engine.ribs) then old(engine.rib) else engine.ribs[|engine.ribs| - 1])
    && (old(Between(engine.rib, low, high, hops)) ==>
        && Between(engine.rib, low, high, hops)
        && forall i :: |old(engine.ribs)| <= i < |engine.ribs| ==> Between(engine.ribs[i], low, high, hops))
  }

  /** Every table that was added to the log is between low and high. */
  ghost predicate RibsWithin(before: seq<Routes>, after: seq<Routes>, low: set<Prefix>, high: set<Prefix>,
                               hops: NextHops)
  {
    before <= after && forall i :: |before| <= i < |after| ==> Between(after[i], low, high, hops)
  }

  /** Exactly one accepted call for each route that the two tables do not share. */
  ghost predicate OneCallEach(before: seq<Call>, after: seq<Call>, active: set<Prefix>, desired: set<Prefix>,
                              hops: NextHops)
  {
    exists withdrawn, announced ::
      && RoutesOf(withdrawn, active - desired, hops) && RoutesOf(announced, desired - active, hops)
      && after == before + Withdrawals(withdrawn) + Announcements(announced)
  }

  /** A table from which the routes of active have gone that are not desired, and to which those
      have come that are desired and not active, whether it was active at the start or not. */
  function Moved(rib: Routes, active: set<Prefix>, desired: set<Prefix>, hops: NextHops): Routes {
    (rib - (active - desired)) + Table(desired - active, hops)
  }

  /** Of the tables from the start on, one was this one. */
  ghost predicate Carried(rib: Routes, before: seq<Routes>, after: seq<Routes>, table: Routes) {
    before <= after && (table == rib || table in after[|before|..])
  }

  lemma CarriedStill(rib: Routes, a: seq<Routes>, b: seq<Routes>, c: seq<Routes>, table: Routes)
    requires Carried(rib, a, b, table) && b <= c
    ensures Carried(rib, a, c, table)
  {
    if table != rib {
      var i :| 0 <= i < |b| - |a| && b[|a|..][i] == table;
      assert c[|a|..][i] == table;
    }
  }

  lemma RibsUnmoved(ribs: seq<Routes>, low: set<Prefix>, high: set<Prefix>, hops: NextHops)
    ensures RibsWithin(ribs, ribs, low, high, hops)
  {
  }

  lemma RibsGrow(before: seq<Routes>, after: seq<Routes>, low: set<Prefix>, high: set<Prefix>, hops: NextHops)
    requires RibsWithin(before, after, low, high, hops)
    ensures before <= after
  {
  }

  lemma RibsWiden(before: seq<Routes>, after: seq<Routes>, low: set<Prefix>, high: set<Prefix>,
                  lower: set<Prefix>, higher: set<Prefix>, hops: NextHops)
    requires RibsWithin(before, after, low, high, hops) && lower <= low && high <= higher
    ensures RibsWithin(before, after, lower, higher, hops)
  {
  }

  lemma RibsJoin(a: seq<Routes>, b: seq<Routes>, c: seq<Routes>, low: set<Prefix>, high: set<Prefix>, hops: NextHops)
    requires RibsWithin(a, b, low, high, hops) && RibsWithin(b, c, low, high, hops)
    ensures RibsWithin(a, c, low, high, hops)
  {
    forall i | |a| <= i < |c| ensures Between(c[i], low, high, hops) {
      assert i < |b| ==> c[i] == b[i];
    }
  }

  /** Some call of the stretch was refused. */
  twostate predicate Refused(engine: Engine)
    reads engine
  {
    exists i :: |old(engine.calls)| <= i < |engine.calls| && !engine.calls[i].ok
  }

  /** A refusal, and one more while it was being undone. */
  twostate predicate RefusedTwice(engine: Engine)
    reads engine
  {
    exists i, j :: |old(engine.calls)| <= i < j < |engine.calls| && !engine.calls[i].ok && !engine.calls[j].ok
  }

  method WithdrawAll(engine: Engine, announced: seq<Route>,
                     ghost low: set<Prefix>, ghost high: set<Prefix>, ghost hops: NextHops)
    returns (ghost allOk: bool)
    requires Prefixes(announced) !! low
    modifies engine
    ensures Stayed(engine, low, high, hops)
    ensures !allOk ==> Refused(engine)
    ensures allOk ==> engine.rib == old(engine.rib) - Prefixes(announced)
  {
    allOk := true;
    ghost var failed := 0;
    for i := 0 to |announced|
      invariant Stayed(engine, low, high, hops)
      invariant !allOk ==> |old(engine.calls)| <= failed < |engine.calls| && !engine.calls[failed].ok
      invariant allOk ==> engine.rib == old(engine.rib) - Prefixes(announced[..i])
    {
      PrefixesAppend(announced, i);
      if Between(engine.rib, low, high, hops) {
        BetweenWithout(engine.rib, announced[i].prefix, low, high, hops);
      }
      var ok := engine.Withdraw(announced[i]);
      allOk, failed := allOk && ok, if ok then failed else |engine.calls| - 1;
    }
    assert announced[..|announced|] == announced;
  }

  method AnnounceAll(engine: Engine, withdrawn: seq<Route>,
                     ghost low: set<Prefix>, ghost high: set<Prefix>, ghost hops: NextHops)
    returns (ghost allOk: bool)
    requires (forall r <- withdrawn :: r == RouteFor(r.prefix, hops)) && Prefixes(withdrawn) <= high
    modifies engine
    ensures Stayed(engine, low, high, hops)
    ensures !allOk ==> Refused(engine)
    ensures allOk ==> engine.rib == old(engine.rib) + Table(Prefixes(withdrawn), hops)
  {
    allOk := true;
    ghost var failed := 0;
    for i := 0 to |withdrawn|
      invariant Stayed(engine, low, high, hops)
      invariant !allOk ==> |old(engine.calls)| <= failed < |engine.calls| && !engine.calls[failed].ok
      invariant allOk ==> engine.rib == old(engine.rib) + Table(Prefixes(withdrawn[..i]), hops)
    {
      PrefixesAppend(withdrawn, i);
      if Between(engine.rib, low, high, hops) {
        BetweenWith(engine.rib, withdrawn[i].prefix, low, high, hops);
      }
      TableGrows(old(engine.rib), Prefixes(withdrawn[..i]), withdrawn[i].prefix, hops);
      assert withdrawn[i] == RouteFor(withdrawn[i].prefix, hops);
      var ok := engine.Announce(withdrawn[i]);
      allOk, failed := allOk && ok, if ok then failed else |engine.calls| - 1;
    }
    assert withdrawn[..|withdrawn|] == withdrawn;
  }

  /** The undo loops: withdraw what was announced, announce what was withdrawn, and go
      on whatever fails. allOk says that nothing did. */
  method Compensate(engine: Engine, announced: seq<Route>, withdrawn: seq<Route>,
                    ghost low: set<Prefix>, ghost high: set<Prefix>, ghost hops: NextHops)
    returns (ghost allOk: bool)
    requires Prefixes(announced) !! low
    requires (forall r <- withdrawn :: r == RouteFor(r.prefix, hops)) && Prefixes(withdrawn) <= high
    modifies engine
    ensures Stayed(engine, low, high, hops)
    ensures !allOk ==> Refused(engine)
    ensures allOk ==> engine.rib == (old(engine.rib) - Prefixes(announced)) + Table(Prefixes(withdrawn), hops)
  {
    var first := WithdrawAll(engine, announced, low, high, hops);
    var second := AnnounceAll(engine, withdrawn, low, high, hops);
    allOk := first && second;
  }

  lemma NothingAnnounced(rib: Routes)
    ensures rib - Prefixes([]) == rib
  {
  }

  lemma ReturnedTable(active: Routes, withdrawn: set<Prefix>, hops: NextHops)
    requires active == Table(active.Keys, hops) && withdrawn <= active.Keys
    ensures (active - withdrawn) + Table(withdrawn, hops) == active
  {
  }

  lemma UndoneTable(active: Routes, withdrawn: set<Prefix>, announced: set<Prefix>, hops: NextHops)
    requires active == Table(active.Keys, hops) && withdrawn <= active.Keys && announced !! active.Keys
    ensures (((active - withdrawn) + Table(announced, hops)) - announced) + Table(withdrawn, hops) == active
  {
  }

  lemma DoneTable(active: Routes, desired: Routes, hops: NextHops)
    requires active == Table(active.Keys, hops) && desired == Table(desired.Keys, hops)
    ensures (active - (active.Keys - desired.Keys)) + Table(desired.Keys - active.Keys, hops) == desired
  {
  }

  method WithdrawNext(engine: Engine, route: Route, ghost taken: seq<Route>, ghost gone: set<Prefix>,
                      ghost rib: Routes, ghost calls: seq<Call>, ghost low: set<Prefix>, ghost high: set<Prefix>,
                      ghost hops: NextHops)
    returns (ok: bool)
    requires route == RouteFor(route.prefix, hops) && route.prefix !in gone && route.prefix !in low
    requires RoutesOf(taken, gone, hops) && engine.rib == rib - gone && engine.calls == calls + Withdrawals(taken)
    modifies engine
    ensures Stayed(engine, low, high, hops)
    ensures ok ==>
      && RoutesOf(taken + [route], gone + {route.prefix}, hops)
      && engine.rib == rib - (gone + {route.prefix}) && engine.calls == calls + Withdrawals(taken + [route])
    ensures !ok ==> engine.rib == rib - gone && |engine.calls| > |calls| && !engine.calls[|engine.calls| - 1].ok
  {
    RoutesOfAppend(taken, gone, hops, route.prefix);
    if Between(engine.rib, low, high, hops) {
      BetweenWithout(engine.rib, route.prefix, low, high, hops);
    }
    hide RoutesOf, Withdrawals, Between;
    ok := engine.Withdraw(route);
    if ok {
      CallsAppend(calls, Withdrawals(taken), Withdrawn(route.prefix, true));
      assert rib - (gone + {route.prefix}) == (rib - gone) - {route.prefix};
    }
  }

  method AnnounceNext(engine: Engine, route: Route, ghost added: seq<Route>, ghost novel: set<Prefix>,
                      ghost rib: Routes, ghost calls: seq<Call>, ghost low: set<Prefix>, ghost high: set<Prefix>,
                      ghost hops: NextHops)
    returns (ok: bool)
    requires route == RouteFor(route.prefix, hops) && route.prefix !in novel && route.prefix in high
    requires RoutesOf(added, novel, hops) && engine.rib == rib + Table(novel, hops)
    requires engine.calls == calls + Announcements(added)
    modifies engine
    ensures Stayed(engine, low, high, hops)
    ensures ok ==>
      && RoutesOf(added + [route], novel + {route.prefix}, hops)
      && engine.rib == rib + Table(novel + {route.prefix}, hops) &&
          engine.calls == calls + Announcements(added + [route])
    ensures !ok ==>
      engine.rib == rib + Table(novel, hops) && |engine.calls| > |calls| && !engine.calls[|engine.calls| - 1].ok
  {
    RoutesOfAppend(added, novel, hops, route.prefix);
    TableGrows(rib, novel, route.prefix, hops);
    if Between(engine.rib, low, high, hops) {
      BetweenWith(engine.rib, route.prefix, low, high, hops);
    }
    hide RoutesOf, Announcements, Between, Table;
    ok := engine.Announce(route);
    if ok {
      CallsAppend(calls, Announcements(added), Announced(route.prefix, true));
    }
  }

  /** The first loop of applyDelta: withdraw what is no longer desired, until refused. */
  method Retire(engine: Engine, active: Routes, desired: Routes, ghost hops: NextHops)
    returns (ok: bool, taken: seq<Route>)
    requires active == Table(active.Keys, hops)
    modifies engine
    ensures RoutesOf(taken, Prefixes(taken), hops) && Prefixes(taken) <= active.Keys - desired.Keys
    ensures Stayed(engine, active.Keys * desired.Keys, active.Keys + desired.Keys, hops)
    ensures engine.rib == old(engine.rib) - Prefixes(taken)
    ensures ok ==>
      && Prefixes(taken) == active.Keys - desired.Keys
      && engine.calls == old(engine.calls) + Withdrawals(taken)
    ensures !ok ==> |engine.calls| > |old(engine.calls)| && !engine.calls[|engine.calls| - 1].ok
  {
    ghost var low, high := active.Keys * desired.Keys, active.Keys + desired.Keys;
    taken := [];
    ghost var gone: set<Prefix> := {};
    var remaining := active.Keys;
    assert RoutesOf(taken, gone, hops) && engine.calls == engine.calls + Withdrawals(taken);
    hide Prefixes, Withdrawals, Between;
    while remaining != {}
      invariant remaining <= active.Keys && gone == (active.Keys - remaining) - desired.Keys
      invariant RoutesOf(taken, gone, hops)
      invariant engine.calls == old(engine.calls) + Withdrawals(taken)
      invariant Stayed(engine, low, high, hops)
      invariant engine.rib == old(engine.rib) - gone
    {
      var prefix :| prefix in remaining;
      VisitedGrows(active.Keys, remaining, desired.Keys, prefix);
      remaining := remaining - {prefix};
      if prefix in desired {
        continue;
      }
      ok := WithdrawNext(engine, active[prefix], taken, gone, old(engine.rib), old(engine.calls), low, high, hops);
      if !ok {
        return;
      }
      taken, gone := taken + [active[prefix]], gone + {prefix};
    }
    ok := true;
  }

  /** The second loop: announce what is newly desired, until refused. */
  method Extend(engine: Engine, active: Routes, desired: Routes, ghost hops: NextHops)
    returns (ok: bool, added: seq<Route>)
    requires desired == Table(desired.Keys, hops)
    modifies engine
    ensures RoutesOf(added, Prefixes(added), hops) && Prefixes(added) <= desired.Keys - active.Keys
    ensures Stayed(engine, active.Keys * desired.Keys, active.Keys + desired.Keys, hops)
    ensures engine.rib == old(engine.rib) + Table(Prefixes(added), hops)
    ensures ok ==>
      && Prefixes(added) == desired.Keys - active.Keys
      && engine.calls == old(engine.calls) + Announcements(added)
    ensures !ok ==> |engine.calls| > |old(engine.calls)| && !engine.calls[|engine.calls| - 1].ok
  {
    ghost var low, high := active.Keys * desired.Keys, active.Keys + desired.Keys;
    added := [];
    ghost var novel: set<Prefix> := {};
    var remaining := desired.Keys;
    assert RoutesOf(added, novel, hops) && engine.calls == engine.calls + Announcements(added);
    assert engine.rib == engine.rib + Table(novel, hops);
    hide Prefixes, Announcements, Between;
    while remaining != {}
      invariant remaining <= desired.Keys && novel == (desired.Keys - remaining) - active.Keys
      invariant RoutesOf(added, novel, hops)
      invariant engine.calls == old(engine.calls) + Announcements(added)
      invariant Stayed(engine, low, high, hops)
      invariant engine.rib == old(engine.rib) + Table(novel, hops)
    {
      var prefix :| prefix in remaining;
      VisitedGrows(desired.Keys, remaining, active.Keys, prefix);
      remaining := remaining - {prefix};
      if prefix in active {
        continue;
      }
      ok := AnnounceNext(engine, desired[prefix], added, novel, old(engine.rib), old(engine.calls), low, high, hops);
      if !ok {
        return;
      }
      added, novel := added + [desired[prefix]], novel + {prefix};
    }
    ok := true;
  }

  /** Moves the engine from active to desired, one call a route, in whatever order the
      maps give; a refusal undoes everything done so far. */
  method ApplyDelta(engine: Engine, active: Routes, desired: Routes, ghost hops: NextHops)
    returns (ok: bool, ghost withdrawn: seq<Route>, ghost announced: seq<Route>, ghost undone: bool)
    requires active == Table(active.Keys, hops) && desired == Table(desired.Keys, hops)
    modifies engine
    ensures Stayed(engine, active.Keys * desired.Keys, active.Keys + desired.Keys, hops)
    ensures ok ==>
      && RoutesOf(withdrawn, active.Keys - desired.Keys, hops)
      && RoutesOf(announced, desired.Keys - active.Keys, hops)
      && engine.calls == old(engine.calls) + Withdrawals(withdrawn) + Announcements(announced)
    ensures !ok ==> Refused(engine)
    ensures !ok && !undone ==> RefusedTwice(engine)
    ensures ok ==> engine.rib == Moved(old(engine.rib), active.Keys, desired.Keys, hops)
    ensures old(engine.rib) == active && ok ==> engine.rib == desired
    ensures old(engine.rib) == active && !ok && undone ==> engine.rib == active
  {
    hide Withdrawals, Announcements, Between;
    ghost var low, high := active.Keys * desired.Keys, active.Keys + desired.Keys;
    var taken, added: seq<Route>;
    ok, taken := Retire(engine, active, desired, hops);
    withdrawn, announced, undone := taken, [], true;
    ghost var failed := |engine.calls| - 1;
    if !ok {
      NothingAnnounced(engine.rib);
      undone := Compensate(engine, [], taken, low, high, hops);
      assert !engine.calls[failed].ok;
      ReturnedTable(active, Prefixes(taken), hops);
      return;
    }
    ok, added := Extend(engine, active, desired, hops);
    announced := added;
    failed := |engine.calls| - 1;
    if !ok {
      undone := Compensate(engine, added, taken, low, high, hops);
      assert !engine.calls[failed].ok;
      UndoneTable(active, Prefixes(taken), Prefixes(added), hops);
      return;
    }
    DoneTable(active, desired, hops);
  }
}
