/** What the controller keeps over whole runs of reconciliations, mutations and sweeps. */
module ControllerLaws {
  import opened Basics
  import opened Cidr
  import opened PolicyStore
  import opened PolicyStoreLaws
  import opened Mutations
  import opened Queue
  import opened Routing
  import opened Controller
  import opened Delta

  /** For a mutation that can reach the controller, the lists it computes routes from
      are the lists the store ends up with. */
  lemma ProposalIsStored(s: State, m: Mutation, now: Time)
    requires Consistent(s) && Acceptable(m) && WellFormed(m)
    ensures Wants(s, m, now).Ok?
    ensures Wants(s, m, now).value.blocklist == Proposal(s, m).blocklist
    ensures Wants(s, m, now).value.whitelist == Proposal(s, m).whitelist
  {
    var p := CanonicalPrefix(m.prefix).value;
    assert p.Masked() == p;
  }

  /** The controller's test of whether anything changes, made on copies before the engine
      is touched, agrees with what the store will do: published if and only if changed. */
  lemma PublishedIffChanged(s: State, m: Mutation, now: Time)
    requires Consistent(s) && Acceptable(m) && WellFormed(m)
    ensures Changes(s, m) <==> Wants(s, m, now) != PolicyStore.Ok(s)
  {
    var p := CanonicalPrefix(m.prefix).value;
    assert p.Masked() == p;
    var want := Wants(s, m, now);
    if Changes(s, m) {
      assert |want.value.audit| == |s.audit| + 1;
    }
  }

  // ---- two resources, one outcome ----

  /** The old expiry, which the routes are computed with, and the new one, which is
      stored, call the prefix live or dead alike; or the whitelist hides it anyway. */
  predicate ExpiryInStep(s: State, m: Mutation, now: Time)
    requires Acceptable(m)
  {
    var p := CanonicalPrefix(m.prefix).value;
    m.expiresAt.Some? ==>
      Suppressed(p, s.whitelist) || ((m.expiresAt.value <= now) == Expired(p, s.expirations, now))
  }

  /** After a successful mutation the table is the effective one of the new store exactly
      when the expiry that was replaced and the one that replaced it are in step. */
  lemma AppliedTableIsEffective(s: State, m: Mutation, second: Time, third: Time)
    requires Consistent(s) && Acceptable(m) && WellFormed(m) && Changes(s, m)
    ensures EffectiveOf(Proposal(s, m), second) == EffectiveOf(Wants(s, m, third).value, second)
      <==> ExpiryInStep(s, m, second)
  {
    ProposalIsStored(s, m, third);
    var p := CanonicalPrefix(m.prefix).value;
    assert p.Masked() == p;
    var s' := Wants(s, m, third).value;
    var proposed := Proposal(s, m);
    if m.list == Blocklist && OperationOf(m.action) == Remove && p in s.blocklist {
      DeletedList(s.blocklist, p);
    }
    hide Suppressed, Consistent, CanonicalList;
    if m.expiresAt.Some? {
      assert p in s'.blocklist && s'.expirations == s.expirations[p := m.expiresAt.value];
      assert p in EffectiveOf(proposed, second) <==> !Expired(p, s.expirations, second) && !Suppressed(p, s.whitelist);
      assert p in EffectiveOf(s', second) <==> m.expiresAt.value > second && !Suppressed(p, s.whitelist);
      assert forall q | q != p :: q in EffectiveOf(proposed, second) <==> q in EffectiveOf(s', second);
    } else if m.list == Blocklist && OperationOf(m.action) == Remove {
      assert EffectiveOf(proposed, second) == EffectiveOf(s', second);
    } else {
      assert EffectiveOf(proposed, second) == EffectiveOf(s', second);
    }
  }

  /** The step is out only for an expiry that the dashboard would not have let in, or one
      put on a prefix whose old expiry is waiting to be swept. */
  lemma FutureExpiryOfLivePrefixIsInStep(s: State, m: Mutation, now: Time)
    requires Acceptable(m)
    requires m.expiresAt.Some? ==>
        m.expiresAt.value > now && !Expired(CanonicalPrefix(m.prefix).value, s.expirations, now)
    ensures ExpiryInStep(s, m, now)
  {
  }

  /** An expired entry given a new future expiry: the store has it live again, the table
      does not announce it. */
  lemma RenewedTooLate(p: Prefix, now: Time, third: Time)
    requires p.Canonical() && now > 1
    ensures
      var s := State([p], [], map[p := now], []);
      var m := Mutation(AddAction, Blocklist, Text(p), Some(now + 1));
      && Consistent(s) && Acceptable(m) && WellFormed(m) && Changes(s, m)
      && p !in EffectiveOf(Proposal(s, m), now) && p in EffectiveOf(Wants(s, m, third).value, now)
  {
    var s := State([p], [], map[p := now], []);
    var m := Mutation(AddAction, Blocklist, Text(p), Some(now + 1));
    assert p.Masked() == p && p in s.blocklist;
  }

  // ---- whitelist safety ----

  /** The engine carries the controller's table; every route in it is for a stored
      blocklist prefix that overlaps no stored whitelist prefix. */
  ghost predicate Safe(hops: NextHops, s: Sys) {
    && s.rib == s.active == Table(s.active.Keys, hops)
    && forall p <- s.active :: p in s.store.blocklist && !Suppressed(p, s.store.whitelist)
  }

  lemma StepKeepsSafe(hops: NextHops, s: Sys, e: Event, s': Sys)
    requires Step(hops, s, e, s') && Arrives(e)
    requires Safe(hops, s) && Consistent(s.store)
    ensures Safe(hops, s') && Consistent(s'.store)
  {
    if e.Mutated? && e.outcome == Outcome.Applied {
      ProposalIsStored(s.store, e.m, e.at.third);
      MutationKeepsConsistency(s.store, e.m, e.at.third);
      assert forall p <- s'.active :: p in EffectiveOf(Proposal(s.store, e.m), e.at.second);
    }
  }

  lemma MutationKeepsConsistency(s: State, m: Mutation, now: Time)
    requires Consistent(s) && now != ZERO_TIME
    ensures Consistent(Mutations.Applied(s, m, now))
  {
    var p := CanonicalPrefix(m.prefix);
    if p.Some? {
      CallKeepsConsistency(s,
        if m.expiresAt.Some? then AddUntilCall(Blocklist, p.value, m.expiresAt.value, now)
        else MutateCall(OperationOf(m.action), m.list, p.value, now));
    }
  }

  lemma {:induction false} RunIsSafe(hops: NextHops, t: Trace, i: nat)
    requires IsRun(hops, t) && i < |t.states|
    requires AllArrive(t)
    requires Safe(hops, t.states[0]) && Consistent(t.states[0].store)
    ensures Safe(hops, t.states[i]) && Consistent(t.states[i].store)
  {
    if i > 0 {
      RunIsSafe(hops, t, i - 1);
      StepKeepsSafe(hops, t.states[i - 1], t.events[i - 1], t.states[i]);
    }
  }

  /** From an empty table over any consistent store, whatever the engine and the file
      refuse on the way, as long as the engine does not refuse an undo call as well, no
      announced block holds an address that the store of that moment does not block; in
      particular none that is whitelisted. */
  lemma NothingAllowedIsEverAnnounced(hops: NextHops, t: Trace, i: nat, p: Prefix, a: Addr)
    requires IsRun(hops, t) && i < |t.states|
    requires AllArrive(t)
    requires t.states[0].active == t.states[0].rib == map[] && Consistent(t.states[0].store)
    requires p in t.states[i].rib && p.Contains(a)
    ensures BlockedBy(t.states[i].store, a) && !Covers(t.states[i].store.whitelist, a)
  {
    assert Safe(hops, t.states[0]);
    RunIsSafe(hops, t, i);
    var s := t.states[i].store;
    ClearPrefixIsBlocked(s, p, a);
  }

  /** Inside a mutation too, after each engine call: every announced address is blocked by
      the store as it still is, or by the store that the mutation is after. */
  lemma EveryTableIsOldOrNew(hops: NextHops, s: Sys, m: Mutation, at: Times, rib: Routes, p: Prefix, a: Addr)
    requires Safe(hops, s) && Consistent(s.store) && Acceptable(m) && WellFormed(m) && at.third != ZERO_TIME
    requires Between(rib, Kept(s.active.Keys, s.store, m, at), Touched(s.active.Keys, s.store, m, at), hops)
    requires p in rib && p.Contains(a)
    ensures Wants(s.store, m, at.third).Ok?
    ensures BlockedBy(s.store, a) || BlockedBy(Wants(s.store, m, at.third).value, a)
  {
    ProposalIsStored(s.store, m, at.third);
    MutationKeepsConsistency(s.store, m, at.third);
    var t := Wants(s.store, m, at.third).value;
    assert p in s.active || p in EffectiveOf(s.store, at.first) || p in EffectiveOf(Proposal(s.store, m), at.second);
    if p in s.store.blocklist && !Suppressed(p, s.store.whitelist) {
      ClearPrefixIsBlocked(s.store, p, a);
    } else {
      ClearPrefixIsBlocked(t, p, a);
    }
  }

  lemma ClearPrefixIsBlocked(s: State, p: Prefix, a: Addr)
    requires Consistent(s) && p in s.blocklist && !Suppressed(p, s.whitelist) && p.Contains(a)
    ensures BlockedBy(s, a) && !Covers(s.whitelist, a)
  {
    assert Covers(s.blocklist, a);
    SuppressionIsSharedAddress(p, s.whitelist);
  }

  // ---- exactly when a mutation announces what is still whitelisted ----

  /** The mutation takes the last entry off the whitelist that keeps some live blocked prefix
      from being announced. */
  predicate Uncovers(s: State, m: Mutation, now: Time)
    requires Acceptable(m)
  {
    var w := CanonicalPrefix(m.prefix).value;
    && m.list == Whitelist && OperationOf(m.action) == Remove
    && exists p <- s.blocklist ::
         !Expired(p, s.expirations, now) && Suppressed(p, s.whitelist) && !Suppressed(p, Without(s.whitelist, {w}))
  }

  lemma ProposedLists(s: State, m: Mutation)
    requires Consistent(s) && Acceptable(m)
    ensures
      var w, t := CanonicalPrefix(m.prefix).value, Proposal(s, m);
      && t.expirations == s.expirations
      && (if m.list == Whitelist && OperationOf(m.action) == Remove
          then t.blocklist == s.blocklist && t.whitelist == Without(s.whitelist, {w})
          else s.whitelist <= t.whitelist)
  {
    var w := CanonicalPrefix(m.prefix).value;
    if m.list == Whitelist && OperationOf(m.action) == Remove {
      if w in s.whitelist {
        DeletedList(s.whitelist, w);
      } else {
        WithoutUntouched(s.whitelist, w);
      }
    }
  }

  lemma SuppressedByMore(p: Prefix, whitelist: seq<Prefix>, more: seq<Prefix>)
    requires Suppressed(p, whitelist) && whitelist <= more
    ensures Suppressed(p, more)
  {
    var w :| w in whitelist && Overlaps(p, w);
    assert w in more;
  }

  /** A proposed table holds something still whitelisted exactly when the mutation uncovers it. */
  lemma ProposedClearExactly(s: State, m: Mutation, now: Time)
    requires Consistent(s) && Acceptable(m)
    ensures (forall p <- EffectiveOf(Proposal(s, m), now) :: !Suppressed(p, s.whitelist)) <==> !Uncovers(s, m, now)
  {
    ProposedLists(s, m);
    var t := Proposal(s, m);
    hide Suppressed, Proposal, Consistent;
    if Uncovers(s, m, now) {
      var w := CanonicalPrefix(m.prefix).value;
      var p :| p in s.blocklist && !Expired(p, s.expirations, now) && Suppressed(p, s.whitelist)
               && !Suppressed(p, Without(s.whitelist, {w}));
      assert p in EffectiveOf(t, now);
    } else if p :| p in EffectiveOf(t, now) && Suppressed(p, s.whitelist) {
      if s.whitelist <= t.whitelist {
        SuppressedByMore(p, s.whitelist, t.whitelist);
      }
      assert false;
    }
  }

  /** Whatever its calls and its undo calls do: every table that a mutation can put in the
      engine is clear of the stored whitelist exactly when it uncovers nothing. */
  lemma ClearInsideExactly(hops: NextHops, s: Sys, m: Mutation, at: Times)
    requires Safe(hops, s) && Consistent(s.store) && Acceptable(m)
    ensures
      var low, high := Kept(s.active.Keys, s.store, m, at), Touched(s.active.Keys, s.store, m, at);
      (forall rib, p | Between(rib, low, high, hops) && p in rib :: !Suppressed(p, s.store.whitelist))
      <==> !Uncovers(s.store, m, at.second)
  {
    ProposedClearExactly(s.store, m, at.second);
    var low, high := Kept(s.active.Keys, s.store, m, at), Touched(s.active.Keys, s.store, m, at);
    if Uncovers(s.store, m, at.second) {
      var p :| p in EffectiveOf(Proposal(s.store, m), at.second) && Suppressed(p, s.store.whitelist);
      var rib := Table(high, hops);
      assert Between(rib, low, high, hops) && p in rib;
    }
  }

  /** And it does happen: once the store has been asked, the tables that the engine has
      carried since the start were all clear exactly when the mutation uncovers nothing. */
  lemma ClearOnceStoredExactly(hops: NextHops, s: Sys, m: Mutation, at: Times, before: seq<Routes>, after: seq<Routes>)
    requires Safe(hops, s) && Consistent(s.store) && Acceptable(m)
    requires RibsWithin(before, after, Kept(s.active.Keys, s.store, m, at), Touched(s.active.Keys, s.store, m, at),
        hops)
    requires Carried(s.rib, before, after, Proposed(hops, s.store, m, at))
    ensures (forall rib <- after[|before|..], p <- rib :: !Suppressed(p, s.store.whitelist))
      <==> !Uncovers(s.store, m, at.second)
  {
    ProposedClearExactly(s.store, m, at.second);
    var made := after[|before|..];
    if Uncovers(s.store, m, at.second) {
      var proposed := Proposed(hops, s.store, m, at);
      var p :| p in EffectiveOf(Proposal(s.store, m), at.second) && Suppressed(p, s.store.whitelist);
      assert p in proposed && proposed != s.rib && proposed in made;
    } else {
      ClearInsideExactly(hops, s, m, at);
      forall rib <- made, p <- rib ensures !Suppressed(p, s.store.whitelist) {
        var i :| 0 <= i < |made| && made[i] == rib;
        assert rib == after[|before| + i];
      }
    }
  }

  /** The least case: a block taken off the whitelist. By the time the store is asked, while
      the stored whitelist still covers it, the engine has announced it. */
  lemma AnnouncedBeforeStored(hops: NextHops, p: Prefix, at: Times, queue: QueueState,
                              before: seq<Routes>, after: seq<Routes>)
    requires p.Canonical()
    ensures
      var s, m := State([p], [p], map[], []), Mutation(RemoveAction, Whitelist, Text(p), None);
      && Consistent(s) && Acceptable(m) && WellFormed(m) && Safe(hops, Sys(s, map[], map[], queue))
      && EffectiveOf(s, at.first) == {} && EffectiveOf(Proposal(s, m), at.second) == {p}
      && !BlockedBy(s, p.addr)
      && (Carried(map[], before, after, Proposed(hops, s, m, at)) ==> exists rib <- after[|before|..] :: p in rib)
  {
    var s, m := State([p], [p], map[], []), Mutation(RemoveAction, Whitelist, Text(p), None);
    assert p.Contains(p.addr) && Overlaps(p, p) && p in s.whitelist;
    assert IndexOf([p], p) == 0 && DeleteAt([p], 0) == [];
    assert p in EffectiveOf(Proposal(s, m), at.second);
    assert p in Proposed(hops, s, m, at);
  }

  /** Two blocked prefixes behind a whitelisted one, and the removal of that one. */
  function TwoBehind(p: Prefix, q: Prefix, w: Prefix, queue: QueueState): Sys {
    Sys(State([p, q], [w], map[], []), map[], map[], queue)
  }

  function Unlist(w: Prefix): Mutation {
    Mutation(RemoveAction, Whitelist, Text(w), None)
  }

  /** The removal reaches the store, over a table that is empty. */
  lemma UnlistChanges(hops: NextHops, p: Prefix, q: Prefix, w: Prefix, queue: QueueState)
    requires p.Canonical() && q.Canonical() && w.Canonical() && p != q
    ensures
      var s, m := TwoBehind(p, q, w, queue), Unlist(w);
      && Safe(hops, s) && Consistent(s.store) && Acceptable(m) && WellFormed(m) && Changes(s.store, m)
      && Proposal(s.store, m) == State([p, q], [], map[], [])
  {
    var s, m := TwoBehind(p, q, w, queue).store, Unlist(w);
    assert w in s.whitelist;
    assert DeleteAt([w], IndexOf([w], w)) == [];
  }

  /** And uncovers them. */
  lemma UnlistUncovers(p: Prefix, q: Prefix, w: Prefix, at: Times, queue: QueueState)
    requires Acceptable(Unlist(w)) && CanonicalPrefix(Text(w)) == Some(w) && Overlaps(p, w) && Overlaps(q, w)
    ensures
      var s := TwoBehind(p, q, w, queue).store;
      && Uncovers(s, Unlist(w), at.second) && Suppressed(p, s.whitelist)
      && EffectiveOf(s, at.first) == {}
    ensures EffectiveOf(State([p, q], [], map[], []), at.second) == {p, q}
  {
    var s := TwoBehind(p, q, w, queue).store;
    assert w in s.whitelist && p in s.blocklist;
    assert Suppressed(p, s.whitelist) && Suppressed(q, s.whitelist);
    assert Without([w], {w}) == [];
    hide Overlaps;
    assert !Suppressed(p, []) && !Suppressed(q, []);
  }

  /** The first of the two is announced, the second refused, and so is the undo of the first:
      the store still has the whitelist entry, and the route stays. */
  lemma RefusedUndoLeavesRoute(hops: NextHops, p: Prefix, q: Prefix, w: Prefix, at: Times, queue: QueueState)
    requires p.Canonical() && q.Canonical() && w.Canonical() && p != q && Overlaps(p, w) && Overlaps(q, w)
    ensures
      var s, m, up := TwoBehind(p, q, w, queue), Unlist(w), Table({p}, hops);
      var s' := s.(rib := up);
      && Safe(hops, s) && Consistent(s.store) && Acceptable(m) && WellFormed(m) && Uncovers(s.store, m, at.second)
      && RibsWithin([], [up, up, up], Kept({}, s.store, m, at), Touched({}, s.store, m, at), hops)
      && LockedStep(hops, s, m, at, Outcome.EngineFailed, false, s')
      && Suppressed(p, s'.store.whitelist) && !Safe(hops, s')
  {
    UnlistChanges(hops, p, q, w, queue);
    UnlistUncovers(p, q, w, at, queue);
    hide EffectiveOf, Proposal, Suppressed, Uncovers, Changes, Consistent, Overlaps, WellFormed, Acceptable;
    assert p in Table({p}, hops);
  }

  /** Whatever earlier refusals have left in the engine: after a mutation that is applied, its
      table is clear of the whitelist exactly when none of the routes that it carried and the
      controller's table did not overlaps it. */
  lemma LeftoversExactly(hops: NextHops, s: Sys, m: Mutation, at: Times, undone: bool, s': Sys)
    requires LockedStep(hops, s, m, at, Outcome.Applied, undone, s') && WellFormed(m) && Consistent(s.store)
    requires s'.rib == Moved(s.rib, s.active.Keys, s'.active.Keys, hops)
    ensures (forall p <- s'.rib :: !Suppressed(p, s'.store.whitelist))
      <==> forall p <- s.rib.Keys - s.active.Keys :: !Suppressed(p, s'.store.whitelist)
  {
    ProposalIsStored(s.store, m, at.third);
    var desired := EffectiveOf(Proposal(s.store, m), at.second);
    assert s'.active.Keys == desired;
    assert forall p <- desired :: !Suppressed(p, s'.store.whitelist);
    hide EffectiveOf, Suppressed, Proposal, Wants, LockedStep, Consistent;
    var announced := desired - s.active.Keys;
    assert forall p :: p in Table(announced, hops) <==> p in announced;
    assert forall p :: p in s'.rib <==> (p in s.rib && p !in s.active.Keys - desired) || p in announced;
  }

  /** And it happens: the route that a refused undo has left, once its prefix is off the
      blocklist, stays announced through the whitelisting of that very prefix. */
  lemma LeftoverOutlivesWhitelisting(hops: NextHops, p: Prefix, queue: QueueState, at: Times)
    returns (s': Sys)
    requires p.Canonical() && at.third != ZERO_TIME
    ensures
      var s, m := Sys(EMPTY, map[], Table({p}, hops), queue), Mutation(AddAction, Whitelist, Text(p), None);
      && LockedStep(hops, s, m, at, Outcome.Applied, true, s') && WellFormed(m) && Consistent(s.store)
      && !Uncovers(s.store, m, at.second) && s'.rib == Moved(s.rib, s.active.Keys, s'.active.Keys, hops)
      && s'.active == s.active && p in s'.rib && Suppressed(p, s'.store.whitelist)
  {
    var s, m := Sys(EMPTY, map[], Table({p}, hops), queue), Mutation(AddAction, Whitelist, Text(p), None);
    assert p.Masked() == p && Overlaps(p, p) && Acceptable(m);
    ProposalIsStored(s.store, m, at.third);
    var t := Wants(s.store, m, at.third).value;
    assert p in t.whitelist;
    assert EffectiveOf(Proposal(s.store, m), at.second) == {};
    s' := Sys(t, map[], s.rib, Published(queue, m));
  }

  /** After a sweep, as ApplyExpired promises it, whether it has ended early or not: no prefix
      it removed is left in the engine, and everything announced is still blocked and off
      the whitelist. */
  lemma SweptPrefixesAreNotAnnounced(hops: NextHops, t: Trace, before: Sys, after: Sys, gone: seq<Prefix>,
                                     now: Time, ok: bool)
    requires Leads(hops, t, before, after) && AllArrive(t) && SweepResult(before.store, gone, now, ok, after.store)
    requires Safe(hops, before) && Consistent(before.store)
    ensures Members(gone) !! after.rib.Keys && Safe(hops, after)
  {
    RunIsSafe(hops, t, |t.events|);
  }

  /** The sweep keeps the order of what it leaves. */
  lemma {:induction false} SweepKeepsOrder(prefixes: seq<Prefix>, gone: set<Prefix>, p: Prefix, q: Prefix)
    requires NoDuplicates(prefixes) && p in prefixes && q in prefixes && p !in gone && q !in gone
    ensures p in Without(prefixes, gone) && q in Without(prefixes, gone)
    ensures IndexOf(prefixes, p) < IndexOf(prefixes, q) <==>
            IndexOf(Without(prefixes, gone), p) < IndexOf(Without(prefixes, gone), q)
  {
    var rest := prefixes[1..];
    assert prefixes == [prefixes[0]] + rest;
    if p != prefixes[0] && q != prefixes[0] {
      SweepKeepsOrder(rest, gone, p, q);
      if prefixes[0] !in gone {
        assert Without(prefixes, gone)[1..] == Without(rest, gone);
      }
    } else {
      assert Without(prefixes, gone)[0] == prefixes[0];
    }
  }

  // ---- full recomputation and the incremental update ----

  /** Without expiries, taking a feed's difference to the table gives the table of the
      new lists exactly when the whitelist overlaps none of the added prefixes. */
  lemma IncrementalIsFullRecompute(old_: seq<Prefix>, new_: seq<Prefix>, whitelist: seq<Prefix>,
                                   added: set<Prefix>, removed: set<Prefix>, now: Time)
    requires forall p :: p in new_ <==> (p in old_ && p !in removed) || p in added
    ensures (Effective(old_, whitelist, map[], now) - removed) + added == Effective(new_, whitelist, map[], now)
      <==> forall p <- added :: !Suppressed(p, whitelist)
  {
    var incremental := (Effective(old_, whitelist, map[], now) - removed) + added;
    var full := Effective(new_, whitelist, map[], now);
    if p :| p in added && Suppressed(p, whitelist) {
      assert p in incremental && p !in full;
    } else {
      assert forall p :: p in incremental <==> p in full;
    }
  }
}
