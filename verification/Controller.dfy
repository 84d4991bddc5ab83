/** The policy controller of internal/runtime/policy.go, over a file-backed or
    in-memory store: it moves the routing table and the store together and undoes by
    hand what it has done when either of them refuses. */
module Controller {
  import opened Basics
  import opened Cidr
  import opened PolicyStore
  import opened PolicyStoreLaws
  import opened Mutations
  import opened Queue
  import opened Routing
  import opened Delta

  class Clock {
    var now: Time

    method Read() returns (t: Time)
      requires now > ZERO_TIME
      modifies this
      ensures old(now) <= t == now
    {
      var elapsed :| 0 <= elapsed;
      now := now + elapsed;
      t := now;
    }
  }

  // ---- what a mutation asks for ----

  predicate Acceptable(m: Mutation) {
    CanonicalPrefix(m.prefix).Some? && m.list != UnknownList && m.action != UnknownAction
  }

  /** What the controller accepts is what the store does not refuse. */
  lemma AcceptableExactly(s: State, m: Mutation)
    ensures WellFormed(m) ==> forall now :: Acceptable(m) <==> Wants(s, m, now).Ok?
  {
    forall now ensures WellFormed(m) ==> (Acceptable(m) <==> Wants(s, m, now).Ok?) {
      if WellFormed(m) {
        WantedExactly(s, m, now);
      }
    }
  }

  /** The controller's own test of whether a mutation changes anything. */
  predicate Changes(s: State, m: Mutation)
    requires Acceptable(m)
  {
    var p := CanonicalPrefix(m.prefix).value;
    if OperationOf(m.action) == Remove then p in s.Listed(m.list)
    else if p !in s.Listed(m.list) then true
    else if m.expiresAt.None? then false
    else p !in s.expirations || s.expirations[p] != m.expiresAt.value
  }

  /** The lists the routes are computed from: the mutation made, the expiries as they were. */
  function Proposal(s: State, m: Mutation): State
    requires Acceptable(m)
  {
    var p := CanonicalPrefix(m.prefix).value;
    var target := s.Listed(m.list);
    if OperationOf(m.action) == Add then
      if p in target then s else s.WithList(m.list, target + [p])
    else
      if p in target then s.WithList(m.list, DeleteAt(target, IndexOf(target, p))) else s
  }

  datatype Outcome = Rejected | Unchanged | EngineFailed | StoreFailed | Applied

  /** The three clock readings of one mutation. */
  datatype Times = Times(first: Time, second: Time, third: Time)

  /** The prefixes that each of the three tables of one mutation holds: the controller's, the
      one before, computed first, and the one proposed. */
  function Kept(active: set<Prefix>, s: State, m: Mutation, at: Times): set<Prefix>
    requires Acceptable(m)
  {
    active * EffectiveOf(s, at.first) * EffectiveOf(Proposal(s, m), at.second)
  }

  /** The prefixes that at least one of them holds. */
  function Touched(active: set<Prefix>, s: State, m: Mutation, at: Times): set<Prefix>
    requires Acceptable(m)
  {
    active + EffectiveOf(s, at.first) + EffectiveOf(Proposal(s, m), at.second)
  }

  /** The table that the engine is to carry before the store is asked. */
  function Proposed(hops: NextHops, s: State, m: Mutation, at: Times): Routes
    requires Acceptable(m)
  {
    Table(EffectiveOf(Proposal(s, m), at.second), hops)
  }

  datatype Sys = Sys(store: State, active: Routes, rib: Routes, queue: QueueState)

  /** What a mutation does to the store, the controller's table and the queue. The
      table after a failed write is what it should be only if the undo worked. */
  ghost predicate LockedStep(hops: NextHops, s: Sys, m: Mutation, at: Times, outcome: Outcome, undone: bool, s': Sys) {
    match outcome
    case Rejected =>
      !Acceptable(m) && s'.store == s.store && s'.active == s.active && s'.queue == s.queue
    case Unchanged =>
      && Acceptable(m) && !Changes(s.store, m)
      && s'.store == s.store && s'.active == s.active && s'.queue == s.queue
    case EngineFailed =>
      && Acceptable(m) && Changes(s.store, m)
      && s'.store == s.store && s'.active == s.active && s'.queue == s.queue
    case StoreFailed =>
      && Acceptable(m) && Changes(s.store, m)
      && s'.store == s.store && s'.queue == s.queue
      && s'.active == Table(if undone then EffectiveOf(s.store, at.first)
                            else EffectiveOf(Proposal(s.store, m), at.second), hops)
    case Applied =>
      && Acceptable(m) && Changes(s.store, m)
      && Wants(s.store, m, at.third) == PolicyStore.Ok(s'.store)
      && s'.active == Table(EffectiveOf(Proposal(s.store, m), at.second), hops)
      && s'.queue == Published(s.queue, m)
  }

  /** The table is in step with the controller before and after, and everything between
      is a reconciliation or a mutation. */
  datatype Event =
    | Reconciled(now: Time, ok: bool)
    | Mutated(m: Mutation, at: Times, outcome: Outcome)

  /** A mutation that the dashboard or the sweep can have made, at a time that is set. */
  ghost predicate Arrives(e: Event) {
    e.Mutated? ==> WellFormed(e.m) && e.at.third != ZERO_TIME
  }

  ghost predicate Step(hops: NextHops, s: Sys, e: Event, s': Sys) {
    && s.rib == s.active && s'.rib == s'.active
    && match e
       case Reconciled(now, ok) =>
         s' == if ok then s.(active := Table(EffectiveOf(s.store, now), hops), rib := s'.rib) else s
       case Mutated(m, at, outcome) =>
         LockedStep(hops, s, m, at, outcome, true, s')
  }

  datatype Trace = Trace(states: seq<Sys>, events: seq<Event>)

  ghost predicate AllArrive(t: Trace) {
    forall e <- t.events :: Arrives(e)
  }

  /** states[i] becomes states[i + 1] by events[i]. */
  ghost predicate IsRun(hops: NextHops, t: Trace) {
    && |t.states| == |t.events| + 1
    && forall i :: 0 <= i < |t.events| ==> Step(hops, t.states[i], t.events[i], t.states[i + 1])
  }

  ghost predicate Leads(hops: NextHops, t: Trace, s: Sys, s': Sys) {
    IsRun(hops, t) && t.states[0] == s && t.states[|t.events|] == s'
  }

  lemma LeadsFurther(hops: NextHops, t: Trace, s: Sys, s': Sys, e: Event, s'': Sys)
    requires Leads(hops, t, s, s') && Step(hops, s', e, s'')
    ensures Leads(hops, Trace(t.states + [s''], t.events + [e]), s, s'')
  {
    var t' := Trace(t.states + [s''], t.events + [e]);
    forall i | 0 <= i < |t'.events| ensures Step(hops, t'.states[i], t'.events[i], t'.states[i + 1]) {
      assert i < |t.events| ==> t'.events[i] == t.events[i];
    }
  }

  function Removal(p: Prefix): Mutation {
    Mutation(RemoveAction, Blocklist, Text(p), None)
  }

  /** The log grew by one blocklist removal for each of the prefixes, in order. */
  ghost predicate LogsRemovals(before: seq<AuditEvent>, after: seq<AuditEvent>, gone: seq<Prefix>) {
    && |after| == |before| + |gone| && before <= after
    && forall i :: |before| <= i < |after| ==>
      after[i].time != ZERO_TIME && after[i] == AuditEvent(after[i].time, Remove, Blocklist, gone[i - |before|])
  }

  lemma LogsOneMore(first: seq<AuditEvent>, before: seq<AuditEvent>, after: seq<AuditEvent>, gone: seq<Prefix>,
      p: Prefix)
    requires LogsRemovals(first, before, gone) && LogsRemovals(before, after, [p])
    ensures LogsRemovals(first, after, gone + [p])
  {
  }

  /** What removing the given blocklist prefixes one by one does to a store. */
  ghost predicate Swept(before: State, gone: seq<Prefix>, after: State) {
    && after.blocklist == Without(before.blocklist, Members(gone))
    && after.whitelist == before.whitelist
    && after.expirations == before.expirations - Members(gone)
    && LogsRemovals(before.audit, after.audit, gone)
  }

  function Members(prefixes: seq<Prefix>): set<Prefix> {
    set p <- prefixes
  }

  lemma SweptNone(s: State)
    ensures Swept(s, [], s)
  {
    WithoutNone(s.blocklist);
    assert Members([]) == {};
    assert s.expirations - {} == s.expirations;
  }

  lemma SweptOneMore(first: State, gone: seq<Prefix>, before: State, p: Prefix, after: State)
    requires Swept(first, gone, before) && Swept(before, [p], after)
    ensures Swept(first, gone + [p], after)
  {
    assert Members(gone + [p]) == Members(gone) + {p};
    assert Members([p]) == {p};
    WithoutTwice(first.blocklist, Members(gone), {p});
    LogsOneMore(first.audit, before.audit, after.audit, gone, p);
    assert (first.expirations - Members(gone)) - {p} == first.expirations - (Members(gone) + {p});
  }

  lemma RemovalSweeps(hops: NextHops, before: State, p: Prefix, at: Times, after: State)
    requires Consistent(before) && p in before.expirations && at.third != ZERO_TIME
    ensures Acceptable(Removal(p)) && Changes(before, Removal(p))
    ensures Wants(before, Removal(p), at.third) == PolicyStore.Ok(after) ==>
      Swept(before, [p], after) && Consistent(after)
    ensures EffectiveOf(Proposal(before, Removal(p)), at.second) <= Members(Without(before.blocklist, {p}))
    ensures EffectiveOf(before, at.first) <= Members(before.blocklist)
    ensures Members(Without(before.blocklist, {p})) <= Members(before.blocklist)
  {
    assert p.Canonical() && p in before.blocklist;
    DeletedList(before.blocklist, p);
    assert Members([p]) == {p};
    CallKeepsConsistency(before, MutateCall(Remove, Blocklist, p, at.third));
  }

  /** The sweep has dealt with the visited expiries. */
  ghost predicate SweptSoFar(first: State, gone: seq<Prefix>, s: State, visited: set<Prefix>, now: Time) {
    && Swept(first, gone, s) && NoDuplicates(gone)
    && Members(gone) == Expiries(first.expirations, visited, now)
  }

  lemma SweepSkips(first: State, gone: seq<Prefix>, s: State, visited: set<Prefix>, now: Time, p: Prefix)
    requires SweptSoFar(first, gone, s, visited, now) && !Expired(p, first.expirations, now)
    ensures SweptSoFar(first, gone, s, visited + {p}, now)
  {
    assert Expiries(first.expirations, visited + {p}, now) == Expiries(first.expirations, visited, now);
  }

  lemma SweepTakes(first: State, gone: seq<Prefix>, before: State, visited: set<Prefix>, now: Time, p: Prefix,
      after: State)
    requires SweptSoFar(first, gone, before, visited, now) && p !in visited && Expired(p, first.expirations, now)
    requires Swept(before, [p], after)
    ensures SweptSoFar(first, gone + [p], after, visited + {p}, now)
  {
    SweptOneMore(first, gone, before, p, after);
    assert Members(gone + [p]) == Members(gone) + {p};
    assert Expiries(first.expirations, visited + {p}, now) == Expiries(first.expirations, visited, now) + {p};
    assert p !in Members(gone);
  }

  lemma SweepStillHolds(first: State, gone: seq<Prefix>, s: State, visited: set<Prefix>, now: Time, p: Prefix)
    requires SweptSoFar(first, gone, s, visited, now)
    requires p in first.expirations && p !in visited && Expired(p, first.expirations, now)
    ensures p in s.expirations
  {
    assert p !in Expiries(first.expirations, visited, now);
  }

  lemma SweepKeepsConsistency(first: State, gone: seq<Prefix>, s: State, visited: set<Prefix>, now: Time)
    requires Consistent(first) && SweptSoFar(first, gone, s, visited, now)
    ensures Consistent(s)
  {
    WithoutKeepsDistinct(first.blocklist, Members(gone));
    forall e <- s.audit ensures ValidEvent(e) && e.prefix.Canonical() {
      var i :| 0 <= i < |s.audit| && s.audit[i] == e;
      if i < |first.audit| {
        assert e == first.audit[i] && e in first.audit;
      } else {
        assert e.prefix in Members(gone);
        assert e.prefix in first.expirations;
      }
    }
  }

  /** What a sweep has done to a store: some of the expired prefixes are gone, in an order
      of their own, and after a success all of them. */
  ghost predicate SweepResult(before: State, gone: seq<Prefix>, now: Time, ok: bool, after: State) {
    var expired := Expiries(before.expirations, before.expirations.Keys, now);
    && Consistent(after) && Swept(before, gone, after) && NoDuplicates(gone)
    && Members(gone) <= expired
    && (ok ==> Members(gone) == expired && forall p <- after.expirations :: after.expirations[p] > now)
  }

  /** Where a sweep stands, and, if everything that failed was undone, how it got there. */
  ghost predicate SweepRun(hops: NextHops, start: Sys, gone: seq<Prefix>, visited: set<Prefix>, now: Time,
                           trace: Trace, told: bool, s: Sys) {
    SweptSoFar(start.store, gone, s.store, visited, now) && (told ==> Leads(hops, trace, start, s) && AllArrive(trace))
  }

  lemma SweepStarts(hops: NextHops, start: Sys, now: Time, told: bool)
    ensures SweepRun(hops, start, [], {}, now, Trace([start], []), told, start)
  {
    SweptNone(start.store);
  }

  lemma SweepPasses(hops: NextHops, start: Sys, gone: seq<Prefix>, visited: set<Prefix>, now: Time,
                    trace: Trace, told: bool, s: Sys, p: Prefix)
    requires SweepRun(hops, start, gone, visited, now, trace, told, s) && !Expired(p, start.store.expirations, now)
    ensures SweepRun(hops, start, gone, visited + {p}, now, trace, told, s)
  {
    SweepSkips(start.store, gone, s.store, visited, now, p);
  }

  lemma SweepMoves(hops: NextHops, start: Sys, gone: seq<Prefix>, visited: set<Prefix>, now: Time,
                   trace: Trace, s: Sys, e: Event, told: bool, told': bool, s': Sys)
    requires SweepRun(hops, start, gone, visited, now, trace, told, s)
    requires told' ==> told && Step(hops, s, e, s') && Arrives(e)
    ensures
      var trace' := Trace(trace.states + [s'], trace.events + [e]);
      told' ==> Leads(hops, trace', start, s') && AllArrive(trace')
    ensures SweptSoFar(start.store, gone, s.store, visited, now)
  {
    if told' {
      LeadsFurther(hops, trace, start, s, e, s');
    }
  }

  lemma SweepEnds(hops: NextHops, start: Sys, gone: seq<Prefix>, visited: set<Prefix>, now: Time,
                  trace: Trace, told: bool, s: Sys)
    requires SweepRun(hops, start, gone, visited, now, trace, told, s)
    requires visited <= start.store.expirations.Keys && Consistent(start.store)
    ensures SweepResult(start.store, gone, now, visited == start.store.expirations.Keys, s.store)
    ensures SweepResult(start.store, gone, now, false, s.store)
    ensures told ==> Leads(hops, trace, start, s) && AllArrive(trace)
    ensures forall p <- gone :: p in start.store.expirations && start.store.expirations[p] <= now
  {
    assert forall p <- gone :: p in Members(gone);
    SweepKeepsConsistency(start.store, gone, s.store, visited, now);
  }

  function Expiries(expirations: map<Prefix, Time>, visited: set<Prefix>, now: Time): set<Prefix> {
    set p | p in visited && Expired(p, expirations, now)
  }

  /** The prefixes in the table after a batch in which nothing is refused. */
  function Batched(list: List, active: set<Prefix>, added: set<Prefix>, removed: set<Prefix>): set<Prefix> {
    if list == Blocklist then (active - removed) + added else active
  }

  function Parsed(texts: seq<PrefixText>): set<Prefix> {
    set t | t in texts && ParsePrefix(t).Some? :: ParsePrefix(t).value
  }

  /** Some text of the list spells the prefix. */
  ghost predicate Names(texts: seq<PrefixText>, p: Prefix) {
    exists t <- texts :: t.Spelled? && t.prefix == p
  }

  lemma ParsedIsNamed(texts: seq<PrefixText>)
    ensures forall p: Prefix | p.Valid() :: p in Parsed(texts) <==> Names(texts, p)
  {
  }

  lemma ParsedGrows(texts: seq<PrefixText>, i: nat)
    requires i < |texts|
    ensures Parsed(texts[..i + 1]) ==
            Parsed(texts[..i]) + (if ParsePrefix(texts[i]).Some? then {ParsePrefix(texts[i]).value} else {})
  {
    assert texts[..i + 1] == texts[..i] + [texts[i]];
  }

  class PolicyController {
    const store: Store
    const engine: Engine
    const queue: PolicyQueue
    const clock: Clock
    const hops: NextHops
    const dryRun: bool
    var active: Routes
    var wake: bool

    ghost predicate Valid()
      reads this, clock
    {
      active == Table(active.Keys, hops) && clock.now > ZERO_TIME
    }

    ghost predicate InSync()
      reads this, engine
    {
      engine.rib == active
    }

    ghost function Value(): Sys
      reads this, engine, queue, store
    {
      Sys(store.Value(), active, engine.rib, queue.Value())
    }

    constructor (store: Store, engine: Engine, queue: PolicyQueue, clock: Clock, hops: NextHops, dryRun: bool)
      requires clock.now > ZERO_TIME
      ensures Valid() && active == map[] && !wake
      ensures this.store == store && this.engine == engine && this.queue == queue && this.clock == clock
      ensures this.hops == hops && this.dryRun == dryRun
    {
      this.store, this.engine, this.queue, this.clock := store, engine, queue, clock;
      this.hops, this.dryRun := hops, dryRun;
      active, wake := map[], false;
    }

    method Shift(desired: Routes, ghost low: set<Prefix>, ghost high: set<Prefix>)
      returns (ok: bool, ghost undone: bool)
      requires Valid() && desired == Table(desired.Keys, hops)
      requires low <= active.Keys * desired.Keys && active.Keys + desired.Keys <= high
      modifies this`active, engine
      ensures active == if ok then desired else old(active)
      ensures Stayed(engine, old(active).Keys * desired.Keys, old(active).Keys + desired.Keys, hops)
      ensures !ok ==> Refused(engine)
      ensures !ok && !undone ==> RefusedTwice(engine)
      ensures ok ==>
        && OneCallEach(old(engine.calls), engine.calls, old(active).Keys, desired.Keys, hops)
        && engine.rib == Moved(old(engine.rib), old(active).Keys, desired.Keys, hops)
      ensures old(InSync()) && (ok || undone) ==> InSync()
      ensures old(InSync()) ==> RibsWithin(old(engine.ribs), engine.ribs, low, high, hops)
      ensures old(InSync()) && ok ==> Carried(old(engine.rib), old(engine.ribs), engine.ribs, desired)
    {
      ghost var withdrawn, announced, ribs, keys := [], [], engine.ribs, active.Keys;
      ok, withdrawn, announced, undone := ApplyDelta(engine, active, desired, hops);
      if old(InSync()) {
        RibsWiden(ribs, engine.ribs, keys * desired.Keys, keys + desired.Keys, low, high, hops);
        assert engine.ribs != ribs ==> engine.ribs[|ribs|..][|engine.ribs| - |ribs| - 1] == engine.rib;
      }
      if ok {
        active := desired;
      }
    }

    method Routes(now: Time) returns (routes: Routes)
      ensures routes == Table(EffectiveOf(store.Value(), now), hops)
    {
      routes := EffectiveRoutes(store.blocklist, store.whitelist, store.expirations, now, hops);
    }

    method Reconcile(now: Time) returns (ok: bool, ghost undone: bool)
      requires Valid()
      modifies this`active, engine
      ensures Valid()
      ensures dryRun ==> ok && active == old(active) && engine.rib == old(engine.rib)
      ensures !dryRun ==> active == if ok then Table(EffectiveOf(store.Value(), now), hops) else old(active)
      ensures dryRun ==> engine.calls == old(engine.calls)
      ensures !dryRun && ok ==>
        && OneCallEach(old(engine.calls), engine.calls, old(active).Keys, active.Keys, hops)
        && engine.rib == Moved(old(engine.rib), old(active).Keys, active.Keys, hops)
      ensures old(InSync()) && (ok || undone) ==> InSync()
      ensures (ok ==> undone) && (!ok ==> Refused(engine)) && (!undone ==> RefusedTwice(engine))
    {
      if dryRun {
        return true, true;
      }
      var desired := Routes(now);
      ok, undone := Shift(desired, active.Keys * desired.Keys, active.Keys + desired.Keys);
      undone := undone || ok;
    }

    /** The routes of other lists, with the stored expiries, as the clock now stands. */
    method ProposedRoutes(blocklist: seq<Prefix>, whitelist: seq<Prefix>) returns (second: Time, routes: Routes)
      requires clock.now > ZERO_TIME
      modifies clock
      ensures old(clock.now) <= second == clock.now
      ensures routes == Table(Effective(blocklist, whitelist, store.expirations, second), hops)
    {
      second := clock.Read();
      routes := EffectiveRoutes(blocklist, whitelist, store.expirations, second, hops);
    }

    /** Edits copies of the lists and says whether the mutation changes anything. */
    method Consider(m: Mutation) returns (changed: bool, blocklist: seq<Prefix>, whitelist: seq<Prefix>)
      requires Acceptable(m)
      ensures changed == Changes(store.Value(), m)
      ensures blocklist == Proposal(store.Value(), m).blocklist
      ensures whitelist == Proposal(store.Value(), m).whitelist
    {
      var prefix := ParsePrefix(m.prefix).value;
      blocklist, whitelist := store.blocklist, store.whitelist;
      var target := if m.list == Whitelist then whitelist else blocklist;
      var index := IndexOf(target, prefix);
      changed := false;
      match m.action {
        case AddAction | ReplaceAction =>
          if index < 0 {
            target, changed := target + [prefix], true;
          } else if m.expiresAt.Some? {
            changed := prefix !in store.expirations || store.expirations[prefix] != m.expiresAt.value;
          }
        case RemoveAction | DeleteAction =>
          if index >= 0 {
            target, changed := DeleteAt(target, index), true;
          }
      }
      if m.list == Whitelist {
        whitelist := target;
      } else {
        blocklist := target;
      }
    }

    /** How the file stands after a mutation. */
    ghost predicate FileFollows(before: State, diskBefore: Option<DiskState>, want: PolicyStore.Result<State>,
        outcome: Outcome)
      reads store, store.file
    {
      match outcome
      case Applied =>
        store.Disk() ==
          if store.file == null || store.Value() == before then diskBefore else Some(ToDisk(store.Value()))
      case StoreFailed =>
        store.Disk() == diskBefore || (want.Ok? && store.Disk() == Some(ToDisk(want.value)))
      case _ =>
        store.Disk() == diskBefore
    }

    /** After every single engine call of a mutation, whatever fails, the engine's table holds
        what all three tables hold and nothing that none of them does; and once the store
        is asked, the engine has carried the proposed table. */
    twostate predicate Passes(m: Mutation, at: Times, outcome: Outcome)
      reads this, engine, store
    {
      old(InSync()) ==>
        if Acceptable(m) then
          && RibsWithin(old(engine.ribs), engine.ribs, Kept(old(active.Keys), old(store.Value()), m, at),
                        Touched(old(active.Keys), old(store.Value()), m, at), hops)
          && (outcome == StoreFailed || outcome == Applied ==>
              Carried(old(engine.rib), old(engine.ribs), engine.ribs, Proposed(hops, old(store.Value()), m, at)))
        else engine.ribs == old(engine.ribs)
    }

    /** What each outcome says about the calls that were made and refused. Only a second
        refusal can leave the engine out of step. */
    twostate predicate Accounts(want: PolicyStore.Result<State>, outcome: Outcome, undone: bool)
      reads this, engine, store, store.file
    {
      && old(engine.calls) <= engine.calls && old(FileFailures()) <= FileFailures()
      && (!undone ==> Refused(engine))
      && (old(InSync()) && !RefusedTwice(engine) ==> InSync())
      && match outcome
         case EngineFailed => Refused(engine) && (!undone ==> RefusedTwice(engine))
         case StoreFailed => want.Err? || FileFailures() > old(FileFailures())
         case Applied => undone
         case _ => undone && engine.rib == old(engine.rib) && engine.calls == old(engine.calls)
    }

    /** How often writing the store's file has failed. */
    ghost function FileFailures(): nat
      reads store.file
    {
      if store.file == null then 0 else store.file.failures
    }

    /** The second half of a mutation, with the engine moved: the store, and then the queue
        and the wake token, or the engine taken back. */
    method Record(m: Mutation, before: Routes, ghost low: set<Prefix>, ghost high: set<Prefix>)
      returns (outcome: Outcome, ghost undone: bool)
      requires Valid() && before == Table(before.Keys, hops)
      requires low <= active.Keys * before.Keys && active.Keys + before.Keys <= high
      modifies this, engine, queue, clock, store, store.file
      ensures Valid() && old(clock.now) <= clock.now
      ensures outcome == Applied || outcome == StoreFailed
      ensures outcome == Applied ==>
        && Wants(old(store.Value()), m, clock.now) == PolicyStore.Ok(store.Value())
        && active == old(active) && queue.Value() == Published(old(queue.Value()), m)
      ensures outcome == StoreFailed ==>
        && store.Value() == old(store.Value()) && queue.Value() == old(queue.Value())
        && active == if undone then before else old(active)
      ensures FileFollows(old(store.Value()), old(store.Disk()), Wants(old(store.Value()), m, clock.now), outcome)
      ensures Accounts(Wants(old(store.Value()), m, clock.now), outcome, undone)
      ensures outcome == Applied ==> engine.rib == old(engine.rib) && engine.calls == old(engine.calls)
      ensures old(InSync()) ==> RibsWithin(old(engine.ribs), engine.ribs, low, high, hops)
      ensures wake == (old(wake) || outcome == Applied)
      ensures old(InSync()) && undone ==> InSync()
    {
      hide EffectiveOf, Proposal, Wants, RibsWithin;
      var now := clock.Read();
      var persisted := Mutations.ApplyTo(store, m, now);
      if persisted.Err? {
        var ok;
        ok, undone := Shift(before, low, high);
        return StoreFailed, ok;
      }
      RibsUnmoved(engine.ribs, low, high, hops);
      queue.Publish(m);
      wake := true;
      return Applied, true;
    }

    /** Engine first, then the store; if the store refuses, the engine is taken back. */
    method Perform(m: Mutation, before: Routes, proposed: Routes, ghost first: Time, ghost second: Time)
      returns (outcome: Outcome, ghost at: Times, ghost undone: bool)
      requires Valid() && Acceptable(m) && Changes(store.Value(), m)
      requires before == Table(EffectiveOf(store.Value(), first), hops)
      requires proposed == Table(EffectiveOf(Proposal(store.Value(), m), second), hops)
      modifies this, engine, queue, clock, store, store.file
      ensures Valid() && at == Times(first, second, clock.now) && old(clock.now) <= clock.now
      ensures outcome != Rejected && outcome != Unchanged
      ensures LockedStep(hops, old(Value()), m, at, outcome, undone, Value())
      ensures FileFollows(old(store.Value()), old(store.Disk()), Wants(old(store.Value()), m, at.third), outcome)
      ensures Accounts(Wants(old(store.Value()), m, at.third), outcome, undone)
      ensures outcome == Applied ==>
        && OneCallEach(old(engine.calls), engine.calls, old(active).Keys, active.Keys, hops)
        && engine.rib == Moved(old(engine.rib), old(active).Keys, active.Keys, hops)
      ensures Passes(m, at, outcome)
      ensures wake == (old(wake) || outcome == Applied)
      ensures old(InSync()) && undone ==> InSync()
    {
      hide EffectiveOf, Proposal, Wants, Changes, RibsWithin, Carried, OneCallEach, Moved;
      var ok;
      ghost var rib, ribs := engine.rib, engine.ribs;
      ghost var low := Kept(active.Keys, store.Value(), m, Times(first, second, 0));
      ghost var high := Touched(active.Keys, store.Value(), m, Times(first, second, 0));
      ok, undone := Shift(proposed, low, high);
      if !ok {
        return EngineFailed, Times(first, second, clock.now), undone;
      }
      ghost var shifted := engine.ribs;
      outcome, undone := Record(m, before, low, high);
      at := Times(first, second, clock.now);
      if old(InSync()) {
        RibsJoin(ribs, shifted, engine.ribs, low, high, hops);
        RibsGrow(shifted, engine.ribs, low, high, hops);
        CarriedStill(rib, ribs, shifted, engine.ribs, proposed);
      }
    }

    method ApplyLocked(m: Mutation) returns (outcome: Outcome, ghost at: Times, ghost undone: bool)
      requires Valid()
      modifies this, engine, queue, clock, store, store.file
      ensures Valid()
      ensures old(clock.now) <= at.first <= at.second <= at.third == clock.now
      ensures LockedStep(hops, old(Value()), m, at, outcome, undone, Value())
      ensures FileFollows(old(store.Value()), old(store.Disk()), Wants(old(store.Value()), m, at.third), outcome)
      ensures Accounts(Wants(old(store.Value()), m, at.third), outcome, undone)
      ensures WellFormed(m) ==> (outcome == Rejected <==> Wants(old(store.Value()), m, at.third).Err?)
      ensures outcome == Applied ==>
        && OneCallEach(old(engine.calls), engine.calls, old(active).Keys, active.Keys, hops)
        && engine.rib == Moved(old(engine.rib), old(active).Keys, active.Keys, hops)
      ensures Passes(m, at, outcome)
      ensures wake == (old(wake) || outcome == Applied)
      ensures old(InSync()) && undone ==> InSync()
    {
      AcceptableExactly(store.Value(), m);
      hide Wants, WellFormed, Carried, OneCallEach, Moved;
      at, undone := Times(clock.now, clock.now, clock.now), true;
      var prefix := ParsePrefix(m.prefix);
      if prefix.None? || !prefix.value.Canonical() || m.list == UnknownList {
        return Rejected, at, true;
      }
      var first := clock.Read();
      at := Times(first, first, first);
      var before := Routes(first);
      if m.action == UnknownAction {
        return Rejected, at, true;
      }
      var changed, blocklist, whitelist := Consider(m);
      if !changed {
        return Unchanged, at, true;
      }
      var second, proposed := ProposedRoutes(blocklist, whitelist);
      assert Proposal(store.Value(), m).expirations == store.expirations;
      outcome, at, undone := Perform(m, before, proposed, first, second);
    }

    method Apply(m: Mutation) returns (outcome: Outcome, ghost at: Times, ghost undone: bool)
      requires Valid()
      modifies this, engine, queue, clock, store, store.file
      ensures Valid()
      ensures dryRun || CanonicalPrefix(m.prefix).None? ==>
        outcome == Rejected && Value() == old(Value()) && store.Disk() == old(store.Disk())
      ensures !dryRun ==>
        && LockedStep(hops, old(Value()), m, at, outcome, undone, Value())
        && FileFollows(old(store.Value()), old(store.Disk()), Wants(old(store.Value()), m, at.third), outcome)
      ensures Accounts(Wants(old(store.Value()), m, at.third), outcome, undone)
      ensures !dryRun && WellFormed(m) ==> (outcome == Rejected <==> Wants(old(store.Value()), m, at.third).Err?)
      ensures outcome == Applied ==>
        && OneCallEach(old(engine.calls), engine.calls, old(active).Keys, active.Keys, hops)
        && engine.rib == Moved(old(engine.rib), old(active).Keys, active.Keys, hops)
      ensures old(clock.now) <= at.first <= at.second <= at.third == clock.now
      ensures Passes(m, at, outcome)
      ensures wake == (old(wake) || outcome == Applied)
      ensures old(InSync()) && undone ==> InSync()
    {
      at := Times(clock.now, clock.now, clock.now);
      if dryRun {
        return Rejected, at, true;
      }
      var prefix := ParsePrefix(m.prefix);
      if prefix.None? || !prefix.value.Canonical() {
        return Rejected, at, true;
      }
      outcome, at, undone := ApplyLocked(m);
    }

    /** One turn of the sweep. */
    method ExpireOne(p: Prefix, ghost first: State, ghost gone: seq<Prefix>, ghost visited: set<Prefix>,
        ghost now: Time)
      returns (ok: bool, ghost e: Event, ghost undone: bool)
      requires Valid() && Consistent(first) && SweptSoFar(first, gone, store.Value(), visited, now)
      requires p in first.expirations && p !in visited && Expired(p, first.expirations, now)
      modifies this, engine, queue, clock, store, store.file
      ensures Valid()
      ensures old(InSync()) && undone ==> Step(hops, old(Value()), e, Value())
      ensures Arrives(e)
      ensures !ok ==> store.Value() == old(store.Value()) && queue.Value() == old(queue.Value())
      ensures old(engine.calls) <= engine.calls && old(FileFailures()) <= FileFailures()
      ensures !ok ==> Refused(engine) || FileFailures() > old(FileFailures())
      ensures (ok ==> undone) && (!undone ==> Refused(engine))
      ensures old(InSync()) && !RefusedTwice(engine) ==> InSync()
      ensures ok ==>
        && SweptSoFar(first, gone + [p], store.Value(), visited + {p}, now)
        && queue.Value() == Published(old(queue.Value()), Removal(p))
    {
      var outcome;
      ghost var at;
      ghost var before := store.Value();
      SweepStillHolds(first, gone, before, visited, now, p);
      SweepKeepsConsistency(first, gone, before, visited, now);
      assert p.Canonical() && p in before.blocklist;
      hide EffectiveOf, Wants, Changes, Consistent, Proposal;
      outcome, at, undone := ApplyLocked(Removal(p));
      ok := outcome == Applied || outcome == Unchanged;
      e := Event.Mutated(Removal(p), at, outcome);
      RemovalSweeps(hops, before, p, at, store.Value());
      if ok {
        SweepTakes(first, gone, before, visited, now, p, store.Value());
      }
    }

    /** The body of the sweep's loop, for one entry of the expiries read at its start. */
    method Visit(prefix: Prefix, expiry: Time, now: Time, ghost start: Sys, ghost gone: seq<Prefix>,
                 ghost visited: set<Prefix>, ghost trace: Trace, ghost told: bool)
      returns (ok: bool, ghost gone': seq<Prefix>, ghost trace': Trace, ghost undone: bool)
      requires Valid() && Consistent(start.store) && SweepRun(hops, start, gone, visited, now, trace, told, Value())
      requires prefix in start.store.expirations && prefix !in visited && start.store.expirations[prefix] == expiry
      requires told ==> InSync()
      modifies this, engine, queue, clock, store, store.file
      ensures Valid() && old(engine.calls) <= engine.calls && old(FileFailures()) <= FileFailures()
      ensures told && undone ==> InSync()
      ensures ok ==> SweepRun(hops, start, gone', visited + {prefix}, now, trace', told && undone, Value())
      ensures !ok ==> SweepRun(hops, start, gone', visited, now, trace', told && undone, Value())
      ensures !ok ==> Refused(engine) || FileFailures() > old(FileFailures())
      ensures (ok ==> undone) && (!undone ==> Refused(engine))
      ensures old(InSync()) && !RefusedTwice(engine) ==> InSync()
    {
      ok, gone', trace', undone := true, gone, trace, true;
      if expiry > now {
        SweepPasses(hops, start, gone, visited, now, trace, told, Value(), prefix);
        return;
      }
      ghost var e, before := Event.Reconciled(now, false), Value();
      ok, e, undone := ExpireOne(prefix, start.store, gone, visited, now);
      trace' := Trace(trace.states + [Value()], trace.events + [e]);
      SweepMoves(hops, start, gone, visited, now, trace, before, e, told, told && undone, Value());
      gone' := if ok then gone + [prefix] else gone;
    }

    /** The loop of the sweep, in any order; the first failure ends it. */
    method VisitAll(snapshot: map<Prefix, Time>, now: Time, ghost start: Sys)
      returns (ok: bool, ghost gone: seq<Prefix>, ghost visited: set<Prefix>, ghost trace: Trace, ghost undone: bool)
      requires Valid() && Consistent(start.store) && start == Value() && snapshot == start.store.expirations
      modifies this, engine, queue, clock, store, store.file
      ensures Valid() && visited <= snapshot.Keys
      ensures SweepRun(hops, start, gone, visited, now, trace, old(InSync()) && undone, Value())
      ensures old(InSync()) && undone ==> InSync()
      ensures if ok then visited == snapshot.Keys else Refused(engine) || FileFailures() > old(FileFailures())
      ensures (ok ==> undone) && (!undone ==> Refused(engine))
      ensures old(InSync()) && !RefusedTwice(engine) ==> InSync()
    {
      gone, visited, undone, trace := [], {}, true, Trace([start], []);
      SweepStarts(hops, start, now, InSync());
      var remaining := snapshot.Keys;
      while remaining != {}
        invariant Valid() && old(engine.calls) <= engine.calls && old(FileFailures()) <= FileFailures()
        invariant visited !! remaining && visited + remaining == snapshot.Keys
        invariant SweepRun(hops, start, gone, visited, now, trace, old(InSync()), Value())
        invariant undone && (old(InSync()) ==> InSync())
      {
        var prefix :| prefix in remaining;
        remaining := remaining - {prefix};
        ok, gone, trace, undone := Visit(prefix, snapshot[prefix], now, start, gone, visited, trace, old(InSync()));
        if !ok {
          return;
        }
        visited := visited + {prefix};
      }
      ok := true;
    }

    /** The sweep, over a copy of the expiries. */
    method ApplyExpired(now: Time)
      returns (ok: bool, ghost gone: seq<Prefix>, ghost trace: Trace, ghost undone: bool)
      requires Valid() && Consistent(store.Value())
      modifies this, engine, queue, clock, store, store.file
      ensures Valid()
      ensures SweepResult(old(store.Value()), gone, now, ok, store.Value())
      ensures forall p <- gone :: p in old(store.expirations) && old(store.expirations)[p] <= now
      ensures !ok ==> Refused(engine) || FileFailures() > old(FileFailures())
      ensures (ok ==> undone) && (!undone ==> Refused(engine))
      ensures old(InSync()) && undone ==> InSync() && Leads(hops, trace, old(Value()), Value()) && AllArrive(trace)
      ensures old(InSync()) && !RefusedTwice(engine) ==> InSync()
    {
      hide Consistent, SweepRun, SweepResult, Leads, AllArrive;
      ghost var start, visited := Value(), {};
      ok, gone, visited, trace, undone := VisitAll(store.expirations, now, start);
      SweepEnds(hops, start, gone, visited, now, trace, old(InSync()) && undone, Value());
    }

    /** A feed's removals: a refused withdrawal is forgotten. */
    method DropListed(list: List, toRemove: seq<PrefixText>) returns (ghost allOk: bool)
      requires Valid()
      modifies this`active, engine
      ensures Valid() && old(engine.calls) <= engine.calls && (!allOk ==> Refused(engine))
      ensures list != Blocklist ==> active == old(active) && engine.rib == old(engine.rib)
      ensures list == Blocklist ==> active.Keys == old(active).Keys - Parsed(toRemove)
      ensures old(InSync()) && allOk ==> InSync()
    {
      allOk := true;
      ghost var failed := 0;
      for i := 0 to |toRemove|
        invariant Valid()
        invariant list != Blocklist ==> active == old(active) && engine.rib == old(engine.rib)
        invariant list == Blocklist ==> active.Keys == old(active).Keys - Parsed(toRemove[..i])
        invariant old(InSync()) && allOk ==> InSync()
        invariant old(engine.calls) <= engine.calls
        invariant !allOk ==> |old(engine.calls)| <= failed < |engine.calls| && !engine.calls[failed].ok
      {
        ParsedGrows(toRemove, i);
        var prefix := ParsePrefix(toRemove[i]);
        if prefix.Some? && list == Blocklist && prefix.value in active {
          var ok := engine.Withdraw(active[prefix.value]);
          allOk, failed := allOk && ok, if ok then failed else |engine.calls| - 1;
          active := active - {prefix.value};
        }
      }
      assert toRemove[..|toRemove|] == toRemove;
    }

    /** A feed's additions: a refused announcement is skipped. */
    method AddListed(list: List, toAdd: seq<PrefixText>) returns (ghost allOk: bool)
      requires Valid()
      modifies this`active, engine
      ensures Valid() && old(engine.calls) <= engine.calls && (!allOk ==> Refused(engine))
      ensures list != Blocklist ==> active == old(active) && engine.rib == old(engine.rib)
      ensures list == Blocklist ==> old(active).Keys <= active.Keys <= old(active).Keys + Parsed(toAdd)
      ensures list == Blocklist && allOk ==> active.Keys == old(active).Keys + Parsed(toAdd)
      ensures forall p <- old(active) :: p in active && active[p] == old(active)[p]
      ensures forall p <- active :: p !in old(active) ==>
        active[p] == Route(p, if p.addr.family == V6 then hops.v6 else hops.v4, [0xffff_029a])
      ensures old(InSync()) && allOk ==> InSync()
    {
      allOk := true;
      ghost var failed := 0;
      for i := 0 to |toAdd|
        invariant Valid()
        invariant list != Blocklist ==> active == old(active) && engine.rib == old(engine.rib)
        invariant list == Blocklist ==>
          && old(active).Keys <= active.Keys <= old(active).Keys + Parsed(toAdd[..i])
          && (allOk ==> active.Keys == old(active).Keys + Parsed(toAdd[..i]))
        invariant forall p <- old(active) :: p in active && active[p] == old(active)[p]
        invariant old(InSync()) && allOk ==> InSync()
        invariant old(engine.calls) <= engine.calls
        invariant !allOk ==> |old(engine.calls)| <= failed < |engine.calls| && !engine.calls[failed].ok
      {
        ParsedGrows(toAdd, i);
        var prefix := ParsePrefix(toAdd[i]);
        if prefix.Some? && list == Blocklist {
          var nextHop := hops.v4;
          if prefix.value.addr.family == V6 {
            nextHop := hops.v6;
          }
          var route := Route(prefix.value, nextHop, [BLACKHOLE_COMMUNITY]);
          if prefix.value !in active {
            var ok := engine.Announce(route);
            allOk, failed := allOk && ok, if ok then failed else |engine.calls| - 1;
            if ok {
              active := active[prefix.value := route];
            }
          }
        }
      }
      assert toAdd[..|toAdd|] == toAdd;
    }

    /** Applies a feed's difference to the table alone: the store and the whitelist are
        not consulted. */
    method ApplyBatch(list: List, toAdd: seq<PrefixText>, toRemove: seq<PrefixText>)
      returns (rejected: bool, ghost allOk: bool)
      requires Valid()
      modifies this`active, engine
      ensures Valid() && rejected == dryRun
      ensures dryRun || list != Blocklist ==> active == old(active) && engine.rib == old(engine.rib)
      ensures !dryRun && list == Blocklist ==>
        && old(active).Keys - Parsed(toRemove) <= active.Keys
        && active.Keys <= (old(active).Keys - Parsed(toRemove)) + Parsed(toAdd)
      ensures !dryRun && allOk ==> active.Keys == Batched(list, old(active).Keys, Parsed(toAdd), Parsed(toRemove))
      ensures !dryRun && list == Blocklist && allOk ==> forall p: Prefix | p.Valid() ::
        p in active <==> Names(toAdd, p) || (p in old(active) && !Names(toRemove, p))
      ensures old(InSync()) && allOk ==> InSync()
      ensures old(engine.calls) <= engine.calls && (!allOk ==> Refused(engine))
    {
      allOk := true;
      if dryRun {
        return true, true;
      }
      rejected := false;
      ghost var dropped := DropListed(list, toRemove);
      ghost var failed :| dropped || (|old(engine.calls)| <= failed < |engine.calls| && !engine.calls[failed].ok);
      allOk := AddListed(list, toAdd);
      ParsedIsNamed(toAdd);
      ParsedIsNamed(toRemove);
      allOk := allOk && dropped;
    }
  }
}
