/** Policy mutations and policyStoreAdapter.Apply of internal/runtime/backend.go: the
    transition that the server makes and that every replica repeats. */
module Mutations {
  import opened Basics
  import opened Cidr
  import opened PolicyStore
  import opened PolicyStoreLaws

  datatype Action = AddAction | ReplaceAction | RemoveAction | DeleteAction | UnknownAction
  datatype Mutation = Mutation(action: Action, list: List, prefix: PrefixText, expiresAt: Option<Time>)

  /** ParsePrefix followed by the canonical check. */
  function CanonicalPrefix(t: PrefixText): Option<Prefix> {
    var p := ParsePrefix(t);
    if p.Some? && p.value.Canonical() then p else None
  }

  function OperationOf(action: Action): Operation {
    match action
    case AddAction | ReplaceAction => Add
    case RemoveAction | DeleteAction => Remove
    case UnknownAction => UnknownOperation
  }

  /** An expiry comes only with a future blocklist add (internal/dashboard/http.go:240). */
  predicate WellFormed(m: Mutation) {
    m.expiresAt.Some? ==> m.action == AddAction && m.list == Blocklist && m.expiresAt.value != ZERO_TIME
  }

  /** The store state Apply is after. */
  function Wants(s: State, m: Mutation, now: Time): Result<State> {
    var p := CanonicalPrefix(m.prefix);
    if p.None? then Err(InvalidPrefix)
    else if m.expiresAt.Some? then MutatedUntil(s, Blocklist, p.value, m.expiresAt.value, now)
    else Mutated(s, OperationOf(m.action), m.list, p.value, now)
  }

  /** The store takes a mutation exactly when it has one of the four actions and one of the two
      lists and its prefix can be read and is canonical. */
  lemma WantedExactly(s: State, m: Mutation, now: Time)
    requires WellFormed(m)
    ensures Wants(s, m, now).Ok? <==>
      m.action != UnknownAction && m.list != UnknownList && m.prefix.Spelled? && m.prefix.prefix.Canonical()
  {
  }

  /** Add and replace put the prefix on the list and remove and delete take it off, whatever
      else is listed; an expiry goes with an add that brings one, and a blocklist entry that
      is taken off takes its expiry along. Nothing else changes. */
  lemma MutationChangesOnlyItsPrefix(s: State, m: Mutation, now: Time, list: List, q: Prefix)
    requires Consistent(s) && WellFormed(m) && Wants(s, m, now).Ok? && list != UnknownList
    ensures
      var p, t := m.prefix.prefix, Wants(s, m, now).value;
      var adds := m.action in {AddAction, ReplaceAction};
      && (q in t.Listed(list) <==> if q == p && list == m.list then adds else q in s.Listed(list))
      && (list != m.list ==> t.Listed(list) == s.Listed(list))
      && (q in t.expirations <==>
          if m.expiresAt.Some? && q == p then true else q in s.expirations && !(q == p && m.list == Blocklist && !adds))
      && (q in t.expirations ==>
          t.expirations[q] == if m.expiresAt.Some? && q == p then m.expiresAt.value else s.expirations[q])
  {
    var p := m.prefix.prefix;
    assert CanonicalPrefix(m.prefix) == Some(p) && p.Masked() == p;
    var c := if m.expiresAt.Some? then AddUntilCall(Blocklist, p, m.expiresAt.value, now)
             else MutateCall(OperationOf(m.action), m.list, p, now);
    assert Wanted(s, c) == Wants(s, m, now) && (Adds(c) <==> m.action in {AddAction, ReplaceAction});
    CallChangesOnlyItsPrefix(s, c, list, q);
    CallChangesOnlyItsExpiry(s, c, q);
    hide Wants, Wanted, Adds, Consistent;
  }

  method MutateStore(store: Store, m: Mutation, now: Time) returns (r: Result<bool>)
    requires m.expiresAt.None?
    modifies store, store.file
    ensures Settles(old(store.Value()), Wants(old(store.Value()), m, now), r, store.Value(),
                    store.file != null, old(store.Disk()), store.Disk())
    ensures store.file != null ==>
      store.file.failures == old(store.file.failures) + if r == Err(PersistFailed) then 1 else 0
  {
    var prefix := ParsePrefix(m.prefix);
    if prefix.None? || !prefix.value.Canonical() {
      return Err(InvalidPrefix);
    }
    if m.list == UnknownList {
      return Err(InvalidList);
    }
    match m.action
    case AddAction | ReplaceAction =>
      r := store.Mutate(Add, m.list, prefix.value, now);
    case RemoveAction | DeleteAction =>
      r := store.Mutate(Remove, m.list, prefix.value, now);
    case UnknownAction =>
      return Err(InvalidOperation);
  }

  method ApplyTo(store: Store, m: Mutation, now: Time) returns (r: Result<bool>)
    modifies store, store.file
    ensures Settles(old(store.Value()), Wants(old(store.Value()), m, now), r, store.Value(),
                    store.file != null, old(store.Disk()), store.Disk())
    ensures store.file != null ==>
      store.file.failures == old(store.file.failures) + if r == Err(PersistFailed) then 1 else 0
  {
    if m.expiresAt.Some? {
      var prefix := ParsePrefix(m.prefix);
      if prefix.None? || !prefix.value.Canonical() {
        return Err(InvalidPrefix);
      }
      r := store.AddUntil(Blocklist, prefix.value, m.expiresAt.value, now);
    } else {
      r := MutateStore(store, m, now);
    }
  }

  /** What an agent hands its changes to. */
  class PolicyStoreAdapter {
    const store: Store?
    const dryRun: bool

    constructor (store: Store?, dryRun: bool)
      ensures this.store == store && this.dryRun == dryRun
    {
      this.store, this.dryRun := store, dryRun;
    }

    method Apply(m: Mutation, now: Time) returns (r: Result<bool>)
      modifies store, if store == null then {} else {store.file}
      ensures store == null ==> r == Err(NoStore)
      ensures store != null && dryRun ==>
        r.Ok? && store.Value() == old(store.Value()) && store.Disk() == old(store.Disk())
      ensures store != null && !dryRun ==>
        Settles(old(store.Value()), Wants(old(store.Value()), m, now), r, store.Value(),
                store.file != null, old(store.Disk()), store.Disk())
    {
      if store == null {
        return Err(NoStore);
      }
      if dryRun {
        return Ok(false);
      }
      r := ApplyTo(store, m, now);
    }
  }

  // ---- replicas ----

  /** What two replicas are to agree on: everything but the audit log. */
  function View(s: State): State {
    s.(audit := [])
  }

  function Applied(s: State, m: Mutation, now: Time): State {
    var want := Wants(s, m, now);
    if want.Ok? then want.value else s
  }

  /** One mutation as a function on views. */
  function Effect(v: State, m: Mutation): State {
    View(Applied(v, m, 1))
  }

  function Effects(v: State, ms: seq<Mutation>): State {
    if |ms| == 0 then v else Effect(Effects(v, ms[..|ms| - 1]), ms[|ms| - 1])
  }

  /** The clock and the log do not influence the view. */
  lemma ViewFollowsEffect(s: State, m: Mutation, now: Time)
    ensures View(Applied(s, m, now)) == Effect(View(s), m)
  {
    if m.expiresAt.None? && m.list != UnknownList {
      assert View(s).Listed(m.list) == s.Listed(m.list);
    }
  }

  ghost predicate ConsistentView(v: State) {
    Consistent(v) && v.audit == []
  }

  lemma EffectKeepsConsistency(v: State, m: Mutation)
    requires ConsistentView(v)
    ensures ConsistentView(Effect(v, m))
  {
    var p := CanonicalPrefix(m.prefix);
    if p.Some? {
      CallKeepsConsistency(v,
        if m.expiresAt.Some? then AddUntilCall(Blocklist, p.value, m.expiresAt.value, 1)
        else MutateCall(OperationOf(m.action), m.list, p.value, 1));
    }
  }

  lemma {:induction false} EffectsKeepConsistency(v: State, ms: seq<Mutation>)
    requires ConsistentView(v)
    ensures ConsistentView(Effects(v, ms))
  {
    if |ms| > 0 {
      EffectsKeepConsistency(v, ms[..|ms| - 1]);
      EffectKeepsConsistency(Effects(v, ms[..|ms| - 1]), ms[|ms| - 1]);
    }
  }

  /** Applying a mutation again changes nothing: what lets at-least-once delivery give
      exactly-once effects. */
  lemma EffectIsIdempotent(v: State, m: Mutation)
    requires ConsistentView(v)
    ensures Effect(Effect(v, m), m) == Effect(v, m)
  {
    var want := Wants(v, m, 1);
    if want.Ok? && want.value != v {
      var p := CanonicalPrefix(m.prefix).value;
      if m.expiresAt.None? && OperationOf(m.action) == Remove {
        DeletedList(v.Listed(m.list), p);
      }
    }
  }

  lemma EffectsStep(v: State, ms: seq<Mutation>, m: Mutation)
    ensures Effects(v, ms + [m]) == Effect(Effects(v, ms), m)
  {
    assert (ms + [m])[..|ms|] == ms;
  }
}
