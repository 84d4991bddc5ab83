/** internal/policystore/store.go: two lists of prefixes, expiries for some of the
    blocked ones, and an audit log, kept in memory and mirrored to one file. */
module PolicyStore {
  import opened Basics
  import opened Cidr

  /** An instant. time.Time{} is the one IsZero accepts. */
  type Time = int
  const ZERO_TIME: Time := 0

  datatype List = Blocklist | Whitelist | UnknownList
  datatype Operation = Add | Remove | UnknownOperation
  datatype AuditEvent = AuditEvent(time: Time, operation: Operation, list: List, prefix: Prefix)

  datatype Error =
    | EmptyPath | InvalidList | InvalidPrefix | InvalidOperation | ExpiryNeedsBlocklist | ZeroExpiry
    | DuplicatePrefix | BadExpirationKey | DuplicateExpiration | OrphanExpiration | BadAudit
    | PersistFailed | Unreadable | Undecodable | NoStore

  datatype Result<+T> = Ok(value: T) | Err(error: Error)

  datatype State = State(
    blocklist: seq<Prefix>, whitelist: seq<Prefix>, expirations: map<Prefix, Time>, audit: seq<AuditEvent>)
  {
    function Listed(list: List): seq<Prefix>
      requires list != UnknownList
    {
      if list == Blocklist then blocklist else whitelist
    }

    function WithList(list: List, prefixes: seq<Prefix>): State
      requires list != UnknownList
    {
      if list == Blocklist then this.(blocklist := prefixes) else this.(whitelist := prefixes)
    }
  }

  const EMPTY: State := State([], [], map[], [])

  // ---- what each call does to the state ----

  /** The state after mutate, which is the old one when there is nothing to do. */
  function Mutated(s: State, operation: Operation, list: List, prefix: Prefix, now: Time): Result<State> {
    if list == UnknownList then Err(InvalidList)
    else if !prefix.Valid() then Err(InvalidPrefix)
    else if operation == UnknownOperation then Err(InvalidOperation)
    else
      var p := prefix.Masked();
      var present := p in s.Listed(list);
      if present == (operation == Add) then Ok(s)
      else
        var audited := s.(audit := s.audit + [AuditEvent(now, operation, list, p)]);
        if operation == Add then Ok(audited.WithList(list, s.Listed(list) + [p]))
        else
          var left := audited.WithList(list, DeleteAt(s.Listed(list), IndexOf(s.Listed(list), p)));
          Ok(if list == Blocklist then left.(expirations := s.expirations - {p}) else left)
  }

  function MutatedUntil(s: State, list: List, prefix: Prefix, expiry: Time, now: Time): Result<State> {
    if list != Blocklist then Err(ExpiryNeedsBlocklist)
    else if !prefix.Valid() then Err(InvalidPrefix)
    else if expiry == ZERO_TIME then Err(ZeroExpiry)
    else
      var p := prefix.Masked();
      if p in s.blocklist && p in s.expirations && s.expirations[p] == expiry then Ok(s)
      else Ok(State(
        if p in s.blocklist then s.blocklist else s.blocklist + [p],
        s.whitelist, s.expirations[p := expiry], s.audit + [AuditEvent(now, Add, list, p)]))
  }

  function BlockedBy(s: State, a: Addr): bool {
    a.Valid() && !Covers(s.whitelist, a) && Covers(s.blocklist, a)
  }

  // ---- the file ----

  datatype DiskState = DiskState(
    blocklist: seq<Prefix>, whitelist: seq<Prefix>, audit: seq<AuditEvent>, expirations: map<PrefixText, Time>)

  function ToDisk(s: State): DiskState {
    DiskState(s.blocklist, s.whitelist, s.audit, map t | t in (set p | p in s.expirations :: Text(p)) ::
        s.expirations[t.prefix])
  }

  /** The policy file. Replacing it is a rename: a replacement that reports failure
      may have left the whole old content or the whole new one. */
  class File {
    var content: Option<DiskState>
    var garbled: bool  // there is a file, but not one JSON value of the right shape
    ghost var failures: nat  // how many reads and writes have failed

    constructor ()
      ensures content == None && !garbled && failures == 0
    {
      content, garbled, failures := None, false, 0;
    }

    /** What is on the disk, if it can be read. */
    method Read() returns (r: Result<Option<DiskState>>)
      modifies this`failures
      ensures failures == old(failures) + if r == Err(Unreadable) then 1 else 0
      ensures r == Err(Unreadable) || r == (if garbled then Err(Undecodable) else Ok(content))
    {
      var unreadable: bool := *;
      if unreadable {
        failures := failures + 1;
        return Err(Unreadable);
      }
      r := if garbled then Err(Undecodable) else Ok(content);
    }

    method Replace(state: DiskState) returns (ok: bool)
      modifies this
      ensures (content == old(content) && garbled == old(garbled)) || (content == Some(state) && !garbled)
      ensures ok ==> content == Some(state) && !garbled
      ensures failures == old(failures) + if ok then 0 else 1
    {
      var renamed: bool := *;
      var synced: bool := *;
      if renamed {
        content, garbled := Some(state), false;
      }
      ok := renamed && synced;
      failures := failures + if ok then 0 else 1;
    }
  }

  // ---- what Open accepts and makes of it ----

  ghost predicate DistinctMasked(prefixes: seq<Prefix>)
    requires forall p <- prefixes :: p.Valid()
  {
    forall i, j :: 0 <= i < j < |prefixes| ==> prefixes[i].Masked() != prefixes[j].Masked()
  }

  ghost predicate AcceptsPrefixes(prefixes: seq<Prefix>) {
    (forall p <- prefixes :: p.Valid()) && DistinctMasked(prefixes)
  }

  function MaskAll(prefixes: seq<Prefix>): (r: seq<Prefix>)
    requires forall p <- prefixes :: p.Valid()
    ensures |r| == |prefixes| && forall i :: 0 <= i < |r| ==> r[i] == prefixes[i].Masked()
  {
    seq(|prefixes|, i requires 0 <= i < |prefixes| => prefixes[i].Masked())
  }

  predicate ParsesKey(key: PrefixText) {
    ParsePrefix(key).Some?
  }

  function KeyPrefix(key: PrefixText): Prefix
    requires ParsesKey(key)
  {
    ParsePrefix(key).value.Masked()
  }

  ghost predicate AcceptsKey(blocklist: seq<Prefix>, key: PrefixText, expiry: Time) {
    ParsesKey(key) && expiry != ZERO_TIME && KeyPrefix(key) in blocklist
  }

  /** The given keys of the file can all be read, and no two spell one prefix. */
  ghost predicate AcceptsKeys(blocklist: seq<Prefix>, expirations: map<PrefixText, Time>, keys: set<PrefixText>)
    requires keys <= expirations.Keys
  {
    && (forall k <- keys :: AcceptsKey(blocklist, k, expirations[k]))
    && (forall k <- keys, l <- keys | k != l :: KeyPrefix(k) != KeyPrefix(l))
  }

  ghost predicate AcceptsExpirations(blocklist: seq<Prefix>, expirations: map<PrefixText, Time>) {
    AcceptsKeys(blocklist, expirations, expirations.Keys)
  }

  /** m holds the expiries of the given keys under the prefixes they spell. */
  ghost predicate DecodesKeys(expirations: map<PrefixText, Time>, keys: set<PrefixText>, m: map<Prefix, Time>)
    requires keys <= expirations.Keys && forall k <- keys :: ParsesKey(k)
  {
    && (forall k <- keys :: KeyPrefix(k) in m && m[KeyPrefix(k)] == expirations[k])
    && (forall p <- m :: exists k <- keys :: KeyPrefix(k) == p)
  }

  lemma DecodeOneMore(blocklist: seq<Prefix>, expirations: map<PrefixText, Time>, keys: set<PrefixText>,
                      m: map<Prefix, Time>, key: PrefixText)
    requires keys <= expirations.Keys && key in expirations && key !in keys
    requires AcceptsKeys(blocklist, expirations, keys) && DecodesKeys(expirations, keys, m)
    requires AcceptsKey(blocklist, key, expirations[key]) && KeyPrefix(key) !in m
    ensures AcceptsKeys(blocklist, expirations, keys + {key})
    ensures DecodesKeys(expirations, keys + {key}, m[KeyPrefix(key) := expirations[key]])
  {
    var m' := m[KeyPrefix(key) := expirations[key]];
    forall p <- m' ensures exists k <- keys + {key} :: KeyPrefix(k) == p {
      if p != KeyPrefix(key) {
        var k :| k in keys && KeyPrefix(k) == p;
        assert k in keys + {key};
      } else {
        assert key in keys + {key};
      }
    }
  }

  predicate ValidEvent(e: AuditEvent) {
    e.time != ZERO_TIME && e.list != UnknownList && e.operation != UnknownOperation && e.prefix.Valid()
  }

  function MaskEvent(e: AuditEvent): AuditEvent
    requires ValidEvent(e)
  {
    e.(prefix := e.prefix.Masked())
  }

  ghost predicate Accepts(d: DiskState) {
    && AcceptsPrefixes(d.blocklist) && AcceptsPrefixes(d.whitelist)
    && AcceptsExpirations(MaskAll(d.blocklist), d.expirations)
    && forall e <- d.audit :: ValidEvent(e)
  }

  /** s is what an accepted file content d stands for. */
  ghost predicate Decodes(d: DiskState, s: State)
    requires Accepts(d)
  {
    && s.blocklist == MaskAll(d.blocklist) && s.whitelist == MaskAll(d.whitelist)
    && DecodesKeys(d.expirations, d.expirations.Keys, s.expirations)
    && |s.audit| == |d.audit| && forall i :: 0 <= i < |s.audit| ==> s.audit[i] == MaskEvent(d.audit[i])
  }

  method ValidatePrefixes(prefixes: seq<Prefix>) returns (r: Result<seq<Prefix>>)
    ensures r.Ok? <==> AcceptsPrefixes(prefixes)
    ensures r.Ok? ==> r.value == MaskAll(prefixes)
    ensures r.Err? ==> r.error == InvalidPrefix || r.error == DuplicatePrefix
  {
    var validated: seq<Prefix> := [];
    for i := 0 to |prefixes|
      invariant forall p <- prefixes[..i] :: p.Valid()
      invariant validated == MaskAll(prefixes[..i])
      invariant DistinctMasked(prefixes[..i])
    {
      if !prefixes[i].Valid() {
        return Err(InvalidPrefix);
      }
      var prefix := prefixes[i].Masked();
      if prefix in validated {
        ghost var j :| 0 <= j < i && validated[j] == prefix;
        assert prefixes[j].Masked() == prefixes[i].Masked();
        return Err(DuplicatePrefix);
      }
      validated := validated + [prefix];
      assert prefixes[..i + 1] == prefixes[..i] + [prefixes[i]];
    }
    assert prefixes[..|prefixes|] == prefixes;
    return Ok(validated);
  }

  /** The keys are visited in whatever order the map gives them. */
  method ValidateExpirations(blocklist: seq<Prefix>, expirations: map<PrefixText, Time>)
    returns (r: Result<map<Prefix, Time>>)
    ensures r.Ok? <==> AcceptsExpirations(blocklist, expirations)
    ensures r.Ok? ==> DecodesKeys(expirations, expirations.Keys, r.value)
    ensures r.Err? ==> r.error in {BadExpirationKey, ZeroExpiry, DuplicateExpiration, OrphanExpiration}
  {
    var validated: map<Prefix, Time> := map[];
    var remaining := expirations.Keys;
    while remaining != {}
      invariant remaining <= expirations.Keys
      invariant AcceptsKeys(blocklist, expirations, expirations.Keys - remaining)
      invariant DecodesKeys(expirations, expirations.Keys - remaining, validated)
    {
      var key :| key in remaining;
      ghost var done := expirations.Keys - remaining;
      if !ParsesKey(key) {
        return Err(BadExpirationKey);
      }
      var prefix := KeyPrefix(key);
      if expirations[key] == ZERO_TIME {
        return Err(ZeroExpiry);
      }
      if prefix in validated {
        ghost var k :| k in done && KeyPrefix(k) == prefix;
        assert k != key;
        return Err(DuplicateExpiration);
      }
      if prefix !in blocklist {
        return Err(OrphanExpiration);
      }
      DecodeOneMore(blocklist, expirations, done, validated, key);
      validated := validated[prefix := expirations[key]];
      remaining := remaining - {key};
      assert expirations.Keys - remaining == done + {key};
    }
    assert expirations.Keys - remaining == expirations.Keys;
    return Ok(validated);
  }

  method ValidateAudit(audit: seq<AuditEvent>) returns (r: Result<seq<AuditEvent>>)
    ensures r.Ok? <==> forall e <- audit :: ValidEvent(e)
    ensures r.Err? ==> r.error == BadAudit
    ensures r.Ok? ==> |r.value| == |audit| && forall i :: 0 <= i < |audit| ==> r.value[i] == MaskEvent(audit[i])
  {
    var masked := audit;
    for i := 0 to |audit|
      invariant |masked| == |audit|
      invariant forall j :: 0 <= j < i ==> ValidEvent(audit[j]) && masked[j] == MaskEvent(audit[j])
      invariant forall j :: i <= j < |audit| ==> masked[j] == audit[j]
    {
      if !ValidEvent(audit[i]) {
        return Err(BadAudit);
      }
      masked := masked[i := MaskEvent(audit[i])];
    }
    return Ok(masked);
  }

  method ValidateState(d: DiskState) returns (r: Result<State>)
    ensures r.Ok? <==> Accepts(d)
    ensures r.Err? ==> r.error != Unreadable && r.error != Undecodable
    ensures r.Ok? ==> Decodes(d, r.value)
  {
    var blocklist := ValidatePrefixes(d.blocklist);
    if blocklist.Err? {
      return Err(blocklist.error);
    }
    var whitelist := ValidatePrefixes(d.whitelist);
    if whitelist.Err? {
      return Err(whitelist.error);
    }
    var expirations := ValidateExpirations(blocklist.value, d.expirations);
    if expirations.Err? {
      return Err(expirations.error);
    }
    var audit := ValidateAudit(d.audit);
    if audit.Err? {
      return Err(audit.error);
    }
    return Ok(State(blocklist.value, whitelist.value, expirations.value, audit.value));
  }

  // ---- the store ----

  /** How a call that wants to reach `want` may end. */
  ghost predicate Settles(before: State, want: Result<State>, r: Result<bool>, after: State,
                          backed: bool, diskBefore: Option<DiskState>, diskAfter: Option<DiskState>)
  {
    if want.Err? then
      r == Err(want.error) && after == before && diskAfter == diskBefore
    else if want.value == before then
      r == Ok(false) && after == before && diskAfter == diskBefore
    else if r == Ok(true) then
      after == want.value && diskAfter == if backed then Some(ToDisk(want.value)) else diskBefore
    else
      && backed && r == Err(PersistFailed) && after == before
      && (diskAfter == diskBefore || diskAfter == Some(ToDisk(want.value)))
  }

  class Store {
    const file: File?
    var blocklist: seq<Prefix>
    var whitelist: seq<Prefix>
    var expirations: map<Prefix, Time>
    var audit: seq<AuditEvent>

    function Value(): State
      reads this
    {
      State(blocklist, whitelist, expirations, audit)
    }

    ghost function Disk(): Option<DiskState>
      reads file
    {
      if file == null then None else file.content
    }

    constructor (file: File?)
      ensures this.file == file && Value() == EMPTY
    {
      this.file := file;
      blocklist, whitelist, expirations, audit := [], [], map[], [];
    }

    static method Open(file: File?) returns (r: Result<Store>)
      modifies file
      ensures file == null ==> r == Err(EmptyPath)
      ensures file != null ==> file.content == old(file.content) && file.garbled == old(file.garbled)
      ensures file != null ==> file.failures == old(file.failures) + if r == Err(Unreadable) then 1 else 0
      ensures file != null && r != Err(Unreadable) ==>
        if file.garbled then r == Err(Undecodable)
        else if file.content == None then r.Ok? && r.value.Value() == EMPTY
        else
          && (r.Ok? <==> Accepts(file.content.value))
          && (r.Ok? ==> Decodes(file.content.value, r.value.Value()))
      ensures r.Ok? ==> fresh(r.value) && r.value.file == file
    {
      if file == null {
        return Err(EmptyPath);
      }
      var data := file.Read();
      if data.Err? {
        return Err(data.error);
      }
      var s := new Store(file);
      if data.value.None? {
        return Ok(s);
      }
      var state := ValidateState(data.value.value);
      if state.Err? {
        return Err(state.error);
      }
      s.blocklist, s.whitelist := state.value.blocklist, state.value.whitelist;
      s.expirations, s.audit := state.value.expirations, state.value.audit;
      return Ok(s);
    }

    method Commit(next: State) returns (ok: bool)
      modifies this, file
      ensures ok ==> Value() == next && Disk() == if file == null then None else Some(ToDisk(next))
      ensures !ok ==> file != null && Value() == old(Value())
      ensures file != null ==> file.failures == old(file.failures) + if ok then 0 else 1
      ensures !ok ==> Disk() == old(Disk()) || Disk() == Some(ToDisk(next))
    {
      if file != null {
        ok := file.Replace(ToDisk(next));
        if !ok {
          return;
        }
      }
      blocklist, whitelist := next.blocklist, next.whitelist;
      expirations, audit := next.expirations, next.audit;
      ok := true;
    }

    method Mutate(operation: Operation, list: List, prefix: Prefix, now: Time) returns (r: Result<bool>)
      modifies this, file
      ensures Settles(old(Value()), Mutated(old(Value()), operation, list, prefix, now), r, Value(),
                      file != null, old(Disk()), Disk())
      ensures file != null ==> file.failures == old(file.failures) + if r == Err(PersistFailed) then 1 else 0
    {
      if list == UnknownList {
        return Err(InvalidList);
      }
      if !prefix.Valid() {
        return Err(InvalidPrefix);
      }
      var prefix := prefix.Masked();
      var expirations := expirations;
      var target := if list == Blocklist then blocklist else whitelist;
      var index := IndexOf(target, prefix);
      match operation {
        case Add =>
          if index >= 0 {
            return Ok(false);
          }
          target := target + [prefix];
        case Remove =>
          if index < 0 {
            return Ok(false);
          }
          target := DeleteAt(target, index);
          if list == Blocklist {
            expirations := expirations - {prefix};
          }
        case UnknownOperation =>
          return Err(InvalidOperation);
      }
      var next := State(
        if list == Blocklist then target else blocklist,
        if list == Blocklist then whitelist else target,
        expirations, audit + [AuditEvent(now, operation, list, prefix)]);
      assert |next.audit| == |audit| + 1;
      var ok := Commit(next);
      r := if ok then Ok(true) else Err(PersistFailed);
    }

    method AddUntil(list: List, prefix: Prefix, expiry: Time, now: Time) returns (r: Result<bool>)
      modifies this, file
      ensures Settles(old(Value()), MutatedUntil(old(Value()), list, prefix, expiry, now), r, Value(),
                      file != null, old(Disk()), Disk())
      ensures file != null ==> file.failures == old(file.failures) + if r == Err(PersistFailed) then 1 else 0
    {
      if list != Blocklist {
        return Err(ExpiryNeedsBlocklist);
      }
      if !prefix.Valid() {
        return Err(InvalidPrefix);
      }
      if expiry == ZERO_TIME {
        return Err(ZeroExpiry);
      }
      var prefix := prefix.Masked();
      var blocklist := blocklist;
      var expirations := expirations;
      var index := IndexOf(blocklist, prefix);
      if index < 0 {
        blocklist := blocklist + [prefix];
        expirations := expirations[prefix := expiry];
      } else if prefix in expirations && expirations[prefix] == expiry {
        return Ok(false);
      } else {
        expirations := expirations[prefix := expiry];
      }
      assert |audit + [AuditEvent(now, Add, list, prefix)]| == |audit| + 1;
      var ok := Commit(State(blocklist, whitelist, expirations, audit + [AuditEvent(now, Add, list, prefix)]));
      r := if ok then Ok(true) else Err(PersistFailed);
    }

    /** The scan of both lists, whitelist first. */
    method Blocked(addr: Addr) returns (blocked: bool)
      ensures blocked == BlockedBy(Value(), addr)
      ensures blocked <==>
        addr.Valid() && (exists p <- blocklist :: p.Contains(addr)) && forall w <- whitelist :: !w.Contains(addr)
    {
      if !addr.Valid() {
        return false;
      }
      var allowed := AnyContains(whitelist, addr);
      if allowed {
        return false;
      }
      blocked := AnyContains(blocklist, addr);
    }
  }

  method AnyContains(prefixes: seq<Prefix>, addr: Addr) returns (found: bool)
    ensures found == Covers(prefixes, addr)
  {
    for i := 0 to |prefixes|
      invariant !Covers(prefixes[..i], addr)
    {
      if prefixes[i].Contains(addr) {
        return true;
      }
    }
    assert prefixes[..|prefixes|] == prefixes;
    return false;
  }
}
