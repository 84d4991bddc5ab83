/** What every sequence of store calls keeps, and what a file gives back. */
module PolicyStoreLaws {
  import opened Basics
  import opened Cidr
  import opened PolicyStore

  datatype Call =
    | MutateCall(operation: Operation, list: List, prefix: Prefix, now: Time)
    | AddUntilCall(list: List, prefix: Prefix, expiry: Time, now: Time)

  function Wanted(s: State, c: Call): Result<State> {
    match c
    case MutateCall(operation, list, prefix, now) => Mutated(s, operation, list, prefix, now)
    case AddUntilCall(list, prefix, expiry, now) => MutatedUntil(s, list, prefix, expiry, now)
  }

  /** The state after a call whose write succeeds; a rejected call changes nothing. */
  function After(s: State, c: Call): State {
    var want := Wanted(s, c);
    if want.Ok? then want.value else s
  }

  function AfterAll(s: State, calls: seq<Call>): State
    decreases |calls|
  {
    if |calls| == 0 then s else AfterAll(After(s, calls[0]), calls[1..])
  }

  // ---- what a call does, list by list and expiry by expiry ----

  predicate Adds(c: Call) {
    c.AddUntilCall? || c.operation == Add
  }

  /** A call is refused for an unknown list or operation, an invalid prefix, an expiry at the
      zero time or one on the whitelist, and for nothing else. */
  lemma CallRefusedExactly(s: State, c: Call)
    ensures Wanted(s, c).Ok? <==>
      && c.prefix.Valid()
      && match c
         case MutateCall(operation, list, _, _) => operation != UnknownOperation && list != UnknownList
         case AddUntilCall(list, _, expiry, _) => list == Blocklist && expiry != ZERO_TIME
    ensures Wanted(s, c).Err? ==> After(s, c) == s
    ensures Wanted(s, c).Err? && c.prefix.Valid() ==>
      Wanted(s, c).error ==
        if c.MutateCall? then if c.list == UnknownList then InvalidList else InvalidOperation
        else if c.list != Blocklist then ExpiryNeedsBlocklist else ZeroExpiry
  {
  }

  /** Of the two lists a call touches its own, and of that one prefix: an added one is there
      afterwards, at the end if it is new, and a removed one is not. */
  lemma {:induction false} CallChangesOnlyItsPrefix(s: State, c: Call, list: List, q: Prefix)
    requires Consistent(s) && Wanted(s, c).Ok? && list != UnknownList
    ensures
      var p, before, after := c.prefix.Masked(), s.Listed(list), After(s, c).Listed(list);
      && (q in after <==> if q == p && list == c.list then Adds(c) else q in before)
      && (list != c.list ==> after == before)
      && (Adds(c) ==> before <= after && |after| <= |before| + 1)
  {
    if c.prefix.Masked() in s.Listed(c.list) && !Adds(c) {
      DeletedList(s.Listed(c.list), c.prefix.Masked());
    }
    hide Consistent, CanonicalList;
  }

  /** Expiries change only with the prefix that a call with an expiry names, which gets it, or
      that a call takes off the blocklist, which loses it. */
  lemma {:induction false} CallChangesOnlyItsExpiry(s: State, c: Call, q: Prefix)
    requires Consistent(s) && Wanted(s, c).Ok?
    ensures
      var p, before, after := c.prefix.Masked(), s.expirations, After(s, c).expirations;
      && (q in after <==>
          if c.AddUntilCall? && q == p then true else q in before && !(q == p && c.list == Blocklist && !Adds(c)))
      && (q in after ==> after[q] == if c.AddUntilCall? && q == p then c.expiry else before[q])
  {
    hide DeleteAt, IndexOf;
  }

  /** A call that leaves both lists and the expiries alone does nothing, to the log either. */
  lemma {:induction false} CallThatChangesNothing(s: State, c: Call)
    ensures
      var after := After(s, c);
      after == s <==>
        after.blocklist == s.blocklist && after.whitelist == s.whitelist && after.expirations == s.expirations
  {
    if After(s, c) != s {
      var p := c.prefix.Masked();
      if c.AddUntilCall? {
        assert p in After(s, c).expirations && After(s, c).expirations[p] == c.expiry;
        assert p !in s.blocklist ==> |After(s, c).blocklist| == |s.blocklist| + 1;
      } else {
        assert |After(s, c).Listed(c.list)| != |s.Listed(c.list)|;
      }
    }
  }

  // ---- the audit log ----

  function Recorded(prefixes: seq<Prefix>, e: AuditEvent): seq<Prefix> {
    if e.operation == Add then
      if e.prefix in prefixes then prefixes else prefixes + [e.prefix]
    else
      Without(prefixes, {e.prefix})
  }

  /** One list, rebuilt from the log alone, starting from the empty list. */
  function Replay(audit: seq<AuditEvent>, list: List): seq<Prefix> {
    if |audit| == 0 then []
    else
      var last := audit[|audit| - 1];
      var before := Replay(audit[..|audit| - 1], list);
      if last.list == list then Recorded(before, last) else before
  }

  ghost predicate CanonicalList(prefixes: seq<Prefix>) {
    NoDuplicates(prefixes) && forall p <- prefixes :: p.Canonical()
  }

  ghost predicate Consistent(s: State) {
    && CanonicalList(s.blocklist) && CanonicalList(s.whitelist)
    && (forall p <- s.expirations :: p in s.blocklist && s.expirations[p] != ZERO_TIME)
    && (forall e <- s.audit :: ValidEvent(e) && e.prefix.Canonical())
  }

  ghost predicate Audited(s: State) {
    s.blocklist == Replay(s.audit, Blocklist) && s.whitelist == Replay(s.audit, Whitelist)
  }

  lemma ReplayOne(audit: seq<AuditEvent>, e: AuditEvent, list: List)
    ensures Replay(audit + [e], list) ==
            if e.list == list then Recorded(Replay(audit, list), e) else Replay(audit, list)
  {
    assert (audit + [e])[..|audit|] == audit;
  }

  lemma AppendedList(prefixes: seq<Prefix>, p: Prefix)
    requires CanonicalList(prefixes) && p.Canonical() && p !in prefixes
    ensures CanonicalList(prefixes + [p])
  {
  }

  lemma DeletedList(prefixes: seq<Prefix>, p: Prefix)
    requires CanonicalList(prefixes) && p in prefixes
    ensures DeleteAt(prefixes, IndexOf(prefixes, p)) == Without(prefixes, {p})
    ensures CanonicalList(Without(prefixes, {p}))
  {
    DeleteIsWithout(prefixes, IndexOf(prefixes, p));
    WithoutKeepsDistinct(prefixes, {p});
  }

  /** The event a call that changes something leaves in the log. */
  function EventOf(c: Call): AuditEvent
    requires c.prefix.Valid()
  {
    AuditEvent(c.now, if c.AddUntilCall? then Add else c.operation, c.list, c.prefix.Masked())
  }

  lemma {:induction false} CallChangesOneList(s: State, c: Call)
    requires Consistent(s) && After(s, c) != s
    ensures c.prefix.Valid() && c.list != UnknownList && After(s, c).audit == s.audit + [EventOf(c)]
    ensures After(s, c).Listed(c.list) == Recorded(s.Listed(c.list), EventOf(c))
    ensures CanonicalList(After(s, c).Listed(c.list))
    ensures After(s, c).WithList(c.list, []).blocklist == s.WithList(c.list, []).blocklist
    ensures After(s, c).WithList(c.list, []).whitelist == s.WithList(c.list, []).whitelist
  {
    var p := c.prefix.Masked();
    MaskedIsCanonical(c.prefix);
    if p in s.Listed(c.list) {
      DeletedList(s.Listed(c.list), p);
    } else {
      AppendedList(s.Listed(c.list), p);
    }
  }

  /** One call keeps both lists canonical, every expiry on a blocked prefix and the
      log a faithful history; the log grows by one exactly when anything changed. */
  lemma {:induction false} CallKeepsConsistency(s: State, c: Call)
    requires Consistent(s) && c.now != ZERO_TIME
    ensures Consistent(After(s, c))
    ensures Audited(s) ==> Audited(After(s, c))
    ensures |After(s, c).audit| == |s.audit| + if After(s, c) == s then 0 else 1
  {
    if After(s, c) != s {
      CallChangesOneList(s, c);
      MaskedIsCanonical(c.prefix);
      ReplayOne(s.audit, EventOf(c), Blocklist);
      ReplayOne(s.audit, EventOf(c), Whitelist);
    }
  }

  lemma {:induction false} RunKeepsConsistency(s: State, calls: seq<Call>)
    requires Consistent(s) && Audited(s)
    requires forall i :: 0 <= i < |calls| ==> calls[i].now != ZERO_TIME
    ensures Consistent(AfterAll(s, calls)) && Audited(AfterAll(s, calls))
    decreases |calls|
  {
    if |calls| > 0 {
      CallKeepsConsistency(s, calls[0]);
      RunKeepsConsistency(After(s, calls[0]), calls[1..]);
    }
  }

  /** From New, any calls whatever leave a consistent store whose audit log,
      replayed from nothing, gives both lists back in order. */
  lemma {:induction false} EveryStoreIsItsAudit(calls: seq<Call>)
    requires forall i :: 0 <= i < |calls| ==> calls[i].now != ZERO_TIME
    ensures Consistent(AfterAll(EMPTY, calls))
    ensures Replay(AfterAll(EMPTY, calls).audit, Blocklist) == AfterAll(EMPTY, calls).blocklist
    ensures Replay(AfterAll(EMPTY, calls).audit, Whitelist) == AfterAll(EMPTY, calls).whitelist
  {
    RunKeepsConsistency(EMPTY, calls);
  }

  // ---- the file ----

  lemma CanonicalMasksToItself(prefixes: seq<Prefix>)
    requires CanonicalList(prefixes)
    ensures AcceptsPrefixes(prefixes) && MaskAll(prefixes) == prefixes
  {
    forall i | 0 <= i < |prefixes| ensures prefixes[i].Valid() && prefixes[i].Masked() == prefixes[i] {
      assert prefixes[i] in prefixes && prefixes[i].Canonical();
    }
  }

  /** The two spell one block. */
  predicate SameBlock(p: Prefix, q: Prefix) {
    p.bits == q.bits && p.Contains(q.addr)
  }

  lemma MaskedIn(prefixes: seq<Prefix>, q: Prefix)
    requires q.Valid() && forall p <- prefixes :: p.Valid()
    ensures q.Masked() in MaskAll(prefixes) <==> exists p <- prefixes :: SameBlock(p, q)
  {
    forall p <- prefixes ensures p.Masked() == q.Masked() <==> SameBlock(p, q) {
      SameMasked(p, q);
    }
    if p :| p in prefixes && SameBlock(p, q) {
      var i :| 0 <= i < |prefixes| && prefixes[i] == p;
      assert MaskAll(prefixes)[i] == q.Masked();
    }
  }

  ghost predicate NoBlockTwice(prefixes: seq<Prefix>) {
    && (forall p <- prefixes :: p.Valid())
    && forall i, j :: 0 <= i < j < |prefixes| ==> !SameBlock(prefixes[i], prefixes[j])
  }

  lemma AcceptsPrefixesExactly(prefixes: seq<Prefix>)
    ensures AcceptsPrefixes(prefixes) <==> NoBlockTwice(prefixes)
  {
    if forall p <- prefixes :: p.Valid() {
      forall i, j | 0 <= i < j < |prefixes|
        ensures prefixes[i].Masked() != prefixes[j].Masked() <==> !SameBlock(prefixes[i], prefixes[j])
      {
        SameMasked(prefixes[i], prefixes[j]);
      }
    }
  }

  ghost predicate NoExpiryTwice(blocklist: seq<Prefix>, expirations: map<PrefixText, Time>) {
    && (forall k <- expirations ::
          && k.Spelled? && k.prefix.Valid() && expirations[k] != ZERO_TIME
          && exists p <- blocklist :: SameBlock(p, k.prefix))
    && forall k <- expirations, l <- expirations | k != l :: !SameBlock(k.prefix, l.prefix)
  }

  lemma AcceptsExpirationsExactly(blocklist: seq<Prefix>, expirations: map<PrefixText, Time>)
    requires forall p <- blocklist :: p.Valid()
    ensures AcceptsExpirations(MaskAll(blocklist), expirations) <==> NoExpiryTwice(blocklist, expirations)
  {
    forall k <- expirations
      ensures AcceptsKey(MaskAll(blocklist), k, expirations[k]) <==>
        && k.Spelled? && k.prefix.Valid() && expirations[k] != ZERO_TIME
        && exists p <- blocklist :: SameBlock(p, k.prefix)
    {
      if k.Spelled? && k.prefix.Valid() {
        MaskedIn(blocklist, k.prefix);
      }
    }
    forall k <- expirations, l <- expirations | ParsesKey(k) && ParsesKey(l)
      ensures KeyPrefix(k) == KeyPrefix(l) <==> SameBlock(k.prefix, l.prefix)
    {
      SameMasked(k.prefix, l.prefix);
    }
    hide SameBlock, KeyPrefix, MaskAll;
  }

  /** A file is accepted exactly when every prefix, key and event in it can be read, no list
      names a block twice however it is spelled, every expiry is set and on a listed block,
      and no block has two. */
  lemma AcceptsExactly(d: DiskState)
    ensures Accepts(d) <==>
      && NoBlockTwice(d.blocklist) && NoBlockTwice(d.whitelist)
      && NoExpiryTwice(d.blocklist, d.expirations)
      && forall e <- d.audit ::
           e.time != ZERO_TIME && e.list != UnknownList && e.operation != UnknownOperation && e.prefix.Valid()
  {
    AcceptsPrefixesExactly(d.blocklist);
    AcceptsPrefixesExactly(d.whitelist);
    if NoBlockTwice(d.blocklist) {
      AcceptsExpirationsExactly(d.blocklist, d.expirations);
    }
    hide AcceptsPrefixes, NoBlockTwice, AcceptsExpirations, NoExpiryTwice;
  }

  /** What an accepted file is read as: each prefix, key and event in its masked form, in the
      same order, with the same expiry, time, operation and list. */
  lemma DecodedIsMasked(d: DiskState, s: State)
    requires Accepts(d) && Decodes(d, s)
    ensures |s.blocklist| == |d.blocklist| && |s.whitelist| == |d.whitelist| && |s.audit| == |d.audit|
    ensures forall i :: 0 <= i < |d.blocklist| ==> d.blocklist[i].Valid() && s.blocklist[i] == d.blocklist[i].Masked()
    ensures forall i :: 0 <= i < |d.whitelist| ==> d.whitelist[i].Valid() && s.whitelist[i] == d.whitelist[i].Masked()
    ensures forall k <- d.expirations ::
              && k.Spelled? && k.prefix.Valid() && k.prefix.Masked() in s.expirations
              && s.expirations[k.prefix.Masked()] == d.expirations[k]
    ensures forall p <- s.expirations ::
              exists k <- d.expirations :: k.Spelled? && k.prefix.Valid() && k.prefix.Masked() == p
    ensures forall i :: 0 <= i < |d.audit| ==>
              d.audit[i].prefix.Valid() && s.audit[i] == d.audit[i].(prefix := d.audit[i].prefix.Masked())
  {
    forall p <- s.expirations
      ensures exists k <- d.expirations :: k.Spelled? && k.prefix.Valid() && k.prefix.Masked() == p
    {
      var k :| k in d.expirations.Keys && KeyPrefix(k) == p;
      assert AcceptsKey(s.blocklist, k, d.expirations[k]);
    }
    forall i | 0 <= i < |d.audit| ensures ValidEvent(d.audit[i]) {
      assert d.audit[i] in d.audit;
    }
  }

  lemma DiskKeys(s: State)
    requires Consistent(s)
    ensures forall t <- ToDisk(s).expirations ::
      ParsesKey(t) && KeyPrefix(t) == t.prefix && t == Text(t.prefix) && t.prefix in s.expirations
    ensures forall p <- s.expirations :: Text(p) in ToDisk(s).expirations && KeyPrefix(Text(p)) == p
  {
    forall p <- s.expirations ensures Text(p) in ToDisk(s).expirations && KeyPrefix(Text(p)) == p {
      assert p.Canonical();
      assert Text(p) in (set p | p in s.expirations :: Text(p));
    }
  }

  lemma DecodeUnique(d: DiskState, s: State, t: State)
    requires Accepts(d) && Decodes(d, s) && Decodes(d, t)
    ensures s == t
  {
    assert s.expirations.Keys == t.expirations.Keys;
    assert s.expirations == t.expirations;
    assert s.audit == t.audit;
  }

  /** Persist then Open: the file of a consistent store is accepted, and the only
      state it stands for is the one that was written. */
  lemma PersistOpenRoundTrip(s: State, t: State)
    requires Consistent(s)
    ensures Accepts(ToDisk(s))
    ensures Decodes(ToDisk(s), t) <==> t == s
  {
    CanonicalMasksToItself(s.blocklist);
    CanonicalMasksToItself(s.whitelist);
    DiskKeys(s);
    assert Accepts(ToDisk(s));
    assert Decodes(ToDisk(s), s) by {
      forall p <- s.expirations ensures exists k <- ToDisk(s).expirations.Keys :: KeyPrefix(k) == p {
        assert Text(p) in ToDisk(s).expirations.Keys;
      }
    }
    if Decodes(ToDisk(s), t) {
      DecodeUnique(ToDisk(s), s, t);
    }
  }

  lemma MaskedListIsCanonical(prefixes: seq<Prefix>)
    requires AcceptsPrefixes(prefixes)
    ensures CanonicalList(MaskAll(prefixes))
  {
    forall i | 0 <= i < |prefixes| ensures MaskAll(prefixes)[i].Canonical() {
      MaskedIsCanonical(prefixes[i]);
    }
  }

  /** Whatever hand-written file Open accepts, the store it builds is consistent, so
      writing it out and reading it again changes nothing more. */
  lemma ValidationIsIdempotent(d: DiskState, s: State, t: State)
    requires Accepts(d) && Decodes(d, s)
    ensures Consistent(s) && Accepts(ToDisk(s))
    ensures Decodes(ToDisk(s), t) <==> t == s
  {
    MaskedListIsCanonical(d.blocklist);
    MaskedListIsCanonical(d.whitelist);
    forall i | 0 <= i < |s.audit| ensures ValidEvent(s.audit[i]) && s.audit[i].prefix.Canonical() {
      assert d.audit[i] in d.audit;
      MaskedIsCanonical(d.audit[i].prefix);
    }
    forall p <- s.expirations ensures p in s.blocklist && s.expirations[p] != ZERO_TIME {
      var k :| k in d.expirations.Keys && KeyPrefix(k) == p;
      assert AcceptsKey(s.blocklist, k, d.expirations[k]);
    }
    PersistOpenRoundTrip(s, t);
  }

  /** A call never leaves the file half-way, whatever the file was before: it is as it was,
      or stands for the state the call was after and for no other. */
  lemma {:induction false} FailedPersistIsOldOrNew(before: State, c: Call, r: Result<bool>, after: State,
                                                   diskBefore: Option<DiskState>, diskAfter: Option<DiskState>,
                                                   t: State)
    requires Consistent(before) && c.now != ZERO_TIME
    requires Settles(before, Wanted(before, c), r, after, true, diskBefore, diskAfter)
    ensures diskAfter == diskBefore || StandsFor(diskAfter, After(before, c), t)
    ensures r == Ok(true) ==> after == After(before, c) && StandsFor(diskAfter, after, t)
    ensures r != Ok(true) ==> after == before
    ensures r.Ok? && r != Ok(true) ==> diskAfter == diskBefore
  {
    CallKeepsConsistency(before, c);
    PersistOpenRoundTrip(After(before, c), t);
  }

  /** Open accepts the file, and t is what it builds exactly when t is s. */
  ghost predicate StandsFor(disk: Option<DiskState>, s: State, t: State) {
    disk.Some? && Accepts(disk.value) && (Decodes(disk.value, t) <==> t == s)
  }

  datatype Attempt = Attempt(call: Call, result: Result<bool>)
  datatype Cell = Cell(memory: State, disk: Option<DiskState>)

  /** A file-backed store over calls of which any may fail to be written. */
  ghost predicate IsStoreRun(cells: seq<Cell>, attempts: seq<Attempt>) {
    && |cells| == |attempts| + 1
    && forall i :: 0 <= i < |attempts| ==>
        && attempts[i].call.now != ZERO_TIME
        && Settles(cells[i].memory, Wanted(cells[i].memory, attempts[i].call), attempts[i].result, cells[i + 1].memory,
                   true, cells[i].disk, cells[i + 1].disk)
  }

  /** Attempt k failed, and nothing has been written successfully from there to n. */
  ghost predicate RefusedSince(attempts: seq<Attempt>, k: nat, n: nat)
    requires n <= |attempts|
  {
    k < n && attempts[k].result.Err? && forall j :: k <= j < n ==> attempts[j].result != Ok(true)
  }

  /** The file is as at the start; or it is the memory; or it is what some refused call was
      after, and no call has succeeded since that one. */
  ghost predicate FileFollows(cells: seq<Cell>, attempts: seq<Attempt>, n: nat)
    requires n <= |attempts| && |cells| == |attempts| + 1
  {
    || cells[n].disk == cells[0].disk
    || cells[n].disk == Some(ToDisk(cells[n].memory))
    || exists k: nat ::
        RefusedSince(attempts, k, n) && cells[n].disk == Some(ToDisk(After(cells[n].memory, attempts[k].call)))
  }

  lemma {:induction false} StepFollows(cells: seq<Cell>, attempts: seq<Attempt>, n: nat)
    requires IsStoreRun(cells, attempts) && 0 < n <= |attempts| && FileFollows(cells, attempts, n - 1)
    ensures FileFollows(cells, attempts, n)
  {
    hide Mutated, MutatedUntil, ToDisk;
    var a := attempts[n - 1];
    if a.result == Ok(true) {
      assert cells[n].disk == Some(ToDisk(cells[n].memory));
    } else if cells[n].disk != cells[n - 1].disk {
      assert RefusedSince(attempts, n - 1, n);
    } else if k: nat :| RefusedSince(attempts, k, n - 1)
                        && cells[n - 1].disk == Some(ToDisk(After(cells[n - 1].memory, attempts[k].call))) {
      assert RefusedSince(attempts, k, n);
    }
  }

  /** Over any calls with any failures, memory is always the start with the successful calls
      made, and the file is as at the start or stands for the memory or for what one of
      the calls refused since the last success was after. */
  lemma {:induction false} FileFollowsRun(cells: seq<Cell>, attempts: seq<Attempt>, n: nat, t: State)
    requires IsStoreRun(cells, attempts) && n <= |attempts| && Consistent(cells[0].memory)
    ensures FileFollows(cells, attempts, n) && Consistent(cells[n].memory)
    ensures cells[n].disk == cells[0].disk || StandsFor(cells[n].disk, cells[n].memory, t)
         || exists k: nat ::
              RefusedSince(attempts, k, n) && StandsFor(cells[n].disk, After(cells[n].memory, attempts[k].call), t)
  {
    if n > 0 {
      FileFollowsRun(cells, attempts, n - 1, t);
      StepFollows(cells, attempts, n);
      CallKeepsConsistency(cells[n - 1].memory, attempts[n - 1].call);
    }
    PersistOpenRoundTrip(cells[n].memory, t);
    if k: nat :| RefusedSince(attempts, k, n)
                 && cells[n].disk == Some(ToDisk(After(cells[n].memory, attempts[k].call))) {
      CallKeepsConsistency(cells[n].memory, attempts[k].call);
      PersistOpenRoundTrip(After(cells[n].memory, attempts[k].call), t);
    }
  }

  /** After a failure that did replace the file, a second failing call can leave it standing
      for neither its own start nor its own end. */
  lemma {:induction false} TwoFailuresLeaveTheFirst(p: Prefix, q: Prefix)
    requires p.Canonical() && q.Canonical() && p != q
    ensures
      var first, second := MutateCall(Add, Blocklist, p, 1), MutateCall(Add, Blocklist, q, 1);
      var ahead := Some(ToDisk(After(EMPTY, first)));
      && IsStoreRun([Cell(EMPTY, None), Cell(EMPTY, ahead), Cell(EMPTY, ahead)],
                    [Attempt(first, Err(PersistFailed)), Attempt(second, Err(PersistFailed))])
      && ahead != Some(ToDisk(EMPTY)) && ahead != Some(ToDisk(After(EMPTY, second)))
  {
    var first, second := MutateCall(Add, Blocklist, p, 1), MutateCall(Add, Blocklist, q, 1);
    assert After(EMPTY, first).blocklist == [p] && After(EMPTY, second).blocklist == [q];
    assert [p][0] != [q][0];
  }
}
