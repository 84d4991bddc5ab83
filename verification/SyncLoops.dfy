/** The two ends of policy sync, each against a peer that may send anything: consume of
    internal/runtime/agent.go and handleSync of internal/runtime/server.go. */
module SyncLoops {
  import opened Basics
  import opened PolicyStore
  import opened Mutations
  import opened Queue
  import opened AgentRpc
  import opened Cursor

  function MutationsOf(changes: seq<Change>): seq<Mutation> {
    seq(|changes|, i requires 0 <= i < |changes| => changes[i].mutation)
  }

  lemma MutationsOfAppend(changes: seq<Change>, c: Change)
    ensures MutationsOf(changes + [c]) == MutationsOf(changes) + [c.mutation]
  {
  }

  // ---- the agent ----

  /** Everything sent since is an acknowledgement of something between the two cursors. */
  ghost predicate OnlyAcks(before: seq<Message>, sent: seq<Message>, low: nat, high: nat) {
    && before <= sent
    && forall i :: |before| <= i < |sent| ==> sent[i].AckMessage? && low <= sent[i].cursor <= high
  }

  lemma OnlyAcksFurther(before: seq<Message>, sent: seq<Message>, low: nat, high: nat, n: nat, sent': seq<Message>,
      high': nat)
    requires OnlyAcks(before, sent, low, high) && low <= high
    requires sent' == sent + Acks(high, n) || (high' == high + 1 && sent' == sent + [AckMessage(high')])
    requires high <= high'
    ensures OnlyAcks(before, sent', low, high')
  {
    assert Acks(high, 0) == [];
  }

  /** How often the connection and the files of an agent have failed. */
  ghost function Failures(session: Session, store: Store, file: CursorFile?): nat
    reads session.conn, store.file, file
  {
    session.conn.failures
    + (if store.file == null then 0 else store.file.failures)
    + (if file == null then 0 else file.failures)
  }

  /** How far one update got. Acknowledged means the session's cursor moved, even when
      telling the peer failed. */
  datatype Progress = NotApplied | NotSaved | AckLost | Done

  /** What the loop of an agent has before it; a file of None keeps nothing. */
  datatype Side = Side(cursor: nat, view: State, file: Option<CursorText>, inbox: seq<Message>, outbox: seq<Message>)

  ghost function SideOf(session: Session, store: Store, file: CursorFile?): Side
    reads session, session.conn, store, file
  {
    Side(session.appliedCursor, View(store.Value()), if file == null then None else Some(file.text),
         session.conn.inbox, session.conn.outbox)
  }

  /** What one update has done by the time it is dealt with. A failed save acknowledges
      nothing, and what is acknowledged has been saved. */
  ghost predicate TookOne(s: Side, c: Change, progress: Progress, s': Side) {
    var acked := progress == AckLost || progress == Done;
    && s'.view == (if progress == NotApplied then s.view else Effect(s.view, c.mutation))
    && s'.cursor == s.cursor + (if acked then 1 else 0)
    && s'.inbox == s.inbox
    && (s'.outbox == s.outbox || (acked && s'.outbox == s.outbox + [AckMessage(s'.cursor)]))
    && (progress == Done ==> s'.outbox != s.outbox)
    && s'.file.Some? == s.file.Some?
    && (progress == NotApplied ==> s'.file == s.file)
    && (progress == NotSaved ==> s.file.Some? && (s'.file == s.file || s'.file == Some(Digits(s.cursor + 1))))
    && (acked && s.file.Some? ==> s'.file == Some(Digits(s'.cursor)))
  }

  ghost function StoreFailures(store: Store): nat
    reads store.file
  {
    if store.file == null then 0 else store.file.failures
  }

  method ApplyChange(store: Store, change: Change) returns (ok: bool)
    modifies store, store.file
    ensures View(store.Value()) ==
      if ok then Effect(View(old(store.Value())), change.mutation) else View(old(store.Value()))
    ensures old(StoreFailures(store)) <= StoreFailures(store)
    ensures !ok ==>
      Wants(old(store.Value()), change.mutation, 1).Err? || StoreFailures(store) > old(StoreFailures(store))
  {
    var now :| now > ZERO_TIME;
    ViewFollowsEffect(store.Value(), change.mutation, now);
    var result := ApplyTo(store, change.mutation, now);
    ok := result.Ok?;
  }

  /** What is acknowledged has been saved, and a failed save acknowledges nothing. */
  method SaveAndTell(session: Session, file: CursorFile?) returns (progress: Progress)
    modifies session`appliedCursor, session.conn`outbox, session.conn`failures, file
    ensures progress != NotApplied
    ensures progress == NotSaved ==>
      && session.appliedCursor == old(session.appliedCursor) && session.conn.outbox == old(session.conn.outbox)
      && file != null && (file.text == old(file.text) || file.text == Digits(old(session.appliedCursor) + 1))
      && (file.failures > old(file.failures) || Refuses(old(file.text), old(session.appliedCursor) + 1))
    ensures progress != NotSaved ==>
      && session.appliedCursor == old(session.appliedCursor) + 1
      && (file != null ==> file.text == Digits(session.appliedCursor))
    ensures progress == AckLost ==>
      && session.conn.failures > old(session.conn.failures)
      && (session.conn.outbox == old(session.conn.outbox)
          || session.conn.outbox == old(session.conn.outbox) + [AckMessage(session.appliedCursor)])
    ensures progress == Done ==> session.conn.outbox == old(session.conn.outbox) + [AckMessage(session.appliedCursor)]
    ensures old(session.conn.failures) <= session.conn.failures
    ensures file != null ==> old(file.failures) <= file.failures
  {
    var sequence := session.appliedCursor + 1;
    var saved := SaveCursor(file, sequence);
    if !saved {
      return NotSaved;
    }
    var acked := session.Ack(sequence);
    progress := if acked.Failed? then AckLost else Done;
  }

  /** Apply, save the cursor, acknowledge: in this order. */
  method TakeOne(session: Session, store: Store, file: CursorFile?, change: Change) returns (progress: Progress)
    modifies session`appliedCursor, session.conn`outbox, session.conn`failures, store, store.file, file
    ensures TookOne(old(SideOf(session, store, file)), change, progress, SideOf(session, store, file))
    ensures progress == NotApplied ==>
      || Wants(old(store.Value()), change.mutation, 1).Err?
      || Failures(session, store, file) > old(Failures(session, store, file))
    ensures progress == NotSaved ==>
      || Failures(session, store, file) > old(Failures(session, store, file))
      || (file != null && Refuses(old(file.text), old(session.appliedCursor) + 1))
    ensures progress == AckLost ==> Failures(session, store, file) > old(Failures(session, store, file))
    ensures old(Failures(session, store, file)) <= Failures(session, store, file)
  {
    hide View, Effect, Wants, Refuses;
    var ok := ApplyChange(store, change);
    if !ok {
      return NotApplied;
    }
    progress := SaveAndTell(session, file);
  }

  /** What a process has when it starts: the lists its policy file stands for and the cursor
      its cursor file gives. A store without a file, and a file that is not there yet, hold
      nothing, and so does an absent cursor. */
  ghost predicate StartsWith(policy: Option<Option<DiskState>>, text: Option<CursorText>, s: State, cursor: nat) {
    && (match policy
        case Some(Some(content)) => Accepts(content) && Decodes(content, s)
        case _ => s == State([], [], map[], []))
    && cursor == if text.Some? && text.value.Digits? then text.value.value else 0
  }

  /** NewConfiguredAdapter and the first lines of Run. It fails only if a file cannot be read
      or holds what cannot be understood. */
  method StartAgent(file: File?, cursorFile: CursorFile?) returns (r: Option<(Store, nat)>)
    modifies file, cursorFile
    ensures file != null ==> file.content == old(file.content) && file.garbled == old(file.garbled)
    ensures cursorFile != null ==> cursorFile.text == old(cursorFile.text)
    ensures r.Some? ==>
      && r.value.0.file == file && (file != null ==> !file.garbled) &&
          (cursorFile != null ==> !cursorFile.text.Garbage?)
      && StartsWith(if file == null then None else Some(file.content),
                    if cursorFile == null then None else Some(cursorFile.text), r.value.0.Value(), r.value.1)
    ensures r.None? ==>
      || (file != null && (file.garbled || file.failures > old(file.failures)))
      || (file != null && file.content.Some? && !Accepts(file.content.value))
      || (cursorFile != null && (cursorFile.text.Garbage? || cursorFile.failures > old(cursorFile.failures)))
  {
    var store: Store;
    if file == null {
      store := new Store(null);
    } else {
      var result := Store.Open(file);
      if result.Err? {
        return None;
      }
      store := result.value;
    }
    var cursor := 0;
    if cursorFile != null {
      var loaded := cursorFile.Load();
      if loaded.None? {
        return None;
      }
      cursor := loaded.value;
    }
    return Some((store, cursor));
  }

  /** The next update that is news; acknowledgements that reach an agent are passed over. */
  method NextPolicy(session: Session) returns (change: Option<Change>, ghost used: nat, ghost skipped: nat)
    modifies session`peerCursor, session`pending, session.conn
    ensures session.conn.outbox == old(session.conn.outbox) + Acks(session.appliedCursor, skipped)
    ensures change.Some? ==>
      && 0 < used <= |old(session.conn.inbox)| && session.conn.inbox == old(session.conn.inbox)[used..]
      && old(session.conn.inbox)[used - 1] == PolicyMessage(session.appliedCursor + 1, change)
      && ValidChange(change.value)
    ensures old(session.conn.failures) <= session.conn.failures
    ensures change.None? ==>
      || session.conn.failures > old(session.conn.failures)
      || exists m <- old(session.conn.inbox) :: Refusal(m, session.appliedCursor).Some?
  {
    change, used, skipped := None, 0, 0;
    ghost var inbox, outbox := session.conn.inbox, session.conn.outbox;
    while true
      invariant used <= |inbox| && session.conn.inbox == inbox[used..]
      invariant session.conn.outbox == outbox + Acks(session.appliedCursor, skipped)
      invariant session.conn.failures == old(session.conn.failures)
      decreases |session.conn.inbox|
    {
      var received;
      ghost var more, sent := 0, session.conn.outbox;
      received, more := session.Receive();
      AcksAdd(outbox, session.appliedCursor, skipped, more);
      AcksAdd(outbox, session.appliedCursor, skipped, more + 1);
      skipped := skipped + |session.conn.outbox| - |sent|;
      if received.Failed? {
        return;
      }
      assert inbox[used..][more + 1..] == inbox[used + more + 1..];
      used := used + more + 1;
      if received.value.PolicyMessage? {
        change := received.value.change;
        return;
      }
    }
  }

  lemma AcksAdd(outbox: seq<Message>, cursor: nat, a: nat, b: nat)
    ensures (outbox + Acks(cursor, a)) + Acks(cursor, b) == outbox + Acks(cursor, a + b)
  {
  }

  lemma OnlyAcksJoin(a: seq<Message>, b: seq<Message>, c: seq<Message>, low: nat, mid: nat, high: nat)
    requires OnlyAcks(a, b, low, mid) && OnlyAcks(b, c, mid, high) && low <= mid <= high
    ensures OnlyAcks(a, c, low, high)
  {
  }

  /** A message that ends the agent's loop: refused, or a change that no store would take. */
  predicate Offends(m: Message, applied: nat) {
    || Refusal(m, applied).Some?
    || (m.PolicyMessage? && m.change.Some? && m.change.value.mutation.expiresAt == Some(ZERO_TIME))
  }

  ghost predicate SomeOffends(inbox: seq<Message>, applied: nat) {
    exists m <- inbox :: Offends(m, applied)
  }

  /** A valid change is refused by a store only for an expiry at the zero time. */
  lemma ValidChangeIsTaken(s: State, c: Change)
    requires ValidChange(c) && Wants(s, c.mutation, 1).Err?
    ensures c.mutation.expiresAt == Some(ZERO_TIME)
  {
  }

  /** A message or the cursor's file forbids the next update. */
  ghost predicate Hindered(s: Side) {
    SomeOffends(s.inbox, s.cursor) || (s.file.Some? && Refuses(s.file.value, s.cursor + 1))
  }

  /** One round of the loop. excuse says that something outside would have ended it. */
  ghost predicate Round(s: Side, taken: Option<Change>, more: bool, excuse: bool, s': Side) {
    && s'.view == (if taken.Some? then Effect(s.view, taken.value.mutation) else s.view)
    && (taken.Some? ==> ValidChange(taken.value) && PolicyMessage(s.cursor + 1, taken) in s.inbox)
    && (s'.cursor == s.cursor || (taken.Some? && s'.cursor == s.cursor + 1))
    && s'.file.Some? == s.file.Some?
    && (s.file.Some? ==>
        if s'.cursor > s.cursor then s'.file == Some(Digits(s'.cursor))
        else s'.file == s.file || (taken.Some? && s'.file == Some(Digits(s.cursor + 1))))
    && OnlyAcks(s.outbox, s'.outbox, s.cursor, s'.cursor)
    && (more ==> s'.cursor == s.cursor + 1 && |s'.inbox| < |s.inbox| && RestOf(s'.inbox, s.inbox))
    && (!more ==> excuse || (s'.cursor == s.cursor && Hindered(s)))
  }

  predicate RestOf(rest: seq<Message>, inbox: seq<Message>) {
    |rest| <= |inbox| && rest == inbox[|inbox| - |rest|..]
  }

  method ConsumeOne(session: Session, store: Store, file: CursorFile?, dryRun: bool)
    returns (more: bool, ghost taken: Option<Change>)
    modifies session, session.conn, store, store.file, file
    ensures Round(old(SideOf(session, store, file)), taken, more,
                  dryRun || Failures(session, store, file) > old(Failures(session, store, file)),
                  SideOf(session, store, file))
    ensures old(Failures(session, store, file)) <= Failures(session, store, file)
    ensures dryRun ==> taken == None && !more && session.appliedCursor == old(session.appliedCursor)
  {
    hide Effect, View, Wants, ValidChange;
    more, taken := false, None;
    var change;
    ghost var used, skipped, inbox, sent, cursor := 0, 0, session.conn.inbox, session.conn.outbox,
        session.appliedCursor;
    change, used, skipped := NextPolicy(session);
    OnlyAcksFurther(sent, sent, cursor, cursor, skipped, session.conn.outbox, cursor);
    if change.None? || dryRun {
      return;
    }
    ghost var acked := session.conn.outbox;
    assert inbox[used - 1] in inbox;
    var progress := TakeOne(session, store, file, change.value);
    OnlyAcksFurther(sent, acked, cursor, cursor, 0, session.conn.outbox, session.appliedCursor);
    if progress == NotApplied {
      if Wants(old(store.Value()), change.value.mutation, 1).Err? {
        ValidChangeIsTaken(old(store.Value()), change.value);
        assert Offends(PolicyMessage(cursor + 1, change), cursor);
      }
      return;
    }
    taken, more := change, progress == Done;
  }

  /** What a stay in the loop amounts to: the updates numbered from the cursor on are
      applied without a gap, nothing is acknowledged that is not saved, and at most the
      last is not acknowledged. */
  ghost predicate Consumed(s: Side, applied: seq<Change>, s': Side) {
    && s'.cursor <= s.cursor + |applied| <= s'.cursor + 1
    && s'.view == Effects(s.view, MutationsOf(applied))
    && ArrivedInOrder(applied, s.cursor + 1, s.inbox)
    && s'.file.Some? == s.file.Some?
    && (s.file.Some? && s'.cursor > s.cursor ==> s'.cursor <= Stored(s'.file.value) <= s.cursor + |applied|)
    && (s.file.Some? && s'.cursor == s.cursor ==>
        s'.file == s.file || (s'.file == Some(Digits(s.cursor + 1)) && |applied| == 1))
    && OnlyAcks(s.outbox, s'.outbox, s.cursor, s'.cursor)
  }

  /** Between two rounds nothing is open. */
  ghost predicate Settled(s: Side, applied: seq<Change>, s': Side) {
    && Consumed(s, applied, s')
    && s'.cursor == s.cursor + |applied| && RestOf(s'.inbox, s.inbox)
    && s'.file == if applied != [] && s.file.Some? then Some(Digits(s'.cursor)) else s.file
  }

  lemma SettledFirst(s: Side)
    ensures Settled(s, [], s)
  {
  }

  function Extended(applied: seq<Change>, taken: Option<Change>): seq<Change> {
    if taken.Some? then applied + [taken.value] else applied
  }

  /** A message, or the cursor's file as it was at the start, forbids the next update. */
  ghost predicate Halted(s: Side, s': Side) {
    SomeOffends(s.inbox, s'.cursor) || (s.file.Some? && s'.cursor == s.cursor && Refuses(s.file.value, s.cursor + 1))
  }

  lemma RoundExtends(s: Side, applied: seq<Change>, m: Side, taken: Option<Change>, more: bool, excuse: bool, s': Side)
    requires Settled(s, applied, m) && Round(m, taken, more, excuse, s')
    ensures Consumed(s, Extended(applied, taken), s')
    ensures more ==> Settled(s, Extended(applied, taken), s') && |s'.inbox| < |m.inbox|
  {
    hide Effects, Effect, ArrivedInOrder, OnlyAcks, MutationsOf, ValidChange, Hindered;
    OnlyAcksJoin(s.outbox, m.outbox, s'.outbox, s.cursor, m.cursor, s'.cursor);
    if taken.Some? {
      ArrivedMore(applied, s.cursor + 1, s.inbox, m.inbox, taken.value);
      EffectsStep(s.view, MutationsOf(applied), taken.value.mutation);
      MutationsOfAppend(applied, taken.value);
    }
  }

  lemma RoundHalts(s: Side, applied: seq<Change>, m: Side, taken: Option<Change>, excuse: bool, s': Side)
    requires Settled(s, applied, m) && Round(m, taken, false, excuse, s')
    ensures excuse || Halted(s, s')
  {
    hide Effects, Effect, ArrivedInOrder, OnlyAcks, MutationsOf, ValidChange, Offends;
  }

  /** Round after round: sides holds where each began, with everything before it settled. */
  ghost predicate Chain(sides: seq<Side>, applied: seq<Change>) {
    && |sides| == |applied| + 1
    && (forall i :: 0 <= i < |sides| ==> Settled(sides[0], applied[..i], sides[i]))
    && forall i :: 0 <= i < |applied| ==> Round(sides[i], Some(applied[i]), true, false, sides[i + 1])
  }

  lemma ChainFirst(s: Side)
    ensures Chain([s], [])
  {
    SettledFirst(s);
  }

  lemma ChainExtends(sides: seq<Side>, applied: seq<Change>, taken: Option<Change>, excuse: bool, s': Side)
    requires Chain(sides, applied) && Round(sides[|applied|], taken, true, excuse, s')
    requires Settled(sides[0], Extended(applied, taken), s')
    ensures taken.Some? && Chain(sides + [s'], Extended(applied, taken))
  {
    hide Settled, Round;
    ForcedRound(sides[|applied|], taken, excuse, s');
    var more, longer := sides + [s'], Extended(applied, taken);
    forall i | 0 <= i < |more| ensures Settled(more[0], longer[..i], more[i]) {
      if i <= |applied| {
        assert longer[..i] == applied[..i];
      } else {
        assert longer[..i] == longer;
      }
    }
    forall i | 0 <= i < |longer| ensures Round(more[i], Some(longer[i]), true, false, more[i + 1]) {
      if i < |applied| {
        assert longer[i] == applied[i];
      }
    }
  }

  lemma ForcedRound(s: Side, taken: Option<Change>, excuse: bool, s': Side)
    requires Round(s, taken, true, excuse, s')
    ensures taken.Some? && Round(s, taken, true, false, s')
  {
  }

  /** All rounds but the last, and then the last. */
  ghost predicate RoundByRound(sides: seq<Side>, applied: seq<Change>, excuse: bool, s': Side) {
    && 0 < |sides| <= |applied| + 1 && |applied| <= |sides|
    && Chain(sides, applied[..|sides| - 1])
    && Round(sides[|sides| - 1], if |applied| == |sides| then Some(applied[|applied| - 1]) else None, false, excuse, s')
  }

  lemma ChainEnds(sides: seq<Side>, applied: seq<Change>, taken: Option<Change>, excuse: bool, s': Side)
    requires Chain(sides, applied) && Round(sides[|applied|], taken, false, excuse, s')
    ensures RoundByRound(sides, Extended(applied, taken), excuse, s')
  {
    assert Extended(applied, taken)[..|applied|] == applied;
    hide Round, Settled;
  }

  /** Receive and take, until something fails: whatever the peer sends, and not giving up
      before the connection, a file or a message gives it a reason to. sides is where each
      round began. */
  method Consume(session: Session, store: Store, file: CursorFile?, cursor: nat, dryRun: bool)
    returns (cursor': nat, ghost applied: seq<Change>, ghost sides: seq<Side>)
    requires session.appliedCursor == cursor
    modifies session, session.conn, store, store.file, file
    ensures session.appliedCursor == cursor'
    ensures Consumed(old(SideOf(session, store, file)), applied, SideOf(session, store, file))
    ensures RoundByRound(sides, applied, dryRun || Failures(session, store, file) > old(Failures(session, store, file)),
                         SideOf(session, store, file))
    ensures sides[0] == old(SideOf(session, store, file))
    ensures dryRun ==> cursor' == cursor && applied == []
    ensures dryRun || Failures(session, store, file) > old(Failures(session, store, file))
         || Halted(old(SideOf(session, store, file)), SideOf(session, store, file))
  {
    ghost var start := SideOf(session, store, file);
    cursor', applied, sides := cursor, [], [start];
    ChainFirst(start);
    while true
      invariant session.appliedCursor == cursor' && (dryRun ==> cursor' == cursor && applied == [])
      invariant Chain(sides, applied) && sides[0] == start && sides[|applied|] == SideOf(session, store, file)
      invariant old(Failures(session, store, file)) <= Failures(session, store, file)
      decreases |session.conn.inbox|
    {
      var more;
      more, applied, sides :=
          ConsumeNext(session, store, file, dryRun, old(Failures(session, store, file)), applied, sides);
      cursor' := session.appliedCursor;
      if !more {
        return;
      }
    }
  }

  /** A round, and what it adds to the rounds before it. */
  method ConsumeNext(session: Session, store: Store, file: CursorFile?, dryRun: bool, ghost failed: nat,
                     ghost applied: seq<Change>, ghost sides: seq<Side>)
    returns (more: bool, ghost applied': seq<Change>, ghost sides': seq<Side>)
    requires Chain(sides, applied) && sides[|applied|] == SideOf(session, store, file)
    requires failed <= Failures(session, store, file)
    modifies session, session.conn, store, store.file, file
    ensures more ==>
      && Chain(sides', applied') && sides'[0] == sides[0] && sides'[|applied'|] == SideOf(session, store, file)
      && |session.conn.inbox| < |old(session.conn.inbox)|
    ensures !more ==>
      && sides' == sides && Consumed(sides[0], applied', SideOf(session, store, file))
      && RoundByRound(sides, applied', dryRun || Failures(session, store, file) > failed, SideOf(session, store, file))
      && (dryRun || Failures(session, store, file) > failed || Halted(sides[0], SideOf(session, store, file)))
    ensures dryRun ==> applied' == applied && !more && session.appliedCursor == old(session.appliedCursor)
    ensures old(Failures(session, store, file)) <= Failures(session, store, file)
  {
    ChainSettled(sides, applied);
    hide Chain, Settled, Consumed, Round, RoundByRound, Halted, View;
    ghost var before, taken := SideOf(session, store, file), None;
    more, taken := ConsumeOne(session, store, file, dryRun);
    ghost var excuse, after := dryRun || Failures(session, store, file) > failed, SideOf(session, store, file);
    ghost var here := dryRun || Failures(session, store, file) > old(Failures(session, store, file));
    RoundExcused(before, taken, more, here, excuse, after);
    RoundExtends(sides[0], applied, before, taken, more, excuse, after);
    applied', sides' := Extended(applied, taken), if more then sides + [after] else sides;
    if more {
      ChainExtends(sides, applied, taken, excuse, after);
    } else {
      RoundHalts(sides[0], applied, before, taken, excuse, after);
      ChainEnds(sides, applied, taken, excuse, after);
    }
  }

  lemma ChainSettled(sides: seq<Side>, applied: seq<Change>)
    requires Chain(sides, applied)
    ensures |sides| == |applied| + 1 && Settled(sides[0], applied, sides[|applied|])
  {
    assert applied[..|applied|] == applied;
    hide Settled, Round;
  }

  lemma RoundExcused(s: Side, taken: Option<Change>, more: bool, here: bool, excuse: bool, s': Side)
    requires Round(s, taken, more, here, s') && (here ==> excuse)
    ensures Round(s, taken, more, excuse, s')
  {
  }

  /** changes[i] was received under number first + i, and was valid. */
  ghost predicate ArrivedInOrder(changes: seq<Change>, first: nat, inbox: seq<Message>) {
    forall i :: 0 <= i < |changes| ==>
      PolicyMessage(first + i, Some(changes[i])) in inbox && ValidChange(changes[i])
  }

  lemma ArrivedMore(changes: seq<Change>, first: nat, inbox: seq<Message>, part: seq<Message>, c: Change)
    requires ArrivedInOrder(changes, first, inbox) && ValidChange(c)
    requires PolicyMessage(first + |changes|, Some(c)) in part && forall m <- part :: m in inbox
    ensures ArrivedInOrder(changes + [c], first, inbox)
  {
  }

  // ---- the server ----

  /** The first n changes, numbered from first. */
  function Numbered(changes: seq<Change>, first: nat): (r: seq<Message>)
    ensures |r| == |changes|
  {
    seq(|changes|, i requires 0 <= i < |changes| => PolicyMessage(first + i, Some(changes[i])))
  }

  lemma NumberedAppend(changes: seq<Change>, first: nat, c: Change)
    ensures Numbered(changes + [c], first) == Numbered(changes, first) + [PolicyMessage(first + |changes|, Some(c))]
  {
  }

  /** Some message is not an acknowledgement of the number awaited or a later one. */
  ghost predicate BadAnswer(inbox: seq<Message>, sequence: nat) {
    exists m <- inbox :: Bad(m, sequence)
  }

  predicate Bad(m: Message, sequence: nat) {
    Refusal(m, 0).Some? || !m.AckMessage? || m.cursor < sequence
  }

  lemma BadAnswerAt(inbox: seq<Message>, k: nat, sequence: nat)
    requires k < |inbox| && Bad(inbox[k], sequence)
    ensures BadAnswer(inbox, sequence)
  {
  }

  lemma SuffixIsRest(inbox: seq<Message>, k: nat)
    requires k <= |inbox|
    ensures RestOf(inbox[k..], inbox)
  {
  }

  lemma BadAnswerIsOld(rest: seq<Message>, inbox: seq<Message>, sequence: nat)
    requires BadAnswer(rest, sequence) && RestOf(rest, inbox)
    ensures BadAnswer(inbox, sequence)
  {
    var m :| m in rest && Bad(m, sequence);
    assert m in inbox;
  }

  lemma RestOfRest(a: seq<Message>, b: seq<Message>, c: seq<Message>)
    requires RestOf(a, b) && RestOf(b, c)
    ensures RestOf(a, c)
  {
  }

  /** How often the connection and the cursor's file of the server have failed. */
  ghost function ServerFailures(session: Session, file: CursorFile?): nat
    reads session.conn, file
  {
    session.conn.failures + if file == null then 0 else file.failures
  }

  /** What the loop of the server has before it. */
  datatype ServerSide = ServerSide(cursor: nat, file: Option<CursorText>, queue: QueueState, window: Window,
      inbox: seq<Message>)

  /** One change is over: the first answer was an acknowledgement of its number or a later
      one, which is now the cursor, in memory and in the file. */
  ghost predicate Exchanged(s: ServerSide, c: Change, s': ServerSide) {
    && |s.inbox| > 0 && s.inbox[0] == AckMessage(s'.cursor) && s'.inbox == s.inbox[1..]
    && s'.cursor >= s.window.next && s'.cursor > 0
    && s'.window == Acknowledged(Reserved(s.window), s'.cursor)
    && s'.queue == Committed(s.queue, c)
    && s'.file.Some? == s.file.Some?
    && (s.file.Some? ==>
        s.file.value != Garbage && Stored(s.file.value) <= s'.cursor && s'.file == Some(Digits(s'.cursor)))
    && ValidChange(c)
  }

  class SyncServer {
    const queue: PolicyQueue
    const file: CursorFile?
    var cursor: nat

    constructor (queue: PolicyQueue, file: CursorFile?, cursor: nat)
      ensures this.queue == queue && this.file == file && this.cursor == cursor
    {
      this.queue, this.file, this.cursor := queue, file, cursor;
    }

    ghost function ServerSideOf(session: Session): ServerSide
      reads this, queue, file, session, session.conn
    {
      ServerSide(cursor, if file == null then None else Some(file.text), queue.Value(), session.Value(),
          session.conn.inbox)
    }

    /** One turn: send, wait for the acknowledgement, save, commit. */
    method Exchange(session: Session, change: Change) returns (ok: bool)
      requires session.appliedCursor == 0
      modifies this`cursor, queue, file, session, session.conn
      ensures session.appliedCursor == 0
      ensures ok ==> Exchanged(old(ServerSideOf(session)), change, ServerSideOf(session))
      ensures ok ==>
        && session.nextSequence == old(session.nextSequence) + 1
        && session.conn.outbox == old(session.conn.outbox) + [PolicyMessage(old(session.nextSequence), Some(change))]
        && |session.conn.inbox| < |old(session.conn.inbox)| && RestOf(session.conn.inbox, old(session.conn.inbox))
        && cursor >= old(session.nextSequence)
        && queue.Value() == Committed(old(queue.Value()), change)
        && (file != null ==> file.text == Digits(cursor) && Stored(old(file.text)) <= cursor)
      ensures !ok ==>
        && cursor == old(cursor) && queue.Value() == old(queue.Value())
        && (session.conn.outbox == old(session.conn.outbox)
            || session.conn.outbox ==
                old(session.conn.outbox) + [PolicyMessage(old(session.nextSequence), Some(change))])
        && (file != null ==> file.text == old(file.text) || Stored(old(file.text)) <= Stored(file.text))
      ensures old(ServerFailures(session, file)) <= ServerFailures(session, file)
      ensures !ok && session.conn.outbox == old(session.conn.outbox) ==>
        || ServerFailures(session, file) > old(ServerFailures(session, file))
        || !ValidChange(change) || |session.pending| >= session.maxInFlight
      ensures !ok && session.conn.outbox != old(session.conn.outbox) ==>
        || ServerFailures(session, file) > old(ServerFailures(session, file))
        || BadAnswer(old(session.conn.inbox), old(session.nextSequence))
        || (file != null && Refuses(file.text, old(session.nextSequence)))
    {
      hide ValidChange, BadAnswer, RestOf;
      var reserved := session.SendPolicy(change);
      if reserved.Failed? {
        return false;
      }
      var sequence := reserved.value;
      ghost var inbox := session.conn.inbox;
      var received;
      ghost var skipped;
      received, skipped := session.Receive();
      assert skipped > 0 ==> Duplicate(inbox[0], 0);
      if skipped < |inbox| {
        SuffixIsRest(inbox, skipped + 1);
        if Bad(inbox[skipped], sequence) {
          BadAnswerAt(inbox, skipped, sequence);
        }
      }
      if received.Failed? || !received.value.AckMessage? || received.value.cursor < sequence {
        return false;
      }
      var saved := SaveCursor(file, received.value.cursor);
      if !saved {
        return false;
      }
      cursor := received.value.cursor;
      queue.Commit(change);
      ok := true;
    }

    /** Whatever the peer sends, the changes go out in queue order under consecutive
        numbers, one at a time, and leave the queue from the front, one for each
        acknowledgement; what is committed has been acknowledged by its own number or a
        later one. It goes on until there is nothing to send, or the connection, the
        file, the window or an answer stops it. */
    method HandleSync(session: Session) returns (ghost sent: nat, ghost committed: nat)
      requires Opened(0, cursor, 0) == Success(session.Value())
      modifies this`cursor, queue, file, session, session.conn
      ensures committed <= sent <= committed + 1 && sent <= |old(queue.pending)|
      ensures queue.pending == old(queue.pending)[committed..]
      ensures session.conn.outbox == old(session.conn.outbox) + Numbered(old(queue.pending)[..sent], old(cursor) + 1)
      ensures if committed == 0 then cursor == old(cursor) else cursor >= old(cursor) + committed
      ensures file != null && committed > 0 ==> Stored(file.text) >= cursor
      ensures queue.pending != [] && sent == committed ==>
        || ServerFailures(session, file) > old(ServerFailures(session, file))
        || !ValidChange(queue.pending[0]) || |session.pending| >= session.maxInFlight
      ensures sent > committed ==>
        || ServerFailures(session, file) > old(ServerFailures(session, file))
        || BadAnswer(old(session.conn.inbox), old(cursor) + 1 + committed)
        || (file != null && Refuses(file.text, old(cursor) + 1 + committed))
    {
      sent, committed := 0, 0;
      ghost var pending, inbox, outbox, first := queue.pending, session.conn.inbox, session.conn.outbox, cursor + 1;
      while true
        invariant sent == committed <= |pending| && queue.pending == pending[committed..]
        invariant session.nextSequence == first + committed && session.appliedCursor == 0
        invariant session.conn.outbox == outbox + Numbered(pending[..committed], first)
        invariant if committed == 0 then cursor == first - 1 else cursor >= first - 1 + committed
        invariant file != null && committed > 0 ==> Stored(file.text) >= cursor
        invariant RestOf(session.conn.inbox, inbox)
        invariant old(ServerFailures(session, file)) <= ServerFailures(session, file)
        decreases |session.conn.inbox|
      {
        var next := queue.Next();
        if next.None? {
          return;
        }
        NumberedAppend(pending[..committed], first, next.value);
        assert pending[..committed + 1] == pending[..committed] + [next.value];
        ghost var before, arrived := session.conn.outbox, session.conn.inbox;
        var ok := Exchange(session, next.value);
        sent := if session.conn.outbox == before then committed else committed + 1;
        if !ok {
          if BadAnswer(arrived, first + committed) {
            BadAnswerIsOld(arrived, inbox, first + committed);
          }
          return;
        }
        RestOfRest(session.conn.inbox, arrived, inbox);
        committed := committed + 1;
      }
    }
  }
}
