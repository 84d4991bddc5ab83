/** The calls of the controller, the sender loop and the receiver loop, as turns of the
    replication state machine. */
module Correspondence {
  import opened Basics
  import opened Cidr
  import opened PolicyStore
  import opened PolicyStoreLaws
  import opened Mutations
  import opened Queue
  import opened AgentRpc
  import opened Cursor
  import opened Routing
  import opened Controller
  import opened ControllerLaws
  import opened SyncLoops
  import R = Replication

  // ---- the controller ----

  lemma AcceptableIsValid(m: Mutation)
    requires Acceptable(m) && WellFormed(m)
    ensures ValidChange(Change(0, m))
  {
  }

  /** What changes a store changes what replicas see of it. */
  lemma ChangesView(s: State, m: Mutation)
    requires Consistent(s) && Acceptable(m) && WellFormed(m) && Changes(s, m)
    ensures Effect(View(s), m) != View(s)
  {
    var p := CanonicalPrefix(m.prefix).value;
    assert p.Masked() == p;
    var t := Mutations.Applied(View(s), m, 1);
    if m.expiresAt.Some? {
      assert p in t.expirations && t.expirations[p] == m.expiresAt.value;
    } else {
      assert |t.Listed(m.list)| != |View(s).Listed(m.list)|;
    }
  }

  /** A successful mutation is two turns: one reaches the store, one the queue. */
  lemma AppliedIsStoreAndPublish(hops: NextHops, s: Sys, m: Mutation, at: Times, undone: bool, s': Sys,
                                 w: R.World, max: nat) returns (w': R.World)
    requires LockedStep(hops, s, m, at, Controller.Outcome.Applied, undone, s') && WellFormed(m) && Consistent(s.store)
    requires w.server.store == View(s.store) && w.server.queue == s.queue && w.server.making == None
    ensures R.Comes(w, [R.Store(m), R.Publish], w', R.PolicyRules(max))
    ensures w'.server.store == View(s'.store) && w'.server.queue == s'.queue && w'.server.making == None
  {
    var rules := R.PolicyRules(max);
    ViewFollowsEffect(s.store, m, at.third);
    ChangesView(s.store, m);
    AcceptableIsValid(m);
    assert rules.valid(Change(0, m)) && rules.effect(View(s.store), m) == View(s'.store) != View(s.store);
    hide Effect, View, ValidChange, LockedStep, Consistent;
    var n := R.StoreNext(w, m, rules).value;
    w' := R.PublishNext(n).value;
    R.ComesTwo(w, R.Store(m), n, R.Publish, w', rules);
  }

  // ---- the sender loop ----

  ghost predicate ServerIs(w: R.World, s: ServerSide) {
    && w.server.cursor == s.cursor && w.server.queue == s.queue && w.server.window == s.window
    && (s.file.Some? ==> w.server.file == Stored(s.file.value))
  }

  /** One exchange is Send, then, once the other end's turns have brought the answer in, Hear
      and Commit. */
  lemma ExchangeIsTurns(rules: R.Rules, w: R.World, s: ServerSide, c: Change, s': ServerSide, answered: R.World)
    requires Exchanged(s, c, s') && ServerIs(w, s) && w.server.phase == R.Idle
    requires s.queue.pending != [] && s.queue.pending[0] == c && rules.valid(c) &&
        |s.window.pending| < rules.maxInFlight
    requires s.file.None? ==> w.server.file <= s'.cursor
    requires R.SendNext(w, rules).Some?
    requires answered.server == R.SendNext(w, rules).value.server.(inbox := s.inbox)
    ensures R.HearNext(answered).Some?
    ensures
      var heard := R.HearNext(answered).value;
      && R.CommitNext(heard, true, true).Some?
      && var w' := R.CommitNext(heard, true, true).value;
         ServerIs(w', s') && w'.server.phase == R.Idle && w'.server.inbox == s'.inbox
  {
    hide Acknowledged, Reserved, ValidChange;
  }

  // ---- the receiver loop ----

  /** An agent whose store and cursor are those of the side; a file without a number in it
      counts as zero. */
  ghost predicate AgentIs(w: R.World, s: Side) {
    && w.agent.mem == s.view && w.agent.cursor == s.cursor && w.agent.files.cursor == s.file.Some?
    && (s.file.Some? ==> s.file.value != Garbage && w.agent.file == Stored(s.file.value))
  }

  /** What is left of an update once it is in hand, for each way it can end. A save that the
      file refuses, or that fails before or after the rename, ends the connection; so
      does an acknowledgement that is not sent. */
  function TurnsOf(progress: Progress, renamed: bool, delivered: bool): seq<R.Turn> {
    match progress
    case NotApplied => [R.Take(false, false)]
    case NotSaved => [R.Take(true, true), R.Save(false, renamed)]
    case AckLost => [R.Take(true, true), R.Save(true, true), R.Acknowledge(false, delivered)]
    case Done => [R.Take(true, true), R.Save(true, true), R.Acknowledge(true, true)]
  }

  /** The two turns after Take. */
  lemma SaveTellIsTurns(w: R.World, s: Side, c: Change, progress: Progress, s': Side, max: nat)
    returns (acts: seq<R.Turn>, w': R.World)
    requires TookOne(s, c, progress, s') && progress != NotApplied && AgentIs(w, s.(view := s'.view)) && w.agent.up
    requires w.agent.phase == R.Took(s.cursor + 1) && w.agent.window.applied == s.cursor
    requires s.file.Some? && progress != NotSaved ==> w.agent.file <= s.cursor + 1
    requires progress == NotSaved && w.agent.file > s.cursor + 1 ==> s'.file == s.file
    ensures R.Comes(w, acts, w', R.PolicyRules(max)) && AgentIs(w', s')
    ensures acts == TurnsOf(progress, s'.file != s.file, s'.outbox != s.outbox)[1..]
    ensures w'.server.inbox == if w.linked then w.server.inbox + s'.outbox[|s.outbox|..] else w.server.inbox
    ensures (progress == Done) <==> w'.agent.up
  {
    var rules := R.PolicyRules(max);
    hide Effect, ValidChange, R.Comes;
    assert s.outbox[|s.outbox|..] == [] && w.server.inbox + [] == w.server.inbox;
    acts := TurnsOf(progress, s'.file != s.file, s'.outbox != s.outbox)[1..];
    var m := R.SaveNext(w, acts[0].saved, acts[0].renamed).value;
    if progress == NotSaved {
      w' := m;
      R.ComesOne(w, acts[0], m, rules);
      assert [acts[0]] == acts;
    } else {
      w' := R.AcknowledgeNext(m, acts[1].told, acts[1].delivered).value;
      R.ComesTwo(w, acts[0], m, acts[1], w', rules);
      assert [acts[0], acts[1]] == acts;
    }
  }

  lemma TakeOneIsTurns(w: R.World, s: Side, c: Change, progress: Progress, s': Side, max: nat)
    returns (acts: seq<R.Turn>, w': R.World)
    requires TookOne(s, c, progress, s') && AgentIs(w, s) && w.agent.up && w.agent.phase == R.Got(s.cursor + 1, c)
    requires w.agent.window.applied == s.cursor
    requires s.file.Some? && (progress == AckLost || progress == Done) ==> w.agent.file <= s.cursor + 1
    requires progress == NotSaved && w.agent.file > s.cursor + 1 ==> s'.file == s.file
    ensures R.Comes(w, acts, w', R.PolicyRules(max)) && AgentIs(w', s')
    ensures exists renamed, delivered :: acts == TurnsOf(progress, renamed, delivered)
    ensures (progress == Done) <==> w'.agent.up
  {
    var rules := R.PolicyRules(max);
    hide Effect, ValidChange, R.Comes;
    acts := TurnsOf(progress, s'.file != s.file, s'.outbox != s.outbox);
    var m := R.TakeNext(w, acts[0].applied, acts[0].renamed, rules).value;
    R.ComesOne(w, acts[0], m, rules);
    if progress == NotApplied {
      w' := m;
      assert [acts[0]] == acts;
    } else {
      var more;
      more, w' := SaveTellIsTurns(m, s, c, progress, s', max);
      R.ComesFurther(w, [acts[0]], m, more, w', rules);
      assert [acts[0]] + more == acts;
    }
  }

  /** What the file of the agent's store holds: nothing yet, or a store it has written. */
  ghost predicate DiskIs(w: R.World, disk: Option<DiskState>) {
    if disk.None? then w.agent.disk == EMPTY
    else exists s :: Consistent(s) && disk == Some(ToDisk(s)) && w.agent.disk == View(s)
  }

  /** Whatever comes of handing a change to a store with a file, a refusal, a write that fails
      before or after the rename, or success, is what one way of taking it comes to. */
  lemma ApplyIsTurn(w: R.World, c: Change, before: State, now: Time, r: PolicyStore.Result<bool>, after: State,
                    diskBefore: Option<DiskState>, diskAfter: Option<DiskState>, max: nat) returns (renamed: bool)
    requires Consistent(before) && now != ZERO_TIME && w.agent.mem == View(before) && DiskIs(w, diskBefore)
    requires w.agent.up && w.agent.phase.Got? && w.agent.phase.change == c
    requires Settles(before, Wants(before, c.mutation, now), r, after, true, diskBefore, diskAfter)
    ensures R.TakeNext(w, r.Ok?, renamed, R.PolicyRules(max)).Some?
    ensures
      var w' := R.TakeNext(w, r.Ok?, renamed, R.PolicyRules(max)).value;
      w'.agent.mem == View(after) && DiskIs(w', diskAfter) && w'.agent.up == r.Ok?
  {
    var want := Wants(before, c.mutation, now);
    ViewFollowsEffect(before, c.mutation, now);
    MutationKeepsConsistency(before, c.mutation, now);
    renamed := want.Ok? && diskAfter == Some(ToDisk(want.value));
    if want.Ok? {
      if View(want.value) == View(before) {
        SameViewSameStore(before, c.mutation, now);
      }
      if r.Err? && diskAfter == diskBefore && renamed {
        SameFileSameStore(w, diskBefore, want.value);
      }
    }
    hide Wants, Effect, ToDisk, Consistent, View;
  }

  lemma SameViewSameStore(s: State, m: Mutation, now: Time)
    requires Wants(s, m, now).Ok? && View(Wants(s, m, now).value) == View(s)
    ensures Wants(s, m, now).value == s
  {
    var p := CanonicalPrefix(m.prefix).value;
    CallThatChangesNothing(s,
      if m.expiresAt.Some? then AddUntilCall(Blocklist, p, m.expiresAt.value, now)
      else MutateCall(OperationOf(m.action), m.list, p, now));
  }

  lemma SameFileSameStore(w: R.World, disk: Option<DiskState>, s: State)
    requires DiskIs(w, disk) && Consistent(s) && disk == Some(ToDisk(s))
    ensures w.agent.disk == View(s)
  {
    var t :| Consistent(t) && disk == Some(ToDisk(t)) && w.agent.disk == View(t);
    PersistOpenRoundTrip(s, t);
    PersistOpenRoundTrip(t, t);
    hide ToDisk, Decodes, Accepts, Consistent;
  }

  /** The files of the agent, and what they stand for. */
  ghost predicate FilesAre(w: R.World, policy: Option<Option<DiskState>>, text: Option<CursorText>) {
    && w.agent.files == R.Files(policy.Some?, text.Some?)
    && (policy.Some? ==> DiskIs(w, policy.value))
    && (text.Some? ==> text.value != Garbage && w.agent.file == Stored(text.value))
  }

  /** A restart, wherever it comes, and the next connection: the agent has in memory what its
      files say, and asks for the number after the cursor in its file. */
  lemma RestartIsTurns(w: R.World, policy: Option<Option<DiskState>>, text: Option<CursorText>, s: State,
                       cursor: nat, rules: R.Rules) returns (w': R.World)
    requires FilesAre(w, policy, text) && StartsWith(policy, text, s, cursor)
    ensures R.Comes(w, [R.Crash, R.Dial], w', rules)
    ensures w'.agent.mem == View(s) && w'.agent.cursor == cursor
    ensures w'.agent.window == Window(1, cursor, 0, {}) && w'.agent.up && w'.agent.phase == R.Receiving
    ensures w'.agent.inbox == [] && w'.server == w.server && FilesAre(w', policy, text)
  {
    if policy.Some? && policy.value.Some? {
      var before :| Consistent(before) && policy.value == Some(ToDisk(before)) && w.agent.disk == View(before);
      PersistOpenRoundTrip(before, s);
    }
    hide ToDisk, Decodes, Accepts, Consistent;
    var m := R.Crashed(w);
    w' := R.DialNext(m).value;
    R.ComesTwo(w, R.Crash, m, R.Dial, w', rules);
  }

  /** Numbers up to n are behind an agent that keeps its cursor: in its file, in memory, and in
      the window it has open. */
  ghost predicate Behind(w: R.World, n: nat) {
    && w.agent.files.cursor && n <= w.agent.file && n <= w.agent.cursor
    && (w.agent.up ==> n <= w.agent.window.applied)
    && (w.agent.phase.Got? || w.agent.phase.Took? || w.agent.phase.Saved? ==> n < w.agent.phase.sequence)
  }

  lemma TurnKeepsBehind(rules: R.Rules, w: R.World, act: R.Turn, w': R.World, n: nat)
    requires Behind(w, n) && R.Next(w, act, rules) == Some(w')
    ensures Behind(w', n)
  {
  }

  lemma {:induction false} StaysBehind(rules: R.Rules, w: R.World, acts: seq<R.Turn>, w': R.World, n: nat)
    requires Behind(w, n) && R.Comes(w, acts, w', rules)
    ensures Behind(w', n)
    decreases |acts|
  {
    if acts != [] {
      var m := R.Next(w, acts[0], rules).value;
      TurnKeepsBehind(rules, w, acts[0], m, n);
      hide R.Next, Behind;
      StaysBehind(rules, m, acts[1..], w', n);
    }
  }

  /** Once a number is in the file and the agent has restarted, no connection ever puts it in
      the agent's hands again, whatever happens on the way, from any world whatever. */
  lemma SavedIsNeverInHandAgain(rules: R.Rules, w: R.World, acts: seq<R.Turn>, w': R.World)
    requires w.agent.files.cursor && |acts| > 0 && acts[0].Crash? && R.Comes(w, acts, w', rules)
    ensures w'.agent.phase.Got? || w'.agent.phase.Took? ==> w'.agent.phase.sequence > w.agent.file
    ensures w'.agent.cursor >= w.agent.file && w'.agent.file >= w.agent.file
  {
    var m := R.Next(w, acts[0], rules).value;
    assert Behind(m, w.agent.file);
    StaysBehind(rules, m, acts[1..], w', w.agent.file);
  }

  // ---- messages ----

  /** What Receive does with a message is what the turn Receive does with it. */
  lemma ReceiveIsTurn(w: R.World, max: nat)
    requires w.agent.up && w.agent.phase == R.Receiving && |w.agent.inbox| > 0
    ensures
      var a, m, rules := w.agent, w.agent.inbox[0], R.PolicyRules(max);
      var rest := w.(agent := a.(inbox := a.inbox[1..]));
      R.ReceiveNext(w, rules) == Some(
        if Duplicate(m, a.window.applied) then R.Told(rest, AckMessage(a.window.applied))
        else if Refusal(m, a.window.applied).Some? then R.AgentClosed(w)
        else if m.AckMessage? then rest.(agent := rest.agent.(window := Acknowledged(a.window, m.cursor)))
        else rest.(agent := rest.agent.(phase := R.Got(m.sequence, m.change.value))))
  {
    hide ValidChange, Acknowledged;
  }

  /** The server's three turns over one answer, which comes after Send. */
  function AfterExchange(w: R.World, answer: Message, saved: bool, renamed: bool, rules: R.Rules): R.World
    requires w.server.phase.Idle? && w.server.queue.pending != []
  {
    var sent := R.SendNext(w, rules).value;
    if !sent.server.phase.Awaiting? then sent
    else
      var heard := R.HearNext(sent.(server := sent.server.(inbox := [answer]))).value;
      if heard.server.phase.Answered? then R.CommitNext(heard, saved, renamed).value else heard
  }

  /** The turns stop for the reasons that Exchange gives for a failure and no others: a change
      that cannot be sent or a full window, a bad answer, a cursor that the file refuses or
      that is not saved. Then nothing is committed, and the file is old or new. */
  lemma FailedExchangeIsTurns(w: R.World, answer: Message, saved: bool, renamed: bool, max: nat)
    requires w.server.phase.Idle? && w.server.queue.pending != []
    ensures
      var s, w' := w.server, AfterExchange(w, answer, saved, renamed, R.PolicyRules(max));
      var change, sequence := s.queue.pending[0], s.window.next;
      var unsent := !ValidChange(change) || |s.window.pending| >= max;
      var stopped := unsent || Bad(answer, sequence) || Refuses(Digits(s.file), answer.cursor) || !saved;
      && (w'.server.phase == if stopped then R.Away else R.Idle)
      && (!stopped ==>
          && w'.server.cursor == w'.server.file == answer.cursor >= sequence
          && w'.server.queue == Committed(s.queue, change))
      && (stopped ==>
          && w'.server.cursor == s.cursor && w'.server.queue == s.queue
          && w'.server.file ==
              if !unsent && !Bad(answer, sequence) && !Refuses(Digits(s.file), answer.cursor) && renamed
              then answer.cursor else s.file)
      && (w'.agent ==
          if unsent || !w.linked then w.agent
          else w.agent.(inbox := w.agent.inbox + [PolicyMessage(sequence, Some(change))]))
      && (!unsent && saved && stopped ==>
          BadAnswer([answer], sequence) || Refuses(Digits(s.file), sequence))
  {
    hide ValidChange;
    assert answer in [answer];
    assert w.agent.inbox + [] == w.agent.inbox;
  }

  /** A new session of the server and a new connection of the agent open the windows with which
      their loops begin, and so the turns that follow start where those start. */
  lemma SessionsAreTurns(w: R.World, live: bool, s: ServerSide, a: Side, window: Window)
    requires ServerIs(w, s.(window := w.server.window)) && AgentIs(w, a)
    ensures (w.dialled || !live) && Opened(0, s.cursor, 0) == Success(s.window) ==>
      && R.AcceptNext(w, live).Some?
      && var w' := R.AcceptNext(w, live).value;
         ServerIs(w', s) && w'.server.phase == R.Idle && w'.server.inbox == [] && s.window.next == s.cursor + 1
    ensures !w.agent.up && Opened(a.cursor, 0, 0) == Success(window) ==>
      && R.DialNext(w).Some?
      && var w' := R.DialNext(w).value;
         AgentIs(w', a) && w'.agent.window == window && window.applied == a.cursor && w'.agent.phase == R.Receiving
  {
  }
}
