/** What replication gets done: that it catches up, that it may apply a change twice on the
    way, and when it fails. */
module ReplicationProgress {
  import opened Basics
  import opened Cidr
  import opened PolicyStore
  import opened Mutations
  import opened Queue
  import opened AgentRpc
  import opened Replication
  import opened ReplicationLaws

  // ---- what was stored was valid ----

  ghost predicate IdFree(rules: Rules) {
    forall id: nat, m: Mutation :: rules.valid(Change(id, m)) == rules.valid(Change(0, m))
  }

  ghost predicate AllValid(rules: Rules, w: World) {
    && (forall c <- w.server.history :: rules.valid(c))
    && (w.server.making.Some? ==> rules.valid(Change(0, w.server.making.value)))
  }

  lemma RepliesLeaveServerStore(rules: Rules, w: World, act: Turn, w': World)
    requires Next(w, act, rules) == Some(w') && !act.Store? && !act.Publish?
    ensures w'.server.store == w.server.store && w'.server.making == w.server.making
    ensures w'.server.history == w.server.history
  {
    if !act.Take? && !act.Crash? {
      OthersLeaveStores(rules, w, act, w');
      hide Next;
    }
  }

  lemma TurnKeepsValid(rules: Rules, w: World, act: Turn, w': World)
    requires IdFree(rules) && AllValid(rules, w) && Next(w, act, rules) == Some(w')
    ensures AllValid(rules, w')
  {
    if !act.Store? && !act.Publish? {
      RepliesLeaveServerStore(rules, w, act, w');
      hide Next;
    }
  }

  lemma {:induction false} RunKeepsValid(rules: Rules, ws: seq<World>, acts: seq<Turn>, start: Start, i: nat)
    requires IdFree(rules) && IsRun(ws, acts, rules) && Initial(ws[0], start) && i < |ws|
    ensures AllValid(rules, ws[i])
  {
    if i > 0 {
      RunKeepsValid(rules, ws, acts, start, i - 1);
      TurnKeepsValid(rules, ws[i - 1], acts[i - 1], ws[i]);
    }
  }

  lemma ReachableIsValid(w: World, start: Start, max: nat)
    requires Reachable(w, start, PolicyRules(max))
    ensures AllValid(PolicyRules(max), w)
  {
    var rules := PolicyRules(max);
    var ws, acts :| IsRun(ws, acts, rules) && Initial(ws[0], start) && ws[|acts|] == w;
    RunKeepsValid(rules, ws, acts, start, |acts|);
  }

  // ---- one change, end to end ----

  /** Both ends hold the same fresh connection and the agent is not behind. */
  ghost predicate Quiet(w: World, base: nat) {
    && Protocol(w, base) && w.linked && w.agent.up && w.server.cursor <= w.agent.cursor
    && w.server.phase.Idle? && w.server.inbox == [] && w.agent.phase.Receiving? && w.agent.inbox == []
  }

  /** Everything but the connection is as it was. */
  predicate SameBut(w: World, w': World) {
    var s, a := w.server, w.agent;
    && w'.server == s.(phase := w'.server.phase, window := w'.server.window, inbox := w'.server.inbox)
    && w'.agent == a.(up := w'.agent.up, phase := w'.agent.phase, window := w'.agent.window, inbox := w'.agent.inbox)
  }

  lemma Steps(rules: Rules, w: World, act: Turn, w': World, base: nat)
    requires Protocol(w, base) && Next(w, act, rules) == Some(w') && !act.Store? && !act.Publish?
    ensures Protocol(w', base) && Comes(w, [act], w', rules) && OnlyReplicates([act])
  {
    hide Protocol, Next;
    TurnKeepsProtocol(rules, w, act, w', base);
    ComesOne(w, act, w', rules);
  }

  lemma Reconnects(rules: Rules, w: World, base: nat) returns (acts: seq<Turn>, w': World)
    requires Protocol(w, base) && w.server.cursor <= w.agent.cursor
    ensures Comes(w, acts, w', rules) && OnlyReplicates(acts) && Quiet(w', base) && SameBut(w, w')
  {
    var w1, w2 := ServerClosed(w), AgentClosed(ServerClosed(w));
    var w3 := DialNext(w2).value;
    w' := AcceptNext(w3, true).value;
    assert SameBut(w, w') && w'.linked && w'.agent.up && w'.server.phase.Idle? && w'.server.inbox == [];
    assert w'.agent.phase.Receiving? && w'.agent.inbox == [];
    hide Protocol, Comes, OnlyReplicates;
    Steps(rules, w, ServerClose, w1, base);
    Steps(rules, w1, AgentClose, w2, base);
    Steps(rules, w2, Dial, w3, base);
    Steps(rules, w3, Accept(true), w', base);
    ComesFurther(w, [ServerClose], w1, [AgentClose], w2, rules);
    ComesFurther(w, [ServerClose] + [AgentClose], w2, [Dial], w3, rules);
    acts := [ServerClose] + [AgentClose] + [Dial];
    ComesFurther(w, acts, w3, [Accept(true)], w', rules);
    acts := acts + [Accept(true)];
  }

  function Expecting(w: World): World
    requires |w.server.queue.pending| > 0
  {
    w.(server := w.server.(window := Reserved(w.server.window),
                           phase := Awaiting(w.server.window.next, w.server.queue.pending[0])))
  }

  lemma QuietSays(rules: Rules, w: World, base: nat)
    requires Quiet(w, base) && w.server.queue.pending != [] && AllValid(rules, w)
    ensures rules.valid(w.server.queue.pending[0]) && w.server.cursor <= w.agent.cursor <= w.server.cursor + 1
    ensures w.server.window == Window(w.server.cursor + 1, 0, w.server.cursor, {}) &&
        w.agent.window.applied == w.agent.cursor
    ensures w.server.file <= w.server.cursor + 1 && w.agent.file <= w.server.cursor + 1
    ensures |w.server.queue.pending| == |w.server.history| - (w.server.cursor - base) && base <= w.server.cursor
  {
    assert w.server.queue.pending[0] == w.server.history[w.server.cursor - base];
  }

  function Sent(w: World): World
    requires |w.server.queue.pending| > 0
  {
    var message := PolicyMessage(w.server.cursor + 1, Some(w.server.queue.pending[0]));
    Expecting(w).(agent := w.agent.(inbox := [message]))
  }

  /** The agent has the change in hand, or has answered that it has had it. */
  function Received(w: World): World
    requires |w.server.queue.pending| > 0
  {
    var sc, m := w.server.cursor, Expecting(w);
    if w.agent.cursor == sc then m.(agent := w.agent.(phase := Got(sc + 1, w.server.queue.pending[0])))
    else m.(server := m.server.(inbox := [AckMessage(sc + 1)]))
  }

  lemma Sends(rules: Rules, w: World, base: nat)
    requires Quiet(w, base) && w.server.queue.pending != [] && AllValid(rules, w) && rules.maxInFlight > 0
    ensures SendNext(w, rules) == Some(Sent(w))
  {
    QuietSays(rules, w, base);
    hide Protocol, AllValid;
    assert w.agent.inbox + Sent(w).agent.inbox == Sent(w).agent.inbox;
  }

  lemma Receives(rules: Rules, w: World, base: nat)
    requires Quiet(w, base) && w.server.queue.pending != [] && AllValid(rules, w)
    ensures ReceiveNext(Sent(w), rules) == Some(Received(w))
  {
    QuietSays(rules, w, base);
    hide Protocol, AllValid;
    assert Sent(w).agent.inbox[1..] == w.agent.inbox;
    var ack := AckMessage(w.server.cursor + 1);
    assert Sent(w).server.inbox + [ack] == [ack];
  }

  lemma SendReceive(rules: Rules, w: World, base: nat)
    requires Quiet(w, base) && w.server.queue.pending != [] && AllValid(rules, w) && rules.maxInFlight > 0
    ensures Comes(w, [Send, Receive], Received(w), rules) && OnlyReplicates([Send, Receive])
    ensures Protocol(w, base) && Protocol(Received(w), base)
  {
    hide Protocol, AllValid, Comes, Received, Sent, SendNext, ReceiveNext;
    Sends(rules, w, base);
    Receives(rules, w, base);
    Steps(rules, w, Send, Sent(w), base);
    Steps(rules, Sent(w), Receive, Received(w), base);
    ComesFurther(w, [Send], Sent(w), [Receive], Received(w), rules);
    assert [Send] + [Receive] == [Send, Receive];
  }

  const TAKE: Turn := Take(true, true)
  const SAVE: Turn := Save(true, true)
  const TELL: Turn := Acknowledge(true, true)

  /** The agent has the next change in hand, and the server waits for it. */
  ghost predicate Holding(w: World, base: nat) {
    && Protocol(w, base) && w.agent.up && w.linked && w.agent.phase.Got? && w.agent.inbox == []
    && w.agent.window.applied + 1 == w.agent.phase.sequence == w.server.cursor + 1 &&
        w.agent.file <= w.server.cursor + 1
    && w.server.phase.Awaiting? && w.server.phase.sequence == w.server.cursor + 1 && w.server.inbox == []
  }

  lemma ReceivedIs(rules: Rules, w: World, base: nat)
    requires Quiet(w, base) && w.server.queue.pending != [] && AllValid(rules, w) && Protocol(Received(w), base)
    ensures Received(w).server.queue == w.server.queue
    ensures if w.agent.cursor == w.server.cursor then Holding(Received(w), base) else Answering(Received(w), base)
  {
    QuietSays(rules, w, base);
    hide Protocol, AllValid;
  }

  /** The agent has the change, and its acknowledgement waits to be read. */
  ghost predicate Answering(w: World, base: nat) {
    && Protocol(w, base) && w.linked && w.agent.up && w.agent.phase.Receiving? && w.agent.inbox == []
    && w.agent.cursor == w.server.cursor + 1 && w.server.inbox == [AckMessage(w.server.cursor + 1)]
    && w.server.phase.Awaiting? && w.server.phase.sequence == w.server.cursor + 1
  }

  /** Applied, saved and acknowledged. */
  lemma TakeSaveTell(rules: Rules, w: World, base: nat) returns (w': World)
    requires Holding(w, base)
    ensures Comes(w, [TAKE, SAVE, TELL], w', rules) && OnlyReplicates([TAKE, SAVE, TELL]) && Answering(w', base)
    ensures w'.server.queue == w.server.queue
  {
    hide Protocol, Comes;
    var took := TakeNext(w, true, true, rules).value;
    var saved := SaveNext(took, true, true).value;
    w' := AcknowledgeNext(saved, true, true).value;
    Steps(rules, w, TAKE, took, base);
    Steps(rules, took, SAVE, saved, base);
    Steps(rules, saved, TELL, w', base);
    ComesFurther(w, [TAKE], took, [SAVE], saved, rules);
    ComesFurther(w, [TAKE] + [SAVE], saved, [TELL], w', rules);
    assert [TAKE] + [SAVE] + [TELL] == [TAKE, SAVE, TELL];
  }

  const COMMIT: Turn := Commit(true, true)

  /** The acknowledgement comes in and the change leaves the queue. */
  lemma HearCommit(rules: Rules, w: World, base: nat) returns (w': World)
    requires Answering(w, base)
    ensures Comes(w, [Hear, COMMIT], w', rules) && OnlyReplicates([Hear, COMMIT]) && Quiet(w', base)
    ensures |w'.server.queue.pending| == |w.server.queue.pending| - 1
    ensures w'.server.cursor == w.server.cursor + 1 && w'.agent == w.agent
  {
    var heard := HearNext(w).value;
    w' := CommitNext(heard, true, true).value;
    assert w.server.queue.pending != [] && w.server.queue.pending[0] == w.server.phase.change;
    assert w'.server.inbox == [] && w'.server.phase.Idle? && w'.server.cursor == w.server.cursor + 1 &&
        w'.agent == w.agent;
    assert |w'.server.queue.pending| == |w.server.queue.pending| - 1;
    hide HistoryOk, PhaseOk, LogOk, CursorsOk, HandlingOk, Comes, OnlyReplicates;
    Steps(rules, w, Hear, heard, base);
    Steps(rules, heard, COMMIT, w', base);
    ComesFurther(w, [Hear], heard, [COMMIT], w', rules);
    assert [Hear] + [COMMIT] == [Hear, COMMIT];
  }

  lemma Delivers(rules: Rules, w: World, base: nat) returns (acts: seq<Turn>, w': World)
    requires Quiet(w, base) && w.server.queue.pending != [] && AllValid(rules, w) && rules.maxInFlight > 0
    ensures Comes(w, acts, w', rules) && OnlyReplicates(acts) && Answering(w', base)
    ensures w'.server.queue == w.server.queue
  {
    SendReceive(rules, w, base);
    hide Quiet, Holding, Answering, Received, AllValid, Comes, OnlyReplicates;
    ReceivedIs(rules, w, base);
    acts, w' := [Send, Receive], Received(w);
    if w.agent.cursor == w.server.cursor {
      var m := w';
      w' := TakeSaveTell(rules, m, base);
      ComesFurther(w, acts, m, [TAKE, SAVE, TELL], w', rules);
      acts := acts + [TAKE, SAVE, TELL];
    }
  }

  lemma CatchUpOne(rules: Rules, w: World, base: nat) returns (acts: seq<Turn>, w': World)
    requires Quiet(w, base) && w.server.queue.pending != [] && AllValid(rules, w) && rules.maxInFlight > 0
    ensures Comes(w, acts, w', rules) && OnlyReplicates(acts) && Quiet(w', base)
    ensures |w'.server.queue.pending| == |w.server.queue.pending| - 1
  {
    hide Quiet, Answering, AllValid, Comes, OnlyReplicates;
    var m;
    acts, m := Delivers(rules, w, base);
    w' := HearCommit(rules, m, base);
    ComesFurther(w, acts, m, [Hear, COMMIT], w', rules);
    acts := acts + [Hear, COMMIT];
  }

  lemma {:induction false} RepliesLeave(rules: Rules, w: World, acts: seq<Turn>, w': World)
    requires Comes(w, acts, w', rules) && OnlyReplicates(acts)
    ensures w'.server.store == w.server.store && w'.server.making == w.server.making
    ensures w'.server.history == w.server.history
    decreases |acts|
  {
    if acts != [] {
      assert acts[0] in acts && forall act <- acts[1..] :: act in acts;
      RepliesLeaveServerStore(rules, w, acts[0], Next(w, acts[0], rules).value);
      hide Next;
      RepliesLeave(rules, Next(w, acts[0], rules).value, acts[1..], w');
    }
  }

  lemma {:induction false} CatchUp(rules: Rules, w: World, base: nat) returns (acts: seq<Turn>, w': World)
    requires Quiet(w, base) && AllValid(rules, w) && rules.maxInFlight > 0
    ensures Comes(w, acts, w', rules) && OnlyReplicates(acts) && Quiet(w', base) && w'.server.queue.pending == []
    decreases |w.server.queue.pending|
  {
    hide Protocol, Next;
    acts, w' := [], w;
    if w.server.queue.pending != [] {
      var first, more;
      first, w' := CatchUpOne(rules, w, base);
      RepliesLeave(rules, w, first, w');
      var m := w';
      more, w' := CatchUp(rules, m, base);
      ComesFurther(w, first, m, more, w', rules);
      acts := first + more;
    }
  }

  /** From here, replication alone can bring both ends together. */
  ghost predicate CanCatchUp(w: World, rules: Rules) {
    exists acts, w' :: OnlyReplicates(acts) && Comes(w, acts, w', rules) && Drained(w') && Agree(w')
  }

  lemma {:induction false} ComesKeeps(rules: Rules, w: World, acts: seq<Turn>, w': World, view: State, base: nat)
    requires Comes(w, acts, w', rules) && Inv(rules, w, view, base) && Repeatable(rules, view)
    ensures Inv(rules, w', view, base) && w'.agent.files == w.agent.files
    decreases |acts|
  {
    if acts != [] {
      var m := Next(w, acts[0], rules).value;
      hide Protocol, StoresFollow, Repeatable, Next;
      TurnKeepsProtocol(rules, w, acts[0], m, base);
      TurnKeepsStores(rules, w, acts[0], m, view, base);
      TurnKeepsFiles(rules, w, acts[0], m);
      ComesKeeps(rules, m, acts[1..], w', view, base);
    }
  }

  /** An agent that has not lost its cursor is never behind. */
  lemma QuietFrom(rules: Rules, w: World, base: nat) returns (acts: seq<Turn>, w': World)
    requires Protocol(w, base) && w.server.cursor <= w.agent.cursor && AllValid(rules, w) && rules.maxInFlight > 0
    ensures Comes(w, acts, w', rules) && OnlyReplicates(acts) && Quiet(w', base) && w'.server.queue.pending == []
  {
    hide Protocol, Comes, OnlyReplicates;
    var m, more;
    acts, m := Reconnects(rules, w, base);
    more, w' := CatchUp(rules, m, base);
    ComesFurther(w, acts, m, more, w', rules);
    acts := acts + more;
  }

  /** Whatever has gone wrong before, in every reachable state of an agent with both files
      and agreeing cursors: some further turns, none of them a new change, bring agent and
      server together. */
  lemma AgreeingCursorsCatchUp(w: World, view: State, base: nat, max: nat)
    requires Reachable(w, Start(Files(true, true), view, base, base), PolicyRules(max)) && max > 0
    requires w.server.making == None
    ensures CanCatchUp(w, PolicyRules(max))
  {
    var rules, start := PolicyRules(max), Start(Files(true, true), view, base, base);
    ReachableKeeps(w, start.files, view, base, max);
    ReachableIsValid(w, start, max);
    assert ConsistentView(view) by {
      var ws, before :| IsRun(ws, before, rules) && Initial(ws[0], start) && ws[|before|] == w;
    }
    PolicyIsRepeatable(max, view);
    assert w.server.cursor <= w.agent.cursor;
    var acts, w' := QuietFrom(rules, w, base);
    hide Protocol, StoresFollow, PolicyRules, Repeatable, Reachable;
    RepliesLeave(rules, w, acts, w');
    ComesKeeps(rules, w, acts, w', view, base);
    DrainedMeansAgreed(rules, w', view, base);
  }

  // ---- applied twice ----

  /** The change goes out and is applied, and nothing more. */
  lemma SendReceiveTake(rules: Rules, w: World, base: nat) returns (acts: seq<Turn>, w': World)
    requires Quiet(w, base) && w.server.queue.pending != [] && AllValid(rules, w) && rules.maxInFlight > 0
    requires w.agent.cursor == w.server.cursor
    ensures Comes(w, acts, w', rules) && OnlyReplicates(acts) && Protocol(w', base)
    ensures w'.agent.log == w.agent.log + [w.server.queue.pending[0]]
    ensures w'.agent.cursor == w.agent.cursor && w'.server.cursor == w.server.cursor
    ensures w'.server.queue == w.server.queue && w'.server.history == w.server.history &&
        w'.server.making == w.server.making
  {
    SendReceive(rules, w, base);
    hide Protocol, Comes, OnlyReplicates, AllValid;
    var m := Received(w);
    w' := TakeNext(m, true, true, rules).value;
    Steps(rules, m, TAKE, w', base);
    ComesFurther(w, [Send, Receive], m, [TAKE], w', rules);
    acts := [Send, Receive] + [TAKE];
  }

  /** A change that is applied and not saved is applied once more over the next connection. */
  lemma AppliesTwice(rules: Rules, w: World, base: nat) returns (acts: seq<Turn>, w': World)
    requires Quiet(w, base) && w.server.queue.pending != [] && AllValid(rules, w) && rules.maxInFlight > 0
    requires w.agent.cursor == w.server.cursor
    ensures Comes(w, acts, w', rules) && OnlyReplicates(acts)
    ensures var c := w.server.queue.pending[0]; w'.agent.log == (w.agent.log + [c]) + [c]
  {
    hide Protocol, Comes, OnlyReplicates, AllValid;
    var m, again, n, last;
    acts, m := SendReceiveTake(rules, w, base);
    again, n := Reconnects(rules, m, base);
    ComesFurther(w, acts, m, again, n, rules);
    acts := acts + again;
    StillValid(rules, w, n);
    last, w' := SendReceiveTake(rules, n, base);
    ComesFurther(w, acts, n, last, w', rules);
    acts := acts + last;
  }

  lemma StillValid(rules: Rules, w: World, w': World)
    requires AllValid(rules, w) && w'.server.history == w.server.history && w'.server.making == w.server.making
    ensures AllValid(rules, w')
  {
  }
}
