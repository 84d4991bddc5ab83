/** Exactly when replicas converge, and exactly when they can catch up. */
module ReplicationLimits {
  import opened Basics
  import opened Cidr
  import opened PolicyStore
  import opened Mutations
  import opened Queue
  import opened AgentRpc
  import opened Replication
  import opened ReplicationLaws
  import opened ReplicationProgress

  // ---- an agent behind the server ----

  /** It refuses whatever it is sent as a gap. */
  ghost predicate Stranded(w: World) {
    var s, a := w.server, w.agent;
    && a.cursor < s.cursor && a.file < s.cursor && a.phase == Receiving
    && s.inbox == [] && !s.phase.Answered? && (s.phase.Idle? ==> s.window.next == s.cursor + 1)
    && (a.up ==> a.window.applied == a.cursor)
    && (forall i :: 0 <= i < |a.inbox| ==> a.inbox[i].PolicyMessage? && a.inbox[i].sequence == s.cursor + 1)
  }

  /** It stays so for ever: nothing is applied and nothing leaves the queue. */
  lemma StrandedStays(rules: Rules, w: World, act: Turn, w': World)
    requires Stranded(w) && Next(w, act, rules) == Some(w')
    ensures Stranded(w') && w'.server.cursor == w.server.cursor && w'.agent.disk == w.agent.disk
    ensures w'.agent.mem == w.agent.mem ||
        (act.Crash? && w'.agent.mem == if w.agent.files.policy then w.agent.disk else EMPTY)
    ensures w.server.queue.pending <= w'.server.queue.pending
    ensures !act.Publish? ==> w'.server.queue == w.server.queue
  {
  }

  lemma {:induction false} StrandedNeverDrains(rules: Rules, w: World, acts: seq<Turn>, w': World)
    requires Stranded(w) && w.server.queue.pending != [] && Comes(w, acts, w', rules)
    ensures !Drained(w') && Stranded(w')
    decreases |acts|
  {
    if acts != [] {
      var m := Next(w, acts[0], rules).value;
      StrandedStays(rules, w, acts[0], m);
      hide Stranded, Next;
      StrandedNeverDrains(rules, m, acts[1..], w');
    }
  }

  /** From a start behind, moreover, what waits is everything ever published, and the agent's
      store, if it has a file or started empty, is the one it started with. */
  ghost predicate Stuck(w: World, view: State) {
    && Stranded(w) && w.server.queue.pending == w.server.history
    && (w.server.history == [] && w.server.making == None ==> w.server.store == view)
    && w.agent.disk == view && (w.agent.files.policy || view == EMPTY ==> w.agent.mem == view)
  }

  lemma StuckStays(rules: Rules, w: World, act: Turn, w': World, view: State)
    requires Stuck(w, view) && Next(w, act, rules) == Some(w')
    ensures Stuck(w', view)
  {
    StrandedStays(rules, w, act, w');
    TurnKeepsFiles(rules, w, act, w');
    if !act.Store? && !act.Publish? {
      RepliesLeaveServerStore(rules, w, act, w');
      hide Next, Stranded;
    }
  }

  lemma {:induction false} RunStaysStuck(rules: Rules, ws: seq<World>, acts: seq<Turn>, start: Start, i: nat)
    requires IsRun(ws, acts, rules) && Initial(ws[0], start) && i < |ws| && start.agentCursor < start.serverCursor
    ensures Stuck(ws[i], start.view)
  {
    if i > 0 {
      RunStaysStuck(rules, ws, acts, start, i - 1);
      StuckStays(rules, ws[i - 1], acts[i - 1], ws[i], start.view);
    }
  }

  /** An agent that starts behind never gets to the end of anything: with one change ever
      published, the queue is never drained. */
  lemma BehindNeverDrains(w: World, start: Start, rules: Rules)
    requires Reachable(w, start, rules) && start.agentCursor < start.serverCursor
    ensures Stuck(w, start.view) && (w.server.history != [] ==> !Drained(w))
  {
    var ws, acts :| IsRun(ws, acts, rules) && Initial(ws[0], start) && ws[|acts|] == w;
    RunStaysStuck(rules, ws, acts, start, |acts|);
  }

  // ---- an agent whose store is wrong with nothing left to send ----

  ghost predicate Lost(w: World) {
    && w.server.making == None && w.server.queue.pending == []
    && w.agent.inbox == [] && w.agent.phase.Receiving? && w.agent.mem != w.server.store
    && w.server.store != if w.agent.files.policy then w.agent.disk else EMPTY
  }

  lemma LostStays(rules: Rules, w: World, act: Turn, w': World)
    requires Lost(w) && Next(w, act, rules) == Some(w') && !act.Store? && !act.Publish?
    ensures Lost(w')
  {
  }

  lemma {:induction false} LostNeverCatchesUp(rules: Rules, w: World, acts: seq<Turn>, w': World)
    requires Lost(w) && OnlyReplicates(acts) && Comes(w, acts, w', rules)
    ensures !Agree(w')
    decreases |acts|
  {
    if acts != [] {
      assert acts[0] in acts && forall act <- acts[1..] :: act in acts;
      var m := Next(w, acts[0], rules).value;
      LostStays(rules, w, acts[0], m);
      hide Lost, Next;
      LostNeverCatchesUp(rules, m, acts[1..], w');
    }
  }

  // ---- the worlds that fail ----

  const ZERO_HOST: Prefix := Prefix(Addr(V4, 0), 32)
  const FIRST: Mutation := Mutation(AddAction, Blocklist, Text(ZERO_HOST), None)
  const SECOND: Mutation := Mutation(RemoveAction, Blocklist, Text(ZERO_HOST), None)

  lemma ZeroHostIsCanonical()
    ensures ZERO_HOST.Canonical() && CanonicalPrefix(Text(ZERO_HOST)) == Some(ZERO_HOST)
  {
    assert ZERO_HOST.Size() == 1;
    assert ZERO_HOST.Masked() == ZERO_HOST;
  }

  lemma FirstIsValid(id: nat)
    ensures ValidChange(Change(id, FIRST)) && ValidChange(Change(id, SECOND))
  {
    ZeroHostIsCanonical();
  }

  lemma FirstAdds()
    ensures Effect(EMPTY, FIRST) == State([ZERO_HOST], [], map[], [])
  {
    ZeroHostIsCanonical();
    assert [] + [ZERO_HOST] == [ZERO_HOST];
  }

  lemma SecondRemoves()
    ensures Effect(State([ZERO_HOST], [], map[], []), SECOND) == EMPTY
  {
    ZeroHostIsCanonical();
    assert IndexOf([ZERO_HOST], ZERO_HOST) == 0;
    assert DeleteAt([ZERO_HOST], 0) == [];
    var none: map<Prefix, Time> := map[];
    assert none - {ZERO_HOST} == none;
  }

  lemma FirstAndSecond()
    ensures Effect(EMPTY, FIRST) != EMPTY && Effect(Effect(EMPTY, FIRST), SECOND) == EMPTY
    ensures ConsistentView(EMPTY) && ConsistentView(Effect(EMPTY, FIRST))
  {
    hide Effect;
    FirstAdds();
    SecondRemoves();
    EffectKeepsConsistency(EMPTY, FIRST);
  }

  function FirstWorld(start: Start): World {
    var away := Window(0, 0, 0, {});
    World(
      Server(start.view, None, [], QueueState([], 0, false), start.serverCursor, start.serverCursor, Away, away, []),
      Agent(start.files, start.view, start.view, start.agentCursor, start.agentCursor, false, Receiving, away, [], [],
          0, 0),
      false, false)
  }

  lemma FirstIsReachable(start: Start, rules: Rules)
    requires ConsistentView(start.view)
    ensures Reachable(FirstWorld(start), start, rules)
  {
    var w := FirstWorld(start);
    var ws, acts: seq<Turn> := [w], [];
    assert IsRun(ws, acts, rules) && Initial(ws[0], start) && ws[|acts|] == w;
  }

  /** A mutation reaches the store and is published. */
  lemma Publishes(rules: Rules, w: World, m: Mutation) returns (w': World)
    requires w.server.making == None && rules.valid(Change(0, m)) && rules.effect(w.server.store, m) != w.server.store
    ensures Comes(w, [Store(m), Publish], w', rules)
    ensures w'.server.making == None && w'.server.store == rules.effect(w.server.store, m) && w'.agent == w.agent
    ensures w'.server.cursor == w.server.cursor && w'.linked == w.linked && w'.dialled == w.dialled
    ensures w'.server.file == w.server.file && |w'.server.history| == |w.server.history| + 1
    ensures w'.server.queue.pending == w.server.queue.pending + [Change(w.server.queue.nextID + 1, m)]
  {
    var m1 := StoreNext(w, m, rules).value;
    w' := PublishNext(m1).value;
    ComesTwo(w, Store(m), m1, Publish, w', rules);
  }

  /** The world after the first change, from empty stores. */
  lemma AfterFirst(start: Start, max: nat) returns (w: World)
    requires start.view == EMPTY
    ensures Reachable(w, start, PolicyRules(max)) && w.server.making == None
    ensures w.server.store == Effect(EMPTY, FIRST) != EMPTY && w.server.queue.pending == [Change(1, FIRST)]
    ensures w.server.history != [] && w.agent == FirstWorld(start).agent
    ensures w.server.cursor == w.server.file == start.serverCursor && !w.linked && !w.dialled
  {
    FirstAndSecond();
    FirstIsValid(0);
    var rules := PolicyRules(max);
    FirstIsReachable(start, rules);
    hide Effect, ValidChange, Comes, Reachable;
    w := Publishes(rules, FirstWorld(start), FIRST);
    ReachableFurther(FirstWorld(start), [Store(FIRST), Publish], w, start, rules);
  }

  /** A restart of an agent whose store has no file, at any moment when everything has been
      replicated: its cursor still agrees, its lists are gone. */
  lemma RestartForgets(w: World, start: Start, rules: Rules)
    requires Reachable(w, start, rules) && Drained(w) && !w.agent.files.policy && w.server.store != EMPTY
    ensures Reachable(Crashed(w), start, rules) && Drained(Crashed(w)) && !Agree(Crashed(w)) && Lost(Crashed(w))
    ensures w.agent.files.cursor ==> Crashed(w).agent.cursor == w.agent.file
  {
    ComesOne(w, Crash, Crashed(w), rules);
    ReachableFurther(w, [Crash], Crashed(w), start, rules);
  }

  lemma UnbackedFails(start: Start, max: nat) returns (w: World)
    requires !start.files.policy && start.view == Effect(EMPTY, FIRST)
    ensures Reachable(w, start, PolicyRules(max)) && Drained(w) && !Agree(w) && Lost(w)
  {
    FirstAndSecond();
    FirstIsReachable(start, PolicyRules(max));
    RestartForgets(FirstWorld(start), start, PolicyRules(max));
    w := Crashed(FirstWorld(start));
  }

  /** What an agent ahead of the server does with the first change: it answers at once. */
  lemma AheadAnswers(rules: Rules, w: World) returns (acts: seq<Turn>, w': World)
    requires !w.agent.up && w.agent.cursor > w.server.cursor == w.server.file && rules.maxInFlight > 0
    requires |w.server.queue.pending| == 1 && rules.valid(w.server.queue.pending[0])
    ensures Comes(w, acts, w', rules)
    ensures w'.server.queue.pending == [] && w'.server.store == w.server.store && w'.server.making == w.server.making
    ensures w'.agent == w.agent.(up := true, phase := Receiving, window := Window(1, w.agent.cursor, 0, {}),
        inbox := [])
  {
    var change := w.server.queue.pending[0];
    var w1 := DialNext(w).value;
    var w2 := AcceptNext(w1, true).value;
    var w3 := SendNext(w2, rules).value;
    assert w3.agent.inbox == [PolicyMessage(w.server.cursor + 1, Some(change))];
    var w4 := ReceiveNext(w3, rules).value;
    assert w4.server.inbox == [AckMessage(w.agent.cursor)] && w4.agent.inbox == [];
    var w5 := HearNext(w4).value;
    w' := CommitNext(w5, true, true).value;
    assert w'.server.queue.pending == [];
    hide DialNext, AcceptNext, SendNext, ReceiveNext, HearNext, CommitNext, Comes;
    ComesOne(w, Dial, w1, rules);
    ComesOne(w1, Accept(true), w2, rules);
    ComesOne(w2, Send, w3, rules);
    ComesOne(w3, Receive, w4, rules);
    ComesOne(w4, Hear, w5, rules);
    ComesOne(w5, COMMIT, w', rules);
    acts := [Dial] + [Accept(true)];
    ComesFurther(w, [Dial], w1, [Accept(true)], w2, rules);
    ComesFurther(w, acts, w2, [Send], w3, rules);
    acts := acts + [Send];
    ComesFurther(w, acts, w3, [Receive], w4, rules);
    acts := acts + [Receive];
    ComesFurther(w, acts, w4, [Hear], w5, rules);
    acts := acts + [Hear];
    ComesFurther(w, acts, w5, [COMMIT], w', rules);
    acts := acts + [COMMIT];
  }

  /** An agent that starts ahead, with no failure at all: the first change is acknowledged as
      old news and committed, and it has never been applied. */
  lemma AheadLosesChange(start: Start, max: nat) returns (w: World)
    requires start.agentCursor > start.serverCursor && start.view == EMPTY && max > 0
    ensures Reachable(w, start, PolicyRules(max)) && Drained(w) && !Agree(w) && Lost(w)
  {
    hide Effect, ValidChange, Comes, Reachable;
    var m := AfterFirst(start, max);
    FirstIsValid(1);
    var acts;
    acts, w := AheadAnswers(PolicyRules(max), m);
    ReachableFurther(m, acts, w, start, PolicyRules(max));
  }

  // ---- exactly when ----

  /** The first change, replicated to the end. */
  lemma FirstReplicates(start: Start, max: nat) returns (w: World)
    requires start.view == EMPTY && start.agentCursor == start.serverCursor && max > 0
    ensures Reachable(w, start, PolicyRules(max)) && Drained(w)
    ensures w.server.store == Effect(EMPTY, FIRST) && w.server.cursor > start.serverCursor
    ensures w.agent.files == start.files
  {
    var rules, base := PolicyRules(max), start.serverCursor;
    var m := AfterFirst(start, max);
    FirstAndSecond();
    assert start == Start(start.files, EMPTY, base, base);
    ReachableKeeps(m, start.files, EMPTY, base, max);
    ReachableIsValid(m, start, max);
    hide Effect, Comes, Reachable, AllValid, Protocol, StoresFollow, PolicyRules;
    var acts;
    acts, w := QuietFrom(rules, m, base);
    RepliesLeave(rules, m, acts, w);
    ReachableFurther(m, acts, w, start, rules);
    ReachableKeeps(w, start.files, EMPTY, base, max);
    ProtocolSays(w, base);
  }

  /** One replicated change, one restart of an agent whose store has no file: nothing is left
      to send, the cursors agree if the agent kept its own, and its lists are empty. */
  lemma ReplicatedAndForgotten(start: Start, max: nat) returns (w: World)
    requires start.view == EMPTY && start.agentCursor == start.serverCursor && max > 0 && !start.files.policy
    ensures Reachable(w, start, PolicyRules(max)) && Drained(w) && !Agree(w) && Lost(w) && w.agent.mem == EMPTY
    ensures start.files.cursor ==> w.agent.cursor == w.server.cursor
  {
    FirstAndSecond();
    var m := FirstReplicates(start, max);
    ReachableKeeps(m, start.files, EMPTY, start.serverCursor, max);
    ProtocolSays(m, start.serverCursor);
    hide Effect, Reachable, Protocol, StoresFollow, Collapsed;
    RestartForgets(m, start, PolicyRules(max));
    w := Crashed(m);
  }

  lemma CursorLost(rules: Rules, w: World) returns (w': World)
    requires !w.agent.files.cursor && w.server.cursor > 0
    ensures Comes(w, [ServerClose, Crash], w', rules) && Stranded(w')
    ensures w'.server.store == w.server.store && w'.server.making == w.server.making
  {
    var m := ServerClosed(w);
    w' := Crashed(m);
    ComesTwo(w, ServerClose, m, Crash, w', rules);
  }

  /** An agent without a cursor file, after one change and a restart: nothing published from
      then on ever reaches it. */
  lemma ForgottenCursorStrands(start: Start, max: nat) returns (w: World)
    requires start.view == EMPTY && !start.files.cursor && start.agentCursor == start.serverCursor && max > 0
    ensures Reachable(w, start, PolicyRules(max)) && w.server.making == None
    ensures Stranded(w) && w.server.queue.pending != []
  {
    var rules := PolicyRules(max);
    FirstAndSecond();
    FirstIsValid(0);
    assert rules.valid(Change(0, SECOND)) && rules.effect(Effect(EMPTY, FIRST), SECOND) == EMPTY;
    hide Effect, ValidChange, Comes, Reachable, Stranded;
    var m := FirstReplicates(start, max);
    var n := CursorLost(rules, m);
    ReachableFurther(m, [ServerClose, Crash], n, start, rules);
    w := Publishes(rules, n, SECOND);
    ReachableFurther(n, [Store(SECOND), Publish], w, start, rules);
    PublishingStrands(rules, n, SECOND, w);
  }

  lemma PublishingStrands(rules: Rules, w: World, m: Mutation, w': World)
    requires Stranded(w) && Comes(w, [Store(m), Publish], w', rules)
    ensures Stranded(w')
  {
    var acts := [Store(m), Publish];
    assert acts[1..] == [Publish] && acts[1..][1..] == [];
    var n := Next(w, Store(m), rules).value;
    StrandedStays(rules, w, Store(m), n);
    assert Comes(n, [Publish], w', rules);
    StrandedStays(rules, n, Publish, w');
  }

  /** Replica convergence, exactly: the stores agree whenever nothing is left to replicate,
      in every run with any disconnections, restarts and failed writes from any equal
      stores, if and only if the agent's store has a file and its cursor does not start
      ahead of the server's. Without a file and behind, the run that fails starts with stores
      that are not empty. */
  lemma ConvergesExactly(files: Files, agentCursor: nat, serverCursor: nat, max: nat)
    requires max > 0
    ensures (forall w, view | Reachable(w, Start(files, view, agentCursor, serverCursor), PolicyRules(max)) ::
              Drained(w) ==> Agree(w))
      <==> files.policy && agentCursor <= serverCursor
  {
    var rules := PolicyRules(max);
    if agentCursor > serverCursor {
      var start := Start(files, EMPTY, agentCursor, serverCursor);
      var w := AheadLosesChange(start, max);
      assert Reachable(w, start, rules);
    } else if !files.policy && agentCursor == serverCursor {
      var start := Start(files, EMPTY, agentCursor, serverCursor);
      var w := ReplicatedAndForgotten(start, max);
      assert Reachable(w, start, rules);
    } else if !files.policy {
      var start := Start(files, Effect(EMPTY, FIRST), agentCursor, serverCursor);
      var w := UnbackedFails(start, max);
      assert Reachable(w, start, rules);
    } else {
      forall w, view | Reachable(w, Start(files, view, agentCursor, serverCursor), rules) && Drained(w)
        ensures Agree(w)
      {
        if agentCursor == serverCursor {
          ReachableKeeps(w, files, view, agentCursor, max);
          DrainedMeansAgreed(rules, w, view, agentCursor);
        } else {
          BehindAgrees(w, Start(files, view, agentCursor, serverCursor), rules);
        }
      }
    }
  }

  /** The same from the start that a first start has, empty stores: without a store file,
      which such an agent always begins with an empty store, an agreeing cursor is not enough;
      one that is behind agrees, but only because then nothing has been published. */
  lemma ConvergesFromEmptyExactly(files: Files, agentCursor: nat, serverCursor: nat, max: nat)
    requires max > 0
    ensures (forall w | Reachable(w, Start(files, EMPTY, agentCursor, serverCursor), PolicyRules(max)) ::
              Drained(w) ==> Agree(w))
      <==> agentCursor < serverCursor || (agentCursor == serverCursor && files.policy)
  {
    var rules, start := PolicyRules(max), Start(files, EMPTY, agentCursor, serverCursor);
    if agentCursor > serverCursor {
      var w := AheadLosesChange(start, max);
      assert Reachable(w, start, rules);
    } else if agentCursor < serverCursor {
      forall w | Reachable(w, start, rules) && Drained(w) ensures Agree(w) && w.server.history == [] {
        BehindAgrees(w, start, rules);
      }
    } else if files.policy {
      ConvergesExactly(files, agentCursor, serverCursor, max);
    } else {
      var w := ReplicatedAndForgotten(start, max);
      assert Reachable(w, start, rules);
    }
  }

  lemma BehindAgrees(w: World, start: Start, rules: Rules)
    requires Reachable(w, start, rules) && start.agentCursor < start.serverCursor && Drained(w)
    requires start.files.policy || start.view == EMPTY
    ensures w.server.history == [] && Agree(w)
  {
    BehindNeverDrains(w, start, rules);
    var ws, acts :| IsRun(ws, acts, rules) && Initial(ws[0], start) && ws[|acts|] == w;
    RunKeepsFiles(rules, ws, acts, start, |acts|);
  }

  lemma {:induction false} RunKeepsFiles(rules: Rules, ws: seq<World>, acts: seq<Turn>, start: Start, i: nat)
    requires IsRun(ws, acts, rules) && Initial(ws[0], start) && i < |ws|
    ensures ws[i].agent.files == start.files
  {
    if i > 0 {
      RunKeepsFiles(rules, ws, acts, start, i - 1);
      TurnKeepsFiles(rules, ws[i - 1], acts[i - 1], ws[i]);
    }
  }

  /** Catching up, exactly: from every reachable state some further replication brings
      agent and server together, if and only if the agent keeps both files and starts with
      the server's cursor; and already from empty stores nothing less will do. */
  lemma CatchesUpExactly(files: Files, agentCursor: nat, serverCursor: nat, max: nat)
    requires max > 0
    ensures (forall w, view | Reachable(w, Start(files, view, agentCursor, serverCursor), PolicyRules(max)) ::
              w.server.making == None ==> CanCatchUp(w, PolicyRules(max)))
      <==> files == Files(true, true) && agentCursor == serverCursor
    ensures (forall w | Reachable(w, Start(files, EMPTY, agentCursor, serverCursor), PolicyRules(max)) ::
              w.server.making == None ==> CanCatchUp(w, PolicyRules(max)))
      <==> files == Files(true, true) && agentCursor == serverCursor
  {
    var rules := PolicyRules(max);
    if files == Files(true, true) && agentCursor == serverCursor {
      forall w, view | Reachable(w, Start(files, view, agentCursor, serverCursor), rules) && w.server.making == None
        ensures CanCatchUp(w, rules)
      {
        AgreeingCursorsCatchUp(w, view, agentCursor, max);
      }
    } else {
      var w := CannotCatchUp(files, agentCursor, serverCursor, max);
      assert Reachable(w, Start(files, EMPTY, agentCursor, serverCursor), rules);
    }
  }

  lemma CannotCatchUp(files: Files, agentCursor: nat, serverCursor: nat, max: nat) returns (w: World)
    requires max > 0 && (files != Files(true, true) || agentCursor != serverCursor)
    ensures Reachable(w, Start(files, EMPTY, agentCursor, serverCursor), PolicyRules(max)) && w.server.making == None
    ensures !CanCatchUp(w, PolicyRules(max))
  {
    var rules, start := PolicyRules(max), Start(files, EMPTY, agentCursor, serverCursor);
    if agentCursor > serverCursor {
      w := AheadLosesChange(start, max);
    } else if agentCursor < serverCursor {
      w := AfterFirst(start, max);
      BehindNeverDrains(w, start, rules);
    } else if !files.policy {
      w := ReplicatedAndForgotten(start, max);
    } else {
      w := ForgottenCursorStrands(start, max);
    }
    forall acts, w' | OnlyReplicates(acts) && Comes(w, acts, w', rules) ensures !(Drained(w') && Agree(w')) {
      if Lost(w) {
        LostNeverCatchesUp(rules, w, acts, w');
      } else {
        StrandedNeverDrains(rules, w, acts, w');
      }
    }
  }

  /** With agreeing cursors, whatever files it keeps, there is a run in which an agent applies
      its first change twice. */
  lemma SomeRunAppliesTwice(start: Start, max: nat) returns (w: World)
    requires start.view == EMPTY && start.agentCursor == start.serverCursor && max > 0
    ensures Reachable(w, start, PolicyRules(max)) && w.agent.log == [Change(1, FIRST), Change(1, FIRST)]
  {
    var rules, base := PolicyRules(max), start.serverCursor;
    var m := AfterFirst(start, max);
    assert start == Start(start.files, EMPTY, base, base);
    ReachableKeeps(m, start.files, EMPTY, base, max);
    ReachableIsValid(m, start, max);
    hide Effect, ValidChange, Comes, Reachable, AllValid, Protocol;
    var acts, n := Reconnects(rules, m, base);
    RepliesLeave(rules, m, acts, n);
    StillValid(rules, m, n);
    ReachableFurther(m, acts, n, start, rules);
    acts, w := AppliesTwice(rules, n, base);
    ReachableFurther(n, acts, w, start, rules);
  }
}
