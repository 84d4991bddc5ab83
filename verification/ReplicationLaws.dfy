/** Safety of policy sync over every run, and when it makes the replicas agree. */
module ReplicationLaws {
  import opened Basics
  import opened Cidr
  import opened PolicyStore
  import opened PolicyStoreLaws
  import opened Mutations
  import opened Queue
  import opened AgentRpc
  import opened SyncLoops
  import opened Replication

  /** The view after the first n published changes. */
  function ViewAt(rules: Rules, view: State, history: seq<Change>, n: nat): State
    requires n <= |history|
  {
    if n == 0 then view else rules.effect(ViewAt(rules, view, history, n - 1), history[n - 1].mutation)
  }

  lemma {:induction false} ViewAtEarlier(rules: Rules, view: State, history: seq<Change>, c: Change, n: nat)
    requires n <= |history|
    ensures ViewAt(rules, view, history + [c], n) == ViewAt(rules, view, history, n)
  {
    if n > 0 {
      ViewAtEarlier(rules, view, history, c, n - 1);
    }
  }

  /** Making a mutation twice is making it once, wherever published changes can lead. */
  ghost predicate Repeatable(rules: Rules, view: State) {
    forall history: seq<Change>, n: nat, m: Mutation | n <= |history| ::
      var v := ViewAt(rules, view, history, n);
      rules.effect(rules.effect(v, m), m) == rules.effect(v, m)
  }

  // ---- the invariant, from agreeing cursors: the protocol ----

  ghost predicate HistoryOk(s: Server, base: nat) {
    && base <= s.cursor <= base + |s.history|
    && s.queue.nextID == |s.history| && |s.queue.pending| == |s.history| - (s.cursor - base)
    && (forall i :: 0 <= i < |s.queue.pending| ==> s.queue.pending[i] == s.history[s.cursor - base + i])
    && (forall i :: 0 <= i < |s.history| ==> s.history[i].id == i + 1)
    && s.cursor <= s.file <= s.cursor + 1
  }

  /** The change a turn of the server is about is the first uncommitted one, and its
      number follows the cursor. */
  ghost predicate PhaseOk(s: Server, acked: nat, base: nat) {
    && base <= s.cursor
    && (s.phase.Idle? ==> s.window == Window(s.cursor + 1, 0, s.cursor, {}))
    && (s.phase.Awaiting? ==>
        && s.phase.sequence == s.cursor + 1
        && s.cursor - base < |s.history| && s.phase.change == s.history[s.cursor - base]
        && s.window == Window(s.cursor + 2, 0, s.cursor, {s.cursor + 1}))
    && (s.phase.Answered? ==>
        && s.phase.cursor == s.cursor + 1 <= acked
        && s.cursor - base < |s.history| && s.phase.change == s.history[s.cursor - base]
        && s.window == Window(s.cursor + 2, 0, s.cursor + 1, {}))
    && (forall i :: 0 <= i < |s.inbox| ==>
        s.inbox[i].AckMessage? && base < s.inbox[i].cursor <= acked && s.inbox[i].cursor <= s.cursor + 1)
  }

  /** An agent that has lost its cursor, and that no connection has reached since. */
  ghost predicate Fresh(w: World) {
    !w.agent.files.cursor && w.agent.inbox == [] && w.agent.phase.Receiving? && !w.linked
  }

  /** How far what the agent has acknowledged can reach. */
  ghost function Acked(w: World, base: nat): nat {
    if Fresh(w) then base + |Collapsed(w.agent.log)| else w.agent.cursor
  }

  ghost predicate Begins(changes: seq<Change>, history: seq<Change>) {
    |changes| <= |history| && forall i :: 0 <= i < |changes| ==> changes[i] == history[i]
  }

  ghost predicate LogOk(a: Agent, history: seq<Change>) {
    && a.inMem <= a.onDisk <= |history|
    && Begins(Collapsed(a.log), history) && (a.files.policy ==> |Collapsed(a.log)| <= a.inMem)
  }

  ghost predicate CursorsOk(a: Agent, serverCursor: nat, base: nat) {
    && base <= serverCursor && serverCursor - base <= |Collapsed(a.log)| <= serverCursor + 1 - base
    && a.cursor <= a.file <= serverCursor + 1 && a.file - base <= |Collapsed(a.log)|
    && (a.files.cursor ==> serverCursor <= a.cursor)
    && a.onDisk <= serverCursor + 1 - base
    && (a.up ==> a.window.applied == a.cursor)
    && (!a.up ==> a.phase == Receiving && a.inbox == [])
  }

  /** What the agent has been sent, and is busy with, is what was published. */
  ghost predicate HandlingOk(a: Agent, history: seq<Change>, serverCursor: nat, base: nat) {
    && base <= serverCursor
    && (forall i :: 0 <= i < |a.inbox| ==>
        && a.inbox[i].PolicyMessage? && base < a.inbox[i].sequence <= serverCursor + 1
        && (a.inbox[i].sequence == serverCursor + 1 || a.inbox[i].sequence <= a.cursor)
        && a.inbox[i].sequence - base <= |history| &&
            a.inbox[i].change == Some(history[a.inbox[i].sequence - base - 1]))
    && (a.phase.Got? ==>
        && a.phase.sequence == serverCursor + 1 == a.cursor + 1
        && serverCursor - base < |history| && a.phase.change == history[serverCursor - base])
    && (a.phase.Took? ==>
        && a.phase.sequence == serverCursor + 1 == a.cursor + 1
        && serverCursor + 1 - base <= |Collapsed(a.log)|)
    && (a.phase.Saved? ==> a.phase.sequence == serverCursor + 1 == a.cursor + 1 == a.file)
  }

  ghost predicate Protocol(w: World, base: nat) {
    && HistoryOk(w.server, base) && PhaseOk(w.server, Acked(w, base), base)
    && LogOk(w.agent, w.server.history)
    && CursorsOk(w.agent, w.server.cursor, base)
    && HandlingOk(w.agent, w.server.history, w.server.cursor, base)
    && (w.linked || w.dialled ==> w.agent.up)
  }

  lemma StoreKeepsProtocol(rules: Rules, w: World, m: Mutation, w': World, base: nat)
    requires Protocol(w, base) && StoreNext(w, m, rules) == Some(w')
    ensures Protocol(w', base)
  {
  }

  lemma PublishKeepsProtocol(w: World, w': World, base: nat)
    requires Protocol(w, base) && PublishNext(w) == Some(w')
    ensures Protocol(w', base)
  {
    var s, h := w.server, w.server.history;
    var c := Change(|h| + 1, s.making.value);
    assert w'.server.history == h + [c];
    assert HistoryOk(w'.server, base) && PhaseOk(w'.server, Acked(w', base), base) by {
      hide LogOk, CursorsOk, HandlingOk;
    }
    assert LogOk(w'.agent, w'.server.history) && CursorsOk(w'.agent, w'.server.cursor, base) by {
      hide HistoryOk, PhaseOk, HandlingOk, Collapsed;
    }
    assert HandlingOk(w'.agent, w'.server.history, w'.server.cursor, base) by {
      hide HistoryOk, PhaseOk, LogOk, CursorsOk, Collapsed;
    }
    hide HistoryOk, PhaseOk, LogOk, CursorsOk, HandlingOk;
  }

  lemma AcceptKeepsProtocol(w: World, live: bool, w': World, base: nat)
    requires Protocol(w, base) && AcceptNext(w, live) == Some(w')
    ensures Protocol(w', base)
  {
  }

  lemma PhaseReaches(s: Server, acked: nat, further: nat, base: nat)
    requires PhaseOk(s, acked, base) && acked <= further
    ensures PhaseOk(s, further, base)
  {
  }

  lemma HandlingMore(a: Agent, history: seq<Change>, serverCursor: nat, base: nat)
    requires HandlingOk(a, history, serverCursor, base) && serverCursor - base < |history|
    ensures
      var m := PolicyMessage(serverCursor + 1, Some(history[serverCursor - base]));
      HandlingOk(a.(inbox := a.inbox + [m]), history, serverCursor, base)
  {
  }

  lemma PhaseAwaits(s: Server, acked: nat, base: nat)
    requires HistoryOk(s, base) && PhaseOk(s, acked, base) && s.phase.Idle? && s.queue.pending != []
    ensures
      var s' := s.(window := Reserved(s.window), phase := Awaiting(s.window.next, s.queue.pending[0]));
      HistoryOk(s', base) && PhaseOk(s', acked, base)
  {
    assert {} + {s.cursor + 1} == {s.cursor + 1};
    assert Reserved(s.window) == Window(s.cursor + 2, 0, s.cursor, {s.cursor + 1});
  }

  lemma SendKeepsProtocol(rules: Rules, w: World, w': World, base: nat)
    requires Protocol(w, base) && SendNext(w, rules) == Some(w')
    ensures Protocol(w', base)
  {
    var s, a := w.server, w.agent;
    if w' == ServerClosed(w) {
      ClosesKeepProtocol(w, base);
    } else {
      PhaseAwaits(s, Acked(w, base), base);
      HandlingMore(a, s.history, s.cursor, base);
      assert a.inbox + [] == a.inbox;
      assert s.cursor - base < |s.history| && s.queue.pending[0] == s.history[s.cursor - base] &&
          s.window.next == s.cursor + 1;
      hide HistoryOk, PhaseOk, LogOk, HandlingOk;
    }
  }

  lemma HearKeepsProtocol(w: World, w': World, base: nat)
    requires Protocol(w, base) && HearNext(w) == Some(w')
    ensures Protocol(w', base)
  {
    hide LogOk, HandlingOk, Begins, Collapsed;
    if w' == ServerClosed(w) {
      ClosesKeepProtocol(w, base);
    }
  }

  lemma CommitKeepsProtocol(w: World, saved: bool, renamed: bool, w': World, base: nat)
    requires Protocol(w, base) && CommitNext(w, saved, renamed) == Some(w')
    ensures Protocol(w', base)
  {
    assert w.server.phase.Answered? ==> w.server.queue.pending[0] == w.server.phase.change;
    assert HistoryOk(w'.server, base) && PhaseOk(w'.server, Acked(w', base), base) by {
      hide LogOk, HandlingOk;
    }
    assert LogOk(w'.agent, w'.server.history) && CursorsOk(w'.agent, w'.server.cursor, base) by {
      hide HistoryOk, HandlingOk, Begins, Collapsed;
    }
    assert HandlingOk(w'.agent, w'.server.history, w'.server.cursor, base) by {
      hide HistoryOk, LogOk, Collapsed;
    }
    hide HistoryOk, PhaseOk, LogOk, CursorsOk, HandlingOk;
  }

  lemma DialKeepsProtocol(w: World, w': World, base: nat)
    requires Protocol(w, base) && DialNext(w) == Some(w')
    ensures Protocol(w', base)
  {
  }

  lemma HandlingFewer(a: Agent, history: seq<Change>, serverCursor: nat, base: nat)
    requires HandlingOk(a, history, serverCursor, base) && |a.inbox| > 0
    ensures HandlingOk(a.(inbox := a.inbox[1..]), history, serverCursor, base)
  {
  }

  lemma ToldKeepsPhase(w: World, m: Message, base: nat)
    requires Protocol(w, base) && m.AckMessage? && base < m.cursor <= w.agent.cursor
    ensures Protocol(Told(w, m), base)
  {
    var s := w.server;
    if w.linked {
      assert PhaseOk(s.(inbox := s.inbox + [m]), w.agent.cursor, base);
    }
  }

  /** What the agent is sent is never from the future: it breaks off, or answers a
      repeat, or has the next change in hand. */
  lemma ReceiveOutcome(rules: Rules, w: World, w': World, base: nat)
    requires Protocol(w, base) && ReceiveNext(w, rules) == Some(w')
    ensures w.agent.up && w.agent.phase.Receiving? && |w.agent.inbox| > 0
    ensures w.agent.inbox[0].PolicyMessage? && base < w.agent.inbox[0].sequence
    ensures
      var a, h, n := w.agent, w.server.history, w.server.cursor;
      var rest := w.(agent := a.(inbox := a.inbox[1..]));
      || w' == AgentClosed(w)
      || (a.inbox[0].sequence <= a.cursor && w' == Told(rest, AckMessage(a.cursor)))
      || (a.inbox[0].sequence > n == a.cursor && 0 <= n - base < |h|
          && w' == rest.(agent := rest.agent.(phase := Got(n + 1, h[n - base]))))
  {
    hide HistoryOk, PhaseOk, LogOk;
  }

  lemma HandlingNext(a: Agent, history: seq<Change>, serverCursor: nat, base: nat)
    requires HandlingOk(a, history, serverCursor, base) && a.phase.Receiving?
    requires serverCursor == a.cursor && serverCursor - base < |history|
    ensures HandlingOk(a.(phase := Got(serverCursor + 1, history[serverCursor - base])), history, serverCursor, base)
  {
  }

  lemma AgentTurns(w: World, phase: AgentPhase, inbox: seq<Message>, base: nat)
    requires Protocol(w, base) && w.agent.up && |w.agent.inbox| > 0
    requires HandlingOk(w.agent.(phase := phase, inbox := inbox), w.server.history, w.server.cursor, base)
    ensures Protocol(w.(agent := w.agent.(phase := phase, inbox := inbox)), base)
  {
    hide HistoryOk, PhaseOk, HandlingOk, Begins, Collapsed;
    PhaseReaches(w.server, Acked(w, base), Acked(w.(agent := w.agent.(phase := phase, inbox := inbox)), base), base);
  }

  lemma RepeatKeepsProtocol(w: World, base: nat)
    requires Protocol(w, base) && w.agent.up && |w.agent.inbox| > 0 && base < w.agent.cursor
    ensures Protocol(Told(w.(agent := w.agent.(inbox := w.agent.inbox[1..])), AckMessage(w.agent.cursor)), base)
  {
    var a := w.agent;
    HandlingFewer(a, w.server.history, w.server.cursor, base);
    AgentTurns(w, a.phase, a.inbox[1..], base);
    ToldKeepsPhase(w.(agent := a.(inbox := a.inbox[1..])), AckMessage(a.cursor), base);
    hide Protocol;
  }

  lemma NewsKeepsProtocol(w: World, base: nat)
    requires Protocol(w, base) && w.agent.up && |w.agent.inbox| > 0 && w.agent.phase.Receiving?
    requires w.server.cursor == w.agent.cursor && 0 <= w.server.cursor - base < |w.server.history|
    ensures
      var got := Got(w.server.cursor + 1, w.server.history[w.server.cursor - base]);
      Protocol(w.(agent := w.agent.(phase := got, inbox := w.agent.inbox[1..])), base)
  {
    var a, h, n := w.agent, w.server.history, w.server.cursor;
    HandlingFewer(a, h, n, base);
    HandlingNext(a.(inbox := a.inbox[1..]), h, n, base);
    AgentTurns(w, Got(n + 1, h[n - base]), a.inbox[1..], base);
    hide Protocol;
  }

  lemma ReceiveKeepsProtocol(rules: Rules, w: World, w': World, base: nat)
    requires Protocol(w, base) && ReceiveNext(w, rules) == Some(w')
    ensures Protocol(w', base)
  {
    hide Protocol;
    ReceiveOutcome(rules, w, w', base);
    hide ReceiveNext;
    if w' == AgentClosed(w) {
      ClosesKeepProtocol(w, base);
    } else if w.agent.inbox[0].sequence <= w.agent.cursor {
      RepeatKeepsProtocol(w, base);
    } else {
      NewsKeepsProtocol(w, base);
    }
  }

  /** With the next change in hand, applying it is applying it again exactly when it has
      been applied without having been committed. */
  lemma RepeatsExactly(w: World, base: nat)
    requires Protocol(w, base) && w.agent.phase.Got?
    ensures Collapsed(w.agent.log + [w.agent.phase.change]) == Collapsed(w.agent.log)
       <==> |Collapsed(w.agent.log)| == w.server.cursor - base + 1
  {
    HandGrowsLog(w, base);
    InHand(w, base);
    CollapsedStep(w.agent.log, w.agent.phase.change);
    hide Protocol, Collapsed;
  }

  /** A repeat of the last change of the log leaves its collapsed form alone; the next
      change makes it one longer. */
  lemma CollapsedGrows(log: seq<Change>, history: seq<Change>, n: nat)
    requires Begins(Collapsed(log), history) && n < |history| && n <= |Collapsed(log)| <= n + 1
    requires forall i :: 0 <= i < |history| ==> history[i].id == i + 1
    ensures Begins(Collapsed(log + [history[n]]), history) && |Collapsed(log + [history[n]])| == n + 1
  {
    CollapsedStep(log, history[n]);
    if |log| > 0 {
      CollapsedEnds(log);
    }
  }

  /** The change in hand is the first that is not committed. */
  lemma InHand(w: World, base: nat)
    requires Protocol(w, base) && w.agent.phase.Got?
    ensures
      var a, h, n := w.agent, w.server.history, w.server.cursor - base;
      && 0 <= n < |h| && a.phase == Got(base + n + 1, h[n]) && h[n].id == n + 1
      && n <= |Collapsed(a.log)| <= n + 1 && a.inMem <= a.onDisk <= n + 1 && (a.files.policy ==> n <= a.inMem)
  {
    hide PhaseOk, Collapsed;
  }

  lemma HandGrowsLog(w: World, base: nat)
    requires Protocol(w, base) && w.agent.phase.Got?
    ensures
      var log := Collapsed(w.agent.log + [w.agent.phase.change]);
      Begins(log, w.server.history) && |log| == w.server.cursor - base + 1
  {
    InHand(w, base);
    hide PhaseOk, CursorsOk, HandlingOk;
    CollapsedGrows(w.agent.log, w.server.history, w.server.cursor - base);
  }

  lemma TakenKeepsProtocol(w: World, mem: State, disk: State, base: nat)
    requires Protocol(w, base) && w.agent.up && w.agent.phase.Got?
    ensures
      var a, n := w.agent, w.server.cursor - base + 1;
      Protocol(w.(agent := a.(mem := mem, disk := disk, phase := Took(a.phase.sequence),
          log := a.log + [a.phase.change],
                              inMem := n, onDisk := n)), base)
  {
    InHand(w, base);
    HandGrowsLog(w, base);
    hide HistoryOk, PhaseOk, Begins, Collapsed;
  }

  lemma FileKeepsProtocol(w: World, disk: State, base: nat)
    requires Protocol(w, base) && w.agent.up && w.agent.phase.Got?
    ensures Protocol(w.(agent := w.agent.(disk := disk, onDisk := w.server.cursor - base + 1)), base)
  {
    InHand(w, base);
    hide HistoryOk, PhaseOk, Begins, Collapsed;
  }

  lemma TakeKeepsProtocol(rules: Rules, w: World, applied: bool, renamed: bool, w': World, base: nat)
    requires Protocol(w, base) && TakeNext(w, applied, renamed, rules) == Some(w')
    ensures Protocol(w', base)
  {
    hide Protocol;
    var a := w.agent;
    InHand(w, base);
    if applied {
      TakenKeepsProtocol(w, w'.agent.mem, w'.agent.disk, base);
    } else if renamed {
      var next := rules.effect(a.mem, a.phase.change.mutation);
      FileKeepsProtocol(w, next, base);
      ClosesKeepProtocol(w.(agent := a.(disk := next, onDisk := w.server.cursor - base + 1)), base);
    } else {
      assert a.(disk := a.disk, onDisk := a.onDisk) == a;
      ClosesKeepProtocol(w, base);
    }
  }

  lemma SaveKeepsProtocol(w: World, saved: bool, renamed: bool, w': World, base: nat)
    requires Protocol(w, base) && SaveNext(w, saved, renamed) == Some(w')
    ensures Protocol(w', base)
  {
  }

  lemma AcknowledgeKeepsProtocol(w: World, told: bool, delivered: bool, w': World, base: nat)
    requires Protocol(w, base) && AcknowledgeNext(w, told, delivered) == Some(w')
    ensures Protocol(w', base)
  {
    var a := w.agent;
    var moved := w.(agent :=
        a.(window := a.window.(applied := a.phase.sequence), cursor := a.phase.sequence, phase := Receiving));
    assert Protocol(moved, base);
    ToldKeepsPhase(moved, AckMessage(a.phase.sequence), base);
    ClosesKeepProtocol(moved, base);
    ClosesKeepProtocol(Told(moved, AckMessage(a.phase.sequence)), base);
  }

  lemma CrashKeepsProtocol(w: World, base: nat)
    requires Protocol(w, base)
    ensures Protocol(Crashed(w), base)
  {
  }

  lemma ClosesKeepProtocol(w: World, base: nat)
    requires Protocol(w, base)
    ensures Protocol(ServerClosed(w), base) && Protocol(AgentClosed(w), base)
  {
  }

  lemma TurnKeepsProtocol(rules: Rules, w: World, act: Turn, w': World, base: nat)
    requires Protocol(w, base) && Next(w, act, rules) == Some(w')
    ensures Protocol(w', base)
  {
    match act
    case Store(m) => StoreKeepsProtocol(rules, w, m, w', base);
    case Publish => PublishKeepsProtocol(w, w', base);
    case Dial => DialKeepsProtocol(w, w', base);
    case Accept(live) => AcceptKeepsProtocol(w, live, w', base);
    case Send => SendKeepsProtocol(rules, w, w', base);
    case Hear => HearKeepsProtocol(w, w', base);
    case Commit(saved, renamed) => CommitKeepsProtocol(w, saved, renamed, w', base);
    case ServerClose => ClosesKeepProtocol(w, base);
    case Receive => ReceiveKeepsProtocol(rules, w, w', base);
    case Take(applied, renamed) => TakeKeepsProtocol(rules, w, applied, renamed, w', base);
    case Save(saved, renamed) => SaveKeepsProtocol(w, saved, renamed, w', base);
    case Acknowledge(told, delivered) => AcknowledgeKeepsProtocol(w, told, delivered, w', base);
    case AgentClose => ClosesKeepProtocol(w, base);
    case Crash => CrashKeepsProtocol(w, base);
  }

  // ---- the stores ----

  /** Each store is the start with the first so many published changes made, once each. */
  ghost predicate StoresFollow(rules: Rules, w: World, view: State) {
    var s, a := w.server, w.agent;
    && a.inMem <= |s.history| && a.onDisk <= |s.history|
    && (a.files.policy ==>
        a.mem == ViewAt(rules, view, s.history, a.inMem) && a.disk == ViewAt(rules, view, s.history, a.onDisk))
    && s.store == if s.making.Some? then rules.effect(ViewAt(rules, view, s.history, |s.history|), s.making.value)
                  else ViewAt(rules, view, s.history, |s.history|)
  }

  lemma StoreKeepsStores(rules: Rules, w: World, m: Mutation, w': World, view: State)
    requires StoresFollow(rules, w, view) && StoreNext(w, m, rules) == Some(w')
    ensures StoresFollow(rules, w', view)
  {
  }

  lemma PublishKeepsStores(rules: Rules, w: World, w': World, view: State)
    requires StoresFollow(rules, w, view) && PublishNext(w) == Some(w')
    ensures StoresFollow(rules, w', view)
  {
    var h := w.server.history;
    var c := Change(w'.server.queue.nextID, w.server.making.value);
    assert w'.server.history == h + [c];
    ViewAtEarlier(rules, view, h, c, |h|);
    ViewAtEarlier(rules, view, h, c, w.agent.inMem);
    ViewAtEarlier(rules, view, h, c, w.agent.onDisk);
  }

  /** The change the agent takes is the next one for its store or the one it made last,
      and making that again changes nothing. */
  lemma TakeKeepsStores(rules: Rules, w: World, applied: bool, renamed: bool, w': World, view: State, base: nat)
    requires Protocol(w, base) && StoresFollow(rules, w, view) && Repeatable(rules, view)
    requires TakeNext(w, applied, renamed, rules) == Some(w')
    ensures StoresFollow(rules, w', view)
  {
    var a, h, n := w.agent, w.server.history, w.server.cursor - base;
    assert a.phase.change == h[n] && h[n].id == n + 1;
    if a.files.policy {
      InHand(w, base);
      var before := ViewAt(rules, view, h, n);
      assert rules.effect(rules.effect(before, h[n].mutation), h[n].mutation) == rules.effect(before, h[n].mutation);
      assert ViewAt(rules, view, h, n + 1) == rules.effect(before, h[n].mutation);
      assert rules.effect(a.mem, h[n].mutation) == ViewAt(rules, view, h, n + 1);
    }
  }

  predicate LeavesStores(w: World, w': World) {
    && w'.server.store == w.server.store && w'.server.making == w.server.making
    && w'.server.history == w.server.history && w'.agent.files == w.agent.files
    && w'.agent.mem == w.agent.mem && w'.agent.disk == w.agent.disk
    && w'.agent.inMem == w.agent.inMem && w'.agent.onDisk == w.agent.onDisk
  }

  lemma ServerLeavesStores(rules: Rules, w: World, act: Turn, w': World)
    requires Next(w, act, rules) == Some(w')
    requires act.Accept? || act.Send? || act.Hear? || act.Commit? || act.ServerClose?
    ensures LeavesStores(w, w')
  {
  }

  lemma AgentLeavesStores(rules: Rules, w: World, act: Turn, w': World)
    requires Next(w, act, rules) == Some(w')
    requires act.Dial? || act.Receive? || act.Save? || act.Acknowledge? || act.AgentClose?
    ensures LeavesStores(w, w')
  {
  }

  /** All other turns leave the stores and the history alone. */
  lemma OthersLeaveStores(rules: Rules, w: World, act: Turn, w': World)
    requires Next(w, act, rules) == Some(w')
    requires !act.Store? && !act.Publish? && !act.Take? && !act.Crash?
    ensures LeavesStores(w, w')
  {
    hide Next, LeavesStores;
    if act.Accept? || act.Send? || act.Hear? || act.Commit? || act.ServerClose? {
      ServerLeavesStores(rules, w, act, w');
    } else {
      AgentLeavesStores(rules, w, act, w');
    }
  }

  lemma UnmovedStores(rules: Rules, w: World, w': World, view: State)
    requires StoresFollow(rules, w, view) && LeavesStores(w, w')
    ensures StoresFollow(rules, w', view)
  {
    hide ViewAt;
  }

  lemma TurnKeepsStores(rules: Rules, w: World, act: Turn, w': World, view: State, base: nat)
    requires Protocol(w, base) && StoresFollow(rules, w, view) && Repeatable(rules, view)
    requires Next(w, act, rules) == Some(w')
    ensures StoresFollow(rules, w', view)
  {
    hide Protocol, StoresFollow, Repeatable, LeavesStores;
    if !act.Store? && !act.Publish? && !act.Take? && !act.Crash? {
      OthersLeaveStores(rules, w, act, w');
      UnmovedStores(rules, w, w', view);
      hide Next;
    } else {
      match act
      case Store(m) => StoreKeepsStores(rules, w, m, w', view);
      case Publish => PublishKeepsStores(rules, w, w', view);
      case Take(applied, renamed) => TakeKeepsStores(rules, w, applied, renamed, w', view, base);
      case Crash => CrashKeepsStores(rules, w, view);
    }
  }

  lemma CrashKeepsStores(rules: Rules, w: World, view: State)
    requires StoresFollow(rules, w, view)
    ensures StoresFollow(rules, Crashed(w), view)
  {
  }

  lemma TurnKeepsFiles(rules: Rules, w: World, act: Turn, w': World)
    requires Next(w, act, rules) == Some(w')
    ensures w'.agent.files == w.agent.files
  {
  }

  ghost predicate Inv(rules: Rules, w: World, view: State, base: nat) {
    Protocol(w, base) && StoresFollow(rules, w, view)
  }

  lemma InitialHolds(rules: Rules, w: World, files: Files, view: State, base: nat)
    requires Initial(w, Start(files, view, base, base))
    ensures Inv(rules, w, view, base) && w.agent.files == files
  {
    assert Collapsed([]) == [];
  }

  lemma {:induction false} RunKeeps(rules: Rules, ws: seq<World>, acts: seq<Turn>,
                                    files: Files, view: State, base: nat, i: nat)
    requires IsRun(ws, acts, rules) && Initial(ws[0], Start(files, view, base, base)) && i < |ws| &&
        Repeatable(rules, view)
    ensures Inv(rules, ws[i], view, base) && ws[i].agent.files == files
  {
    hide Next, Protocol, StoresFollow, Repeatable, Initial;
    if i == 0 {
      InitialHolds(rules, ws[0], files, view, base);
    } else {
      RunKeeps(rules, ws, acts, files, view, base, i - 1);
      TurnKeepsProtocol(rules, ws[i - 1], acts[i - 1], ws[i], base);
      TurnKeepsStores(rules, ws[i - 1], acts[i - 1], ws[i], view, base);
      TurnKeepsFiles(rules, ws[i - 1], acts[i - 1], ws[i]);
    }
  }

  lemma {:induction false} ViewsAreConsistent(max: nat, view: State, history: seq<Change>, n: nat)
    requires ConsistentView(view) && n <= |history|
    ensures ConsistentView(ViewAt(PolicyRules(max), view, history, n))
  {
    if n > 0 {
      ViewsAreConsistent(max, view, history, n - 1);
      EffectKeepsConsistency(ViewAt(PolicyRules(max), view, history, n - 1), history[n - 1].mutation);
    }
  }

  lemma PolicyIsRepeatable(max: nat, view: State)
    requires ConsistentView(view)
    ensures Repeatable(PolicyRules(max), view)
  {
    forall history: seq<Change>, n: nat, m: Mutation | n <= |history|
      ensures
        var v := ViewAt(PolicyRules(max), view, history, n);
        Effect(Effect(v, m), m) == Effect(v, m)
    {
      ViewsAreConsistent(max, view, history, n);
      EffectIsIdempotent(ViewAt(PolicyRules(max), view, history, n), m);
    }
  }

  lemma ReachableKeeps(w: World, files: Files, view: State, base: nat, max: nat)
    requires Reachable(w, Start(files, view, base, base), PolicyRules(max))
    ensures Inv(PolicyRules(max), w, view, base) && w.agent.files == files
  {
    var rules := PolicyRules(max);
    var ws, acts :| IsRun(ws, acts, rules) && Initial(ws[0], Start(files, view, base, base)) && ws[|acts|] == w;
    PolicyIsRepeatable(max, view);
    RunKeeps(rules, ws, acts, files, view, base, |acts|);
  }

  // ---- what the invariant says ----

  lemma ProtocolSays(w: World, base: nat)
    requires Protocol(w, base)
    ensures w.server.cursor - base <= |Collapsed(w.agent.log)| <= w.server.cursor + 1 - base
    ensures Collapsed(w.agent.log) <= w.server.history
    ensures w.agent.file - base <= |Collapsed(w.agent.log)| &&
        (w.agent.files.cursor ==> w.server.cursor <= w.agent.file)
    ensures base <= w.server.cursor <= base + |w.server.history|
    ensures w.server.queue.pending == w.server.history[w.server.cursor - base..]
    ensures w.agent.inMem <= w.agent.onDisk <= |w.server.history|
    ensures w.agent.files.policy ==> |Collapsed(w.agent.log)| <= w.agent.inMem
  {
    hide PhaseOk, HandlingOk, Collapsed;
  }

  /** Whatever files the agent keeps, the changes it has applied, repeats collapsed, begin
      what was published, hold everything committed and at most one change more. Its
      durable cursor is the server's or the next. With a file for its store, each of
      these changes has had its effect exactly once, in order, in memory and on disk. */
  lemma ReplicatedLogSafety(w: World, files: Files, view: State, base: nat, max: nat)
    requires Reachable(w, Start(files, view, base, base), PolicyRules(max))
    ensures base <= w.server.cursor <= base + |w.server.history|
    ensures w.server.queue.pending == w.server.history[w.server.cursor - base..]
    ensures w.server.cursor - base <= |Collapsed(w.agent.log)| <= w.server.cursor + 1 - base
    ensures Collapsed(w.agent.log) <= w.server.history
    ensures files.cursor ==> w.server.cursor <= w.agent.file <= w.server.cursor + 1
    ensures files.policy ==>
      && |Collapsed(w.agent.log)| <= w.agent.inMem <= w.agent.onDisk <= |w.server.history|
      && w.agent.mem == ViewAt(PolicyRules(max), view, w.server.history, w.agent.inMem)
      && w.agent.disk == ViewAt(PolicyRules(max), view, w.server.history, w.agent.onDisk)
  {
    ReachableKeeps(w, files, view, base, max);
    ProtocolSays(w, base);
    hide Reachable, Protocol, ViewAt, Collapsed, PolicyRules;
  }

  /** Nothing waits to be published or to be replicated. */
  ghost predicate Drained(w: World) {
    w.server.making == None && w.server.queue.pending == []
  }

  ghost predicate Agree(w: World) {
    w.agent.mem == w.server.store && (w.agent.files.policy ==> w.agent.disk == w.server.store)
  }

  lemma DrainedMeansAgreed(rules: Rules, w: World, view: State, base: nat)
    requires Inv(rules, w, view, base) && Drained(w) && w.agent.files.policy
    ensures Agree(w)
  {
    assert w.server.cursor - base == |w.server.history|;
  }
}
