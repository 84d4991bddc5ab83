/** Policy sync as a whole: one server process, one agent that may crash and restart, and
    connections that break at any point. Each turn is something one side does in one go,
    taken from handleSync, acceptSync, consume and Run; everything they may be refused,
    a connection, a write, a rename, is a parameter of the turn. */
module Replication {
  import opened Basics
  import opened Cidr
  import opened PolicyStore
  import opened PolicyStoreLaws
  import opened Mutations
  import opened Queue
  import opened AgentRpc
  import opened SyncLoops

  /** What the protocol is told about policies: how many updates may be in flight, which
      changes are valid, and what a mutation does to a view. It looks no further. */
  datatype Rules = Rules(maxInFlight: nat, valid: Change -> bool, effect: (State, Mutation) -> State)

  /** The rules that policy sync runs by. */
  function PolicyRules(maxInFlight: nat): Rules {
    Rules(maxInFlight, c => ValidChange(c), (v, m) => Effect(v, m))
  }

  datatype ServerPhase =
    | Away
    | Idle
    | Awaiting(sequence: nat, change: Change)
    | Answered(cursor: nat, change: Change)

  /** store is the server's view; making is a mutation that has reached the store and is
      about to be published, while its maker holds the controller's lock. history, which
      the program does not keep, is everything ever published. */
  datatype Server = Server(
    store: State, making: Option<Mutation>, history: seq<Change>, queue: QueueState,
    cursor: nat, file: nat, phase: ServerPhase, window: Window, inbox: seq<Message>)

  datatype AgentPhase =
    | Receiving
    | Got(sequence: nat, change: Change)
    | Took(sequence: nat)
    | Saved(sequence: nat)

  /** What an agent is configured to keep: its store has a file only if the path names
      neither a database nor a driver is set, and the cursor's file is optional. */
  datatype Files = Files(policy: bool, cursor: bool)

  /** mem and disk are the store and its file, cursor and file the cursor and its file; a
      file that is not configured is written to no purpose. The last three are history:
      what Apply accepted, and how many of the published changes have had their effect in
      memory and on disk. */
  datatype Agent = Agent(
    files: Files, mem: State, disk: State, cursor: nat, file: nat,
    up: bool, phase: AgentPhase, window: Window, inbox: seq<Message>,
    log: seq<Change>, inMem: nat, onDisk: nat)

  /** dialled: the agent's connection waits to be accepted; linked: both ends hold the
      same connection. */
  datatype World = World(server: Server, agent: Agent, dialled: bool, linked: bool)

  datatype Turn =
    | Store(m: Mutation)
    | Publish
    | Dial
    | Accept(live: bool)
    | Send
    | Hear
    | Commit(saved: bool, renamed: bool)
    | ServerClose
    | Receive
    | Take(applied: bool, renamed: bool)
    | Save(saved: bool, renamed: bool)
    | Acknowledge(told: bool, delivered: bool)
    | AgentClose
    | Crash

  // ---- the server's turns ----

  /** Dropping the connection: what was still to be read is gone. */
  function ServerClosed(w: World): World {
    w.(server := w.server.(phase := Away, inbox := []), linked := false)
  }

  function StoreNext(w: World, m: Mutation, rules: Rules): Option<World> {
    var s := w.server;
    if s.making.None? && rules.valid(Change(0, m)) && rules.effect(s.store, m) != s.store
    then Some(w.(server := s.(store := rules.effect(s.store, m), making := Some(m))))
    else None
  }

  function PublishNext(w: World): Option<World> {
    var s := w.server;
    if s.making.None? then None
    else
      var queue := Published(s.queue, s.making.value);
      Some(w.(server := s.(making := None, queue := queue,
          history := s.history + [Change(queue.nextID, s.making.value)])))
  }

  /** acceptSync ends the session it has before it starts the next one. */
  function AcceptNext(w: World, live: bool): Option<World> {
    var session := Opened(0, w.server.cursor, 0);
    if (live && !w.dialled) || session.Failed? then None
    else Some(w.(server := w.server.(phase := Idle, window := session.value, inbox := []),
                 linked := live, dialled := w.dialled && !live))
  }

  function SendNext(w: World, rules: Rules): Option<World> {
    var s := w.server;
    if s.phase != Idle || s.queue.pending == [] then None
    else if !rules.valid(s.queue.pending[0]) || |s.window.pending| >= rules.maxInFlight then Some(ServerClosed(w))
    else
      var change := s.queue.pending[0];
      var sent := if w.linked then [PolicyMessage(s.window.next, Some(change))] else [];
      Some(w.(server := s.(window := Reserved(s.window), phase := Awaiting(s.window.next, change)),
              agent := w.agent.(inbox := w.agent.inbox + sent)))
  }

  function HearNext(w: World): Option<World> {
    var s := w.server;
    if !s.phase.Awaiting? || s.inbox == [] then None
    else
      var message := s.inbox[0];
      if message.AckMessage? && message.cursor > 0 && message.cursor >= s.phase.sequence
      then Some(w.(server := s.(window := Acknowledged(s.window, message.cursor), inbox := s.inbox[1..],
                                phase := Answered(message.cursor, s.phase.change))))
      else Some(ServerClosed(w))
  }

  function CommitNext(w: World, saved: bool, renamed: bool): Option<World> {
    var s := w.server;
    if !s.phase.Answered? then None
    else if s.phase.cursor < s.file then Some(ServerClosed(w))
    else if saved
    then Some(w.(server := s.(file := s.phase.cursor, cursor := s.phase.cursor,
                              queue := Committed(s.queue, s.phase.change), phase := Idle)))
    else Some(ServerClosed(w.(server := s.(file := if renamed then s.phase.cursor else s.file))))
  }

  // ---- the agent's turns ----

  function AgentClosed(w: World): World {
    w.(agent := w.agent.(up := false, phase := Receiving, inbox := []), dialled := false, linked := false)
  }

  function DialNext(w: World): Option<World> {
    var session := Opened(w.agent.cursor, 0, 0);
    if w.agent.up || session.Failed? then None
    else Some(w.(agent := w.agent.(up := true, phase := Receiving, window := session.value, inbox := []),
                 dialled := true, linked := false))
  }

  /** A message to the server arrives only over the connection both ends hold. */
  function Told(w: World, m: Message): World {
    if w.linked then w.(server := w.server.(inbox := w.server.inbox + [m])) else w
  }

  function ReceiveNext(w: World, rules: Rules): Option<World> {
    var a := w.agent;
    if !a.up || a.phase != Receiving || a.inbox == [] then None
    else
      var message := a.inbox[0];
      var rest := w.(agent := a.(inbox := a.inbox[1..]));
      match message
      case AckMessage(cursor) =>
        if cursor == 0 then Some(AgentClosed(w))
        else Some(rest.(agent := rest.agent.(window := Acknowledged(a.window, cursor))))
      case PolicyMessage(sequence, change) =>
        if change.None? || sequence == 0 || !rules.valid(change.value) then Some(AgentClosed(w))
        else if sequence <= a.window.applied then Some(Told(rest, AckMessage(a.window.applied)))
        else if sequence == a.window.applied + 1
        then Some(rest.(agent := rest.agent.(phase := Got(sequence, change.value))))
        else Some(AgentClosed(w))
      case UnknownMessage => Some(AgentClosed(w))
  }

  /** policyStoreAdapter.Apply: nothing is written when nothing changes; a failed write
      leaves memory alone and the file old or new. The numbers in history follow. */
  function TakeNext(w: World, applied: bool, renamed: bool, rules: Rules): Option<World> {
    var a := w.agent;
    if !a.up || !a.phase.Got? then None
    else
      var next := rules.effect(a.mem, a.phase.change.mutation);
      var seen := a.phase.change.id;
      if applied
      then Some(w.(agent := a.(mem := next, disk := if next == a.mem then a.disk else next,
                               phase := Took(a.phase.sequence), log := a.log + [a.phase.change],
                               inMem := seen, onDisk := if next == a.mem then Max(a.onDisk, seen) else seen)))
      else Some(AgentClosed(w.(agent := a.(disk := if renamed then next else a.disk,
                                           onDisk := if renamed then seen else a.onDisk))))
  }

  function Max(a: nat, b: nat): nat {
    if a < b then b else a
  }

  function SaveNext(w: World, saved: bool, renamed: bool): Option<World> {
    var a := w.agent;
    if !a.up || !a.phase.Took? then None
    else if !a.files.cursor then Some(w.(agent := a.(file := a.phase.sequence, phase := Saved(a.phase.sequence))))
    else if a.phase.sequence < a.file then Some(AgentClosed(w))
    else if saved then Some(w.(agent := a.(file := a.phase.sequence, phase := Saved(a.phase.sequence))))
    else Some(AgentClosed(w.(agent := a.(file := if renamed then a.phase.sequence else a.file))))
  }

  function AcknowledgeNext(w: World, told: bool, delivered: bool): Option<World> {
    var a := w.agent;
    if !a.up || !a.phase.Saved? then None
    else if a.phase.sequence != a.window.applied + 1 then Some(AgentClosed(w))
    else
      var moved := w.(agent :=
          a.(window := a.window.(applied := a.phase.sequence), cursor := a.phase.sequence, phase := Receiving));
      var spoken := if told || delivered then Told(moved, AckMessage(a.phase.sequence)) else moved;
      Some(if told then spoken else AgentClosed(spoken))
  }

  /** A restart reads the files there are; without them it begins with nothing. */
  function Crashed(w: World): World {
    var a := w.agent;
    var stored := if a.files.policy then a.(mem := a.disk, inMem := a.onDisk) else a.(mem := EMPTY, inMem := 0);
    AgentClosed(w.(agent := if a.files.cursor then stored.(cursor := a.file) else stored.(cursor := 0, file := 0)))
  }

  function Next(w: World, act: Turn, rules: Rules): Option<World> {
    match act
    case Store(m) => StoreNext(w, m, rules)
    case Publish => PublishNext(w)
    case Dial => DialNext(w)
    case Accept(live) => AcceptNext(w, live)
    case Send => SendNext(w, rules)
    case Hear => HearNext(w)
    case Commit(saved, renamed) => CommitNext(w, saved, renamed)
    case ServerClose => Some(ServerClosed(w))
    case Receive => ReceiveNext(w, rules)
    case Take(applied, renamed) => TakeNext(w, applied, renamed, rules)
    case Save(saved, renamed) => SaveNext(w, saved, renamed)
    case Acknowledge(told, delivered) => AcknowledgeNext(w, told, delivered)
    case AgentClose => Some(AgentClosed(w))
    case Crash => Some(Crashed(w))
  }

  // ---- runs ----

  datatype Start = Start(files: Files, view: State, agentCursor: nat, serverCursor: nat)

  /** Equal stores, nothing queued, nobody connected; the agent's cursor and the server's
      as their files gave them. */
  ghost predicate Initial(w: World, start: Start) {
    var Start(files, view, agentCursor, serverCursor) := start;
    && ConsistentView(view) && w.agent.files == files
    && w.server.store == view && w.server.making == None && w.server.history == []
    && w.server.queue == QueueState([], 0, false)
    && w.server.cursor == serverCursor == w.server.file && w.server.phase == Away && w.server.inbox == []
    && w.agent.mem == view && w.agent.disk == view
    && w.agent.cursor == agentCursor == w.agent.file
    && !w.agent.up && w.agent.phase == Receiving && w.agent.inbox == [] && w.agent.log == []
    && w.agent.inMem == 0 && w.agent.onDisk == 0
    && !w.dialled && !w.linked
  }

  ghost predicate IsRun(ws: seq<World>, acts: seq<Turn>, rules: Rules) {
    && |ws| == |acts| + 1
    && forall i :: 0 <= i < |acts| ==> Next(ws[i], acts[i], rules) == Some(ws[i + 1])
  }

  ghost predicate Reachable(w: World, start: Start, rules: Rules) {
    exists ws, acts :: IsRun(ws, acts, rules) && Initial(ws[0], start) && ws[|acts|] == w
  }

  /** The turns lead from one world to the other. */
  ghost predicate Comes(w: World, acts: seq<Turn>, w': World, rules: Rules)
    decreases |acts|
  {
    if acts == [] then w == w'
    else Next(w, acts[0], rules).Some? && Comes(Next(w, acts[0], rules).value, acts[1..], w', rules)
  }

  /** Nothing new is stored or published: only replication goes on. */
  ghost predicate OnlyReplicates(acts: seq<Turn>) {
    forall act <- acts :: !act.Store? && !act.Publish?
  }

  lemma {:induction false} ComesFurther(w: World, acts: seq<Turn>, m: World, more: seq<Turn>, w': World, rules: Rules)
    requires Comes(w, acts, m, rules) && Comes(m, more, w', rules)
    ensures Comes(w, acts + more, w', rules)
    ensures OnlyReplicates(acts) && OnlyReplicates(more) ==> OnlyReplicates(acts + more)
    decreases |acts|
  {
    if acts == [] {
      assert acts + more == more;
    } else {
      ComesFurther(Next(w, acts[0], rules).value, acts[1..], m, more, w', rules);
      assert (acts + more)[1..] == acts[1..] + more;
    }
  }

  lemma ComesOne(w: World, act: Turn, w': World, rules: Rules)
    requires Next(w, act, rules) == Some(w')
    ensures Comes(w, [act], w', rules)
    ensures !act.Store? && !act.Publish? ==> OnlyReplicates([act])
  {
    assert [act][1..] == [];
  }

  lemma ComesTwo(w: World, a: Turn, m: World, b: Turn, w': World, rules: Rules)
    requires Next(w, a, rules) == Some(m) && Next(m, b, rules) == Some(w')
    ensures Comes(w, [a, b], w', rules)
    ensures !a.Store? && !a.Publish? && !b.Store? && !b.Publish? ==> OnlyReplicates([a, b])
  {
    hide Next;
    ComesOne(w, a, m, rules);
    ComesOne(m, b, w', rules);
    ComesFurther(w, [a], m, [b], w', rules);
    assert [a] + [b] == [a, b];
  }

  lemma RunExtends(rules: Rules, ws: seq<World>, acts: seq<Turn>, act: Turn, w: World)
    requires IsRun(ws, acts, rules) && Next(ws[|acts|], act, rules) == Some(w)
    ensures IsRun(ws + [w], acts + [act], rules)
  {
    forall i | 0 <= i < |acts + [act]|
      ensures Next((ws + [w])[i], (acts + [act])[i], rules) == Some((ws + [w])[i + 1])
    {
      assert i < |acts| ==> (acts + [act])[i] == acts[i];
    }
  }

  lemma {:induction false} ReachableFurther(w: World, acts: seq<Turn>, w': World, start: Start, rules: Rules)
    requires Reachable(w, start, rules) && Comes(w, acts, w', rules)
    ensures Reachable(w', start, rules)
    decreases |acts|
  {
    if acts != [] {
      var ws, before :| IsRun(ws, before, rules) && Initial(ws[0], start) && ws[|before|] == w;
      var m := Next(w, acts[0], rules).value;
      RunExtends(rules, ws, before, acts[0], m);
      assert (ws + [m])[0] == ws[0] && (ws + [m])[|before + [acts[0]]|] == m;
      ReachableFurther(m, acts[1..], w', start, rules);
    }
  }

  /** Adjacent repeats counted once. */
  function Collapsed(log: seq<Change>): seq<Change> {
    if |log| <= 1 then log
    else
      var before := Collapsed(log[..|log| - 1]);
      if log[|log| - 1] == log[|log| - 2] then before else before + [log[|log| - 1]]
  }

  lemma {:induction false} CollapsedEnds(log: seq<Change>)
    requires |log| > 0
    ensures |Collapsed(log)| > 0 && Collapsed(log)[|Collapsed(log)| - 1] == log[|log| - 1]
  {
    if |log| > 1 {
      CollapsedEnds(log[..|log| - 1]);
    }
  }

  lemma CollapsedStep(log: seq<Change>, c: Change)
    ensures Collapsed(log + [c]) ==
      if |log| > 0 && log[|log| - 1] == c then Collapsed(log) else Collapsed(log) + [c]
  {
    if |log| > 0 {
      assert (log + [c])[..|log|] == log;
    }
  }
}
