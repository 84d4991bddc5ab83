/** acceptSync of internal/runtime/server.go and the session goroutines it starts, as
    interleaved steps: a new connection is served only when the last one is over. */
module SyncAcceptor {
  import opened Basics

  /** A goroutine running handleSync. Cancelling it and closing its connection only asks
      it to end; done is closed when it has ended, for whatever reason. */
  datatype Handler = Handler(cancelled: bool, done: bool)

  /** Where acceptSync stands: in Accept, waiting for the active handler's done, about to
      start one for the connection it holds, or returned. */
  datatype Stand = Accepting | Closing(accepted: bool) | Starting | Returned

  datatype Server = Server(handlers: seq<Handler>, active: Option<nat>, stand: Stand)

  datatype Event =
    | Accept(ok: bool)
    | Closed
    | Start
    | Work(i: nat)
    | End(i: nat)

  const FRESH: Server := Server([], None, Accepting)

  predicate Enabled(s: Server, e: Event) {
    match e
    case Accept(_) => s.stand.Accepting?
    case Closed => s.stand.Closing? &&
        (s.active.None? || (s.active.value < |s.handlers| && s.handlers[s.active.value].done))
    case Start => s.stand.Starting?
    case Work(i) => i < |s.handlers| && !s.handlers[i].done
    case End(i) => i < |s.handlers| && !s.handlers[i].done
  }

  /** Work is any send, receive, save or commit of a handler. */
  function After(s: Server, e: Event): Server
    requires Enabled(s, e)
  {
    match e
    case Accept(ok) =>
      if s.active.Some? && s.active.value < |s.handlers|
      then s.(handlers := s.handlers[s.active.value := s.handlers[s.active.value].(cancelled := true)],
          stand := Closing(ok))
      else s.(stand := Closing(ok))
    case Closed => s.(active := None, stand := if s.stand.accepted then Starting else Returned)
    case Start => Server(s.handlers + [Handler(false, false)], Some(|s.handlers|), Accepting)
    case Work(_) => s
    case End(i) => s.(handlers := s.handlers[i := s.handlers[i].(done := true)])
  }

  /** Every handler but the active one has ended, and that one is the latest. */
  ghost predicate OneAtATime(s: Server) {
    && (s.active.Some? ==> s.active.value + 1 == |s.handlers|)
    && (s.stand.Starting? || s.stand.Returned? ==> s.active.None?)
    && forall i :: 0 <= i < |s.handlers| && s.active != Some(i) ==> s.handlers[i].done
  }

  ghost predicate IsRun(start: Server, events: seq<Event>)
    decreases |events|
  {
    |events| > 0 ==> Enabled(start, events[0]) && IsRun(After(start, events[0]), events[1..])
  }

  lemma StepKeepsOne(s: Server, e: Event)
    requires OneAtATime(s) && Enabled(s, e)
    ensures OneAtATime(After(s, e)) && |s.handlers| <= |After(s, e).handlers|
  {
  }

  /** In every run, handlers work one after the other: once a handler has worked, no
      earlier one ever works again. */
  lemma {:induction false} HandoffIsClean(start: Server, events: seq<Event>, j: nat, k: nat)
    requires OneAtATime(start) && IsRun(start, events)
    requires j <= k < |events| && events[j].Work? && events[k].Work?
    ensures events[j].i <= events[k].i && events[k].i + 1 >= |start.handlers|
    decreases |events|
  {
    var next := After(start, events[0]);
    StepKeepsOne(start, events[0]);
    if j > 0 {
      HandoffIsClean(next, events[1..], j - 1, k - 1);
    } else if k > 0 {
      HandoffIsClean(next, events[1..], k - 1, k - 1);
    }
  }

  ghost function Finish(start: Server, events: seq<Event>): Server
    requires IsRun(start, events)
    decreases |events|
  {
    if |events| == 0 then start else Finish(After(start, events[0]), events[1..])
  }

  lemma {:induction false} RunKeepsOne(start: Server, events: seq<Event>)
    requires OneAtATime(start) && IsRun(start, events)
    ensures OneAtATime(Finish(start, events))
    decreases |events|
  {
    if |events| > 0 {
      StepKeepsOne(start, events[0]);
      RunKeepsOne(After(start, events[0]), events[1..]);
    }
  }

  /** At no point can two handlers work, and none is left when acceptSync has returned. */
  lemma AtMostOneHandlerWorks(events: seq<Event>, i: nat, j: nat)
    requires IsRun(FRESH, events)
    ensures
      var s := Finish(FRESH, events);
      && (Enabled(s, Work(i)) && Enabled(s, Work(j)) ==> i == j)
      && (s.stand.Returned? ==> !Enabled(s, Work(i)))
  {
    RunKeepsOne(FRESH, events);
  }
}
