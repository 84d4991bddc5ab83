/** internal/runtime/queue.go, lines 23 to 56, as interleaved steps: publish appends under the
    lock and sends its token after the lock is gone, and next looks under the lock and
    waits without it. */
module QueueWakeups {
  import opened Basics
  import opened Mutations
  import opened Queue

  /** The one session that drains the queue is about to look, or stands at the select
      of next after it has found nothing, or has been given the head. */
  datatype Reader = Away | Waiting | Holding(change: Change)

  /** Some publishers have appended and not sent yet. The channel holds one token. */
  datatype Steps = Steps(queue: QueueState, notifying: nat, reader: Reader)

  datatype Event =
    | Append(m: Mutation)
    | Notify
    | Look
    | Wake
    | GiveUp
    | Return
    | Remove(change: Change)

  predicate Enabled(s: Steps, e: Event) {
    match e
    case Append(_) => true
    case Notify => s.notifying > 0
    case Look => s.reader.Away?
    case Wake => s.reader.Waiting? && s.queue.token
    case GiveUp => s.reader.Waiting?
    case Return => s.reader.Holding?
    case Remove(_) => true
  }

  function After(s: Steps, e: Event): Steps
    requires Enabled(s, e)
  {
    match e
    case Append(m) => s.(queue := Published(s.queue, m).(token := s.queue.token), notifying := s.notifying + 1)
    case Notify => s.(queue := s.queue.(token := true), notifying := s.notifying - 1)
    case Look => if s.queue.pending == [] then s.(reader := Waiting) else s.(reader := Holding(s.queue.pending[0]))
    case Wake => s.(queue := s.queue.(token := false), reader := Away)
    case GiveUp | Return => s.(reader := Away)
    case Remove(change) => s.(queue := Committed(s.queue, change))
  }

  /** A change is there for the reader to see, or its publisher has yet to speak. */
  predicate Awake(s: Steps) {
    s.reader.Waiting? && s.queue.pending != [] ==> s.queue.token || s.notifying > 0
  }

  predicate IsRun(start: Steps, events: seq<Event>)
    decreases |events|
  {
    |events| > 0 ==> Enabled(start, events[0]) && IsRun(After(start, events[0]), events[1..])
  }

  function Finish(start: Steps, events: seq<Event>): Steps
    requires IsRun(start, events)
    decreases |events|
  {
    if |events| == 0 then start else Finish(After(start, events[0]), events[1..])
  }

  const EMPTY_QUEUE := Steps(QueueState([], 0, false), 0, Away)

  lemma {:induction false} RunStaysAwake(start: Steps, events: seq<Event>)
    requires Awake(start) && IsRun(start, events)
    ensures Awake(Finish(start, events))
    decreases |events|
  {
    if |events| > 0 {
      RunStaysAwake(After(start, events[0]), events[1..]);
    }
  }

  /** However publishers, commits and the reader interleave, a reader that waits while
      changes are pending is not lost: either a publisher has still to send, or two
      steps of the reader alone hand it the head of the queue. */
  lemma NoChangeIsSleptThrough(events: seq<Event>)
    requires IsRun(EMPTY_QUEUE, events)
    ensures
      var s := Finish(EMPTY_QUEUE, events);
      s.reader.Waiting? && s.queue.pending != [] && s.notifying == 0 ==>
        && IsRun(s, [Wake, Look])
        && Finish(s, [Wake, Look]) == s.(queue := s.queue.(token := false), reader := Holding(s.queue.pending[0]))
  {
    RunStaysAwake(EMPTY_QUEUE, events);
    var s := Finish(EMPTY_QUEUE, events);
    if s.reader.Waiting? && s.queue.pending != [] && s.notifying == 0 {
      assert [Wake, Look][1..] == [Look];
      var woken := After(s, Wake);
      assert IsRun(woken, [Look]) && Finish(woken, [Look]) == After(woken, Look);
    }
  }

  /** Without the token the reader would be: looking before the append and waiting after
      it leaves it blocked until the publisher sends. */
  lemma TokenIsNeeded(m: Mutation)
    ensures IsRun(EMPTY_QUEUE, [Look, Append(m)])
    ensures
      var s := Finish(EMPTY_QUEUE, [Look, Append(m)]);
      !Enabled(s, Wake) && !Enabled(s, Look) && s.queue.pending != [] && s.notifying == 1
  {
    assert [Look, Append(m)][1..] == [Append(m)];
    var waiting := After(EMPTY_QUEUE, Look);
    assert Finish(waiting, [Append(m)]) == After(waiting, Append(m));
  }

  /** Run without interruption, the two halves of publish are the whole. */
  lemma UninterruptedPublish(s: Steps, m: Mutation)
    ensures IsRun(s, [Append(m), Notify])
    ensures Finish(s, [Append(m), Notify]) == s.(queue := Published(s.queue, m))
  {
    assert [Append(m), Notify][1..] == [Notify];
    var appended := After(s, Append(m));
    assert IsRun(appended, [Notify]) && Finish(appended, [Notify]) == After(appended, Notify);
  }
}
