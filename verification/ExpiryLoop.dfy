/** RunExpiry of internal/runtime/policy.go: the loop that sleeps until the next expiry
    is due, and is woken early when a mutation has changed what is due. */
module ExpiryLoop {
  import opened Cidr
  import opened PolicyStore
  import opened Controller

  /** In nanoseconds, like every time. */
  const HOUR: Time := 3_600_000_000_000

  function Later(a: Time, b: Time): Time {
    if a < b then b else a
  }

  /** A wait worked out between two moments: from no expiry does it sleep further away
      than it was when the scan began, and it is the full hour only if nothing asked for
      less. */
  ghost predicate Plans(expirations: map<Prefix, Time>, began: Time, ended: Time, wait: Time) {
    && 0 <= wait <= HOUR
    && (forall p <- expirations :: wait <= Later(0, expirations[p] - began))
    && (wait == HOUR || exists p <- expirations :: expirations[p] - ended <= wait)
  }

  /** The clock is read afresh for each entry, in whatever order the map gives. */
  method NextWait(expirations: map<Prefix, Time>, clock: Clock) returns (wait: Time)
    requires clock.now > ZERO_TIME
    modifies clock
    ensures old(clock.now) <= clock.now
    ensures Plans(expirations, old(clock.now), clock.now, wait)
    ensures 0 <= wait <= 3_600_000_000_000 && (expirations == map[] ==> wait == 3_600_000_000_000)
    ensures forall p <- expirations :: expirations[p] <= old(clock.now) ==> wait == 0
  {
    wait := HOUR;
    var remaining := expirations.Keys;
    while remaining != {}
      invariant remaining <= expirations.Keys
      invariant old(clock.now) <= clock.now && wait <= HOUR
      invariant forall p | p in expirations && p !in remaining :: wait <= expirations[p] - old(clock.now)
      invariant wait == HOUR || exists p :: p in expirations && expirations[p] - clock.now <= wait
    {
      var prefix :| prefix in remaining;
      remaining := remaining - {prefix};
      var now := clock.Read();
      if expirations[prefix] - now < wait {
        wait := expirations[prefix] - now;
      }
    }
    if wait < 0 {
      wait := 0;
    }
  }

  // ---- the loop among mutations ----

  /** Sweeping, or scanning a copy of the expiries, or asleep on a timer. */
  datatype Phase =
    | Sweeping
    | Scanning(copy: map<Prefix, Time>, began: Time)
    | Asleep(copy: map<Prefix, Time>, began: Time, started: Time, deadline: Time)

  /** Some mutations have written the store and not sent their wake token yet. */
  datatype Loop = Loop(expirations: map<Prefix, Time>, token: bool, waking: nat, now: Time, phase: Phase)

  datatype Event =
    | Pass(elapsed: nat)
    | Persist(expirations: map<Prefix, Time>)
    | Wake
    | Copy
    | Sleep(wait: Time)
    | Wakened
    | Fired

  ghost predicate Enabled(s: Loop, e: Event) {
    match e
    case Pass(_) => true
    case Persist(_) => true
    case Wake => s.waking > 0
    case Copy => s.phase.Sweeping?
    case Sleep(wait) => s.phase.Scanning? && Plans(s.phase.copy, s.phase.began, s.now, wait)
    case Wakened => s.phase.Asleep? && s.token
    case Fired => s.phase.Asleep? && s.phase.deadline <= s.now
  }

  /** Persist stands for any mutation, the sweep's own removals included: each one
      writes the store and sends the token afterwards. */
  function After(s: Loop, e: Event): Loop
    requires Enabled(s, e)
  {
    match e
    case Pass(elapsed) => s.(now := s.now + elapsed)
    case Persist(expirations) => s.(expirations := expirations, waking := s.waking + 1)
    case Wake => s.(token := true, waking := s.waking - 1)
    case Copy => s.(phase := Scanning(s.expirations, s.now))
    case Sleep(wait) => s.(phase := Asleep(s.phase.copy, s.phase.began, s.now, s.now + wait))
    case Wakened => s.(token := false, phase := Sweeping)
    case Fired => s.(phase := Sweeping)
  }

  ghost predicate IsRun(start: Loop, events: seq<Event>)
    decreases |events|
  {
    |events| > 0 ==> Enabled(start, events[0]) && IsRun(After(start, events[0]), events[1..])
  }

  ghost function Finish(start: Loop, events: seq<Event>): Loop
    requires IsRun(start, events)
    decreases |events|
  {
    if |events| == 0 then start else Finish(After(start, events[0]), events[1..])
  }

  function Started(expirations: map<Prefix, Time>, now: Time): Loop {
    Loop(expirations, false, 0, now, Sweeping)
  }

  ghost predicate Stirring(s: Loop) {
    s.token || s.waking > 0
  }

  /** What the loop knows is what is stored, or word is on its way. */
  ghost predicate Informed(s: Loop) {
    match s.phase
    case Sweeping => true
    case Scanning(copy, began) => (Stirring(s) || s.expirations == copy) && began <= s.now
    case Asleep(copy, began, started, deadline) =>
      && (Stirring(s) || s.expirations == copy)
      && began <= started <= s.now
      && Plans(copy, began, started, deadline - started)
  }

  lemma {:induction false} RunStaysInformed(start: Loop, events: seq<Event>)
    requires Informed(start) && IsRun(start, events)
    ensures Informed(Finish(start, events))
    decreases |events|
  {
    if |events| > 0 {
      RunStaysInformed(After(start, events[0]), events[1..]);
    }
  }

  /** No expiry is slept through: while the loop sleeps, each stored expiry is met by
      the timer at most the length of the scan late, unless a wake is there or coming. */
  lemma SleepEndsByEachExpiry(expirations: map<Prefix, Time>, now: Time, events: seq<Event>, p: Prefix)
    requires IsRun(Started(expirations, now), events)
    ensures
      var s := Finish(Started(expirations, now), events);
      s.phase.Asleep? && p in s.expirations ==>
        || Stirring(s)
        || s.phase.deadline <= Later(s.phase.started, s.expirations[p] + (s.phase.started - s.phase.began))
    ensures
      var s := Finish(Started(expirations, now), events);
      s.phase.Asleep? ==> s.phase.started <= s.phase.deadline <= s.phase.started + HOUR
  {
    RunStaysInformed(Started(expirations, now), events);
  }

  /** So once an expiry is overdue by more than that, somebody can move: the loop, or a
      mutation that has still to send its token. */
  lemma OverdueIsNoticed(expirations: map<Prefix, Time>, now: Time, events: seq<Event>, p: Prefix)
    requires IsRun(Started(expirations, now), events)
    ensures
      var s := Finish(Started(expirations, now), events);
      && s.phase.Asleep? && p in s.expirations
      && s.expirations[p] + (s.phase.started - s.phase.began) <= s.now ==>
        Enabled(s, Fired) || Enabled(s, Wakened) || Enabled(s, Wake)
  {
    SleepEndsByEachExpiry(expirations, now, events, p);
    RunStaysInformed(Started(expirations, now), events);
  }

  // ---- when the timer is exact ----

  /** The timer fires by each expiry that is still ahead when it is started. */
  ghost predicate OnTime(expirations: map<Prefix, Time>, started: Time, wait: Time) {
    forall p <- expirations :: started + wait <= Later(started, expirations[p])
  }

  lemma {:induction false} Earliest(expirations: map<Prefix, Time>, among: set<Prefix>) returns (first: Prefix)
    requires among != {} && among <= expirations.Keys
    ensures first in among && forall p <- among :: expirations[first] <= expirations[p]
    decreases among
  {
    first :| first in among;
    if among != {first} {
      assert among - {first} != {};
      var other := Earliest(expirations, among - {first});
      if expirations[other] < expirations[first] {
        first := other;
      }
    }
  }

  /** The scan reads the clock before the timer starts, so the sleep can overrun: it is
      sure to be on time exactly when no time passed in between, or something was due
      already, or nothing is due within the hour. */
  lemma OnTimeExactly(expirations: map<Prefix, Time>, began: Time, started: Time)
    requires began <= started
    ensures (forall wait | Plans(expirations, began, started, wait) :: OnTime(expirations, started, wait))
      <==> || began == started
           || (exists p <- expirations :: expirations[p] <= began)
           || (forall p <- expirations :: started + HOUR <= expirations[p])
  {
    if began < started && (forall p <- expirations :: began < expirations[p])
       && (exists p <- expirations :: expirations[p] < started + HOUR) {
      var first := Earliest(expirations, expirations.Keys);
      var wait := if expirations[first] - began < HOUR then expirations[first] - began else HOUR;
      assert expirations[first] - started <= wait;
      assert Plans(expirations, began, started, wait) && !OnTime(expirations, started, wait);
    }
  }
}
