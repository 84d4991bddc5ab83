/** internal/agentrpc/session.go: sequence numbers, cumulative acknowledgements and the
    window of unacknowledged updates over one connection. */
module AgentRpc {
  import opened Basics
  import opened PolicyStore
  import opened Mutations
  import opened Queue

  datatype Message = PolicyMessage(sequence: nat, change: Option<Change>) | AckMessage(cursor: nat) | UnknownMessage

  datatype Failure =
    | BadConfig | BadResume | BadPolicy | Backpressure | WriteFailed | ReadFailed
    | ZeroAck | SequenceGap | BadMessage | BadAck
  datatype Outcome<+T> = Success(value: T) | Failed(failure: Failure)

  /** validatePolicy. The number in a change stands for its two non-empty names. */
  predicate ValidChange(c: Change) {
    var m := c.mutation;
    && m.action != UnknownAction && m.list != UnknownList
    && (m.expiresAt.Some? ==> m.action == AddAction && m.list == Blocklist)
    && CanonicalPrefix(m.prefix).Some?
  }

  /** The fields of a session that its locks protect. */
  datatype Window = Window(next: nat, applied: nat, peer: nat, pending: set<nat>)

  /** NewSession: nextSequence 0 asks for the one after the peer's cursor. */
  function Opened(applied: nat, peer: nat, nextSequence: nat): Outcome<Window> {
    var next := if nextSequence == 0 then peer + 1 else nextSequence;
    if next <= peer then Failed(BadResume) else Success(Window(next, applied, peer, {}))
  }

  function Reserved(w: Window): Window {
    w.(next := w.next + 1, pending := w.pending + {w.next})
  }

  function Released(w: Window, sequence: nat): Window {
    w.(pending := w.pending - {sequence})
  }

  /** A cumulative acknowledgement; a cursor that is no news changes nothing. */
  function Acknowledged(w: Window, cursor: nat): Window {
    if cursor > w.peer then w.(peer := cursor, pending := set s | s in w.pending && s > cursor) else w
  }

  /** A policy that has been applied already: acknowledged again and skipped. */
  predicate Duplicate(m: Message, applied: nat) {
    m.PolicyMessage? && m.change.Some? && 0 < m.sequence <= applied && ValidChange(m.change.value)
  }

  /** One end of a connection: what has arrived and what has been sent. Either can break
      at any message; a send that reports failure may still have got through. */
  class Connection {
    var inbox: seq<Message>
    var outbox: seq<Message>
    ghost var failures: nat

    method Read() returns (m: Option<Message>)
      modifies this`inbox, this`failures
      ensures failures == old(failures) + if m.None? then 1 else 0
      ensures m.Some? ==> |old(inbox)| > 0 && m.value == old(inbox)[0] && inbox == old(inbox)[1..]
      ensures m.None? ==> inbox == old(inbox)
    {
      var breaks: bool := *;
      if breaks || |inbox| == 0 {
        failures := failures + 1;
        return None;
      }
      m := Some(inbox[0]);
      inbox := inbox[1..];
    }

    /** A message over the size limit is refused here too, before anything is sent. */
    method Write(m: Message) returns (ok: bool)
      modifies this`outbox, this`failures
      ensures failures == old(failures) + if ok then 0 else 1
      ensures ok ==> outbox == old(outbox) + [m]
      ensures !ok ==> outbox == old(outbox) || outbox == old(outbox) + [m]
    {
      ok := *;
      var delivered: bool := *;
      if ok || delivered {
        outbox := outbox + [m];
      }
      failures := failures + if ok then 0 else 1;
    }
  }

  /** Why a message that is no duplicate is not delivered. */
  function Refusal(m: Message, applied: nat): Option<Failure> {
    match m
    case AckMessage(cursor) => if cursor == 0 then Some(ZeroAck) else None
    case PolicyMessage(sequence, change) =>
      if change.None? || sequence == 0 then Some(BadMessage)
      else if !ValidChange(change.value) then Some(BadPolicy)
      else if sequence > applied + 1 then Some(SequenceGap)
      else None
    case UnknownMessage => Some(BadMessage)
  }

  /** A message is news exactly when it is an acknowledgement with a number, or the valid change
      numbered next; an old number is a duplicate, and everything else is refused. */
  lemma NewsExactly(m: Message, applied: nat)
    ensures Refusal(m, applied) == None && !Duplicate(m, applied) <==>
      || (m.AckMessage? && m.cursor > 0)
      || (m.PolicyMessage? && m.sequence == applied + 1 && m.change.Some? && ValidChange(m.change.value))
    ensures Duplicate(m, applied) <==>
      m.PolicyMessage? && 0 < m.sequence <= applied && m.change.Some? && ValidChange(m.change.value)
    ensures Refusal(m, applied) == Some(SequenceGap) <==>
      m.PolicyMessage? && m.sequence > applied + 1 && m.change.Some? && ValidChange(m.change.value)
    ensures Refusal(m, applied) == Some(ZeroAck) <==> m == AckMessage(0)
  {
  }

  /** But for an expiry at the zero time, which can be sent and which no store takes, a change
      can be sent exactly when any store takes it, an expiry being on a blocklist add only. */
  lemma ValidChangeExactly(c: Change, s: State, now: Time)
    ensures ValidChange(c) <==>
      && c.mutation.action in {AddAction, ReplaceAction, RemoveAction, DeleteAction}
      && c.mutation.list in {Blocklist, Whitelist}
      && (c.mutation.action != AddAction || c.mutation.list != Blocklist ==> c.mutation.expiresAt == None)
      && c.mutation.prefix.Spelled? && c.mutation.prefix.prefix.Canonical()
    ensures ValidChange(c) && c.mutation.expiresAt != Some(ZERO_TIME) <==>
      WellFormed(c.mutation) && Wants(s, c.mutation, now).Ok?
  {
    if WellFormed(c.mutation) {
      WantedExactly(s, c.mutation, now);
    }
  }

  function Acks(cursor: nat, n: nat): (r: seq<Message>)
    ensures |r| == n
  {
    seq(n, i => AckMessage(cursor))
  }

  class Session {
    const conn: Connection
    const maxInFlight: nat
    var nextSequence: nat
    var appliedCursor: nat
    var peerCursor: nat
    var pending: set<nat>

    function Value(): Window
      reads this
    {
      Window(nextSequence, appliedCursor, peerCursor, pending)
    }

    constructor (conn: Connection, maxInFlight: nat, w: Window)
      ensures this.conn == conn && this.maxInFlight == maxInFlight && Value() == w
    {
      this.conn, this.maxInFlight := conn, maxInFlight;
      nextSequence, appliedCursor, peerCursor, pending := w.next, w.applied, w.peer, w.pending;
    }

    static method Open(conn: Connection, maxMessageBytes: int, maxInFlight: int,
                       applied: nat, peer: nat, nextSequence: nat) returns (r: Outcome<Session>)
      ensures maxMessageBytes < 1 || maxInFlight < 1 ==> r == Failed(BadConfig)
      ensures maxMessageBytes >= 1 && maxInFlight >= 1 ==>
        match Opened(applied, peer, nextSequence)
        case Failed(f) => r == Failed(f)
        case Success(w) =>
          r.Success? && fresh(r.value) && r.value.conn == conn && r.value.maxInFlight == maxInFlight &&
              r.value.Value() == w
      ensures maxMessageBytes >= 1 && maxInFlight >= 1 ==> (r.Failed? <==> 0 < nextSequence <= peer)
      ensures r.Success? ==>
        && r.value.appliedCursor == applied && r.value.peerCursor == peer && r.value.pending == {}
        && r.value.nextSequence == if nextSequence == 0 then peer + 1 else nextSequence
    {
      if maxMessageBytes < 1 || maxInFlight < 1 {
        return Failed(BadConfig);
      }
      var next := nextSequence;
      if next == 0 {
        next := peer + 1;
      }
      if next <= peer {
        return Failed(BadResume);
      }
      var s := new Session(conn, maxInFlight, Window(next, applied, peer, {}));
      return Success(s);
    }

    /** Reserves a number under the lock, writes, and gives the number's place up again
        if the write fails; the number itself is not used twice. */
    method SendPolicy(change: Change) returns (r: Outcome<nat>)
      modifies this, conn`outbox, conn`failures
      ensures conn.failures == old(conn.failures) + if r == Failed(WriteFailed) then 1 else 0
      ensures !ValidChange(change) ==> r == Failed(BadPolicy)
      ensures ValidChange(change) && |old(pending)| >= maxInFlight ==> r == Failed(Backpressure)
      ensures ValidChange(change) && |old(pending)| < maxInFlight ==>
          r == Success(old(nextSequence)) || r == Failed(WriteFailed)
      ensures r.Success? ==>
        && Value() == Reserved(old(Value()))
        && conn.outbox == old(conn.outbox) + [PolicyMessage(old(nextSequence), Some(change))]
      ensures r == Failed(WriteFailed) ==>
        && Value() == Released(Reserved(old(Value())), old(nextSequence))
        && (conn.outbox == old(conn.outbox) ||
            conn.outbox == old(conn.outbox) + [PolicyMessage(old(nextSequence), Some(change))])
      ensures r.Failed? && r != Failed(WriteFailed) ==> Value() == old(Value()) && conn.outbox == old(conn.outbox)
      ensures appliedCursor == old(appliedCursor) && peerCursor == old(peerCursor)
      ensures r.Success? || r == Failed(WriteFailed) ==>
        && nextSequence == old(nextSequence) + 1
        && pending == if r.Success? then old(pending) + {old(nextSequence)} else old(pending) - {old(nextSequence)}
    {
      if !ValidChange(change) {
        return Failed(BadPolicy);
      }
      if |pending| >= maxInFlight {
        return Failed(Backpressure);
      }
      var sequence := nextSequence;
      nextSequence := nextSequence + 1;
      pending := pending + {sequence};
      var ok := conn.Write(PolicyMessage(sequence, Some(change)));
      if !ok {
        pending := pending - {sequence};
        return Failed(WriteFailed);
      }
      return Success(sequence);
    }

    /** The next message that is news: duplicates at the front of the inbox are each
        answered with the applied cursor and dropped. */
    method Receive() returns (r: Outcome<Message>, ghost skipped: nat)
      modifies this`peerCursor, this`pending, conn
      ensures skipped <= |old(conn.inbox)| && forall i :: 0 <= i < skipped ==>
          Duplicate(old(conn.inbox)[i], appliedCursor)
      ensures r.Success? ==>
        && skipped < |old(conn.inbox)| && r.value == old(conn.inbox)[skipped]
        && conn.inbox == old(conn.inbox)[skipped + 1..]
        && conn.outbox == old(conn.outbox) + Acks(appliedCursor, skipped)
      ensures r.Success? && r.value.AckMessage? ==>
        r.value.cursor > 0 && Value() == Acknowledged(old(Value()), r.value.cursor)
      ensures r.Success? && r.value.AckMessage? ==>
        && peerCursor == (if r.value.cursor > old(peerCursor) then r.value.cursor else old(peerCursor))
        && forall s :: s in pending <==> s in old(pending) && (s > r.value.cursor || r.value.cursor <= old(peerCursor))
      ensures r.Success? && !r.value.AckMessage? ==>
        && r.value.PolicyMessage? && r.value.sequence == appliedCursor + 1
        && r.value.change.Some? && ValidChange(r.value.change.value)
        && Value() == old(Value())
      ensures conn.failures == old(conn.failures) + if r == Failed(ReadFailed) || r == Failed(WriteFailed) then 1 else 0
      ensures r.Success? ==> Refusal(r.value, appliedCursor) == None
      ensures r.Failed? && r != Failed(ReadFailed) && r != Failed(WriteFailed) ==>
        skipped < |old(conn.inbox)| && Refusal(old(conn.inbox)[skipped], appliedCursor) == Some(r.failure)
      ensures r.Failed? ==>
        && Value() == old(Value()) && |conn.inbox| <= |old(conn.inbox)|
        && (conn.outbox == old(conn.outbox) + Acks(appliedCursor, skipped)
            || (skipped < |old(conn.inbox)| && Duplicate(old(conn.inbox)[skipped], appliedCursor)
                && conn.outbox == old(conn.outbox) + Acks(appliedCursor, skipped + 1)))
    {
      skipped := 0;
      while true
        invariant skipped <= |old(conn.inbox)| && conn.inbox == old(conn.inbox)[skipped..]
        invariant forall i :: 0 <= i < skipped ==> Duplicate(old(conn.inbox)[i], appliedCursor)
        invariant conn.outbox == old(conn.outbox) + Acks(appliedCursor, skipped)
        invariant Value() == old(Value()) && conn.failures == old(conn.failures)
        decreases |conn.inbox|
      {
        var read := conn.Read();
        if read.None? {
          return Failed(ReadFailed), skipped;
        }
        var message := read.value;
        match message
        case AckMessage(cursor) =>
          if cursor == 0 {
            return Failed(ZeroAck), skipped;
          }
          if cursor > peerCursor {
            peerCursor := cursor;
            pending := set s | s in pending && s > cursor;
          }
          return Success(message), skipped;
        case PolicyMessage(sequence, change) =>
          if change.None? || sequence == 0 {
            return Failed(BadMessage), skipped;
          }
          if !ValidChange(change.value) {
            return Failed(BadPolicy), skipped;
          }
          if sequence <= appliedCursor {
            assert Acks(appliedCursor, skipped + 1) == Acks(appliedCursor, skipped) + [AckMessage(appliedCursor)];
            var ok := conn.Write(AckMessage(appliedCursor));
            if !ok {
              return Failed(WriteFailed), skipped;
            }
            skipped := skipped + 1;
            continue;
          }
          if sequence != appliedCursor + 1 {
            return Failed(SequenceGap), skipped;
          }
          return Success(message), skipped;
        case UnknownMessage =>
          return Failed(BadMessage), skipped;
      }
    }

    /** Moves the applied cursor by exactly one, then tells the peer; the cursor stays
        moved if telling fails. */
    method Ack(sequence: nat) returns (r: Outcome<()>)
      modifies this`appliedCursor, conn`outbox, conn`failures
      ensures conn.failures == old(conn.failures) + if r == Failed(WriteFailed) then 1 else 0
      ensures sequence != old(appliedCursor) + 1 ==>
        r == Failed(BadAck) && appliedCursor == old(appliedCursor) && conn.outbox == old(conn.outbox)
      ensures sequence == old(appliedCursor) + 1 ==>
        && appliedCursor == sequence && (r.Success? || r == Failed(WriteFailed))
        && (conn.outbox == old(conn.outbox) + [AckMessage(sequence)] || (r.Failed? && conn.outbox == old(conn.outbox)))
    {
      if sequence != appliedCursor + 1 {
        return Failed(BadAck);
      }
      appliedCursor := sequence;
      var ok := conn.Write(AckMessage(sequence));
      r := if ok then Success(()) else Failed(WriteFailed);
    }
  }

  // ---- one reader, many writers ----

  /** What the locks let happen in one go, in any interleaving. SendPolicy is two of
      them: the reservation, and, if the write failed, the release. */
  datatype Move =
    | Reserve
    | Release(sequence: nat)
    | PeerAck(cursor: nat)
    | Deliver(sequence: nat)
    | AckNext(sequence: nat)

  ghost predicate Moves(w: Window, maxInFlight: nat, m: Move, w': Window) {
    match m
    case Reserve => |w.pending| < maxInFlight && w' == Reserved(w)
    case Release(sequence) => w' == Released(w, sequence)
    case PeerAck(cursor) => cursor > 0 && w' == Acknowledged(w, cursor)
    case Deliver(sequence) => sequence == w.applied + 1 && w' == w
    case AckNext(sequence) => sequence == w.applied + 1 && w' == w.(applied := sequence)
  }

  ghost predicate WindowRun(ws: seq<Window>, maxInFlight: nat, ms: seq<Move>) {
    && |ws| == |ms| + 1
    && (exists applied, peer, next :: Opened(applied, peer, next) == Success(ws[0]))
    && forall i :: 0 <= i < |ms| ==> Moves(ws[i], maxInFlight, ms[i], ws[i + 1])
  }

  /** The window is bounded and holds only numbers that were given out. */
  ghost predicate WindowBounded(w: Window, maxInFlight: nat) {
    |w.pending| <= maxInFlight && w.next > 0 && forall s <- w.pending :: 0 < s < w.next
  }

  ghost predicate HonestMove(w: Window, m: Move) {
    m.PeerAck? ==> m.cursor < w.next
  }

  /** How many of the moves i..j acknowledge an applied update. */
  function AcksGiven(ms: seq<Move>, i: nat, j: nat): nat
    requires i <= j <= |ms|
  {
    if i == j then 0 else AcksGiven(ms, i, j - 1) + if ms[j - 1].AckNext? then 1 else 0
  }

  lemma PendingShrinks(pending: set<nat>, fewer: set<nat>)
    requires fewer <= pending
    ensures |fewer| <= |pending|
  {
    assert pending == fewer + (pending - fewer);
  }

  lemma MoveKeepsWindow(w: Window, maxInFlight: nat, m: Move, w': Window)
    requires Moves(w, maxInFlight, m, w') && WindowBounded(w, maxInFlight)
    ensures WindowBounded(w', maxInFlight)
    ensures w.next <= w'.next && w.applied <= w'.applied && w.peer <= w'.peer
    ensures w'.applied == w.applied + if m.AckNext? then 1 else 0
  {
    if m.Reserve? {
      assert w.next !in w.pending;
    } else {
      PendingShrinks(w.pending, w'.pending);
    }
  }

  /** In every interleaving the window stays bounded, the three cursors only grow, and
      the applied cursor moves once for each acknowledgement given. */
  lemma {:induction false} WindowInvariant(ws: seq<Window>, maxInFlight: nat, ms: seq<Move>, i: nat, j: nat)
    requires WindowRun(ws, maxInFlight, ms) && i <= j < |ws|
    ensures WindowBounded(ws[j], maxInFlight)
    ensures ws[i].next <= ws[j].next && ws[i].applied <= ws[j].applied && ws[i].peer <= ws[j].peer
    ensures ws[j].applied == ws[i].applied + AcksGiven(ms, i, j)
    decreases j
  {
    if i == j {
      if j > 0 {
        WindowInvariant(ws, maxInFlight, ms, j - 1, j - 1);
        MoveKeepsWindow(ws[j - 1], maxInFlight, ms[j - 1], ws[j]);
      }
    } else {
      WindowInvariant(ws, maxInFlight, ms, i, j - 1);
      MoveKeepsWindow(ws[j - 1], maxInFlight, ms[j - 1], ws[j]);
    }
  }

  /** The numbers in use, and the next one to be, are above the peer's cursor: no
      acknowledgement counts against the window, and each update can still be acknowledged. */
  ghost predicate AbovePeer(w: Window) {
    forall s <- Reserved(w).pending :: w.peer < s
  }

  /** One acknowledgement leaves it so exactly when it names a number that was sent. */
  lemma AckKeepsAbovePeer(w: Window, cursor: nat)
    requires AbovePeer(w)
    ensures AbovePeer(Acknowledged(w, cursor)) <==> cursor < w.next
  {
    assert w.next in Reserved(w).pending;
    assert w.next in Reserved(Acknowledged(w, cursor)).pending;
  }

  lemma MoveKeepsAbovePeer(w: Window, maxInFlight: nat, m: Move, w': Window)
    requires Moves(w, maxInFlight, m, w') && AbovePeer(w)
    ensures AbovePeer(w') <==> HonestMove(w, m)
  {
    assert w.next in Reserved(w).pending;
    if m.PeerAck? {
      AckKeepsAbovePeer(w, m.cursor);
    }
  }

  lemma {:induction false} HonestUpTo(ws: seq<Window>, maxInFlight: nat, ms: seq<Move>, i: nat)
    requires WindowRun(ws, maxInFlight, ms) && i < |ws|
    ensures (forall j :: 0 <= j <= i ==> AbovePeer(ws[j])) <==> forall k :: 0 <= k < i ==> HonestMove(ws[k], ms[k])
  {
    if i > 0 {
      HonestUpTo(ws, maxInFlight, ms, i - 1);
      if forall j :: 0 <= j < i ==> AbovePeer(ws[j]) {
        MoveKeepsAbovePeer(ws[i - 1], maxInFlight, ms[i - 1], ws[i]);
      }
    }
  }

  /** In every run, everything pending stays above the peer's cursor, and so does the next
      number, exactly when the peer acknowledges only what was sent. */
  lemma HonestPeerFreesWindow(ws: seq<Window>, maxInFlight: nat, ms: seq<Move>)
    requires WindowRun(ws, maxInFlight, ms)
    ensures (forall j :: 0 <= j < |ws| ==> AbovePeer(ws[j])) <==> forall k :: 0 <= k < |ms| ==> HonestMove(ws[k], ms[k])
  {
    HonestUpTo(ws, maxInFlight, ms, |ms|);
  }

  function ReservedTimes(w: Window, n: nat): Window {
    if n == 0 then w else Reserved(ReservedTimes(w, n - 1))
  }

  lemma {:induction false} ReservedTimesIs(w: Window, n: nat)
    requires w.pending == {}
    ensures ReservedTimes(w, n) == w.(next := w.next + n, pending := ReservedTimes(w, n).pending)
    ensures forall s :: s in ReservedTimes(w, n).pending <==> w.next <= s < w.next + n
    ensures |ReservedTimes(w, n).pending| == n
  {
    if n > 0 {
      ReservedTimesIs(w, n - 1);
    }
  }

  /** An acknowledgement from the future empties the window at once. Once it is full again,
      nothing that the peer can honestly say frees any of it, exactly when that
      acknowledgement reached to the last of the new numbers. */
  lemma FutureAckClogsWindow(w: Window, cursor: nat, maxInFlight: nat)
    requires WindowBounded(w, maxInFlight) && maxInFlight > 0 && w.peer < w.next <= cursor
    ensures
      var full := ReservedTimes(Acknowledged(w, cursor), maxInFlight);
      && Acknowledged(w, cursor).pending == {} && |full.pending| == maxInFlight
      && ((forall later: nat | later < full.next :: Acknowledged(full, later) == full)
          <==> w.next + maxInFlight - 1 <= cursor)
  {
    var acked := Acknowledged(w, cursor);
    assert acked.pending == {};
    ReservedTimesIs(acked, maxInFlight);
    var full := ReservedTimes(acked, maxInFlight);
    var last := w.next + maxInFlight - 1;
    if cursor < last {
      assert Acknowledged(full, last).peer != full.peer && last < full.next;
    }
  }
}
