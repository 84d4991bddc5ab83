/** internal/runtime/queue.go: the in-memory queue of changes still to be replicated. */
module Queue {
  import opened Basics
  import opened Mutations

  /** ID and IdempotencyKey are both "dashboard-<id>"; the number stands for the text. */
  datatype Change = Change(id: nat, mutation: Mutation)

  datatype QueueState = QueueState(pending: seq<Change>, nextID: nat, token: bool)

  function Published(q: QueueState, m: Mutation): QueueState {
    QueueState(q.pending + [Change(q.nextID + 1, m)], q.nextID + 1, true)
  }

  function Committed(q: QueueState, change: Change): QueueState {
    if |q.pending| > 0 && q.pending[0].id == change.id then q.(pending := q.pending[1..]) else q
  }

  /** The keys of the pending changes ascend, and the next one is above them all. */
  ghost predicate KeysAscend(q: QueueState) {
    && (forall i, j :: 0 <= i < j < |q.pending| ==> q.pending[i].id < q.pending[j].id)
    && forall i :: 0 <= i < |q.pending| ==> 0 < q.pending[i].id <= q.nextID
  }

  /** Publishing puts a change with a key of its own at the end, and asks the reader to look. */
  lemma PublishAddsLast(q: QueueState, m: Mutation)
    requires KeysAscend(q)
    ensures
      var after := Published(q, m);
      && KeysAscend(after) && after.token && after.pending == q.pending + [Change(after.nextID, m)]
      && forall i :: 0 <= i < |q.pending| ==> q.pending[i].id < after.nextID
  {
  }

  /** Committing takes the change away if it is at the head, and nothing else; one committed
      already removes nothing. */
  lemma CommitTakesItsOwn(q: QueueState, change: Change)
    requires KeysAscend(q)
    ensures
      var after := Committed(q, change);
      && KeysAscend(after) && after.nextID == q.nextID && after.token == q.token
      && after.pending == (if q.pending != [] && q.pending[0].id == change.id then q.pending[1..] else q.pending)
      && Committed(after, change) == after
  {
    if |q.pending| > 1 {
      assert q.pending[1..][0] == q.pending[1] && q.pending[0].id < q.pending[1].id;
    }
  }

  class PolicyQueue {
    var pending: seq<Change>
    var token: bool
    var nextID: nat

    function Value(): QueueState
      reads this
    {
      QueueState(pending, nextID, token)
    }

    constructor ()
      ensures Value() == QueueState([], 0, false)
    {
      pending, token, nextID := [], false, 0;
    }

    method Publish(mutation: Mutation)
      modifies this
      ensures Value() == Published(old(Value()), mutation)
    {
      nextID := nextID + 1;
      pending := pending + [Change(nextID, mutation)];
      token := true;
    }

    /** Peeks at the head. None is where the source goes on waiting for the channel;
        a token found on the way there has been used up. */
    method Next() returns (change: Option<Change>)
      modifies this
      ensures change == if old(pending) == [] then None else Some(old(pending)[0])
      ensures Value() == old(Value()).(token := old(token) && old(pending) != [])
    {
      while true
        invariant pending == old(pending) && nextID == old(nextID)
        invariant token ==> old(token)
        invariant pending != [] ==> token == old(token)
        decreases token
      {
        if |pending| > 0 {
          return Some(pending[0]);
        }
        if !token {
          return None;
        }
        token := false;
      }
    }

    method Commit(change: Change)
      modifies this
      ensures Value() == Committed(old(Value()), change)
    {
      if |pending| > 0 && pending[0].id == change.id {
        pending := pending[1..];
      }
    }
  }
}
