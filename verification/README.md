# rtbh-panel: a model of its routes, its store and its replication

rtbh-panel keeps a blocklist and a whitelist of CIDRs, announces the blocked blocks that
share no address with the whitelist as blackhole routes, and replays every applied policy
change on a remote agent. This project models that logic in Dafny and proves what it keeps:
over every input, every order in which Go may walk a map, every run of its protocols, and
every way in which the BGP engine, the files and the connections may fail.

`dafny verify dfyconfig.toml` checks all of it.

| file | what it models |
|---|---|
| `Basics.dfy` | lists without repetition and the slice operations the store uses |
| `Cidr.dfy` | addresses and prefixes as numbers; blocks are nested or disjoint |
| `PolicyStore.dfy`, `PolicyStoreLaws.dfy` | the store, its file and its audit log |
| `Mutations.dfy` | one policy mutation as a change of the store; why repeating it is harmless |
| `Routing.dfy` | the effective routes and what they mean in addresses |
| `Delta.dfy` | moving a fallible engine from one table to another, and back |
| `Controller.dfy`, `ControllerLaws.dfy` | the controller that moves table and store together, and whole runs of it |
| `ExpiryLoop.dfy` | the loop that sleeps until the next expiry, among mutations that wake it |
| `Queue.dfy`, `QueueWakeups.dfy` | the queue of changes to replicate, as calls and as interleaved steps |
| `AgentRpc.dfy` | one end of a policy-sync session: sequence numbers, acknowledgements, the window |
| `Words.dfy`, `Frames.dfy` | the bytes of a session: length-prefixed frames over partial reads and writes |
| `Cursor.dfy`, `SyncLoops.dfy` | the durable cursor, and the sender and receiver loops against any peer |
| `SyncAcceptor.dfy` | the handoff from one connection's sender to the next |
| `Replication.dfy`, `ReplicationLaws.dfy` | both ends as one state machine; what every turn keeps, and log safety |
| `ReplicationProgress.dfy`, `ReplicationLimits.dfy` | catching up after anything, applying twice, and exactly when replicas converge |
| `Correspondence.dfy` | the calls of the controller and of both loops as turns of that machine |
| `Feed.dfy` | reading feed lists and expanding IPv4 subnets |
| `SqlStore.dfy` | a feed's difference against the policies table, and the routes it leads to |
| `CidrText.dfy` | the dashboard's check of typed CIDRs, on the characters themselves |

How the model is set up:

- Code that updates objects or runs loops is a class or a method with the same branches,
  proved against a specification function; what the program promises is then proved about
  those functions. `cidr.ts` is one expression, and stays functions.
- A specification function that mirrors a method is pinned from outside as well: what it comes
  to, prefix by prefix, row by row, byte by byte, is stated without it, in a lemma about it
  or in the contract of the method.
- The engine keeps a ghost routing table. Each of its calls may fail and then has no effect.
  A file write that reports failure leaves the old content or the new one. A connection may
  break at every message, and a send that reports failure may still have arrived. Ghost counters
  count such failures, and the contracts allow an error only where a failure during the same
  call, a refused call or the input accounts for it.
- A set or map is walked in an arbitrary order, so each proof holds for every order.
- Time is a number that never goes backwards; the clock is read where the code reads it.
- The text of a prefix in the Go code is a token: it does not parse, or it spells a prefix.
  Printing a prefix and parsing it again gives the prefix back; that is assumed.

Where the code does less than its documentation says, the code is modelled:

- `docs/policy-sync.md:46` asks for the policy effect and the cursor to be persisted
  atomically. The code writes one file and then the other, so an agent can apply a change
  twice: `ReplicationLimits.SomeRunAppliesTwice` has the run, and
  `ReplicationLaws.RepeatsExactly` says when it happens. `Mutations.EffectIsIdempotent` is why
  the replicas agree all the same.
- `README.md:10` says whitelisted prefixes are never advertised. Between mutations and sweeps
  that holds for the stored whitelist as long as no undo call is refused
  (`ControllerLaws.NothingAllowedIsEverAnnounced`); with one refused, a route can stay
  that the store still whitelists (`ControllerLaws.RefusedUndoLeavesRoute`). The controller's
  table lacks such a route, so no later mutation withdraws it before one has wanted it again:
  after an applied mutation the engine is clear of the whitelist exactly when no such route is
  whitelisted (`ControllerLaws.LeftoversExactly`).
  Inside a mutation the engine moves before the store. Whatever its calls and undo calls do,
  all its tables are clear of the stored whitelist exactly when it does not take away the last
  entry over a live blocked prefix (`ControllerLaws.ClearInsideExactly`), and one that
  does has announced it by the time the store is asked
  (`ControllerLaws.ClearOnceStoredExactly`). A feed's batch does not look at the whitelist,
  and a whitelist feed's batch does nothing: `SqlStore.FeedSyncIsFullRecompute`,
  `SqlStore.WhitelistFeedKeepsClear` and `SqlStore.WhitelistFeedIsFullRecompute` say exactly
  when that is harmless.
- `docs/policy-sync.md:39` lets a connection resume from durable cursors. That needs the
  cursors to agree and both of the agent's files to be there. An agent ahead of the server
  acknowledges changes it has never seen; one behind refuses everything as a gap; one whose
  store is in memory, as `internal/runtime/backend.go:35-38` makes it for a database, loses its
  lists in a restart and keeps its cursor; one without a cursor file is behind after a
  restart. The stores agree whenever nothing is left to replicate if and only if
  the store has a file and the agent does not start ahead
  (`ReplicationLimits.ConvergesExactly`). From empty stores, with which an agent without a
  store file always begins, one that is behind agrees as well, but only because nothing
  published is ever replicated in full (`ReplicationLimits.ConvergesFromEmptyExactly`).
  Replication can always catch up if and only if both files are there and the cursors start
  equal (`ReplicationLimits.CatchesUpExactly`).

## Model

| member | source | states |
|---|---|---|
| Cidr.OverlapIsIntersection | internal/runtime/policy.go:270 | the two-containment test holds if and only if the two blocks have an address in common |
| Cidr.NestedOrDisjoint | internal/runtime/policy.go:270 | any two blocks are disjoint or one holds the other (section 3.1 of RFC 4632), which the test relies on |
| Cidr.WiderContainsNarrower | internal/runtime/policy.go:270 | of two blocks that share an address, the one with fewer bits contains every address of the other |
| Cidr.MaskedKeepsBlock | internal/policystore/store.go:175 | masking a prefix changes no membership |
| Cidr.MaskedIsCanonical | internal/policystore/store.go:175 | a masked prefix is canonical and still contains the address it was made from |
| Cidr.BlockIsRange | internal/policystore/store.go:175 | a block is the run of 2^n addresses from a multiple of 2^n, n the bits below the prefix, and the masked form starts it |
| Cidr.CanonicalIsRemainder | internal/runtime/policy.go:138 | a prefix is canonical if and only if its address and length are in range and the bits below the length are zero |
| PolicyStore.ValidatePrefixes | internal/policystore/store.go:314-327 | accepts a list if and only if all prefixes are valid and no two mask to the same one; gives the masked list in order |
| PolicyStore.ValidateExpirations | internal/policystore/store.go:329-352 | accepts if and only if each key parses, is non-zero, is blocked, and no two keys spell one prefix; the result holds each expiry under its masked prefix and nothing else |
| PolicyStore.ValidateAudit | internal/policystore/store.go:304-310 | accepts if and only if every event is complete; masks each prefix and keeps the order |
| PolicyStore.ValidateState | internal/policystore/store.go:290-312 | accepts exactly the file contents that stand for a store, and builds that store |
| PolicyStore.Store.Open | internal/policystore/store.go:67-99 | no path is an error, no file an empty store, a file that cannot be read or decoded an error, any other a store exactly when its content is acceptable |
| PolicyStore.Store.Commit | internal/policystore/store.go:213-226 | memory moves to the new state only after the write has succeeded; a failed write leaves memory alone and the file old or new |
| PolicyStore.File.Replace | internal/policystore/store.go:376-419 | the file is replaced as a whole or not at all, whatever is reported |
| PolicyStore.File.Read | internal/policystore/store.go:73-90 | what is on the disk, unless it cannot be read or is not one JSON value of the right shape |
| PolicyStore.Store.Mutate | internal/policystore/store.go:168-227 | ends with the state the call is after and true, or with nothing changed and false or the right error, or with memory unchanged and the file old or new |
| PolicyStore.Store.AddUntil | internal/policystore/store.go:115-166 | the same for a blocklist add with an expiry, which may only move the expiry of a listed prefix |
| PolicyStore.Store.Blocked | internal/policystore/store.go:231-242 | an address is blocked exactly when it is valid, some blocklist prefix contains it and no whitelist prefix does |
| PolicyStore.AnyContains | internal/policystore/store.go:244-251 | true exactly when some prefix of the list contains the address |
| PolicyStoreLaws.CallKeepsConsistency | internal/policystore/store.go:115-227 | one call keeps both lists masked and duplicate-free, every expiry on a blocked prefix, and the log faithful; the log grows by one exactly when anything changes |
| PolicyStoreLaws.CallRefusedExactly | internal/policystore/store.go:115-190 | a call is refused if and only if its list, operation or prefix is not one, or its expiry is zero or not for the blocklist, with the error for that |
| PolicyStoreLaws.CallChangesOnlyItsPrefix | internal/policystore/store.go:115-212 | for every prefix and list: a call puts its own prefix on its own list, at the end, or takes it off, and changes no other membership |
| PolicyStoreLaws.CallChangesOnlyItsExpiry | internal/policystore/store.go:140-212 | for every prefix: an expiry is set by a call that names it with one, lost by a removal of that prefix from the blocklist, and otherwise untouched, by whitelist calls and plain adds too |
| PolicyStoreLaws.CallThatChangesNothing | internal/policystore/store.go:143-196 | a call adds to the log if and only if it changes a list or an expiry |
| PolicyStoreLaws.RunKeepsConsistency | internal/policystore/store.go:115-227 | so does every sequence of calls |
| PolicyStoreLaws.EveryStoreIsItsAudit | internal/policystore/store.go:63-227 | from an empty store, any calls leave a consistent store whose log, replayed from nothing, gives both lists in order |
| PolicyStoreLaws.PersistOpenRoundTrip | internal/policystore/store.go:67-99 | the file form of a consistent store is accepted, and what it decodes to is that store and no other |
| PolicyStoreLaws.AcceptsExactly | internal/policystore/store.go:290-363 | a file is accepted if and only if everything in it can be read, no list names a block twice under any spelling, and each expiry is set, on a listed block, and the only one for it |
| PolicyStoreLaws.DecodedIsMasked | internal/policystore/store.go:290-363 | what is read is each prefix, key and event masked, in order, with its own expiry, time, operation and list |
| PolicyStoreLaws.ValidationIsIdempotent | internal/policystore/store.go:290-363 | a store built from any accepted file is consistent, and writing and reading it again gives itself |
| PolicyStoreLaws.FailedPersistIsOldOrNew | internal/policystore/store.go:376-419 | after any call, whatever the file was, it is as it was or stands for what the call was after; after success the latter, after an error memory is as before |
| PolicyStoreLaws.StepFollows | internal/policystore/store.go:168-227 | one more call, whether it fails or not, keeps the file at one of: the start, the memory, what a call refused since the last success was after |
| PolicyStoreLaws.FileFollowsRun | internal/policystore/store.go:115-227 | so after any calls with any failures; and reopening builds exactly that state |
| PolicyStoreLaws.TwoFailuresLeaveTheFirst | internal/policystore/store.go:376-419 | two failures, the first after its rename, leave the file at neither the second call's start nor its end |
| Mutations.MutateStore | internal/runtime/backend.go:202-228 | add and replace add, remove and delete remove, on the store call's terms; a prefix that is not canonical, a list or an action it does not know is refused |
| Mutations.PolicyStoreAdapter.Apply | internal/runtime/backend.go:46-62 | without a store it is an error, in a dry run nothing, else the change is made or refused as the store says |
| Mutations.ApplyTo | internal/runtime/backend.go:53-61 | a change with an expiry becomes AddUntil on the blocklist, any other the plain mutation |
| Mutations.WantedExactly | internal/runtime/backend.go:202-228 | a mutation is taken if and only if it has one of four actions, one of two lists and a canonical prefix |
| Mutations.MutationChangesOnlyItsPrefix | internal/runtime/backend.go:202-228 | for every prefix and list: add and replace list the prefix, remove and delete take it off, its expiry comes and goes with them, and nothing else changes |
| Mutations.ViewFollowsEffect | internal/runtime/backend.go:46-62 | what a change does to lists and expiries depends on those alone, not on the clock or the log |
| Mutations.EffectIsIdempotent | internal/runtime/backend.go:46-62 | applying a change a second time changes neither list and no expiry |
| Mutations.EffectKeepsConsistency | internal/runtime/backend.go:46-62 | a replica stays consistent under every change |
| Routing.EffectiveRoutes | internal/runtime/policy.go:262-285 | the result is the table of exactly the blocked, unexpired prefixes that overlap nothing whitelisted; each route has its own prefix, the next hop of its family and the community 65535:666 |
| Routing.SuppressionIsSharedAddress | internal/runtime/policy.go:268-274 | a prefix is suppressed if and only if some address of it is whitelisted |
| Routing.AnnouncedIffEveryAddressBlocked | internal/runtime/policy.go:262-285 | an unexpired blocked prefix is announced if and only if the store blocks every address in it |
| Routing.SameCoverageSameMeaning | internal/runtime/policy.go:262-285 | whitelists that cover the same addresses give the same routes and block the same addresses |
| Delta.WithdrawNext | internal/runtime/policy.go:289-300 | one withdrawal, and what it adds to those before it |
| Delta.AnnounceNext | internal/runtime/policy.go:302-316 | one announcement, and what it adds to those before it |
| Delta.Retire | internal/runtime/policy.go:288-300 | withdraws each route that is no longer desired exactly once, or stops at the first refusal |
| Delta.Extend | internal/runtime/policy.go:301-316 | announces each newly desired route exactly once, or stops at the first refusal |
| Delta.WithdrawAll | internal/runtime/policy.go:307-309 | the first undo loop goes on over refusals; without one, nothing announced is left |
| Delta.AnnounceAll | internal/runtime/policy.go:310-312 | the second undo loop goes on over refusals; without one, everything withdrawn is back |
| Delta.ApplyDelta | internal/runtime/policy.go:287-319 | success makes the engine's table the desired one with one call a changed route, and on any other table changes just those routes; a refusal with working undo calls restores it; after every single call, even if undo calls fail, the table holds all routes that were to stay and none that were on neither side |
| Controller.PolicyController.Shift | internal/runtime/policy.go:287-319 | the controller's own table moves exactly when the engine's does, with one accepted call for each changed route; only a second refusal leaves the two different |
| Controller.PolicyController.Routes | internal/runtime/policy.go:245-260 | the routes of the stored lists and expiries at a moment |
| Controller.PolicyController.ProposedRoutes | internal/runtime/policy.go:179 | the routes of the edited lists, with the stored expiries, at a second reading of the clock |
| Controller.PolicyController.Reconcile | internal/runtime/policy.go:35-46 | the table becomes that of the store, in the engine too, with one call for each changed route, or stays; only two refused calls can leave the engine out of step; a dry run touches nothing |
| Controller.PolicyController.Consider | internal/runtime/policy.go:149-175 | edits copies of the lists and says whether the mutation changes anything, expiry included |
| Controller.AcceptableExactly | internal/runtime/policy.go:137-173 | the controller rejects exactly the mutations that the store would refuse |
| Controller.PolicyController.Record | internal/runtime/policy.go:183-200 | with the engine moved: the store takes the mutation, which is then published and the engine left alone, or the engine is taken back, and stays moved only if it refuses that |
| Controller.PolicyController.Perform | internal/runtime/policy.go:179-200 | engine first, store second, queue and wake token last; when the store is asked the engine has carried the proposed table; after a success the engine carries it, by one accepted call for each changed route |
| Controller.PolicyController.ApplyLocked | internal/runtime/policy.go:136-201 | rejects exactly what the store would refuse; five outcomes, each with the whole of store, table, engine, queue and file: a refused or needless mutation touches nothing and calls nothing, a refused engine call leaves store and table, a refused write leaves the store and the table of the first clock reading, success moves all, by one accepted call for each changed route, and publishes once; whatever the outcome, controller and engine agree unless two calls were refused; after every single engine call the table lies between the three tables involved, and when the store is asked the proposed one has been carried |
| Controller.PolicyController.Apply | internal/runtime/policy.go:48-84 | the same for the file-backed store; a dry run or a prefix that is not canonical touches nothing |
| Controller.PolicyController.ExpireOne | internal/runtime/policy.go:231-243 | one turn of the sweep removes one expired prefix, from the engine too, and publishes its removal, or fails with the store as it was; only refused calls keep it from being a step of a run |
| Controller.PolicyController.Visit | internal/runtime/policy.go:234-241 | an entry still ahead is passed over; any other is removed, which lengthens the run told so far by that mutation, or ends the sweep |
| Controller.PolicyController.VisitAll | internal/runtime/policy.go:234-241 | in any order, every entry is visited, each removal a step of one run, or the engine or the file has refused one |
| Controller.PolicyController.ApplyExpired | internal/runtime/policy.go:231-243 | success leaves no expiry at or before the moment, and is a run of mutations that the safety laws admit, with the engine in step; in any case the store is the old one with some expired prefixes removed, order and whitelist kept, one logged removal each; a failed sweep is such a run too if no undo call was refused; it fails only if the engine or the file did |
| Controller.PolicyController.DropListed | internal/runtime/policy.go:97-109 | the removed prefixes leave the controller's table even where the engine refuses |
| Controller.PolicyController.AddListed | internal/runtime/policy.go:112-132 | the added prefixes enter it, but for those the engine refuses, each with its own prefix, the next hop of its family and the blackhole community |
| Controller.PolicyController.ApplyBatch | internal/runtime/policy.go:86-134 | if nothing is refused, a prefix is in the table afterwards if and only if it is added, or was there and is not removed; refused calls leave it between; a whitelist batch touches nothing |
| ControllerLaws.ProposalIsStored | internal/runtime/policy.go:149-190 | the lists that routes are computed from are the lists the store ends up with |
| ControllerLaws.PublishedIffChanged | internal/runtime/policy.go:158-195 | the controller's test, made before the engine is touched, says "changed" exactly when the store will change |
| ControllerLaws.AppliedTableIsEffective | internal/runtime/policy.go:179 | after a success the table is the effective one of the new store if and only if the expiry replaced and the one replacing it call the prefix live or dead alike, or the whitelist hides it |
| ControllerLaws.FutureExpiryOfLivePrefixIsInStep | internal/dashboard/http.go:240 | that is so for every future expiry put on a prefix that is not expired, and for every mutation without one |
| ControllerLaws.RenewedTooLate | internal/runtime/policy.go:179 | it is not so for an expired entry given a new expiry before it is swept: stored as live, not announced |
| ControllerLaws.StepKeepsSafe | internal/runtime/policy.go:35-201 | each reconciliation or mutation, whatever fails forwards, keeps every announced prefix blocked and off the whitelist |
| ControllerLaws.RunIsSafe | internal/runtime/policy.go:35-243 | so does every run |
| ControllerLaws.NothingAllowedIsEverAnnounced | internal/runtime/policy.go:35-285 | from an empty table, in every run in which no undo call is refused and after each of its events, every address of every announced block is blocked by the store of that moment and not whitelisted |
| ControllerLaws.EveryTableIsOldOrNew | internal/runtime/policy.go:179-193 | inside a mutation, after each engine call, every announced address is blocked by the store as it is or by the one the mutation is after |
| ControllerLaws.ProposedClearExactly | internal/runtime/policy.go:149-179 | a proposed table is clear of the stored whitelist if and only if the mutation does not remove the last entry over a live blocked prefix |
| ControllerLaws.ClearInsideExactly | internal/runtime/policy.go:179-193 | the same for every table that the mutation can put in the engine, whatever calls and undo calls are refused |
| ControllerLaws.ClearOnceStoredExactly | internal/runtime/policy.go:179-193 | and for the tables that the engine did carry, once the store has been asked |
| ControllerLaws.AnnouncedBeforeStored | internal/runtime/policy.go:179-190 | a block taken off the whitelist is in the engine while the store still lets its addresses through |
| ControllerLaws.RefusedUndoLeavesRoute | internal/runtime/policy.go:302-316 | an undo call refused after a refused announcement: the store has the whitelist entry as before, and a route that it covers stays |
| ControllerLaws.LeftoversExactly | internal/runtime/policy.go:289-304 | whatever earlier refusals have left in the engine, after an applied mutation its table is clear of the whitelist if and only if no route is whitelisted that the engine carried and the controller's table did not |
| ControllerLaws.LeftoverOutlivesWhitelisting | internal/runtime/policy.go:289-304 | such a route whose own prefix is whitelisted: the mutation makes no call, and the route stays |
| ControllerLaws.SweptPrefixesAreNotAnnounced | internal/runtime/policy.go:231-243 | from what ApplyExpired promises after every success, and after a failure without a refused undo call: no prefix the sweep removed is in the engine, and what is announced is blocked and off the whitelist |
| ControllerLaws.SweepKeepsOrder | internal/policystore/store.go:197-204 | the prefixes a sweep leaves stand in their old order |
| ControllerLaws.IncrementalIsFullRecompute | internal/runtime/policy.go:86-134 | without expiries, a difference applied to the table gives the recomputed table if and only if no added prefix overlaps the whitelist |
| ExpiryLoop.NextWait | internal/runtime/policy.go:205-213 | the wait lies in an hour, sleeps past no expiry as it stood when the scan began, and is shorter than an hour only for an expiry that asks for it |
| ExpiryLoop.RunStaysInformed | internal/runtime/policy.go:183-229 | in every interleaving with mutations, what the loop planned from is what is stored, or a wake token is there or about to be sent |
| ExpiryLoop.SleepEndsByEachExpiry | internal/runtime/policy.go:203-229 | while the loop sleeps without a wake on its way, its timer meets every stored expiry at most the length of its own scan late, and no sleep is longer than an hour |
| ExpiryLoop.OverdueIsNoticed | internal/runtime/policy.go:183-229 | once an expiry is overdue by more than that, the loop can move or a mutation has still to wake it |
| ExpiryLoop.OnTimeExactly | internal/runtime/policy.go:205-214 | a sleep is sure to end by every expiry ahead if and only if no time passed between scan and timer, or something was due already, or nothing is due within the hour |
| Queue.PolicyQueue.Publish | internal/runtime/queue.go:23-39 | the change goes to the back under the next number and a token is there |
| Queue.PolicyQueue.Next | internal/runtime/queue.go:41-56 | gives the head without taking it; with nothing there it has used up the token and would wait |
| Queue.PolicyQueue.Commit | internal/runtime/queue.go:58-64 | takes the head away if it is the change named, and otherwise nothing |
| Queue.PublishAddsLast | internal/runtime/queue.go:23-39 | a published change goes last under a key above all the pending ones, and the reader is asked to look |
| Queue.CommitTakesItsOwn | internal/runtime/queue.go:58-64 | committing takes the head if the key is its own and nothing else; a second time it does nothing |
| QueueWakeups.RunStaysAwake | internal/runtime/queue.go:23-56 | in every interleaving, a reader that waits while changes are pending has a token or a publisher about to send one |
| QueueWakeups.NoChangeIsSleptThrough | internal/runtime/queue.go:23-56 | such a reader, once no publisher is left to send, gets the head of the queue in two steps of its own |
| QueueWakeups.TokenIsNeeded | internal/runtime/queue.go:34-38 | a reader that looked before the append and waits after it can do nothing until the publisher sends |
| QueueWakeups.UninterruptedPublish | internal/runtime/queue.go:23-39 | appending and notifying without interruption is the publish of the queue class |
| AgentRpc.Session.Open | internal/agentrpc/session.go:73-95 | limits below one and a next number not above the peer's cursor are refused; otherwise a session with an empty window |
| AgentRpc.Session.SendPolicy | internal/agentrpc/session.go:97-119 | an invalid change or a full window changes nothing; otherwise the next number is used up, and it is in the window exactly if the write succeeded |
| AgentRpc.Session.Receive | internal/agentrpc/session.go:123-171 | re-acknowledges and skips duplicates; delivers only the update after the applied cursor, or an acknowledgement, which frees what it covers; everything else is the error its message deserves, or a broken connection, and changes no cursor |
| AgentRpc.Session.Ack | internal/agentrpc/session.go:174-188 | only the next number is accepted, and the cursor moves by one even if telling the peer fails |
| AgentRpc.NewsExactly | internal/agentrpc/session.go:126-170 | a message is passed on if and only if it is an acknowledgement with a number or the valid change numbered next; an older valid change is a duplicate, a later one a gap |
| AgentRpc.ValidChangeExactly | internal/agentrpc/session.go:293-311 | a change is valid if and only if action, list and prefix are and an expiry is on a blocklist add; unless that expiry is zero, exactly such changes are taken by every store |
| AgentRpc.MoveKeepsWindow | internal/agentrpc/session.go:97-188 | each step under the locks keeps the window bounded and its numbers given out, and moves no cursor back |
| AgentRpc.WindowInvariant | internal/agentrpc/session.go:97-188 | in every interleaving of one reader and many writers the window stays within its limit, all cursors grow, and the applied cursor counts the acknowledgements given |
| AgentRpc.AckKeepsAbovePeer | internal/agentrpc/session.go:136-145 | an acknowledgement leaves everything pending, and the next number, above the peer's cursor if and only if it names a number that was sent |
| AgentRpc.HonestPeerFreesWindow | internal/agentrpc/session.go:97-188 | in every run, everything pending and the next number stay above the peer's cursor if and only if the peer acknowledges only what was sent |
| AgentRpc.FutureAckClogsWindow | internal/agentrpc/session.go:136-145 | after an acknowledgement from the future the window fills once more, and then nothing the peer can honestly say frees any of it, if and only if that acknowledgement reached the last of the new numbers |
| Words.SplitThenJoin | internal/feed/feed.go:95-105 | the bytes of a 32-bit word, joined, are the word |
| Words.JoinThenSplit | internal/agentrpc/session.go:206-211 | four bytes, joined to a word and split again, are the same bytes |
| Words.HighestFirst | internal/agentrpc/session.go:248 | words compare as their bytes do from the left |
| Frames.FrameReadsBack | internal/agentrpc/session.go:202-266 | a frame reads back if and only if its payload is not empty, within the limit and shorter than 2^32 bytes |
| Frames.FrameOnTheWire | internal/agentrpc/session.go:248 | four bytes of length, the highest first, and then the payload |
| Frames.FramesReadBack | internal/agentrpc/session.go:202-266 | any list of such payloads in front of any bytes is read back in order, and then the bytes are read as if alone |
| Frames.RoundTrip | internal/agentrpc/session.go:202-266 | the concatenated frames of a list read back as exactly that list |
| Frames.BrokenStream | internal/agentrpc/session.go:202-237 | cut anywhere, the stream yields exactly the frames that were whole and then reports the cut |
| Frames.WholeFrames | internal/agentrpc/session.go:202-237 | n frames are whole exactly when the cut is not before their end |
| Frames.WriteFull | internal/agentrpc/session.go:268-280 | under any partial writes it ends, having sent all of the data or a beginning of it and reported why |
| Frames.ReadFull | internal/agentrpc/session.go:205-225 | all the bytes asked for, or failure after taking no more than that |
| Frames.WriteFrame | internal/agentrpc/session.go:239-266 | a message over the limit sends nothing; otherwise the frame goes out, or a beginning of it |
| Frames.ReadFrame | internal/agentrpc/session.go:202-226 | gives the first frame of what arrives and leaves the rest, or the error that frame deserves, or breaks off inside it |
| Cursor.CursorFile.Load | internal/runtime/cursor.go:12-28 | an absent file is zero, an unreadable one an error |
| Cursor.CursorFile.Save | internal/runtime/cursor.go:30-78 | never goes back; a failed write leaves the old number or the new |
| Cursor.SaveCursor | internal/runtime/cursor.go:30-78 | without a path nothing is kept and nothing fails |
| SyncLoops.ApplyChange | internal/runtime/agent.go:84-86 | the change has its effect on lists and expiries, or none, because the store refuses it or its file failed |
| SyncLoops.SaveAndTell | internal/runtime/agent.go:90-97 | a failed save acknowledges nothing; what is acknowledged has been saved |
| SyncLoops.StartAgent | internal/runtime/agent.go:38-42 | a process starts with what its policy file stands for and the number in its cursor file, each empty if there is none, or fails because one cannot be read or understood |
| SyncLoops.TakeOne | internal/runtime/agent.go:84-97 | apply, then save the cursor, then acknowledge; where it fails decides which of the three have happened |
| SyncLoops.NextPolicy | internal/runtime/agent.go:76-83 | acknowledgements that reach an agent are passed over and the next update is the one after its cursor |
| SyncLoops.ConsumeOne | internal/runtime/agent.go:76-97 | one round takes at most the update after the cursor, and ends the loop only for a reason: a dry run, a failure outside, a message or a cursor file that forbids it |
| SyncLoops.RoundExtends | internal/runtime/agent.go:75-99 | one more round after any number of rounds extends what they amount to by the update it took |
| SyncLoops.ConsumeNext | internal/runtime/agent.go:75-99 | the next round is added to those before it, all of which stay settled |
| SyncLoops.Consume | internal/runtime/agent.go:75-99 | whatever the peer sends, updates numbered from the cursor on are applied without a gap; it goes round by round, and where each round begins all that was acknowledged has been saved; at most the last update is not acknowledged; nothing but acknowledgements is sent; it ends only for a reason |
| SyncLoops.SyncServer.Exchange | internal/runtime/server.go:297-312 | one change is sent, answered by the first message, saved and committed, or nothing is committed, for a reason that depends on whether it was sent |
| SyncLoops.SyncServer.HandleSync | internal/runtime/server.go:287-314 | whatever the peer sends, changes go out in queue order under consecutive numbers and leave the queue from the front, one for each acknowledgement; when it ends at most one sent change is not committed, and it ends only with nothing to send, a full window, a bad answer, or a connection or cursor file that failed |
| SyncAcceptor.StepKeepsOne | internal/runtime/server.go:247-285 | every step of the acceptor and of any handler keeps all handlers but the active one ended, and that one the latest |
| SyncAcceptor.HandoffIsClean | internal/runtime/server.go:247-285 | in every interleaving, once a handler has worked no earlier one works again |
| SyncAcceptor.AtMostOneHandlerWorks | internal/runtime/server.go:247-285 | at no point can two handlers work, and none can when acceptSync has returned |
| ReplicationLaws.TurnKeepsProtocol | internal/runtime/server.go:247-314 | every turn of either end, every failure and every crash keeps the relation between the two cursors, the windows, the queue and what is in flight |
| ReplicationLaws.TurnKeepsStores | internal/runtime/agent.go:38-99 | and keeps both the agent's store and its file equal to the start with a prefix of the published changes made once each |
| ReplicationLaws.RunKeeps | internal/runtime/server.go:247-314 | both hold at every point of every run from agreeing cursors |
| ReplicationLaws.PolicyIsRepeatable | internal/runtime/backend.go:46-62 | the policy transition is one that can be repeated anywhere a published history leads |
| ReplicationLaws.ReplicatedLogSafety | internal/runtime/server.go:287-314 | in every reachable state, whatever files the agent keeps, its log of applications with repeats collapsed begins what was published, holds all that was committed and at most one change more; its durable cursor is the server's or the next; store and file are the effect of a prefix of what was published |
| ReplicationLaws.CollapsedGrows | internal/runtime/agent.go:75-99 | applying the next change or repeating the last one extends the collapsed log by at most that change |
| ReplicationLaws.RepeatsExactly | internal/runtime/agent.go:84-97 | with a change in hand, applying it repeats the last application if and only if it was applied before without being committed |
| ReplicationLaws.DrainedMeansAgreed | internal/runtime/server.go:287-314 | with nothing left to publish or replicate, agent and server hold the same lists, in order, and expiries |
| ReplicationProgress.Reconnects | internal/runtime/agent.go:44-71 | from any state an agent that is not behind comes to a fresh connection with nothing else changed |
| ReplicationProgress.CatchUpOne | internal/runtime/server.go:292-312 | over it, the head of the queue is delivered, applied if it was not, acknowledged and committed |
| ReplicationProgress.CatchUp | internal/runtime/server.go:292-312 | and so is the whole queue |
| ReplicationProgress.AgreeingCursorsCatchUp | internal/runtime/server.go:287-314 | from every reachable state of an agent with both files and agreeing cursors, some turns that add no change end with an empty queue and equal stores |
| ReplicationProgress.AppliesTwice | internal/runtime/agent.go:84-97 | a change applied and not saved is applied once more over the next connection |
| ReplicationLimits.SomeRunAppliesTwice | internal/runtime/agent.go:84-97 | such a run exists for every common cursor and whatever files the agent keeps |
| ReplicationLimits.StrandedNeverDrains | internal/agentrpc/session.go:163-165 | an agent behind the server refuses every change for ever, and what waits is never drained |
| ReplicationLimits.BehindNeverDrains | internal/agentrpc/session.go:163-165 | an agent that starts behind never drains the queue once anything has been published, and its store, with a file or from empty, is the one it started with |
| ReplicationLimits.AheadLosesChange | internal/agentrpc/session.go:157-162 | an agent that starts ahead lets the server commit a change that was never applied |
| ReplicationLimits.RestartForgets | internal/runtime/backend.go:35-38 | an agent whose store has no file, restarted when all is replicated, disagrees with a non-empty server although its cursor is right |
| ReplicationLimits.ReplicatedAndForgotten | internal/runtime/backend.go:35-38 | from empty stores: one replicated change and one restart, cursors equal, queue empty, the agent's lists gone |
| ReplicationLimits.ForgottenCursorStrands | internal/runtime/cursor.go:12-15 | an agent without a cursor file, restarted after one change, never receives anything again |
| ReplicationLimits.LostNeverCatchesUp | internal/runtime/server.go:287-314 | stores that differ with nothing left to send never agree again without a new change |
| ReplicationLimits.ConvergesExactly | internal/runtime/server.go:287-314 | stores agree whenever nothing is left to replicate, in every run from equal stores, if and only if the agent's store has a file and its cursor does not start ahead; without a file and behind, the run that fails starts with stores that are not empty |
| ReplicationLimits.ConvergesFromEmptyExactly | internal/runtime/backend.go:35-38 | in every run from empty stores, as an agent without a store file begins: if and only if the cursors start equal and the store has a file, or the agent starts behind, where nothing is left to replicate only if nothing was published |
| ReplicationLimits.CatchesUpExactly | internal/runtime/server.go:287-314 | from every reachable state some further replication brings both together, if and only if the agent keeps both files and the cursors start equal; the same from empty stores alone |
| Correspondence.AppliedIsStoreAndPublish | internal/runtime/policy.go:184-195 | a successful mutation of the controller is the turns Store and Publish |
| Correspondence.ExchangeIsTurns | internal/runtime/server.go:297-312 | a finished exchange of the sender loop is the turn Send and, once the answer is in, Hear and Commit |
| Correspondence.FailedExchangeIsTurns | internal/runtime/server.go:293-310 | over any answer, the turns Send, Hear and Commit finish if and only if none of the causes holds that Exchange gives for a failure (change, window, answer, file); else nothing is committed and the file is old or new |
| Correspondence.ReceiveIsTurn | internal/agentrpc/session.go:126-170 | what Receive does with a message (re-acknowledge, refuse, free the window, deliver) is what the turn does |
| Correspondence.ApplyIsTurn | internal/runtime/backend.go:46-62 | every way in which handing a change to a store with a file can end, with memory and file as they then are, is a way of the turn Take |
| Correspondence.RestartIsTurns | internal/runtime/agent.go:39-57 | a restart at any point and the next connection: in memory is what the files stand for, and the window opens after the number in the cursor file |
| Correspondence.SavedIsNeverInHandAgain | internal/runtime/agent.go:38-97 | once a number is saved, no connection after a restart ever delivers it again, in any run from any state |
| Correspondence.SessionsAreTurns | internal/runtime/agent.go:57 | a new connection and a new session open the windows that the loops of both ends begin with, and the turns start where they start |
| Correspondence.SaveTellIsTurns | internal/runtime/agent.go:90-97 | saving and acknowledging, for each way they end, are the turns Save and Acknowledge in this order |
| Correspondence.TakeOneIsTurns | internal/runtime/agent.go:84-97 | each of the four ways an update can end is a run of Take, Save and Acknowledge with the same store, cursor and file |
| Feed.FillHosts | internal/feed/feed.go:97-108 | filling an array by 32-bit addition and address bytes gives the hosts from a base, ascending |
| Feed.ExpandIPv4ToSlash32 | internal/feed/feed.go:88-109 | a prefix outside IPv4 /16 to /31 is only masked; one inside becomes its hosts |
| Feed.NoWrap | internal/feed/feed.go:95-99 | base plus index never leaves 32 bits |
| Feed.ExpansionPartitions | internal/feed/feed.go:88-109 | 2^(32-bits) ascending /32s, each address of the block in exactly one of them and no other address in any |
| Feed.ReadLine | internal/feed/feed.go:39-78 | what one line of a list contributes |
| Feed.AddPrefixes | internal/feed/feed.go:29-35 | each entry is masked and appended the first time it is seen |
| Feed.ParseList | internal/feed/feed.go:24-84 | the prefixes of all lines, each once and at its first place, or an error when the input could not be read to its end |
| Feed.ListMembers | internal/feed/feed.go:24-84 | a prefix is on the list if and only if a line stands for it: an address for itself, an IPv4 /16 to /31 for its hosts if expansion is on, any other subnet for its block |
| Feed.MoreLinesOnlyAppend | internal/feed/feed.go:24-84 | the result of more lines begins with the result of fewer |
| Feed.ListCoverage | internal/feed/feed.go:24-84 | a list covers exactly the addresses its lines name |
| Feed.ExpansionPreservesCoverage | internal/feed/feed.go:24-109 | expanded or not, a list covers the same addresses |
| Feed.WhitelistExpansionPreservesMeaning | internal/feed/feed.go:24-109 | expanded or not, a whitelist gives the same routes and blocks the same addresses over every blocklist |
| SqlStore.Difference | internal/sqlstore/store.go:279-309 | what is new, in the order given, and what is gone, once each |
| SqlStore.SQLStore.SyncFeedPolicies | internal/sqlstore/store.go:269-375 | through its chunks of 500 the table changes row by row as SyncedRows says, and reports exactly the prefixes that are new to the feed and those it has lost; a failure anywhere changes nothing |
| SqlStore.SQLStore.DeleteFeed | internal/sqlstore/store.go:226-267 | deletes the feed and exactly the rows that are its own, leaves all others unchanged, and reports their prefixes, or changes nothing |
| SqlStore.SyncedRows | internal/sqlstore/store.go:269-375 | for every key: a prefix new to the feed gets a row of the feed that keeps the expiry of the row it replaces, a row of the feed goes if its prefix is no longer named, and every other row, of this feed, another one or none, stays as it is |
| SqlStore.SyncMakesFeedExact | internal/sqlstore/store.go:269-375 | after a sync the feed owns exactly the prefixes of its new list |
| SqlStore.SyncedList | internal/sqlstore/store.go:269-375 | the feed's list is the old one without the removed prefixes and with the added ones |
| SqlStore.FeedSyncIsFullRecompute | internal/runtime/policy.go:86-134 | a blocklist feed's sync applied as a batch leaves the recomputed routes if and only if the whitelist overlaps no added prefix |
| SqlStore.FeedDeletionIsFullRecompute | internal/sqlstore/store.go:226-267 | deleting a blocklist feed and applying its prefixes as removals always leaves the recomputed routes |
| SqlStore.WhitelistFeedKeepsClear | internal/runtime/policy.go:98-132 | a table clear of the whitelist stays clear through a whitelist feed's sync and batch if and only if none of its routes overlaps an added prefix |
| SqlStore.WhitelistFeedIsFullRecompute | internal/runtime/policy.go:98-132 | and equals the recomputed one if and only if each suppressed prefix stays suppressed, by an entry that stays or a new one, and no other overlaps a new one |
| SqlStore.WhitelistDeletionIsFullRecompute | internal/sqlstore/store.go:226-267 | deleting a whitelist feed leaves no whitelisted route, and the recomputed ones if and only if each suppressed prefix is still suppressed by another entry |
| SqlStore.WhitelistFeedLeavesRoute | internal/runtime/policy.go:98-132 | the two misses: a block just allowed stays announced, and one no longer allowed is not announced |
| CidrText.ReadsAddress | web/src/lib/cidr.ts:7-23 | from every legal spelling the function computes the address it means, groups after a gap counted from the end |
| CidrText.SpellingDecides | web/src/lib/cidr.ts:1-28 | a legal spelling is accepted if and only if it means a prefix without host bits |
| CidrText.PaddedSpellingDecides | web/src/lib/cidr.ts:2 | the same with any white space around it |
| CidrText.HexDigitExactly | web/src/lib/cidr.ts:14 | which characters are read as which digits, in both cases |
| CidrText.SpacesAre | web/src/lib/cidr.ts:2 | exactly the 25 characters that trim takes away |
| CidrText.LeadingZero | web/src/lib/cidr.ts:20-21 | a zero in front of an octet changes nothing |
| CidrText.LeadingZeroGroup | web/src/lib/cidr.ts:14-18 | nor does one in front of a group of fewer than four digits |
| CidrText.PrintedV4Decides | web/src/lib/cidr.ts:19-28 | four printed numbers and a length are accepted if and only if they are octets, the length is at most 32 and the bits below it are zero |
| CidrText.PrintedV6Decides | web/src/lib/cidr.ts:9-28 | eight numbers printed in hexadecimal and a length are accepted if and only if the numbers have 16 bits, the length is at most 128 and the bits below it are zero |
| CidrText.GapMeansZeros | web/src/lib/cidr.ts:11-18 | a text with a gap is accepted if and only if the one with the missing zeros in its place is |
| CidrText.AcceptsExactlyCanonical | web/src/lib/cidr.ts:1-28 | a text is accepted if and only if, trimmed, it is a legal spelling of a canonical prefix |

## Left out

- GoBGP, its sessions and `internal/bgpengine`: the engine is a table whose calls may fail.
- TCP, deadlines, contexts, JSON encoding, temporary files and fsync: lossy first-in
  first-out channels, messages as values, and writes that leave the old content or the new.
- Text parsing and printing in Go's `netip`: prefixes and lines arrive as tokens.
- Sequence numbers and queue numbers are unbounded; the code's are 64 bits wide.
- A restart of the server process: its queue is in memory, so what is pending is lost and its
  numbers start again. An agent's restart, with or without its files, and every disconnection
  are in. A server without a cursor file is a server whose saves succeed.
- Several concurrent callers of SendPolicy: numbers are given out and written under different
  locks, so their order on the wire is not modelled. The window is, for any interleaving.
- In the replication state machine acceptSync is one turn that ends the old session and starts
  the new one; that its goroutines hand over in this way is SyncAcceptor.HandoffIsClean.
- Controller.PolicyController.Apply: the branch for an SQL store, which writes a row and
  recomputes the routes, is not in.
- Controller.PolicyController.Routes: the lists of an SQL store, which has no expiries, are not
  in; the feed theorems take them as lists of rows.
- Feed.ReadLine: a line arrives trimmed, without its comment and parsed.
- Feed.ParseList: the same for its lines; what the scanner does is one flag.
- SqlStore.SQLStore.SyncFeedPolicies: rows hold prefixes, so two spellings of one prefix in
  one table are not told apart; scan errors that the code skips, and the count and time it
  writes beside the feed, are not in.
- Controller.PolicyController.ApplyExpired: that a failed sweep is tried again after a second
  is in the expiry loop only as the step back to sweeping.
- ExpiryLoop.SleepEndsByEachExpiry: mutations appear as any change of the stored expiries
  followed by a wake token; that they do so is Controller.PolicyController.Perform.
- Feed scheduling (`internal/feed/manager.go`), fetching, URL checks, HTTP handlers, paging,
  the bearer token, configuration, the dashboard and its mock: plumbing or finite cases.
- CidrText.IsCanonicalCIDR: the bit test against the mask 2^n - 1 is written as a remainder,
  and a number of many digits is exact where the code's comparison rounds it.
- The backoff of the agent's reconnections and its jitter: when a turn comes is arbitrary.
- Liveness under fair scheduling: what is proved is that somebody can move, and that a run that
  catches up exists from every state.
- SyncLoops.Consume: that within one round the save comes before the acknowledgement is the order
  of the turns in Correspondence.SaveTellIsTurns and of the calls in SyncLoops.SaveAndTell; the
  loop keeps no record of moments inside a round.
- ReplicationLimits.ConvergesExactly: one server and one agent. The sync port serves whoever
  connects; a second client that acknowledges makes the server commit what this agent has never
  applied, and the turn Accept stands only for one that never answers.
- AgentRpc.Session.SendPolicy: a message over the size limit is one of the writes that fail with
  nothing sent; the sizes are in Frames.WriteFrame.
