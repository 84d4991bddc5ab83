/** SyncFeedPolicies and DeleteFeed of internal/sqlstore/store.go over the policies
    table, which is a map keyed by prefix and list. */
module SqlStore {
  import opened Basics
  import opened Cidr
  import opened PolicyStore
  import opened Routing
  import opened Delta
  import opened Controller
  import opened ControllerLaws

  datatype RowKey = RowKey(prefix: Prefix, list: List)
  datatype Row = Row(source: string, feedID: string, expiresAt: Option<Time>)
  type Policies = map<RowKey, Row>

  const BATCH: nat := 500

  function Min(a: nat, b: nat): nat {
    if a < b then a else b
  }

  /** SELECT prefix FROM policies WHERE feed_id = ? */
  function OfFeed(t: Policies, feedID: string): set<Prefix> {
    set k | k in t && t[k].feedID == feedID :: k.prefix
  }

  /** DELETE FROM policies WHERE feed_id = ? AND prefix IN (...) */
  function DeleteRows(t: Policies, feedID: string, gone: set<Prefix>): Policies {
    map k | k in t && !(t[k].feedID == feedID && k.prefix in gone) :: t[k]
  }

  /** One row of INSERT ... ON CONFLICT(prefix, list) DO UPDATE. */
  function Upsert(t: Policies, key: RowKey, source: string, feedID: string): Policies {
    t[key := if key in t then t[key].(source := source, feedID := feedID) else Row(source, feedID, None)]
  }

  function UpsertAll(t: Policies, prefixes: seq<Prefix>, list: List, source: string, feedID: string): Policies {
    if |prefixes| == 0 then t
    else
      var n := |prefixes| - 1;
      Upsert(UpsertAll(t, prefixes[..n], list, source, feedID), RowKey(prefixes[n], list), source, feedID)
  }

  function NewOnly(prefixes: seq<Prefix>, current: set<Prefix>): seq<Prefix> {
    Without(prefixes, current)
  }

  lemma DeleteInChunks(t: Policies, feedID: string, a: set<Prefix>, b: set<Prefix>)
    ensures DeleteRows(DeleteRows(t, feedID, a), feedID, b) == DeleteRows(t, feedID, a + b)
  {
  }

  lemma {:induction false} UpsertInChunks(t: Policies, a: seq<Prefix>, b: seq<Prefix>, list: List, source: string,
      feedID: string)
    ensures UpsertAll(UpsertAll(t, a, list, source, feedID), b, list, source, feedID)
         == UpsertAll(t, a + b, list, source, feedID)
  {
    if |b| == 0 {
      assert a + b == a;
    } else {
      UpsertInChunks(t, a, b[..|b| - 1], list, source, feedID);
      assert (a + b)[..|a + b| - 1] == a + b[..|b| - 1];
    }
  }

  /** Some row of the feed, on either list, is for the prefix. */
  ghost predicate Owns(t: Policies, feedID: string, p: Prefix) {
    exists list :: RowKey(p, list) in t && t[RowKey(p, list)].feedID == feedID
  }

  lemma OwnsExactly(t: Policies, feedID: string, p: Prefix)
    ensures p in OfFeed(t, feedID) <==> Owns(t, feedID, p)
  {
    if p in OfFeed(t, feedID) {
      var k :| k in t && t[k].feedID == feedID && k.prefix == p;
      assert k == RowKey(p, k.list);
    }
  }

  lemma {:induction false} UpsertedRows(t: Policies, prefixes: seq<Prefix>, list: List, source: string, feedID: string,
      k: RowKey)
    ensures
      var t' := UpsertAll(t, prefixes, list, source, feedID);
      && (k in t' <==> k in t || (k.list == list && k.prefix in prefixes))
      && (k in t' ==>
          if k.list == list && k.prefix in prefixes
          then t'[k] == Row(source, feedID, if k in t then t[k].expiresAt else None)
          else t'[k] == t[k])
  {
    if |prefixes| > 0 {
      var n := |prefixes| - 1;
      assert prefixes == prefixes[..n] + [prefixes[n]];
      UpsertedRows(t, prefixes[..n], list, source, feedID, k);
    }
  }

  /** What a sync does to one key of the table. A prefix that the feed did not own and now names
      gets a row of the feed on the list, over whatever row was there, whose expiry stays; a
      row of the feed goes when its prefix is no longer named; every other row stays as it is. */
  ghost predicate SyncedRow(t: Policies, feedID: string, name: string, list: List, newPrefixes: seq<Prefix>,
                            t': Policies, k: RowKey)
  {
    if k.list == list && k.prefix in newPrefixes && !Owns(t, feedID, k.prefix) then
      k in t' && t'[k] == Row(name, feedID, if k in t then t[k].expiresAt else None)
    else if k in t && !(t[k].feedID == feedID && k.prefix !in newPrefixes) then
      k in t' && t'[k] == t[k]
    else
      k !in t'
  }

  lemma SyncedRows(t: Policies, feedID: string, name: string, list: List, newPrefixes: seq<Prefix>,
                   toAdd: seq<Prefix>, toRemove: seq<Prefix>, k: RowKey)
    requires toAdd == NewOnly(newPrefixes, OfFeed(t, feedID))
    requires forall p :: p in toRemove <==> p in OfFeed(t, feedID) && p !in newPrefixes
    ensures
      var t' := UpsertAll(DeleteRows(t, feedID, Members(toRemove)), toAdd, list, name, feedID);
      SyncedRow(t, feedID, name, list, newPrefixes, t', k)
  {
    UpsertedRows(DeleteRows(t, feedID, Members(toRemove)), toAdd, list, name, feedID, k);
    OwnsExactly(t, feedID, k.prefix);
    if k in t && t[k].feedID == feedID {
      assert RowKey(k.prefix, k.list) == k && Owns(t, feedID, k.prefix);
    }
  }

  class SQLStore {
    var policies: Policies
    var feeds: map<string, List>
    ghost var failures: nat  // how many transactions have failed

    /** Makes the feed's rows those of newPrefixes, in one transaction: a failed
        statement, or a failed commit, leaves the table as it was. */
    method SyncFeedPolicies(feedID: string, feedName: string, list: List, newPrefixes: seq<Prefix>)
      returns (ok: bool, toAdd: seq<Prefix>, toRemove: seq<Prefix>)
      modifies this`policies, this`failures
      ensures failures == old(failures) + if ok then 0 else 1
      ensures !ok ==> policies == old(policies)
      ensures ok ==>
        && toAdd == NewOnly(newPrefixes, OfFeed(old(policies), feedID))
        && NoDuplicates(toRemove)
        && (forall p :: p in toRemove <==> p in OfFeed(old(policies), feedID) && p !in newPrefixes)
        && policies == UpsertAll(DeleteRows(old(policies), feedID, Members(toRemove)), toAdd, list, feedName, feedID)
      ensures ok ==> forall p ::
        && (p in toAdd <==> p in newPrefixes && !Owns(old(policies), feedID, p))
        && (p in toRemove <==> p !in newPrefixes && Owns(old(policies), feedID, p))
      ensures ok ==> forall k :: SyncedRow(old(policies), feedID, feedName, list, newPrefixes, policies, k)
    {
      ok := false;
      var tx := policies;
      var current := OfFeed(tx, feedID);
      toAdd, toRemove := Difference(current, newPrefixes);

      var i := 0;
      while i < |toRemove|
        invariant 0 <= i <= |toRemove| && policies == old(policies) && failures == old(failures)
        invariant tx == DeleteRows(policies, feedID, Members(toRemove[..i]))
      {
        var failed: bool := *;
        if failed {
          failures := failures + 1;
          return;
        }
        var end := Min(i + BATCH, |toRemove|);
        ghost var done := toRemove[..i];
        DeleteInChunks(policies, feedID, Members(done), Members(toRemove[i..end]));
        assert toRemove[..end] == done + toRemove[i..end];
        assert Members(toRemove[..end]) == Members(done) + Members(toRemove[i..end]);
        tx := DeleteRows(tx, feedID, set p <- toRemove[i..end]);
        i := end;
      }
      assert toRemove[..|toRemove|] == toRemove;

      ghost var kept := tx;
      i := 0;
      while i < |toAdd|
        invariant 0 <= i <= |toAdd| && policies == old(policies) && failures == old(failures)
        invariant tx == UpsertAll(kept, toAdd[..i], list, feedName, feedID)
      {
        var failed: bool := *;
        if failed {
          failures := failures + 1;
          return;
        }
        var end := Min(i + BATCH, |toAdd|);
        assert toAdd[..end] == toAdd[..i] + toAdd[i..end];
        UpsertInChunks(kept, toAdd[..i], toAdd[i..end], list, feedName, feedID);
        tx := UpsertAll(tx, toAdd[i..end], list, feedName, feedID);
        i := end;
      }
      assert toAdd[..|toAdd|] == toAdd;

      var failed: bool := *;
      if failed {
        failures := failures + 1;
        return;
      }
      forall k ensures SyncedRow(policies, feedID, feedName, list, newPrefixes, tx, k) {
        SyncedRows(policies, feedID, feedName, list, newPrefixes, toAdd, toRemove, k);
      }
      forall p ensures p in current <==> Owns(policies, feedID, p) {
        OwnsExactly(policies, feedID, p);
      }
      policies := tx;
      ok := true;
    }

    /** Deletes the feed's rows and the feed, and tells which prefixes and which list. */
    method DeleteFeed(id: string) returns (ok: bool, deleted: set<Prefix>, list: Option<List>)
      modifies this
      ensures failures == old(failures) + if ok then 0 else 1
      ensures !ok ==> policies == old(policies) && feeds == old(feeds)
      ensures ok ==>
        && deleted == OfFeed(old(policies), id)
        && policies == DeleteRows(old(policies), id, deleted)
        && feeds == old(feeds) - {id}
        && list == if id in old(feeds) then Some(old(feeds)[id]) else None
      ensures ok ==>
        && (forall k :: k in policies <==> k in old(policies) && old(policies)[k].feedID != id)
        && (forall k <- policies :: policies[k] == old(policies)[k])
        && (forall p :: p in deleted <==> Owns(old(policies), id, p))
        && id !in feeds && forall f <- old(feeds) | f != id :: f in feeds && feeds[f] == old(feeds)[f]
    {
      var failed: bool := *;
      ok, deleted, list := !failed, {}, None;
      if failed {
        failures := failures + 1;
        return;
      }
      list := if id in feeds then Some(feeds[id]) else None;
      deleted := OfFeed(policies, id);
      policies := map k | k in policies && policies[k].feedID != id :: policies[k];
      forall p ensures p in deleted <==> Owns(old(policies), id, p) {
        OwnsExactly(old(policies), id, p);
      }
      feeds := feeds - {id};
    }
  }

  /** The two map passes: what is new, in the order given, and what is gone, in any order. */
  method Difference(current: set<Prefix>, newPrefixes: seq<Prefix>) returns (toAdd: seq<Prefix>, toRemove: seq<Prefix>)
    ensures toAdd == NewOnly(newPrefixes, current)
    ensures NoDuplicates(toRemove)
    ensures forall p :: p in toRemove <==> p in current && p !in newPrefixes
  {
    var newMap: set<Prefix> := {};
    toAdd := [];
    for i := 0 to |newPrefixes|
      invariant newMap == Members(newPrefixes[..i])
      invariant toAdd == NewOnly(newPrefixes[..i], current)
    {
      var p := newPrefixes[i];
      assert newPrefixes[..i + 1] == newPrefixes[..i] + [p];
      WithoutConcat(newPrefixes[..i], [p], current);
      newMap := newMap + {p};
      if p !in current {
        toAdd := toAdd + [p];
      }
    }
    assert newPrefixes[..|newPrefixes|] == newPrefixes;
    toRemove := [];
    var remaining := current;
    while remaining != {}
      invariant remaining <= current && NoDuplicates(toRemove)
      invariant forall p :: p in toRemove <==> p in current - remaining && p !in newPrefixes
    {
      var p :| p in remaining;
      remaining := remaining - {p};
      if p !in newMap {
        toRemove := toRemove + [p];
      }
    }
  }

  // ---- meaning ----

  /** The table after a sync. */
  function Synced(t: Policies, feedID: string, name: string, list: List, toAdd: seq<Prefix>,
                  toRemove: seq<Prefix>): Policies
  {
    UpsertAll(DeleteRows(t, feedID, Members(toRemove)), toAdd, list, name, feedID)
  }

  /** toAdd and toRemove are the differences SyncFeedPolicies reports. */
  ghost predicate Differs(t: Policies, feedID: string, newPrefixes: seq<Prefix>, toAdd: seq<Prefix>,
                          toRemove: seq<Prefix>)
  {
    && toAdd == NewOnly(newPrefixes, OfFeed(t, feedID))
    && forall p :: p in toRemove <==> p in OfFeed(t, feedID) && p !in newPrefixes
  }

  /** After a sync the feed owns exactly the prefixes of its new list. */
  lemma SyncMakesFeedExact(t: Policies, feedID: string, name: string, list: List, newPrefixes: seq<Prefix>,
                           toAdd: seq<Prefix>, toRemove: seq<Prefix>)
    requires Differs(t, feedID, newPrefixes, toAdd, toRemove)
    ensures OfFeed(Synced(t, feedID, name, list, toAdd, toRemove), feedID) == set p <- newPrefixes
  {
    var t' := Synced(t, feedID, name, list, toAdd, toRemove);
    var kept := DeleteRows(t, feedID, Members(toRemove));
    forall p ensures p in OfFeed(t', feedID) <==> p in newPrefixes {
      if p in OfFeed(t', feedID) {
        var k :| k in t' && t'[k].feedID == feedID && k.prefix == p;
        UpsertedRows(kept, toAdd, list, name, feedID, k);
      } else if p in newPrefixes {
        if p in toAdd {
          UpsertedRows(kept, toAdd, list, name, feedID, RowKey(p, list));
        } else {
          var k :| k in t && t[k].feedID == feedID && k.prefix == p;
          UpsertedRows(kept, toAdd, list, name, feedID, k);
        }
        assert false;
      }
    }
  }

  ghost predicate OwnListOnly(t: Policies, feedID: string, list: List) {
    forall k <- t :: t[k].feedID == feedID ==> k.list == list
  }

  /** prefixes is AllPrefixes of a list, in some order. */
  ghost predicate ListsRows(prefixes: seq<Prefix>, t: Policies, list: List) {
    forall p :: p in prefixes <==> RowKey(p, list) in t
  }

  /** What a sync does to the list it is for. */
  lemma SyncedList(t: Policies, feedID: string, name: string, list: List, newPrefixes: seq<Prefix>,
                   toAdd: seq<Prefix>, toRemove: seq<Prefix>, p: Prefix)
    requires Differs(t, feedID, newPrefixes, toAdd, toRemove) && OwnListOnly(t, feedID, list)
    ensures RowKey(p, list) in Synced(t, feedID, name, list, toAdd, toRemove)
      <==> (RowKey(p, list) in t && p !in toRemove) || p in toAdd
  {
    UpsertedRows(DeleteRows(t, feedID, Members(toRemove)), toAdd, list, name, feedID, RowKey(p, list));
    if p in toRemove {
      assert p in OfFeed(t, feedID);
      var k :| k in t && t[k].feedID == feedID && k.prefix == p;
      assert k == RowKey(p, list);
    }
  }

  /** A blocklist feed synced into the table and then applied as a batch leaves the routes
      that recomputing everything would give, exactly when the whitelist overlaps none of
      the added prefixes. */
  lemma FeedSyncIsFullRecompute(t: Policies, feedID: string, name: string, newPrefixes: seq<Prefix>,
                                toAdd: seq<Prefix>, toRemove: seq<Prefix>, whitelist: seq<Prefix>,
                                old_: seq<Prefix>, new_: seq<Prefix>, active: set<Prefix>, active': set<Prefix>,
                                now: Time)
    requires Differs(t, feedID, newPrefixes, toAdd, toRemove) && OwnListOnly(t, feedID, Blocklist)
    requires ListsRows(old_, t, Blocklist)
    requires ListsRows(new_, Synced(t, feedID, name, Blocklist, toAdd, toRemove), Blocklist)
    requires active == Effective(old_, whitelist, map[], now)
    requires active' == Batched(Blocklist, active, Members(toAdd), Members(toRemove))
    ensures active' == Effective(new_, whitelist, map[], now) <==> forall p <- toAdd :: !Suppressed(p, whitelist)
  {
    forall p ensures p in new_ <==> (p in old_ && p !in Members(toRemove)) || p in Members(toAdd) {
      SyncedList(t, feedID, name, Blocklist, newPrefixes, toAdd, toRemove, p);
    }
    IncrementalIsFullRecompute(old_, new_, whitelist, Members(toAdd), Members(toRemove), now);
    assert (forall p <- toAdd :: !Suppressed(p, whitelist)) <==>
        (forall p <- Members(toAdd) :: !Suppressed(p, whitelist));
  }

  /** Deleting a feed and applying its prefixes as removals always gives the full recomputation. */
  lemma FeedDeletionIsFullRecompute(t: Policies, feedID: string, whitelist: seq<Prefix>,
                                    old_: seq<Prefix>, new_: seq<Prefix>, now: Time)
    requires OwnListOnly(t, feedID, Blocklist)
    requires ListsRows(old_, t, Blocklist)
    requires ListsRows(new_, DeleteRows(t, feedID, OfFeed(t, feedID)), Blocklist)
    ensures Batched(Blocklist, Effective(old_, whitelist, map[], now), {}, OfFeed(t, feedID))
         == Effective(new_, whitelist, map[], now)
  {
    forall p ensures p in new_ <==> p in old_ && p !in OfFeed(t, feedID) {
      DeletedRow(t, feedID, Blocklist, p);
    }
  }

  lemma DeletedRow(t: Policies, feedID: string, list: List, p: Prefix)
    requires OwnListOnly(t, feedID, list)
    ensures RowKey(p, list) in DeleteRows(t, feedID, OfFeed(t, feedID)) <==>
        RowKey(p, list) in t && p !in OfFeed(t, feedID)
  {
    var k := RowKey(p, list);
    if p in OfFeed(t, feedID) {
      var l :| l in t && t[l].feedID == feedID && l.prefix == p;
      assert l == k;
    } else if k in t {
      assert t[k].feedID == feedID ==> k.prefix in OfFeed(t, feedID);
    }
  }

  // ---- whitelist feeds: the table changes, the routes stay ----

  /** Some prefix of the list that is not gone overlaps p. */
  ghost predicate StillSuppressed(p: Prefix, whitelist: seq<Prefix>, gone: set<Prefix>) {
    exists w <- whitelist :: w !in gone && Overlaps(p, w)
  }

  lemma NewlySuppressed(p: Prefix, oldW: seq<Prefix>, newW: seq<Prefix>, added: seq<Prefix>, gone: set<Prefix>)
    requires forall w :: w in newW <==> (w in oldW && w !in gone) || w in added
    ensures Suppressed(p, newW) <==> StillSuppressed(p, oldW, gone) || Suppressed(p, added)
    ensures StillSuppressed(p, oldW, gone) ==> Suppressed(p, oldW)
  {
    if Suppressed(p, newW) {
      var w :| w in newW && Overlaps(p, w);
      assert w in added ==> Suppressed(p, added);
    }
    if Suppressed(p, added) {
      var w :| w in added && Overlaps(p, w);
      assert w in newW;
    }
    if StillSuppressed(p, oldW, gone) {
      var w :| w in oldW && w !in gone && Overlaps(p, w);
      assert w in newW;
    }
  }

  /** The whitelist before and after a sync of a whitelist feed. */
  ghost predicate WhitelistSynced(t: Policies, feedID: string, name: string, newPrefixes: seq<Prefix>,
                                  toAdd: seq<Prefix>, toRemove: seq<Prefix>, oldW: seq<Prefix>, newW: seq<Prefix>)
  {
    && Differs(t, feedID, newPrefixes, toAdd, toRemove) && OwnListOnly(t, feedID, Whitelist)
    && ListsRows(oldW, t, Whitelist) && ListsRows(newW, Synced(t, feedID, name, Whitelist, toAdd, toRemove), Whitelist)
  }

  lemma SyncedWhitelist(t: Policies, feedID: string, name: string, newPrefixes: seq<Prefix>,
                        toAdd: seq<Prefix>, toRemove: seq<Prefix>, oldW: seq<Prefix>, newW: seq<Prefix>)
    requires WhitelistSynced(t, feedID, name, newPrefixes, toAdd, toRemove, oldW, newW)
    ensures forall w :: w in newW <==> (w in oldW && w !in Members(toRemove)) || w in toAdd
  {
    forall w ensures w in newW <==> (w in oldW && w !in Members(toRemove)) || w in toAdd {
      SyncedList(t, feedID, name, Whitelist, newPrefixes, toAdd, toRemove, w);
    }
  }

  /** A table clear of the whitelist is clear of it after a whitelist feed's sync and batch
      exactly when none of its routes overlaps an added prefix. */
  lemma WhitelistFeedKeepsClear(t: Policies, feedID: string, name: string, newPrefixes: seq<Prefix>,
                                toAdd: seq<Prefix>, toRemove: seq<Prefix>, oldW: seq<Prefix>, newW: seq<Prefix>,
                                active: set<Prefix>, active': set<Prefix>)
    requires WhitelistSynced(t, feedID, name, newPrefixes, toAdd, toRemove, oldW, newW)
    requires forall p <- active :: !Suppressed(p, oldW)
    requires active' == Batched(Whitelist, active, Members(toAdd), Members(toRemove))
    ensures (forall p <- active' :: !Suppressed(p, newW)) <==> forall p <- active, w <- toAdd :: !Overlaps(p, w)
  {
    SyncedWhitelist(t, feedID, name, newPrefixes, toAdd, toRemove, oldW, newW);
    forall p <- active ensures Suppressed(p, newW) <==> exists w <- toAdd :: Overlaps(p, w) {
      NewlySuppressed(p, oldW, newW, toAdd, Members(toRemove));
    }
  }

  /** The routes are those of full recomputation exactly when every blocked prefix that was
      suppressed is so still, by an entry that stays or one that is new, and no other
      overlaps a new one. */
  lemma WhitelistFeedIsFullRecompute(t: Policies, feedID: string, name: string, newPrefixes: seq<Prefix>,
                                     toAdd: seq<Prefix>, toRemove: seq<Prefix>, oldW: seq<Prefix>, newW: seq<Prefix>,
                                     blocklist: seq<Prefix>, active: set<Prefix>, active': set<Prefix>, now: Time)
    requires WhitelistSynced(t, feedID, name, newPrefixes, toAdd, toRemove, oldW, newW)
    requires active == Effective(blocklist, oldW, map[], now)
    requires active' == Batched(Whitelist, active, Members(toAdd), Members(toRemove))
    ensures active' == Effective(blocklist, newW, map[], now) <==>
      forall p <- blocklist ::
        if Suppressed(p, oldW) then StillSuppressed(p, oldW, Members(toRemove)) || Suppressed(p, toAdd)
        else !Suppressed(p, toAdd)
  {
    SyncedWhitelist(t, feedID, name, newPrefixes, toAdd, toRemove, oldW, newW);
    RoutesUnderWhitelists(blocklist, oldW, newW, toAdd, Members(toRemove), now);
  }

  /** Deleting a whitelist feed leaves no whitelisted route, but the routes of full
      recomputation only if every blocked prefix that was suppressed is so still. */
  lemma WhitelistDeletionIsFullRecompute(t: Policies, feedID: string, blocklist: seq<Prefix>,
                                         oldW: seq<Prefix>, newW: seq<Prefix>,
                                         active: set<Prefix>, active': set<Prefix>, now: Time)
    requires OwnListOnly(t, feedID, Whitelist) && ListsRows(oldW, t, Whitelist)
    requires ListsRows(newW, DeleteRows(t, feedID, OfFeed(t, feedID)), Whitelist)
    requires active == Effective(blocklist, oldW, map[], now)
    requires active' == Batched(Whitelist, active, {}, OfFeed(t, feedID))
    ensures forall p <- active' :: !Suppressed(p, newW)
    ensures active' == Effective(blocklist, newW, map[], now) <==>
      forall p <- blocklist :: Suppressed(p, oldW) ==> StillSuppressed(p, oldW, OfFeed(t, feedID))
  {
    forall w ensures w in newW <==> (w in oldW && w !in OfFeed(t, feedID)) || w in [] {
      DeletedRow(t, feedID, Whitelist, w);
    }
    RoutesUnderWhitelists(blocklist, oldW, newW, [], OfFeed(t, feedID), now);
    forall p ensures !Suppressed(p, []) && (!Suppressed(p, oldW) ==> !Suppressed(p, newW)) {
      NewlySuppressed(p, oldW, newW, [], OfFeed(t, feedID));
    }
  }

  lemma RoutesUnderWhitelists(blocklist: seq<Prefix>, oldW: seq<Prefix>, newW: seq<Prefix>,
                              added: seq<Prefix>, gone: set<Prefix>, now: Time)
    requires forall w :: w in newW <==> (w in oldW && w !in gone) || w in added
    ensures Effective(blocklist, oldW, map[], now) == Effective(blocklist, newW, map[], now) <==>
      forall p <- blocklist ::
        if Suppressed(p, oldW) then StillSuppressed(p, oldW, gone) || Suppressed(p, added) else !Suppressed(p, added)
  {
    forall p ensures Suppressed(p, newW) <==> StillSuppressed(p, oldW, gone) || Suppressed(p, added) {
      NewlySuppressed(p, oldW, newW, added, gone);
    }
    forall p ensures StillSuppressed(p, oldW, gone) ==> Suppressed(p, oldW) {
      NewlySuppressed(p, oldW, newW, added, gone);
    }
    hide Suppressed, StillSuppressed;
    var before, after := Effective(blocklist, oldW, map[], now), Effective(blocklist, newW, map[], now);
    assert forall p <- blocklist :: p in before <==> !Suppressed(p, oldW);
    assert forall p <- blocklist :: p in after <==> !Suppressed(p, newW);
    if before != after {
      var p :| (p in before) != (p in after);
      assert p in blocklist;
    }
  }

  /** The two ways to miss: a block that the feed has just allowed stays announced, and one
      that a feed no longer allows, once it is deleted, is not announced. */
  lemma WhitelistFeedLeavesRoute(p: Prefix, feedID: string, name: string, now: Time)
    requires p.Valid()
    ensures
      var t: Policies := map[RowKey(p, Blocklist) := Row("Manual", feedID + "x", None)];
      var routes := Effective([p], [], map[], now);
      && WhitelistSynced(t, feedID, name, [p], [p], [], [], [p])
      && p in Batched(Whitelist, routes, {p}, {}) && Suppressed(p, [p])
    ensures
      var t: Policies := map[RowKey(p, Whitelist) := Row(name, feedID, None)];
      var routes := Effective([p], [p], map[], now);
      && OfFeed(t, feedID) == {p} && DeleteRows(t, feedID, {p}) == map[]
      && p !in Batched(Whitelist, routes, {}, {p}) && p in Effective([p], [], map[], now)
  {
    assert p.Contains(p.addr);
    assert Overlaps(p, p) && p in [p];
    var t: Policies := map[RowKey(p, Blocklist) := Row("Manual", feedID + "x", None)];
    assert |feedID + "x"| == |feedID| + 1;
    assert OfFeed(t, feedID) == {};
    WithoutNone([p]);
    var kept := DeleteRows(t, feedID, Members([]));
    assert kept == t;
    forall k ensures k in Synced(t, feedID, name, Whitelist, [p], []) <==> k in t || k == RowKey(p, Whitelist) {
      UpsertedRows(kept, [p], Whitelist, name, feedID, k);
    }
    var u: Policies := map[RowKey(p, Whitelist) := Row(name, feedID, None)];
    assert RowKey(p, Whitelist) in u && u[RowKey(p, Whitelist)].feedID == feedID;
  }
}
