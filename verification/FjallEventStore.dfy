// The embedded event store: batched upserts with in-batch dedup, dedup pruning, device
// purges, and the one-time backfill of the per-user index.
module EventStore {
  import opened Options
  import opened ByteStrings
  import opened EventKeys
  import opened EventSpaces

  // ----- winners of a batch -----

  /** The newest event of a logical key in a batch; among equally new ones, the first. */
  function Best(batch: seq<Event>, id: LogicalKey): (r: Option<Event>)
    ensures r.Some? ==> r.value in batch && r.value.id == id
    ensures forall e :: e in batch && e.id == id ==> r.Some? && e.ts <= r.value.ts
  {
    if batch == [] then None else
      var prev, e := Best(batch[..|batch| - 1], id), batch[|batch| - 1];
      if e.id == id && (prev == None || prev.value.ts < e.ts) then Some(e) else prev
  }

  function Ids(batch: seq<Event>): set<LogicalKey> { set e | e in batch :: e.id }

  function Winners(batch: seq<Event>): map<LogicalKey, Event> {
    map id | id in Ids(batch) :: Best(batch, id).value
  }

  ghost predicate ById(w: map<LogicalKey, Event>) { forall id :: id in w ==> w[id].id == id }

  ghost function Pick(w: map<LogicalKey, Event>): (id: LogicalKey)
    requires w != map[]
    ensures id in w
  {
    var id :| id in w; id
  }

  /** One upsert per winner, in some order. */
  ghost function UpsertAll(s: Spaces, w: map<LogicalKey, Event>): Spaces
    decreases w.Keys
  {
    if w == map[] then s else UpsertAll(Upsert(s, w[Pick(w)]), w - {Pick(w)})
  }

  /** Among equally new events of a logical key the first in the batch wins. */
  lemma {:induction false} FirstOfEquals(batch: seq<Event>, id: LogicalKey) returns (i: nat)
    requires Best(batch, id).Some?
    ensures i < |batch| && batch[i] == Best(batch, id).value
    ensures forall j :: 0 <= j < i && batch[j].id == id ==> batch[j].ts < batch[i].ts
  {
    var n := |batch| - 1;
    if batch[n].id == id && (Best(batch[..n], id) == None || Best(batch[..n], id).value.ts < batch[n].ts) {
      i := n;
      assert forall j :: 0 <= j < n ==> batch[j] in batch[..n];
    } else {
      i := FirstOfEquals(batch[..n], id);
    }
  }

  /** The order in which the winners are taken does not matter. */
  lemma {:induction false} UpsertAllAnyOrder(s: Spaces, w: map<LogicalKey, Event>, id: LogicalKey)
    requires Keyed(s) && ById(w) && id in w
    ensures UpsertAll(s, w) == UpsertAll(Upsert(s, w[id]), w - {id})
    decreases w.Keys
  {
    var first := Pick(w);
    if first == id {
    } else {
      var e, f, rest := w[id], w[first], w - {first} - {id};
      UpsertPair(s, e, f);
      OneLess(w, first, id);
      OneLess(w, id, first);
      UpsertAllAnyOrder(Upsert(s, f), w - {first}, id);
      assert UpsertAll(s, w) == UpsertAll(Upsert(Upsert(s, f), e), rest);
      UpsertAllAnyOrder(Upsert(s, e), w - {id}, first);
      assert UpsertAll(Upsert(s, e), w - {id}) == UpsertAll(Upsert(Upsert(s, e), f), rest);
    }
  }

  lemma OneLess(w: map<LogicalKey, Event>, i: LogicalKey, j: LogicalKey)
    requires ById(w) && i in w && j in w && i != j
    ensures ById(w - {i}) && j in w - {i} && (w - {i})[j] == w[j] && w - {i} - {j} == w - {j} - {i}
    ensures w[i].id != w[j].id && (w - {i}).Keys < w.Keys
  {
    assert i !in w - {i};
  }

  lemma UpsertPair(s: Spaces, e: Event, f: Event)
    requires Keyed(s) && e.id != f.id
    ensures Keyed(Upsert(s, e)) && Keyed(Upsert(s, f)) && Upsert(Upsert(s, e), f) == Upsert(Upsert(s, f), e)
  {
    UpsertKeyed(s, e);
    UpsertKeyed(s, f);
    UpsertsCommute(s, e, f);
  }

  // ----- the store -----

  class FjallEventStore {
    var events: map<RowKey, Event>
    var idxMsg: map<LogicalKey, RowKey>
    var idxUser: map<UserKey, Event>
    var sessions: map<RowKey, bytes>
    /** The `idx_user_backfilled` marker of the meta keyspace. */
    var backfilled: bool

    function Contents(): Spaces
      reads this
    {
      Spaces(events, idxMsg, idxUser, sessions)
    }

    method CommitBatch(batch: seq<Op>)
      modifies `events, `idxMsg, `idxUser, `sessions
      ensures Contents() == Commit(old(Contents()), batch)
    {
      for i := 0 to |batch|
        invariant Contents() == Commit(old(Contents()), batch[..i])
      {
        assert batch[..i + 1] == batch[..i] + [batch[i]];
        CommitOne(old(Contents()), batch[..i], batch[i]);
        match batch[i] {
          case RemoveEvent(k) => events := events - {k};
          case RemoveUser(k) => idxUser := idxUser - {k};
          case RemoveSession(k) => sessions := sessions - {k};
          case RemoveMsg(k) => idxMsg := idxMsg - {k};
          case InsertEvent(k, r) => events := events[k := r];
          case InsertUser(k, r) => idxUser := idxUser[k := r];
          case InsertSession(k, v) => sessions := sessions[k := v];
          case InsertMsg(k, t) => idxMsg := idxMsg[k := t];
        }
      }
      assert batch[..|batch|] == batch;
    }

    /** Queue one upsert, reading the committed keyspaces. */
    method UpsertOne(batch: seq<Op>, e: Event) returns (queued: seq<Op>)
      ensures queued == batch + UpsertOps(Contents(), e)
    {
      queued := batch;
      if e.id in idxMsg {
        var prev := idxMsg[e.id];
        if e.ts < prev.ts {
          return;
        }
        var prevUser := if prev in events then events[prev].user else e.user;
        queued := queued + [RemoveEvent(prev), RemoveUser(UserKey(prevUser, prev)), RemoveSession(prev)];
      }
      var key := KeyOf(e);
      queued := queued + [InsertEvent(key, Row(e)), InsertUser(UserKey(e.user, key), Row(e))];
      if e.session != [] {
        queued := queued + [InsertSession(key, e.session)];
      }
      queued := queued + [InsertMsg(e.id, key)];
    }

    /** The in-memory dedup of a batch: the newest event per logical key, the first on ties. */
    static method PickWinners(batch: seq<Event>) returns (winner: map<LogicalKey, Event>)
      ensures winner == Winners(batch)
    {
      winner := map[];
      for i := 0 to |batch|
        invariant winner == Winners(batch[..i])
      {
        var e := batch[i];
        assert batch[..i + 1] == batch[..i] + [e];
        WinnersStep(batch[..i], e);
        if !(e.id in winner && winner[e.id].ts >= e.ts) {
          winner := winner[e.id := e];
        }
      }
      assert batch[..|batch|] == batch;
    }

    /** Dedup the batch, queue one upsert per winner against the committed state, commit once. */
    method UpsertEvents(batch: seq<Event>)
      requires Keyed(Contents())
      modifies `events, `idxMsg, `idxUser, `sessions
      ensures Contents() == UpsertAll(old(Contents()), Winners(batch))
    {
      var winner := PickWinners(batch);
      var ops: seq<Op> := [];
      var rest := winner;
      ghost var s := Contents();
      assert Commit(s, ops) == s;
      while rest != map[]
        invariant ById(rest) && Keyed(Commit(s, ops)) && Contents() == s
        invariant forall id :: id in rest ==> Agree(s, Commit(s, ops), rest[id])
        invariant UpsertAll(Commit(s, ops), rest) == UpsertAll(s, winner)
        decreases rest.Keys
      {
        var id :| id in rest;
        var e := rest[id];
        ghost var t := Commit(s, ops);
        ghost var queued := ops;
        ops := UpsertOne(ops, e);
        CommitConcat(s, queued, UpsertOps(s, e));
        UpsertOpsApply(s, t, e);
        UpsertKeyed(t, e);
        forall f | f in rest && f != id ensures Agree(s, Upsert(t, e), rest[f]) {
          UpsertAgrees(t, e, rest[f]);
        }
        UpsertAllAnyOrder(t, rest, id);
        rest := rest - {id};
      }
      CommitBatch(ops);
    }

    /** Forget the dedup pointers of one device that are older than the cutoff. */
    method CleanupOldDedup(device: bytes, cutoff: int)
      modifies `events, `idxMsg, `idxUser, `sessions
      ensures Contents() == Prune(old(Contents()), device, cutoff)
      ensures events == old(events) && idxUser == old(idxUser) && sessions == old(sessions)
      ensures idxMsg == map id | id in old(idxMsg) && !(id.device == device && old(idxMsg)[id].ts < cutoff) :: old(idxMsg)[id]
    {
      var ops: seq<Op> := [];
      var todo := set id | id in idxMsg && id.device == device;
      ghost var s := Contents();
      ghost var gone: set<LogicalKey> := {};
      while todo != {}
        invariant Contents() == s && forall id :: id in todo ==> id in idxMsg && id.device == device
        invariant gone !! todo && gone <= OldPointers(s, device, cutoff) <= gone + todo
        invariant Commit(s, ops) == s.(idxMsg := s.idxMsg - gone)
        invariant ops == [] ==> gone == {}
      {
        var id :| id in todo;
        if idxMsg[id].ts < cutoff {
          CommitOne(s, ops, RemoveMsg(id));
          ops := ops + [RemoveMsg(id)];
          assert s.idxMsg - gone - {id} == s.idxMsg - (gone + {id});
          gone := gone + {id};
        }
        todo := todo - {id};
      }
      if |ops| > 0 {
        CommitBatch(ops);
      }
    }

    /** Remove every row of a device, found by a full scan because its pointers may be pruned,
        and sweep the pointers that are left. */
    method DeleteDeviceEvents(device: bytes)
      requires Keyed(Contents())
      modifies `events, `idxMsg, `idxUser, `sessions
      ensures Contents() == Purge(old(Contents()), device)
    {
      ghost var s := Contents();
      ghost var ids: set<LogicalKey>;
      var ops;
      ops, ids := QueueRowRemovals(device);
      var residue := set id | id in idxMsg && id.device == device;
      while residue != {}
        invariant Contents() == s
        invariant forall id :: id in residue || id in ids ==> id.device == device
        invariant forall id :: id in s.idxMsg && id.device == device ==> id in residue || id in ids
        invariant Commit(s, ops) == Without(s, RowsOf(s, device), ids)
      {
        var id :| id in residue;
        CommitOne(s, ops, RemoveMsg(id));
        WithoutPointer(s, RowsOf(s, device), ids, id);
        ops := ops + [RemoveMsg(id)];
        ids := ids + {id};
        residue := residue - {id};
      }
      WithoutAll(s, device, ids);
      CommitBatch(ops);
    }

    method QueueRowRemovals(device: bytes) returns (ops: seq<Op>, ghost ids: set<LogicalKey>)
      requires Keyed(Contents())
      ensures forall id :: id in ids ==> id.device == device
      ensures Commit(Contents(), ops) == Without(Contents(), RowsOf(Contents(), device), ids)
    {
      ops, ids := [], {};
      var todo := events.Keys;
      ghost var s := Contents();
      ghost var gone: set<RowKey> := {};
      assert Commit(s, ops) == s == Without(s, {}, {});
      while todo != {}
        invariant todo <= s.events.Keys
        invariant gone !! todo && gone <= RowsOf(s, device) <= gone + todo
        invariant forall id :: id in ids ==> id.device == device
        invariant Commit(s, ops) == Without(s, gone, ids)
      {
        var k :| k in todo;
        var row := events[k];
        if row.id.device == device {
          WithoutStep(s, ops, gone, ids, k);
          ops := ops + [RemoveUser(UserKey(row.user, k)), RemoveMsg(row.id), RemoveSession(k), RemoveEvent(k)];
          gone, ids := gone + {k}, ids + {row.id};
        }
        todo := todo - {k};
      }
      assert gone == RowsOf(s, device);
    }

    /** The one-time backfill on open. Whatever commit the process dies at, the marker is
        present only over a complete index and entries already there stay; a pass that is not
        cut short finishes. */
    method Backfill(chunk: nat, commits: nat)
      requires chunk > 0
      requires PartialIndex(idxUser, events) && (backfilled ==> Indexes(idxUser, events))
      modifies `idxUser, `backfilled
      ensures PartialIndex(idxUser, events) && (backfilled ==> Indexes(idxUser, events))
      ensures old(idxUser).Keys <= idxUser.Keys
      ensures commits > |events.Keys| + 1 ==> backfilled
    {
      if !backfilled {
        idxUser, backfilled := BackfillPass(events, idxUser, chunk, commits);
      }
    }
  }

  /** One backfill pass over the committed index `ix0`: rows are copied in chunks, the marker is
      written last, and `commits` is how many commits succeed before the process dies. */
  method BackfillPass(events: map<RowKey, Event>, ix0: map<UserKey, Event>, chunk: nat, commits: nat)
    returns (ix: map<UserKey, Event>, marker: bool)
    requires chunk > 0 && PartialIndex(ix0, events)
    ensures PartialIndex(ix, events) && ix0.Keys <= ix.Keys
    ensures marker ==> Indexes(ix, events)
    ensures commits > |events.Keys| + 1 ==> marker
  {
    ix, marker := ix0, false;
    var left := commits;
    var batch: map<UserKey, Event> := map[];
    var inBatch, todo := 0, events.Keys;
    while todo != {}
      invariant todo <= events.Keys && inBatch < chunk && (inBatch == 0 ==> batch == map[])
      invariant commits - left + |todo| <= |events.Keys|
      invariant PartialIndex(batch, events) && PartialIndex(ix, events) && ix0.Keys <= ix.Keys
      invariant forall k :: k in events && k !in todo ==> UserKey(events[k].user, k) in batch.Keys + ix.Keys
    {
      var k :| k in todo;
      batch := batch[UserKey(events[k].user, k) := events[k]];
      todo := todo - {k};
      inBatch := inBatch + 1;
      if inBatch >= chunk {
        if left == 0 {
          return;
        }
        left := left - 1;
        ix := Flushed(ix, batch, events);
        batch, inBatch := map[], 0;
      }
    }
    if inBatch > 0 {
      if left == 0 {
        return;
      }
      left := left - 1;
      ix := Flushed(ix, batch, events);
    }
    if left == 0 {
      return;
    }
    PartialIndexComplete(ix, events);
    marker := true;
  }

  /** Every index entry is a copy of a row, under that row's user. */
  ghost predicate PartialIndex(ix: map<UserKey, Event>, ev: map<RowKey, Event>) {
    forall uk :: uk in ix ==> uk.row in ev && ev[uk.row] == ix[uk] && ix[uk].user == uk.user
  }

  function Flushed(ix: map<UserKey, Event>, batch: map<UserKey, Event>, ghost ev: map<RowKey, Event>): (r: map<UserKey, Event>)
    requires PartialIndex(ix, ev) && PartialIndex(batch, ev)
    ensures PartialIndex(r, ev) && r.Keys == ix.Keys + batch.Keys
  {
    ix + batch
  }

  lemma PartialIndexComplete(ix: map<UserKey, Event>, ev: map<RowKey, Event>)
    requires PartialIndex(ix, ev) && forall k :: k in ev ==> UserKey(ev[k].user, k) in ix
    ensures Indexes(ix, ev)
  {
  }

  lemma WinnersStep(batch: seq<Event>, e: Event)
    ensures Winners(batch + [e]) ==
      if e.id in Winners(batch) && Winners(batch)[e.id].ts >= e.ts then Winners(batch) else Winners(batch)[e.id := e]
  {
    assert (batch + [e])[..|batch|] == batch;
    assert Ids(batch + [e]) == Ids(batch) + {e.id};
  }

  ghost function Without(s: Spaces, rows: set<RowKey>, ids: set<LogicalKey>): Spaces
    requires rows <= s.events.Keys
  {
    Spaces(s.events - rows, s.idxMsg - ids,
           s.idxUser - (set k | k in rows :: UserKey(s.events[k].user, k)), s.sessions - rows)
  }

  lemma WithoutPointer(s: Spaces, rows: set<RowKey>, ids: set<LogicalKey>, id: LogicalKey)
    requires rows <= s.events.Keys
    ensures ApplyOp(Without(s, rows, ids), RemoveMsg(id)) == Without(s, rows, ids + {id})
  {
  }

  lemma WithoutAll(s: Spaces, device: bytes, ids: set<LogicalKey>)
    requires forall id :: id in ids ==> id.device == device
    requires forall id :: id in s.idxMsg && id.device == device ==> id in ids
    ensures Without(s, RowsOf(s, device), ids) == Purge(s, device)
  {
  }

  lemma WithoutStep(s: Spaces, ops: seq<Op>, rows: set<RowKey>, ids: set<LogicalKey>, k: RowKey)
    requires rows <= s.events.Keys && k in s.events && Commit(s, ops) == Without(s, rows, ids)
    ensures var r := s.events[k];
      Commit(s, ops + [RemoveUser(UserKey(r.user, k)), RemoveMsg(r.id), RemoveSession(k), RemoveEvent(k)])
        == Without(s, rows + {k}, ids + {r.id})
  {
    var r := s.events[k];
    var a, b, c, d := RemoveUser(UserKey(r.user, k)), RemoveMsg(r.id), RemoveSession(k), RemoveEvent(k);
    assert Commit(s, ops + [a, b, c, d]) == ApplyOp(ApplyOp(ApplyOp(ApplyOp(Without(s, rows, ids), a), b), c), d) by {
      CommitOne(s, ops, a);
      CommitOne(s, ops + [a], b);
      CommitOne(s, ops + [a] + [b], c);
      CommitOne(s, ops + [a] + [b] + [c], d);
      assert ops + [a, b, c, d] == ops + [a] + [b] + [c] + [d];
    }
    MinusMinus(s.events, rows, k);
    MinusMinus(s.sessions, rows, k);
    MinusMinus(s.idxMsg, ids, r.id);
    MinusMinus(s.idxUser, (set l | l in rows :: UserKey(s.events[l].user, l)), UserKey(r.user, k));
    assert (set l | l in rows + {k} :: UserKey(s.events[l].user, l))
        == (set l | l in rows :: UserKey(s.events[l].user, l)) + {UserKey(r.user, k)};
  }

  lemma MinusMinus<K, V>(m: map<K, V>, d: set<K>, k: K)
    ensures m - d - {k} == m - (d + {k})
  {
  }
}
