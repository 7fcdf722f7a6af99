// The four event keyspaces as values, the write batches applied to them, and what one
// accepted event, one dedup prune and one device purge do to them.
module EventSpaces {
  import opened ByteStrings
  import opened EventKeys

  datatype Spaces = Spaces(
    events: map<RowKey, Event>,
    idxMsg: map<LogicalKey, RowKey>,
    idxUser: map<UserKey, Event>,
    sessions: map<RowKey, bytes>)

  const EMPTY: Spaces := Spaces(map[], map[], map[], map[])

  // ----- write batches -----

  datatype Op =
    | RemoveEvent(key: RowKey) | RemoveUser(userKey: UserKey) | RemoveSession(key: RowKey) | RemoveMsg(id: LogicalKey)
    | InsertEvent(key: RowKey, row: Event) | InsertUser(userKey: UserKey, row: Event)
    | InsertSession(key: RowKey, session: bytes) | InsertMsg(id: LogicalKey, key: RowKey)

  function ApplyOp(s: Spaces, op: Op): Spaces {
    match op
    case RemoveEvent(k) => s.(events := s.events - {k})
    case RemoveUser(k) => s.(idxUser := s.idxUser - {k})
    case RemoveSession(k) => s.(sessions := s.sessions - {k})
    case RemoveMsg(k) => s.(idxMsg := s.idxMsg - {k})
    case InsertEvent(k, r) => s.(events := s.events[k := r])
    case InsertUser(k, r) => s.(idxUser := s.idxUser[k := r])
    case InsertSession(k, v) => s.(sessions := s.sessions[k := v])
    case InsertMsg(k, t) => s.(idxMsg := s.idxMsg[k := t])
  }

  /** A batch commits atomically, its operations in the order they were queued. */
  function Commit(s: Spaces, batch: seq<Op>): Spaces {
    if batch == [] then s else ApplyOp(Commit(s, batch[..|batch| - 1]), batch[|batch| - 1])
  }

  lemma {:induction false} CommitConcat(s: Spaces, a: seq<Op>, b: seq<Op>)
    ensures Commit(s, a + b) == Commit(Commit(s, a), b)
  {
    if b == [] {
      assert a + b == a;
    } else {
      CommitConcat(s, a, b[..|b| - 1]);
      assert (a + b)[..|a + b| - 1] == a + b[..|b| - 1];
    }
  }

  lemma CommitOne(s: Spaces, a: seq<Op>, op: Op)
    ensures Commit(s, a + [op]) == ApplyOp(Commit(s, a), op)
  {
  }

  // ----- upserting one event -----

  /** The committed predecessor is strictly newer, so the event is ignored. */
  predicate Stale(s: Spaces, e: Event) {
    e.id in s.idxMsg && e.ts < s.idxMsg[e.id].ts
  }

  /** The user under whom the predecessor is indexed: its own, when its row is there. */
  function PreviousUser(s: Spaces, prev: RowKey, e: Event): bytes {
    if prev in s.events then s.events[prev].user else e.user
  }

  /** The row, and the user-index entry, of the predecessor the dedup pointer names. */
  function OldRows(s: Spaces, e: Event): set<RowKey> {
    if e.id in s.idxMsg then {s.idxMsg[e.id]} else {}
  }

  function OldEntries(s: Spaces, e: Event): set<UserKey> {
    if e.id in s.idxMsg then {UserKey(PreviousUser(s, s.idxMsg[e.id], e), s.idxMsg[e.id])} else {}
  }

  /** The state once the given entries are gone. */
  function Displace(s: Spaces, rows: set<RowKey>, entries: set<UserKey>): Spaces {
    Spaces(s.events - rows, s.idxMsg, s.idxUser - entries, s.sessions - rows)
  }

  function Install(s: Spaces, e: Event): Spaces {
    var k := KeyOf(e);
    Spaces(s.events[k := Row(e)],
           s.idxMsg[e.id := k],
           s.idxUser[UserKey(e.user, k) := Row(e)],
           if e.session == [] then s.sessions else s.sessions[k := e.session])
  }

  function Upsert(s: Spaces, e: Event): Spaces {
    if Stale(s, e) then s else Install(Displace(s, OldRows(s, e), OldEntries(s, e)), e)
  }

  /** The operations `upsert_one` queues after reading the committed state `s`. */
  function UpsertOps(s: Spaces, e: Event): seq<Op> {
    if Stale(s, e) then [] else DisplaceOps(s, e) + InstallOps(e)
  }

  function DisplaceOps(s: Spaces, e: Event): seq<Op> {
    if e.id !in s.idxMsg then [] else
      var prev := s.idxMsg[e.id];
      [RemoveEvent(prev), RemoveUser(UserKey(PreviousUser(s, prev, e), prev)), RemoveSession(prev)]
  }

  function InstallOps(e: Event): seq<Op> {
    var k := KeyOf(e);
    [InsertEvent(k, Row(e)), InsertUser(UserKey(e.user, k), Row(e))]
    + (if e.session == [] then [] else [InsertSession(k, e.session)])
    + [InsertMsg(e.id, k)]
  }

  /** `t` holds what `upsert_one` reads about `e` in `s`. */
  predicate Agree(s: Spaces, t: Spaces, e: Event) {
    (e.id in s.idxMsg <==> e.id in t.idxMsg) &&
    (e.id in s.idxMsg ==>
       var k := s.idxMsg[e.id];
       t.idxMsg[e.id] == k && (k in s.events <==> k in t.events) && (k in s.events ==> t.events[k] == s.events[k]))
  }

  /** Operations computed from the committed state do, on any state that agrees about the event,
      what an upsert against that state would do. */
  lemma UpsertOpsApply(s: Spaces, t: Spaces, e: Event)
    requires Agree(s, t, e)
    ensures Commit(t, UpsertOps(s, e)) == Upsert(t, e)
  {
    if !Stale(s, e) {
      CommitConcat(t, DisplaceOps(s, e), InstallOps(e));
      DisplaceOpsApply(s, t, e);
      InstallOpsApply(Displace(t, OldRows(t, e), OldEntries(t, e)), e);
    }
  }

  lemma DisplaceOpsApply(s: Spaces, t: Spaces, e: Event)
    requires Agree(s, t, e)
    ensures Commit(t, DisplaceOps(s, e)) == Displace(t, OldRows(t, e), OldEntries(t, e))
  {
    if e.id in s.idxMsg {
      var prev := s.idxMsg[e.id];
      var uk := UserKey(PreviousUser(s, prev, e), prev);
      CommitOne(t, [], RemoveEvent(prev));
      CommitOne(t, [RemoveEvent(prev)], RemoveUser(uk));
      CommitOne(t, [RemoveEvent(prev), RemoveUser(uk)], RemoveSession(prev));
      assert DisplaceOps(s, e) == [RemoveEvent(prev), RemoveUser(uk)] + [RemoveSession(prev)];
      assert [RemoveEvent(prev), RemoveUser(uk)] == [RemoveEvent(prev)] + [RemoveUser(uk)];
      assert [RemoveEvent(prev)] == [] + [RemoveEvent(prev)];
    }
  }

  lemma InstallOpsApply(t: Spaces, e: Event)
    ensures Commit(t, InstallOps(e)) == Install(t, e)
  {
    var k := KeyOf(e);
    var a, b := InsertEvent(k, Row(e)), InsertUser(UserKey(e.user, k), Row(e));
    CommitOne(t, [], a);
    CommitOne(t, [a], b);
    assert [] + [a] == [a] && [a] + [b] == [a, b];
    var rest := if e.session == [] then [a, b] else [a, b] + [InsertSession(k, e.session)];
    if e.session != [] { CommitOne(t, [a, b], InsertSession(k, e.session)); }
    CommitOne(t, rest, InsertMsg(e.id, k));
    assert InstallOps(e) == rest + [InsertMsg(e.id, k)];
  }

  // ----- invariants -----

  /** Rows are filed under their own key; dedup pointers name existing rows of their own
      logical key; sessions belong to rows and are not empty. */
  ghost predicate Keyed(s: Spaces) {
    (forall k :: k in s.events ==> s.events[k].session == [] && k == KeyOf(s.events[k])) &&
    (forall id :: id in s.idxMsg ==> s.idxMsg[id] in s.events && s.idxMsg[id].id == id) &&
    (forall k :: k in s.sessions ==> k in s.events && s.sessions[k] != [])
  }

  /** The per-user index holds exactly one entry for every row, under the row's user. */
  ghost predicate UserIndexed(s: Spaces) { Indexes(s.idxUser, s.events) }

  ghost predicate Indexes(ix: map<UserKey, Event>, ev: map<RowKey, Event>) {
    (forall k :: k in ev ==> UserKey(ev[k].user, k) in ix && ix[UserKey(ev[k].user, k)] == ev[k]) &&
    (forall uk :: uk in ix ==> uk.row in ev && ev[uk.row] == ix[uk] && ix[uk].user == uk.user)
  }

  ghost predicate Valid(s: Spaces) { Keyed(s) && UserIndexed(s) }

  lemma UpsertKeyed(s: Spaces, e: Event)
    requires Keyed(s)
    ensures Keyed(Upsert(s, e))
  {
  }

  /** The new row silently overwrites one with its very key that the dedup index no longer
      names (it was pruned, or now names an older row). */
  predicate Overwrites(s: Spaces, e: Event) {
    !Stale(s, e) && KeyOf(e) in s.events && !(e.id in s.idxMsg && s.idxMsg[e.id] == KeyOf(e))
  }

  /** The user index survives an upsert exactly when no forgotten row of another user is
      overwritten: `upsert_one` clears the old index entry only through the dedup pointer. */
  lemma UpsertUserIndexed(s: Spaces, e: Event)
    requires Valid(s)
    ensures UserIndexed(Upsert(s, e)) <==> (Overwrites(s, e) ==> s.events[KeyOf(e)].user == e.user)
  {
    if !Stale(s, e) {
      if Overwrites(s, e) && s.events[KeyOf(e)].user != e.user {
        var t, uk := Upsert(s, e), UserKey(s.events[KeyOf(e)].user, KeyOf(e));
        assert uk in t.idxUser && t.idxUser[uk].user == uk.user && t.events[uk.row].user == e.user;
      } else {
        UserIndexKept(s, e);
      }
    }
  }

  lemma UserIndexKept(s: Spaces, e: Event)
    requires Valid(s) && !Stale(s, e)
    requires Overwrites(s, e) ==> s.events[KeyOf(e)].user == e.user
    ensures UserIndexed(Upsert(s, e))
  {
    var d := Displace(s, OldRows(s, e), OldEntries(s, e));
    if e.id in s.idxMsg {
      IndexDrop(s.idxUser, s.events, s.idxMsg[e.id]);
    } else {
      assert d.events == s.events && d.idxUser == s.idxUser;
    }
    IndexAdd(d.idxUser, d.events, KeyOf(e), Row(e));
  }

  lemma IndexDrop(ix: map<UserKey, Event>, ev: map<RowKey, Event>, k: RowKey)
    requires Indexes(ix, ev) && k in ev
    ensures Indexes(ix - {UserKey(ev[k].user, k)}, ev - {k})
  {
  }

  lemma IndexAdd(ix: map<UserKey, Event>, ev: map<RowKey, Event>, k: RowKey, r: Event)
    requires Indexes(ix, ev) && (k in ev ==> ev[k].user == r.user)
    ensures Indexes(ix[UserKey(r.user, k) := r], ev[k := r])
  {
  }

  // ----- independence of logical keys -----

  /** An upsert leaves alone everything another logical key's upsert reads. */
  lemma UpsertAgrees(s: Spaces, e: Event, f: Event)
    requires Keyed(s) && e.id != f.id
    ensures Agree(s, Upsert(s, e), f)
  {
  }

  lemma EditsCommute<K, V>(m: map<K, V>, d1: set<K>, k1: K, v1: V, d2: set<K>, k2: K, v2: V)
    requires k1 !in d2 && k2 !in d1 && k1 != k2
    ensures ((m - d1)[k1 := v1] - d2)[k2 := v2] == ((m - d2)[k2 := v2] - d1)[k1 := v1]
    ensures (m - d1)[k1 := v1] - d2 == ((m - d2) - d1)[k1 := v1]
    ensures (m - d1) - d2 == (m - d2) - d1
  {
  }

  lemma ReplacementsCommute(s: Spaces, de: set<RowKey>, ue: set<UserKey>, e: Event,
                            df: set<RowKey>, uf: set<UserKey>, f: Event)
    requires e.id != f.id
    requires KeyOf(e) !in df && KeyOf(f) !in de
    requires UserKey(e.user, KeyOf(e)) !in uf && UserKey(f.user, KeyOf(f)) !in ue
    ensures Install(Displace(Install(Displace(s, de, ue), e), df, uf), f)
         == Install(Displace(Install(Displace(s, df, uf), f), de, ue), e)
  {
    var ke, kf := KeyOf(e), KeyOf(f);
    EditsCommute(s.events, de, ke, Row(e), df, kf, Row(f));
    EditsCommute(s.idxUser, ue, UserKey(e.user, ke), Row(e), uf, UserKey(f.user, kf), Row(f));
    EditsCommute(s.sessions, de, ke, e.session, df, kf, f.session);
    EditsCommute(s.sessions, df, kf, f.session, de, ke, e.session);
    assert s.idxMsg[e.id := ke][f.id := kf] == s.idxMsg[f.id := kf][e.id := ke];
  }

  /** Upserts of different logical keys commute. */
  lemma UpsertsCommute(s: Spaces, e: Event, f: Event)
    requires Keyed(s) && e.id != f.id
    ensures Upsert(Upsert(s, e), f) == Upsert(Upsert(s, f), e)
  {
    UpsertAgrees(s, e, f);
    UpsertAgrees(s, f, e);
    if !Stale(s, e) && !Stale(s, f) {
      ReplacementsCommute(s, OldRows(s, e), OldEntries(s, e), e, OldRows(s, f), OldEntries(s, f), f);
    }
  }

  // ----- pruning and purging -----

  /** The pointers of one device that name rows older than the cutoff. */
  function OldPointers(s: Spaces, device: bytes, cutoff: int): set<LogicalKey> {
    set id | id in s.idxMsg && id.device == device && s.idxMsg[id].ts < cutoff
  }

  /** `cleanup_old_dedup` forgets pointers and keeps every row. */
  function Prune(s: Spaces, device: bytes, cutoff: int): Spaces {
    s.(idxMsg := s.idxMsg - OldPointers(s, device, cutoff))
  }

  function RowsOf(s: Spaces, device: bytes): set<RowKey> {
    set k | k in s.events && s.events[k].id.device == device
  }

  /** `delete_device_events` removes the device's rows with their own index entries and
      sessions, and every dedup pointer of the device. */
  function Purge(s: Spaces, device: bytes): Spaces {
    var rows := RowsOf(s, device);
    Spaces(s.events - rows,
           s.idxMsg - (set id | id in s.idxMsg && id.device == device),
           s.idxUser - (set k | k in rows :: UserKey(s.events[k].user, k)),
           s.sessions - rows)
  }

  /** Exactly the device's pointers to rows older than the cutoff are forgotten; every row stays. */
  lemma PruneExact(s: Spaces, device: bytes, cutoff: int)
    ensures Prune(s, device, cutoff) ==
      s.(idxMsg := map id | id in s.idxMsg && !(id.device == device && s.idxMsg[id].ts < cutoff) :: s.idxMsg[id])
  {
  }

  lemma PruneValid(s: Spaces, device: bytes, cutoff: int)
    ensures Keyed(s) ==> Keyed(Prune(s, device, cutoff))
    ensures UserIndexed(Prune(s, device, cutoff)) <==> UserIndexed(s)
  {
  }

  /** An index entry that is not the entry of its row. */
  predicate Stray(s: Spaces, uk: UserKey) { uk in s.idxUser && (uk.row !in s.events || s.events[uk.row].user != uk.user) }

  /** After a purge rows, pointers and sessions mention the device no more, the user index only by
      entries that were stray before, and everything of other devices stands. */
  lemma PurgeExact(s: Spaces, device: bytes)
    requires Keyed(s)
    ensures var t := Purge(s, device);
      Keyed(t) &&
      t.events == (map k | k in s.events && k.id.device != device :: s.events[k]) &&
      t.idxMsg == (map id | id in s.idxMsg && id.device != device :: s.idxMsg[id]) &&
      t.idxUser == (map uk | uk in s.idxUser && (uk.row.id.device != device || Stray(s, uk)) :: s.idxUser[uk]) &&
      t.sessions == (map k | k in s.sessions && k.id.device != device :: s.sessions[k])
  {
    PurgeIndex(s, device);
    PurgeRows(s, device);
  }

  /** So the device is gone from all four keyspaces exactly when it had no stray entry, which is
      always so in a consistent store. */
  lemma PurgeComplete(s: Spaces, device: bytes)
    requires Keyed(s)
    ensures (forall uk :: uk in Purge(s, device).idxUser ==> uk.row.id.device != device)
        <==> (forall uk :: uk in s.idxUser && uk.row.id.device == device ==> !Stray(s, uk))
    ensures UserIndexed(s) ==> UserIndexed(Purge(s, device)) && forall uk :: uk in s.idxUser ==> !Stray(s, uk)
  {
    PurgeIndex(s, device);
    PurgeRows(s, device);
  }

  lemma PurgeRows(s: Spaces, device: bytes)
    requires Keyed(s)
    ensures Purge(s, device).events == (map k | k in s.events && k.id.device != device :: s.events[k])
    ensures Purge(s, device).idxMsg == (map id | id in s.idxMsg && id.device != device :: s.idxMsg[id])
    ensures Purge(s, device).sessions == (map k | k in s.sessions && k.id.device != device :: s.sessions[k])
    ensures Keyed(Purge(s, device))
  {
    var rows := RowsOf(s, device);
    assert forall k :: k in s.events ==> (k in rows <==> k.id.device == device);
    assert forall k :: k in s.sessions ==> (k in rows <==> k.id.device == device);
  }

  lemma PurgeIndex(s: Spaces, device: bytes)
    requires Keyed(s)
    ensures Purge(s, device).idxUser
         == (map uk | uk in s.idxUser && (uk.row.id.device != device || Stray(s, uk)) :: s.idxUser[uk])
  {
    var rows := RowsOf(s, device);
    var entries := set k | k in rows :: UserKey(s.events[k].user, k);
    forall uk | uk in s.idxUser ensures uk in entries <==> uk.row.id.device == device && !Stray(s, uk) {
      assert uk.row in rows ==> UserKey(s.events[uk.row].user, uk.row) in entries;
    }
  }
}
