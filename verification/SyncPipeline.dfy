// Event ingestion: receive, write, advance the cursor, prune, acknowledge — with any number of
// connections interleaved and a failure or crash possible after every step.
module SyncPipeline {
  import opened ByteStrings
  import opened EventKeys
  import opened EventSpaces
  import opened EventStore

  const MAX_BATCH_SIZE: nat := 50_000

  /** Whose position in a device's log a cursor is. */
  datatype CursorKey = CursorKey(device: bytes, provider: bytes)

  function CursorOf(id: LogicalKey): CursorKey { CursorKey(id.device, id.provider) }

  // ----- cursors -----

  /** `INSERT OR IGNORE … last_ts = 0`. */
  function EnsureCursor(cursors: map<CursorKey, int>, c: CursorKey): map<CursorKey, int> {
    if c in cursors then cursors else cursors[c := 0]
  }

  /** `UPDATE … SET last_ts = MAX(last_ts, ts)`, which touches nothing when the row is missing. */
  function AdvanceCursor(cursors: map<CursorKey, int>, c: CursorKey, ts: int): map<CursorKey, int> {
    if c in cursors && cursors[c] < ts then cursors[c := ts] else cursors
  }

  function LastTs(cursors: map<CursorKey, int>, c: CursorKey): int {
    if c in cursors then cursors[c] else 0
  }

  /** The newest timestamp of a batch, 0 for an empty one. */
  function MaxTs(batch: seq<Event>): (m: i64)
    ensures batch != [] ==> exists e :: e in batch && e.ts == m
    ensures forall e :: e in batch ==> e.ts <= m
  {
    if batch == [] then 0
    else if |batch| == 1 then batch[0].ts
    else
      var rest := MaxTs(batch[1..]);
      if batch[0].ts > rest then batch[0].ts else rest
  }

  /** The configured dedup retention in seconds, as validated at startup. */
  type Retention = r: int | 0 < r && r * 1000 < I64_LIMIT witness 1

  /** 64-bit arithmetic wraps around. */
  function WrapI64(x: int): i64 { (x + I64_LIMIT) % U64_LIMIT - I64_LIMIT }

  /** Dedup pointers older than this are forgotten, if it is positive. */
  function CutoffMs(maxTs: i64, retention: Retention): i64 { WrapI64(maxTs - retention * 1000) }

  /** The cutoff is the intended one unless the batch is dated within the retention of the least
      64-bit timestamp; then it wraps around, and the prune that should not run does. */
  lemma CutoffWraps(maxTs: i64, retention: Retention)
    ensures CutoffMs(maxTs, retention) == maxTs - retention * 1000 <==> maxTs >= retention * 1000 - I64_LIMIT
    ensures CutoffMs(maxTs, retention) > 0 <==> maxTs > retention * 1000 || maxTs < retention * 1000 - I64_LIMIT
  {
  }

  // ----- the protocol as a state machine -----

  datatype Phase = Got(batch: seq<Event>) | Written(batch: seq<Event>) | Advanced(batch: seq<Event>) | Ready(batch: seq<Event>)

  /** `conns` holds the batch each connection is working on; `acked` every event whose batch was
      acknowledged. */
  datatype Server = Server(store: Spaces, cursors: map<CursorKey, int>, conns: map<nat, Phase>, acked: set<Event>)

  const START: Server := Server(EMPTY, map[], map[], {})

  datatype Action =
    | Ensure(cursor: CursorKey)
    | Receive(conn: nat, cursor: CursorKey, batch: seq<Event>)
    | Write(conn: nat)
    | Advance(conn: nat)
    | PruneOld(conn: nat, succeeds: bool)
    | Ack(conn: nat)
    | Fail(conn: nat)
    | Crash

  function Target(batch: seq<Event>): CursorKey
    requires batch != []
  {
    CursorOf(batch[0].id)
  }

  predicate Enabled(s: Server, a: Action) {
    match a
    case Ensure(_) => true
    case Receive(c, k, b) =>
      c !in s.conns && 0 < |b| <= MAX_BATCH_SIZE && forall e :: e in b ==> CursorOf(e.id) == k
    case Write(c) => c in s.conns && s.conns[c].Got?
    case Advance(c) => c in s.conns && s.conns[c].Written? && s.conns[c].batch != []
    case PruneOld(c, _) => c in s.conns && s.conns[c].Advanced? && s.conns[c].batch != []
    case Ack(c) => c in s.conns && s.conns[c].Ready?
    case Fail(c) => c in s.conns
    case Crash => true
  }

  ghost function Step(s: Server, a: Action, retention: Retention): Server
    requires Enabled(s, a)
  {
    match a
    case Ensure(k) => s.(cursors := EnsureCursor(s.cursors, k))
    case Receive(c, k, b) => s.(cursors := EnsureCursor(s.cursors, k), conns := s.conns[c := Got(b)])
    case Write(c) =>
      var b := s.conns[c].batch;
      s.(store := UpsertAll(s.store, Winners(b)), conns := s.conns[c := Written(b)])
    case Advance(c) =>
      var b := s.conns[c].batch;
      s.(cursors := AdvanceCursor(s.cursors, Target(b), MaxTs(b)), conns := s.conns[c := Advanced(b)])
    case PruneOld(c, succeeds) =>
      var b := s.conns[c].batch;
      var cutoff := CutoffMs(MaxTs(b), retention);
      s.(store := if cutoff > 0 && succeeds then Prune(s.store, Target(b).device, cutoff) else s.store,
         conns := s.conns[c := Ready(b)])
    case Ack(c) => s.(acked := s.acked + (set e | e in s.conns[c].batch), conns := s.conns - {c})
    case Fail(c) => s.(conns := s.conns - {c})
    case Crash => s.(conns := map[])
  }

  ghost predicate Runs(s: Server, actions: seq<Action>, retention: Retention)
    decreases |actions|
  {
    actions == [] || (Enabled(s, actions[0]) && Runs(Step(s, actions[0], retention), actions[1..], retention))
  }

  ghost function After(s: Server, actions: seq<Action>, retention: Retention): Server
    requires Runs(s, actions, retention)
    decreases |actions|
  {
    if actions == [] then s else After(Step(s, actions[0], retention), actions[1..], retention)
  }

  // ----- invariant -----

  /** A row of the event's logical key at least as new is stored. */
  ghost predicate Covered(s: Spaces, e: Event) {
    exists k :: k in s.events && k.id == e.id && k.ts >= e.ts
  }

  ghost predicate StoredUpTo(s: Spaces, c: CursorKey, ts: int) {
    exists k :: k in s.events && CursorOf(k.id) == c && k.ts >= ts
  }

  ghost predicate Reached(cursors: map<CursorKey, int>, e: Event) {
    CursorOf(e.id) in cursors && cursors[CursorOf(e.id)] >= e.ts
  }

  ghost predicate PhaseOk(s: Server, p: Phase) {
    p.batch != [] && Target(p.batch) in s.cursors &&
    (forall e :: e in p.batch ==> CursorOf(e.id) == Target(p.batch)) &&
    (!p.Got? ==> forall e :: e in p.batch ==> Covered(s.store, e)) &&
    (p.Advanced? || p.Ready? ==> forall e :: e in p.batch ==> Reached(s.cursors, e))
  }

  ghost predicate PhasesOk(s: Server) { forall c :: c in s.conns ==> PhaseOk(s, s.conns[c]) }

  ghost predicate CursorsOk(s: Server) {
    forall k :: k in s.cursors ==> s.cursors[k] >= 0 && (s.cursors[k] == 0 || StoredUpTo(s.store, k, s.cursors[k]))
  }

  ghost predicate AckedOk(s: Server) { forall e :: e in s.acked ==> Covered(s.store, e) && Reached(s.cursors, e) }

  ghost predicate Inv(s: Server) { Keyed(s.store) && PhasesOk(s) && CursorsOk(s) && AckedOk(s) }

  /** Everything covered stays covered, and cursors only move forward. */
  ghost predicate Grows(s: Server, t: Server) {
    (forall e :: Covered(s.store, e) ==> Covered(t.store, e)) &&
    (forall c, ts :: StoredUpTo(s.store, c, ts) ==> StoredUpTo(t.store, c, ts)) &&
    (forall c :: c in s.cursors ==> c in t.cursors && s.cursors[c] <= t.cursors[c]) &&
    s.acked <= t.acked
  }

  lemma UpsertCovers(s: Spaces, e: Event)
    requires Keyed(s)
    ensures Keyed(Upsert(s, e)) && Covered(Upsert(s, e), e)
    ensures forall k :: k in s.events ==> exists l :: l in Upsert(s, e).events && l.id == k.id && l.ts >= k.ts
  {
    UpsertKeyed(s, e);
    var t := Upsert(s, e);
    if Stale(s, e) {
      assert s.idxMsg[e.id] in t.events;
    } else {
      assert KeyOf(e) in t.events;
      forall k | k in s.events ensures exists l :: l in t.events && l.id == k.id && l.ts >= k.ts {
        assert k in t.events || (k.id == e.id && k.ts <= KeyOf(e).ts);
      }
    }
  }

  lemma {:induction false} UpsertAllCovers(s: Spaces, w: map<LogicalKey, Event>)
    requires Keyed(s)
    ensures Keyed(UpsertAll(s, w))
    ensures forall id :: id in w ==> Covered(UpsertAll(s, w), w[id])
    ensures forall k :: k in s.events ==> exists l :: l in UpsertAll(s, w).events && l.id == k.id && l.ts >= k.ts
    decreases w.Keys
  {
    if w == map[] {
    } else {
      var first := Pick(w);
      var mid, t := Upsert(s, w[first]), UpsertAll(s, w);
      UpsertCovers(s, w[first]);
      UpsertAllCovers(mid, w - {first});
      forall k | k in s.events ensures exists l :: l in t.events && l.id == k.id && l.ts >= k.ts {
        var m :| m in mid.events && m.id == k.id && m.ts >= k.ts;
        var l :| l in t.events && l.id == m.id && l.ts >= m.ts;
      }
      forall id | id in w ensures Covered(t, w[id]) {
        if id == first {
          var m :| m in mid.events && m.id == w[id].id && m.ts >= w[id].ts;
          var l :| l in t.events && l.id == m.id && l.ts >= m.ts;
        } else {
          assert (w - {first})[id] == w[id];
        }
      }
    }
  }

  lemma WriteCovers(s: Spaces, batch: seq<Event>)
    requires Keyed(s)
    ensures var t := UpsertAll(s, Winners(batch)); Keyed(t) && forall e :: e in batch ==> Covered(t, e)
  {
    UpsertAllCovers(s, Winners(batch));
    var t := UpsertAll(s, Winners(batch));
    forall e | e in batch ensures Covered(t, e) {
      assert e.id in Winners(batch);
      var w := Winners(batch)[e.id];
      assert Covered(t, w) && w.ts >= e.ts;
    }
  }

  lemma WriteGrows(s: Spaces, w: map<LogicalKey, Event>)
    requires Keyed(s)
    ensures forall e :: Covered(s, e) ==> Covered(UpsertAll(s, w), e)
    ensures forall c, ts :: StoredUpTo(s, c, ts) ==> StoredUpTo(UpsertAll(s, w), c, ts)
  {
    UpsertAllCovers(s, w);
    var t := UpsertAll(s, w);
    forall e | Covered(s, e) ensures Covered(t, e) {
      var k :| k in s.events && k.id == e.id && k.ts >= e.ts;
      var l :| l in t.events && l.id == k.id && l.ts >= k.ts;
    }
    forall c, ts | StoredUpTo(s, c, ts) ensures StoredUpTo(t, c, ts) {
      var k :| k in s.events && CursorOf(k.id) == c && k.ts >= ts;
      var l :| l in t.events && l.id == k.id && l.ts >= k.ts;
    }
  }

  lemma StepGrows(s: Server, a: Action, retention: Retention)
    requires Inv(s) && Enabled(s, a)
    ensures Grows(s, Step(s, a, retention))
  {
    CursorsGrow(s, a, retention);
    if a.Write? {
      WriteGrows(s.store, Winners(s.conns[a.conn].batch));
    } else {
      RowsKept(s, a, retention);
      SameRowsGrow(s.store, Step(s, a, retention).store);
    }
  }

  lemma CursorsGrow(s: Server, a: Action, retention: Retention)
    requires Enabled(s, a)
    ensures var t := Step(s, a, retention);
      (forall c :: c in s.cursors ==> c in t.cursors && s.cursors[c] <= t.cursors[c]) && s.acked <= t.acked
  {
  }

  lemma RowsKept(s: Server, a: Action, retention: Retention)
    requires Enabled(s, a) && !a.Write?
    ensures Step(s, a, retention).store.events == s.store.events
  {
  }

  lemma SameRowsGrow(s: Spaces, t: Spaces)
    requires s.events == t.events
    ensures forall e :: Covered(s, e) ==> Covered(t, e)
    ensures forall c, ts :: StoredUpTo(s, c, ts) ==> StoredUpTo(t, c, ts)
  {
  }

  lemma PhaseKept(s: Server, t: Server, p: Phase)
    requires PhaseOk(s, p) && Grows(s, t)
    ensures PhaseOk(t, p)
  {
  }

  lemma OthersKept(s: Server, t: Server)
    requires Inv(s) && Grows(s, t)
    requires forall c :: c in t.conns ==> (c in s.conns && t.conns[c] == s.conns[c]) || PhaseOk(t, t.conns[c])
    ensures PhasesOk(t)
  {
  }

  lemma WriteKeepsInv(s: Server, c: nat, retention: Retention)
    requires Inv(s) && Enabled(s, Write(c))
    ensures Inv(Step(s, Write(c), retention))
  {
    StepGrows(s, Write(c), retention);
    var t := Step(s, Write(c), retention);
    WriteCovers(s.store, s.conns[c].batch);
    assert PhaseOk(s, s.conns[c]);
    OthersKept(s, t);
  }

  lemma BatchStoredUpTo(s: Spaces, batch: seq<Event>)
    requires batch != [] && forall e :: e in batch ==> CursorOf(e.id) == Target(batch) && Covered(s, e)
    ensures StoredUpTo(s, Target(batch), MaxTs(batch))
  {
  }

  lemma AdvanceCursorsOk(s: Server, batch: seq<Event>)
    requires CursorsOk(s) && batch != [] && StoredUpTo(s.store, Target(batch), MaxTs(batch))
    ensures CursorsOk(s.(cursors := AdvanceCursor(s.cursors, Target(batch), MaxTs(batch))))
  {
  }

  lemma AdvanceReaches(s: Server, batch: seq<Event>)
    requires PhaseOk(s, Written(batch))
    ensures PhaseOk(s.(cursors := AdvanceCursor(s.cursors, Target(batch), MaxTs(batch))), Advanced(batch))
  {
  }

  lemma AdvanceKeepsInv(s: Server, c: nat, retention: Retention)
    requires Inv(s) && Enabled(s, Advance(c))
    ensures Inv(Step(s, Advance(c), retention))
  {
    var b := s.conns[c].batch;
    var t := Step(s, Advance(c), retention);
    assert PhaseOk(s, Written(b));
    assert CursorsOk(t) by {
      BatchStoredUpTo(s.store, b);
      AdvanceCursorsOk(s, b);
    }
    assert PhasesOk(t) by {
      AdvanceReaches(s, b);
      assert PhaseOk(t, Advanced(b));
      StepGrows(s, Advance(c), retention);
      OthersKept(s, t);
    }
  }

  lemma ReceiveKeepsInv(s: Server, a: Action, retention: Retention)
    requires Inv(s) && Enabled(s, a) && a.Receive?
    ensures Inv(Step(s, a, retention))
  {
    StepGrows(s, a, retention);
    assert a.batch[0] in a.batch;
    assert PhaseOk(Step(s, a, retention), Got(a.batch));
    OthersKept(s, Step(s, a, retention));
  }

  lemma PruneKeepsInv(s: Server, a: Action, retention: Retention)
    requires Inv(s) && Enabled(s, a) && a.PruneOld?
    ensures Inv(Step(s, a, retention))
  {
    StepGrows(s, a, retention);
    assert PhaseOk(s, s.conns[a.conn]);
    PhaseKept(s, Step(s, a, retention), s.conns[a.conn]);
    OthersKept(s, Step(s, a, retention));
  }

  /** Ensuring a cursor, acknowledging, failing and crashing. */
  lemma LeavingKeepsInv(s: Server, a: Action, retention: Retention)
    requires Inv(s) && Enabled(s, a) && (a.Ensure? || a.Ack? || a.Fail? || a.Crash?)
    ensures Inv(Step(s, a, retention))
  {
    StepGrows(s, a, retention);
    if a.Ack? { assert PhaseOk(s, s.conns[a.conn]); }
    OthersKept(s, Step(s, a, retention));
  }

  lemma StepKeepsInv(s: Server, a: Action, retention: Retention)
    requires Inv(s) && Enabled(s, a)
    ensures Inv(Step(s, a, retention))
  {
    match a
    case Write(c) => WriteKeepsInv(s, c, retention);
    case Advance(c) => AdvanceKeepsInv(s, c, retention);
    case Receive(_, _, _) => ReceiveKeepsInv(s, a, retention);
    case PruneOld(_, _) => PruneKeepsInv(s, a, retention);
    case _ => LeavingKeepsInv(s, a, retention);
  }

  lemma {:induction false} RunKeepsInv(s: Server, actions: seq<Action>, retention: Retention)
    requires Inv(s) && Runs(s, actions, retention)
    ensures Inv(After(s, actions, retention)) && Grows(s, After(s, actions, retention))
    decreases |actions|
  {
    if actions == [] {
    } else {
      StepGrows(s, actions[0], retention);
      StepKeepsInv(s, actions[0], retention);
      RunKeepsInv(Step(s, actions[0], retention), actions[1..], retention);
    }
  }

  /** Whatever the interleaving and wherever it fails: a cursor never runs ahead of what is
      stored, and an acknowledged event is stored, at least as new, below its cursor. */
  lemma NoAcknowledgedLoss(actions: seq<Action>, retention: Retention)
    requires Runs(START, actions, retention)
    ensures var s := After(START, actions, retention);
      (forall c :: c in s.cursors ==> s.cursors[c] <= 0 || exists k :: k in s.store.events && CursorOf(k.id) == c && k.ts >= s.cursors[c]) &&
      (forall e :: e in s.acked ==>
         (exists k :: k in s.store.events && k.id == e.id && k.ts >= e.ts) &&
         CursorOf(e.id) in s.cursors && s.cursors[CursorOf(e.id)] >= e.ts)
  {
    RunKeepsInv(START, actions, retention);
    var s := After(START, actions, retention);
    forall c | c in s.cursors && s.cursors[c] > 0
      ensures exists k :: k in s.store.events && CursorOf(k.id) == c && k.ts >= s.cursors[c]
    {
      assert StoredUpTo(s.store, c, s.cursors[c]);
    }
    forall e | e in s.acked ensures exists k :: k in s.store.events && k.id == e.id && k.ts >= e.ts {
      assert Covered(s.store, e);
    }
  }

  /** At every reachable state what the server answers is stored: an acknowledgement names the
      newest timestamp of its batch and an empty batch is answered with the cursor, and neither is
      positive without a stored row of the device and provider at least as new. */
  lemma AnswersAreStored(actions: seq<Action>, retention: Retention, conn: nat, c: CursorKey)
    requires Runs(START, actions, retention)
    ensures var s := After(START, actions, retention);
      (LastTs(s.cursors, c) > 0 ==> exists k :: k in s.store.events && CursorOf(k.id) == c && k.ts >= LastTs(s.cursors, c)) &&
      (conn in s.conns && s.conns[conn].Ready? && Enabled(s, Ack(conn)) ==>
         s.conns[conn].batch != [] && NewestAnswered(s.conns[conn].batch, MaxTs(s.conns[conn].batch)) &&
         exists k :: k in s.store.events && CursorOf(k.id) == Target(s.conns[conn].batch) && k.ts >= MaxTs(s.conns[conn].batch))
  {
    RunKeepsInv(START, actions, retention);
    var s := After(START, actions, retention);
    if c in s.cursors && s.cursors[c] > 0 { assert StoredUpTo(s.store, c, s.cursors[c]); }
    if conn in s.conns && s.conns[conn].Ready? {
      assert PhaseOk(s, s.conns[conn]);
      BatchStoredUpTo(s.store, s.conns[conn].batch);
    }
  }

  /** A cursor handed to a client is never taken back. */
  lemma CursorsOnlyAdvance(before: seq<Action>, after: seq<Action>, retention: Retention, c: CursorKey)
    requires Runs(START, before, retention) && Runs(After(START, before, retention), after, retention)
    ensures LastTs(After(START, before, retention).cursors, c)
         <= LastTs(After(After(START, before, retention), after, retention).cursors, c)
  {
    RunKeepsInv(START, before, retention);
    RunKeepsInv(After(START, before, retention), after, retention);
  }

  // ----- the handler -----

  datatype Fault = NoFault | WriteFails | AdvanceFails | PruneFails

  datatype Reply = Ok(lastTs: int) | Err

  /** One server's stores as `handle_sync_batch` sees them. */
  class SyncHandler {
    const events: FjallEventStore
    const retention: Retention
    var cursors: map<CursorKey, int>

    constructor (events: FjallEventStore, retention: Retention)
      ensures this.events == events && this.retention == retention && cursors == map[]
    {
      this.events, this.retention, cursors := events, retention, map[];
    }

    /** `handle_sync_batch`, with the fault that strikes it. */
    method HandleSyncBatch(c: CursorKey, batch: seq<Event>, fault: Fault) returns (r: Reply)
      requires Keyed(events.Contents())
      modifies this`cursors, events`events, events`idxMsg, events`idxUser, events`sessions
      ensures Outcome(events.Contents(), cursors, r)
           == Handled(old(events.Contents()), old(cursors), c, batch, fault, retention)
      ensures batch == [] ==> r == Ok(if c in old(cursors) then old(cursors)[c] else 0)
      ensures batch == [] || |batch| > 50_000 || fault == WriteFails ==>
        events.Contents() == old(events.Contents()) && cursors == old(cursors)
      ensures r.Ok? <==> batch == [] || (|batch| <= 50_000 && (fault == NoFault || fault == PruneFails))
      ensures r.Ok? && batch != [] ==> NewestAnswered(batch, r.lastTs) && CursorMoved(old(cursors), cursors, c, r.lastTs)
      ensures r.Ok? && (forall e :: e in batch ==> CursorOf(e.id) == c) && batch != [] ==> StoredUpTo(events.Contents(), c, r.lastTs)
      ensures r.Ok? && batch != [] && fault == NoFault ==> PointersPruned(events.Contents(), c.device, r.lastTs - retention * 1000)
      ensures fault == PruneFails ==> forall id :: id in old(events.idxMsg) ==> id in events.idxMsg
    {
      if batch == [] {
        return Ok(LastTs(cursors, c));
      }
      if |batch| > MAX_BATCH_SIZE || fault == WriteFails {
        return Err;
      }
      events.UpsertEvents(batch);
      if fault == AdvanceFails {
        return Err;
      }
      ghost var written := events.Contents();
      WriteAnswered(old(events.Contents()), c, batch);
      r := AdvanceAndPrune(c, MaxTs(batch), fault);
      assert StoredUpTo(written, c, MaxTs(batch)) ==> StoredUpTo(events.Contents(), c, MaxTs(batch));
    }

    /** What follows the write: the cursor, then the prune, whose failure is ignored. */
    method AdvanceAndPrune(c: CursorKey, maxTs: i64, fault: Fault) returns (r: Reply)
      modifies this`cursors, events`events, events`idxMsg, events`idxUser, events`sessions
      ensures Outcome(events.Contents(), cursors, r) == Finished(old(events.Contents()), old(cursors), c, maxTs, fault, retention)
      ensures r == Ok(maxTs) && CursorMoved(old(cursors), cursors, c, maxTs)
      ensures events.events == old(events.events) && (fault == PruneFails ==> events.idxMsg == old(events.idxMsg))
      ensures fault != PruneFails ==> PointersPruned(events.Contents(), c.device, maxTs - retention * 1000)
    {
      CutoffWraps(maxTs, retention);
      cursors := AdvanceCursor(cursors, c, maxTs);
      var cutoff := CutoffMs(maxTs, retention);
      if cutoff > 0 && fault != PruneFails {
        events.CleanupOldDedup(c.device, cutoff);
      }
      return Ok(maxTs);
    }
  }

  /** The answered timestamp is that of the newest event of the batch. */
  ghost predicate NewestAnswered(batch: seq<Event>, ts: int) {
    (exists e :: e in batch && e.ts == ts) && forall e :: e in batch ==> e.ts <= ts
  }

  /** The cursor is at the later of its old place and the timestamp; no other cursor moves. */
  ghost predicate CursorMoved(before: map<CursorKey, int>, after: map<CursorKey, int>, c: CursorKey, ts: int) {
    after.Keys == before.Keys &&
    forall k :: k in before ==> after[k] == if k == c && before[k] < ts then ts else before[k]
  }

  /** Past a positive cutoff no dedup pointer of the device is left below it. */
  ghost predicate PointersPruned(s: Spaces, device: bytes, cutoff: int) {
    cutoff > 0 ==> forall id :: id in s.idxMsg && id.device == device ==> s.idxMsg[id].ts >= cutoff
  }

  lemma WriteAnswered(s: Spaces, c: CursorKey, batch: seq<Event>)
    requires Keyed(s) && batch != []
    ensures NewestAnswered(batch, MaxTs(batch))
    ensures (forall e :: e in batch ==> CursorOf(e.id) == c) ==> StoredUpTo(UpsertAll(s, Winners(batch)), c, MaxTs(batch))
    ensures forall id :: id in s.idxMsg ==> id in UpsertAll(s, Winners(batch)).idxMsg
  {
    WriteCovers(s, batch);
    assert batch[0] in batch;
    if forall e :: e in batch ==> CursorOf(e.id) == c {
      BatchStoredUpTo(UpsertAll(s, Winners(batch)), batch);
    }
    PointersKept(s, Winners(batch));
  }

  lemma {:induction false} PointersKept(s: Spaces, w: map<LogicalKey, Event>)
    ensures forall id :: id in s.idxMsg ==> id in UpsertAll(s, w).idxMsg
    decreases w.Keys
  {
    if w == map[] {
    } else {
      PointersKept(Upsert(s, w[Pick(w)]), w - {Pick(w)});
    }
  }

  datatype Outcome = Outcome(store: Spaces, cursors: map<CursorKey, int>, reply: Reply)

  /** A batch is answered with success only once it is written and the cursor moved; a failed
      prune is ignored. */
  ghost function Handled(store: Spaces, cursors: map<CursorKey, int>, c: CursorKey, batch: seq<Event>,
                         fault: Fault, retention: Retention): Outcome
  {
    if batch == [] then Outcome(store, cursors, Ok(LastTs(cursors, c)))
    else if |batch| > MAX_BATCH_SIZE || fault == WriteFails then Outcome(store, cursors, Err)
    else
      var written := UpsertAll(store, Winners(batch));
      if fault == AdvanceFails then Outcome(written, cursors, Err)
      else Finished(written, cursors, c, MaxTs(batch), fault, retention)
  }

  ghost function Finished(written: Spaces, cursors: map<CursorKey, int>, c: CursorKey, maxTs: i64, fault: Fault, retention: Retention): Outcome {
    var cutoff := CutoffMs(maxTs, retention);
    Outcome(if cutoff > 0 && fault != PruneFails then Prune(written, c.device, cutoff) else written,
            AdvanceCursor(cursors, c, maxTs), Ok(maxTs))
  }

  /** The steps one uninterrupted call of the handler takes on connection `conn`; an empty or
      oversized batch is answered at once. */
  function Steps(conn: nat, c: CursorKey, batch: seq<Event>, fault: Fault): seq<Action> {
    if batch == [] || |batch| > MAX_BATCH_SIZE then [Ensure(c)]
    else
      [Receive(conn, c, batch)] +
      match fault
      case WriteFails => [Fail(conn)]
      case AdvanceFails => [Write(conn), Fail(conn)]
      case _ => [Write(conn), Advance(conn), PruneOld(conn, fault == NoFault), Ack(conn)]
  }

  /** The handler is a run of the protocol: same store, same cursors, and it answers with success
      exactly when the protocol acknowledges the batch. */
  lemma HandlerFollowsProtocol(s: Server, conn: nat, c: CursorKey, batch: seq<Event>, fault: Fault, retention: Retention)
    requires conn !in s.conns && forall e :: e in batch ==> CursorOf(e.id) == c
    ensures Follows(s, conn, c, batch, fault, retention)
  {
    if batch == [] || |batch| > MAX_BATCH_SIZE {
      FirstStep(s, Ensure(c), [], retention);
      assert s.acked + (set e | e in batch && batch == []) == s.acked;
    } else {
      AcceptedFollows(s, conn, c, batch, fault, retention);
    }
  }

  lemma AcceptedFollows(s: Server, conn: nat, c: CursorKey, batch: seq<Event>, fault: Fault, retention: Retention)
    requires Enabled(s, Receive(conn, c, batch))
    ensures Follows(s, conn, c, batch, fault, retention)
  {
    assert batch[0] in batch;
    var s1 := Step(s, Receive(conn, c, batch), retention);
    assert s1.conns == s.conns[conn := Got(batch)];
    match fault {
      case WriteFails =>
        FirstStep(s1, Fail(conn), [], retention);
        FirstStep(s, Receive(conn, c, batch), [Fail(conn)], retention);
      case AdvanceFails =>
        AfterWriteFailure(s, s1, conn, c, batch, retention);
      case _ =>
        AfterSuccess(s, s1, conn, c, batch, fault, retention);
    }
  }

  ghost predicate Follows(s: Server, conn: nat, c: CursorKey, batch: seq<Event>, fault: Fault, retention: Retention) {
    var steps := Steps(conn, c, batch, fault);
    Runs(s, steps, retention) &&
    var t, h := After(s, steps, retention), Handled(s.store, EnsureCursor(s.cursors, c), c, batch, fault, retention);
    t.store == h.store && t.cursors == h.cursors && conn !in t.conns &&
    t.acked == (if h.reply.Ok? then s.acked + (set e | e in batch) else s.acked) &&
    (h.reply.Ok? ==> if batch == [] then h.reply.lastTs == LastTs(s.cursors, c) else NewestAnswered(batch, h.reply.lastTs))
  }

  lemma AfterWriteFailure(s: Server, s1: Server, conn: nat, c: CursorKey, batch: seq<Event>, retention: Retention)
    requires Enabled(s, Receive(conn, c, batch)) && s1 == Step(s, Receive(conn, c, batch), retention)
    ensures Follows(s, conn, c, batch, AdvanceFails, retention)
  {
    var s2 := Step(s1, Write(conn), retention);
    FirstStep(s2, Fail(conn), [], retention);
    FirstStep(s1, Write(conn), [Fail(conn)], retention);
    assert [Write(conn)] + [Fail(conn)] == [Write(conn), Fail(conn)];
    FirstStep(s, Receive(conn, c, batch), [Write(conn), Fail(conn)], retention);
  }

  lemma AfterSuccess(s: Server, s1: Server, conn: nat, c: CursorKey, batch: seq<Event>, fault: Fault, retention: Retention)
    requires Enabled(s, Receive(conn, c, batch)) && s1 == Step(s, Receive(conn, c, batch), retention)
    requires fault == NoFault || fault == PruneFails
    ensures Follows(s, conn, c, batch, fault, retention)
  {
    var prunes := fault == NoFault;
    var s2 := Step(s1, Write(conn), retention);
    assert batch[0] in batch && s2.conns[conn] == Written(batch);
    WrittenToAcked(s2, conn, batch, prunes, retention);
    FirstStep(s1, Write(conn), [Advance(conn), PruneOld(conn, prunes), Ack(conn)], retention);
    assert [Write(conn)] + [Advance(conn), PruneOld(conn, prunes), Ack(conn)]
        == [Write(conn), Advance(conn), PruneOld(conn, prunes), Ack(conn)];
    FirstStep(s, Receive(conn, c, batch), [Write(conn), Advance(conn), PruneOld(conn, prunes), Ack(conn)], retention);
  }

  lemma FirstStep(s: Server, a: Action, rest: seq<Action>, retention: Retention)
    requires Enabled(s, a) && Runs(Step(s, a, retention), rest, retention)
    ensures Runs(s, [a] + rest, retention)
    ensures After(s, [a] + rest, retention) == After(Step(s, a, retention), rest, retention)
  {
  }

  lemma WrittenToAcked(s: Server, conn: nat, batch: seq<Event>, prunes: bool, retention: Retention)
    requires conn in s.conns && s.conns[conn] == Written(batch) && batch != []
    ensures var tail := [Advance(conn), PruneOld(conn, prunes), Ack(conn)];
      var cutoff := CutoffMs(MaxTs(batch), retention);
      Runs(s, tail, retention) &&
      After(s, tail, retention) ==
        Server(if cutoff > 0 && prunes then Prune(s.store, Target(batch).device, cutoff) else s.store,
               AdvanceCursor(s.cursors, Target(batch), MaxTs(batch)), s.conns - {conn}, s.acked + (set e | e in batch))
  {
    var s3 := Step(s, Advance(conn), retention);
    var s4 := Step(s3, PruneOld(conn, prunes), retention);
    FirstStep(s4, Ack(conn), [], retention);
    FirstStep(s3, PruneOld(conn, prunes), [Ack(conn)], retention);
    FirstStep(s, Advance(conn), [PruneOld(conn, prunes), Ack(conn)], retention);
    assert [PruneOld(conn, prunes)] + [Ack(conn)] == [PruneOld(conn, prunes), Ack(conn)];
    assert [Advance(conn)] + [PruneOld(conn, prunes), Ack(conn)] == [Advance(conn), PruneOld(conn, prunes), Ack(conn)];
    assert s4.conns - {conn} == s.conns - {conn};
  }
}
