// The purge on a client's schema mismatch, among the steps of the sync protocol: it deletes the
// rows of all providers of a device and resets the cursor of one.
module SyncResets {
  import opened ByteStrings
  import opened EventKeys
  import opened EventSpaces
  import opened EventStore
  import opened SyncPipeline

  /** Either half of a reset may fail; the handler goes on regardless. */
  datatype Happening = Protocol(a: Action) | Reset(c: CursorKey, purges: bool, resets: bool)

  /** `UPDATE … SET last_ts = 0`, which touches nothing when the row is missing. */
  function ResetCursor(cursors: map<CursorKey, int>, c: CursorKey): map<CursorKey, int> {
    if c in cursors then cursors[c := 0] else cursors
  }

  /** An acknowledgement counts until the event's rows are purged or its cursor is reset: from then
      on the client sends everything again. */
  ghost function AfterReset(s: Server, c: CursorKey, purges: bool, resets: bool): Server {
    Server(if purges then Purge(s.store, c.device) else s.store,
           if resets then ResetCursor(s.cursors, c) else s.cursors,
           s.conns,
           set e | e in s.acked && !(purges && e.id.device == c.device) && !(resets && CursorOf(e.id) == c))
  }

  ghost predicate Possible(s: Server, h: Happening) { h.Protocol? ==> Enabled(s, h.a) }

  ghost function Next(s: Server, h: Happening, retention: Retention): Server
    requires Possible(s, h)
  {
    match h
    case Protocol(a) => Step(s, a, retention)
    case Reset(c, purges, resets) => AfterReset(s, c, purges, resets)
  }

  // ----- what a reset must not meet -----

  /** No other provider of the device has a positive cursor — nor its own, if that is not reset. */
  ghost predicate CursorsLetGo(s: Server, c: CursorKey, resets: bool) {
    forall k :: k in s.cursors && k.device == c.device && !(resets && k == c) ==> s.cursors[k] == 0
  }

  /** No connection holds a batch of the device that is written and not yet acknowledged. */
  ghost predicate NothingInFlight(s: Server, device: bytes) {
    forall x :: x in s.conns && !s.conns[x].Got? && s.conns[x].batch != [] ==> Target(s.conns[x].batch).device != device
  }

  /** No connection holds a batch of the cursor past which it was advanced. */
  ghost predicate NotPassed(s: Server, c: CursorKey) {
    forall x, e :: x in s.conns && (s.conns[x].Advanced? || s.conns[x].Ready?) && e in s.conns[x].batch && CursorOf(e.id) == c ==> e.ts <= 0
  }

  ghost predicate Harmless(s: Server, h: Happening) {
    match h
    case Protocol(_) => true
    case Reset(c, purges, resets) =>
      (purges ==> CursorsLetGo(s, c, resets) && NothingInFlight(s, c.device)) &&
      (!purges && resets ==> NotPassed(s, c))
  }

  lemma PurgedStore(s: Spaces, device: bytes)
    requires Keyed(s)
    ensures Keyed(Purge(s, device))
    ensures forall e :: Covered(Purge(s, device), e) <==> e.id.device != device && Covered(s, e)
    ensures forall c, ts :: StoredUpTo(Purge(s, device), c, ts) <==> c.device != device && StoredUpTo(s, c, ts)
  {
    PurgeRows(s, device);
    var t := Purge(s, device);
    forall e ensures Covered(t, e) <==> e.id.device != device && Covered(s, e) {
      if Covered(s, e) && e.id.device != device {
        var k :| k in s.events && k.id == e.id && k.ts >= e.ts;
        assert k in t.events;
      }
    }
    forall c, ts ensures StoredUpTo(t, c, ts) <==> c.device != device && StoredUpTo(s, c, ts) {
      if StoredUpTo(s, c, ts) && c.device != device {
        var k :| k in s.events && CursorOf(k.id) == c && k.ts >= ts;
        assert k in t.events;
      }
    }
  }

  lemma CursorsAfter(s: Server, c: CursorKey, purges: bool, resets: bool)
    requires Inv(s)
    ensures CursorsOk(AfterReset(s, c, purges, resets)) <==> (purges ==> CursorsLetGo(s, c, resets))
  {
    PurgedStore(s.store, c.device);
    var t := AfterReset(s, c, purges, resets);
    forall k | k in s.cursors
      ensures k in t.cursors && t.cursors[k] == if resets && k == c then 0 else s.cursors[k]
      ensures s.cursors[k] > 0 ==> (StoredUpTo(t.store, k, s.cursors[k]) <==> !(purges && k.device == c.device))
    {
      assert s.cursors[k] == 0 || StoredUpTo(s.store, k, s.cursors[k]);
    }
  }

  lemma AckedAfter(s: Server, c: CursorKey, purges: bool, resets: bool)
    requires Inv(s)
    ensures AckedOk(AfterReset(s, c, purges, resets))
  {
    PurgedStore(s.store, c.device);
  }

  lemma CoveredAfter(s: Server, c: CursorKey, purges: bool, resets: bool, batch: seq<Event>)
    requires Inv(s) && batch != [] && forall e :: e in batch ==> CursorOf(e.id) == Target(batch) && Covered(s.store, e)
    ensures (forall e :: e in batch ==> Covered(AfterReset(s, c, purges, resets).store, e)) <==> !(purges && Target(batch).device == c.device)
  {
    PurgedStore(s.store, c.device);
    assert batch[0] in batch;
    assert forall e :: e in batch ==> e.id.device == CursorOf(e.id).device;
  }

  lemma ReachedAfter(s: Server, c: CursorKey, purges: bool, resets: bool, batch: seq<Event>)
    requires forall e :: e in batch ==> Reached(s.cursors, e)
    ensures (forall e :: e in batch ==> Reached(AfterReset(s, c, purges, resets).cursors, e))
        <==> (resets ==> forall e :: e in batch && CursorOf(e.id) == c ==> e.ts <= 0)
  {
    var cursors := AfterReset(s, c, purges, resets).cursors;
    forall e | e in batch ensures Reached(cursors, e) <==> !(resets && CursorOf(e.id) == c) || e.ts <= 0 {
      assert Reached(s.cursors, e);
    }
  }

  /** What a connection relies on survives the reset, unless the reset takes it away. */
  lemma PhaseAfter(s: Server, c: CursorKey, purges: bool, resets: bool, p: Phase)
    requires Inv(s) && PhaseOk(s, p)
    ensures PhaseOk(AfterReset(s, c, purges, resets), p) <==>
      (purges && !p.Got? ==> Target(p.batch).device != c.device) &&
      (resets && (p.Advanced? || p.Ready?) ==> forall e :: e in p.batch && CursorOf(e.id) == c ==> e.ts <= 0)
  {
    if !p.Got? { CoveredAfter(s, c, purges, resets, p.batch); }
    if p.Advanced? || p.Ready? { ReachedAfter(s, c, purges, resets, p.batch); }
  }

  lemma PhasesAfter(s: Server, c: CursorKey, purges: bool, resets: bool)
    requires Inv(s)
    ensures PhasesOk(AfterReset(s, c, purges, resets))
        <==> (purges ==> NothingInFlight(s, c.device)) && (!purges && resets ==> NotPassed(s, c))
  {
    forall x | x in s.conns
      ensures PhaseOk(AfterReset(s, c, purges, resets), s.conns[x]) <==>
        (purges && !s.conns[x].Got? ==> Target(s.conns[x].batch).device != c.device) &&
        (resets && (s.conns[x].Advanced? || s.conns[x].Ready?) ==> forall e :: e in s.conns[x].batch && CursorOf(e.id) == c ==> e.ts <= 0)
      ensures s.conns[x].batch != [] && forall e :: e in s.conns[x].batch ==> CursorOf(e.id) == Target(s.conns[x].batch)
    {
      assert PhaseOk(s, s.conns[x]);
      PhaseAfter(s, c, purges, resets, s.conns[x]);
    }
  }

  /** The protocol's invariant survives a reset exactly when the reset is harmless. */
  lemma ResetExact(s: Server, c: CursorKey, purges: bool, resets: bool)
    requires Inv(s)
    ensures Inv(AfterReset(s, c, purges, resets)) <==> Harmless(s, Reset(c, purges, resets))
  {
    PurgedStore(s.store, c.device);
    CursorsAfter(s, c, purges, resets);
    AckedAfter(s, c, purges, resets);
    PhasesAfter(s, c, purges, resets);
  }

  // ----- runs -----

  ghost predicate Happens(s: Server, hs: seq<Happening>, retention: Retention)
    decreases |hs|
  {
    hs == [] || (Possible(s, hs[0]) && Happens(Next(s, hs[0], retention), hs[1..], retention))
  }

  ghost predicate AllHarmless(s: Server, hs: seq<Happening>, retention: Retention)
    requires Happens(s, hs, retention)
    decreases |hs|
  {
    hs == [] || (Harmless(s, hs[0]) && AllHarmless(Next(s, hs[0], retention), hs[1..], retention))
  }

  ghost predicate AlwaysInv(s: Server, hs: seq<Happening>, retention: Retention)
    requires Happens(s, hs, retention)
    decreases |hs|
  {
    Inv(s) && (hs == [] || AlwaysInv(Next(s, hs[0], retention), hs[1..], retention))
  }

  /** Throughout a run with resets cursors are bounded by stored rows, and what was acknowledged
      since the last reset is stored, if and only if every reset is harmless. */
  lemma {:induction false} ResetsKeepInv(s: Server, hs: seq<Happening>, retention: Retention)
    requires Inv(s) && Happens(s, hs, retention)
    ensures AlwaysInv(s, hs, retention) <==> AllHarmless(s, hs, retention)
    decreases |hs|
  {
    if hs == [] {
    } else {
      var h := hs[0];
      match h {
        case Protocol(a) => StepKeepsInv(s, a, retention);
        case Reset(c, purges, resets) => ResetExact(s, c, purges, resets);
      }
      if Harmless(s, h) {
        ResetsKeepInv(Next(s, h, retention), hs[1..], retention);
      }
    }
  }

  /** The failing run: a device syncs one provider, then connects for another with an outdated
      schema. The first provider's cursor stays, and nothing is stored below it. */
  lemma OtherProviderOutruns(e: Event, other: bytes, retention: Retention)
    requires e.ts > 0 && other != e.id.provider
    ensures Runs(START, Steps(0, CursorOf(e.id), [e], NoFault), retention)
    ensures var s := AfterReset(After(START, Steps(0, CursorOf(e.id), [e], NoFault), retention), CursorKey(e.id.device, other), true, true);
      CursorOf(e.id) in s.cursors && s.cursors[CursorOf(e.id)] == e.ts && forall k :: k in s.store.events ==> k.id.device != e.id.device
  {
    var c, steps := CursorOf(e.id), Steps(0, CursorOf(e.id), [e], NoFault);
    assert |[e]| <= MAX_BATCH_SIZE;
    HandlerFollowsProtocol(START, 0, c, [e], NoFault, retention);
    RunKeepsInv(START, steps, retention);
    var t := After(START, steps, retention);
    PurgeRows(t.store, e.id.device);
    assert t.cursors == AdvanceCursor(EnsureCursor(map[], c), c, MaxTs([e]));
  }
}
