// Whole runs of the event store: any sequence of delivered batches, dedup prunes and device
// purges, and what the four keyspaces hold afterwards.
module EventHistory {
  import opened Options
  import opened ByteStrings
  import opened EventKeys
  import opened EventSpaces
  import opened EventStore

  datatype Action =
    | Deliver(batch: seq<Event>)
    | Forget(device: bytes, cutoff: int)
    | Wipe(device: bytes)

  ghost function Step(s: Spaces, a: Action): Spaces {
    match a
    case Deliver(b) => UpsertAll(s, Winners(b))
    case Forget(d, c) => Prune(s, d, c)
    case Wipe(d) => Purge(s, d)
  }

  /** The state after a run. */
  ghost function Run(run: seq<Action>): Spaces {
    if run == [] then EMPTY else Step(Run(run[..|run| - 1]), run[|run| - 1])
  }

  // ----- what was delivered -----

  /** Between a known event and a newly delivered one, the strictly newer stays; a tie goes to
      the later delivery. */
  function Newer(known: Option<Event>, e: Event): Option<Event> {
    if known.Some? && known.value.ts > e.ts then known else Some(e)
  }

  /** The newest event of a logical key delivered since its device was last purged. */
  ghost function Newest(run: seq<Action>, id: LogicalKey): Option<Event> {
    if run == [] then None else
      var before := Newest(run[..|run| - 1], id);
      match run[|run| - 1]
      case Deliver(b) => if Best(b, id).Some? then Newer(before, Best(b, id).value) else before
      case Forget(_, _) => before
      case Wipe(d) => if d == id.device then None else before
  }

  /** The largest prune cutoff a device has seen since its last purge. */
  ghost function Cut(run: seq<Action>, device: bytes): int {
    if run == [] then -I64_LIMIT else
      var before := Cut(run[..|run| - 1], device);
      match run[|run| - 1]
      case Deliver(_) => before
      case Forget(d, c) => if d == device && c > before then c else before
      case Wipe(d) => if d == device then -I64_LIMIT else before
  }

  // ----- the invariant of every run -----

  /** `newest` is what was delivered and `cut` how much the dedup index may have forgotten:
      every row stems from a delivery, every row at or above the cut is the one its dedup
      pointer names, and every newest event at or above the cut is stored, pointed to, and
      carries its own session. */
  ghost predicate Faithful(s: Spaces, newest: LogicalKey -> Option<Event>, cut: bytes -> int) {
    Keyed(s) && RowsDelivered(s, newest) && RowsPointedTo(s, cut) && NewestHeld(s, newest, cut)
  }

  ghost predicate RowsDelivered(s: Spaces, newest: LogicalKey -> Option<Event>) {
    forall k :: k in s.events ==> newest(k.id).Some? && k.ts <= newest(k.id).value.ts
  }

  ghost predicate RowsPointedTo(s: Spaces, cut: bytes -> int) {
    forall k :: k in s.events && k.ts >= cut(k.id.device) ==> k.id in s.idxMsg && s.idxMsg[k.id] == k
  }

  ghost predicate NewestHeld(s: Spaces, newest: LogicalKey -> Option<Event>, cut: bytes -> int) {
    forall id :: newest(id).Some? && newest(id).value.ts >= cut(id.device) ==> Holds(s, id, newest(id).value)
  }

  /** The session a query reports for a row. */
  function SessionOf(s: Spaces, k: RowKey): bytes {
    if k in s.sessions then s.sessions[k] else []
  }

  ghost predicate Holds(s: Spaces, id: LogicalKey, e: Event) {
    e.id == id && id in s.idxMsg && s.idxMsg[id] == KeyOf(e) &&
    KeyOf(e) in s.events && s.events[KeyOf(e)] == Row(e) && SessionOf(s, KeyOf(e)) == e.session
  }

  lemma UpsertFaithful(s: Spaces, e: Event, newest: LogicalKey -> Option<Event>,
                       after: LogicalKey -> Option<Event>, cut: bytes -> int)
    requires Faithful(s, newest, cut)
    requires forall id :: after(id) == if id == e.id then Newer(newest(id), e) else newest(id)
    ensures Faithful(Upsert(s, e), after, cut)
  {
    assert Keyed(Upsert(s, e)) by { UpsertKeyed(s, e); }
    assert RowsDelivered(Upsert(s, e), after);
    assert RowsPointedTo(Upsert(s, e), cut) by { UpsertPointedTo(s, e, cut); }
    forall id | after(id).Some? && after(id).value.ts >= cut(id.device)
      ensures Holds(Upsert(s, e), id, after(id).value)
    {
      UpsertHolds(s, e, newest, cut, id);
    }
  }

  lemma UpsertPointedTo(s: Spaces, e: Event, cut: bytes -> int)
    requires Keyed(s) && RowsPointedTo(s, cut)
    ensures RowsPointedTo(Upsert(s, e), cut)
  {
  }

  lemma UpsertHolds(s: Spaces, e: Event, newest: LogicalKey -> Option<Event>, cut: bytes -> int, id: LogicalKey)
    requires Faithful(s, newest, cut)
    requires id == e.id || (newest(id).Some? && newest(id).value.ts >= cut(id.device))
    requires id == e.id ==> Newer(newest(id), e).value.ts >= cut(id.device)
    ensures Holds(Upsert(s, e), id, if id == e.id then Newer(newest(id), e).value else newest(id).value)
  {
    if id != e.id {
      assert Holds(s, id, newest(id).value);
      HoldsElsewhere(s, e, id, newest(id).value);
    } else if newest(id).Some? && newest(id).value.ts >= cut(id.device) {
      assert Holds(s, id, newest(id).value);
    } else {
      assert KeyOf(e) !in s.events;
      assert id in s.idxMsg ==> s.idxMsg[id] in s.events && s.idxMsg[id].ts <= newest(id).value.ts;
      assert !Stale(s, e);
    }
  }

  lemma HoldsElsewhere(s: Spaces, e: Event, id: LogicalKey, f: Event)
    requires Keyed(s) && id != e.id && Holds(s, id, f)
    ensures Holds(Upsert(s, e), id, f)
  {
  }

  lemma {:induction false} UpsertAllFaithful(s: Spaces, w: map<LogicalKey, Event>, newest: LogicalKey -> Option<Event>,
                                             after: LogicalKey -> Option<Event>, cut: bytes -> int)
    requires Faithful(s, newest, cut) && ById(w)
    requires forall id :: after(id) == if id in w then Newer(newest(id), w[id]) else newest(id)
    ensures Faithful(UpsertAll(s, w), after, cut)
    decreases w.Keys
  {
    if w != map[] {
      var first := Pick(w);
      var e := w[first];
      var mid := id => if id == first then Newer(newest(id), e) else newest(id);
      UpsertFaithful(s, e, newest, mid, cut);
      UpsertAllFaithful(Upsert(s, e), w - {first}, mid, after, cut);
    } else {
      assert forall id :: after(id) == newest(id);
    }
  }

  lemma PruneFaithful(s: Spaces, d: bytes, c: int, newest: LogicalKey -> Option<Event>, cut: bytes -> int, after: bytes -> int)
    requires Faithful(s, newest, cut)
    requires forall x :: after(x) == if x == d && c > cut(x) then c else cut(x)
    ensures Faithful(Prune(s, d, c), newest, after)
  {
    var t := Prune(s, d, c);
    forall id | newest(id).Some? && newest(id).value.ts >= after(id.device)
      ensures Holds(t, id, newest(id).value)
    {
      assert Holds(s, id, newest(id).value);
    }
  }

  lemma PurgeFaithful(s: Spaces, d: bytes, newest: LogicalKey -> Option<Event>, cut: bytes -> int,
                      newest': LogicalKey -> Option<Event>, cut': bytes -> int)
    requires Faithful(s, newest, cut)
    requires forall id :: newest'(id) == if id.device == d then None else newest(id)
    requires forall x :: x != d ==> cut'(x) == cut(x)
    ensures Faithful(Purge(s, d), newest', cut')
  {
    PurgeRows(s, d);
    var t := Purge(s, d);
    forall id | newest'(id).Some? && newest'(id).value.ts >= cut'(id.device)
      ensures Holds(t, id, newest'(id).value)
    {
      assert Holds(s, id, newest(id).value);
    }
  }

  lemma {:induction false} RunFaithful(run: seq<Action>)
    ensures Faithful(Run(run), id => Newest(run, id), d => Cut(run, d))
  {
    var newest, cut := id => Newest(run, id), d => Cut(run, d);
    if run == [] {
    } else {
      var before, a := run[..|run| - 1], run[|run| - 1];
      var newest0, cut0 := id => Newest(before, id), d => Cut(before, d);
      RunFaithful(before);
      match a
      case Deliver(b) =>
        UpsertAllFaithful(Run(before), Winners(b), newest0, newest, cut0);
        assert forall d :: cut(d) == cut0(d);
        SameFaithful(Run(run), newest, newest, cut0, cut);
      case Forget(d, c) =>
        PruneFaithful(Run(before), d, c, newest0, cut0, cut);
        SameFaithful(Run(run), newest0, newest, cut, cut);
      case Wipe(d) =>
        PurgeFaithful(Run(before), d, newest0, cut0, newest, cut);
    }
  }

  lemma SameFaithful(s: Spaces, newest: LogicalKey -> Option<Event>, newest': LogicalKey -> Option<Event>,
                     cut: bytes -> int, cut': bytes -> int)
    requires Faithful(s, newest, cut)
    requires (forall id :: newest(id) == newest'(id)) && (forall d :: cut(d) == cut'(d))
    ensures Faithful(s, newest', cut')
  {
  }

  /** Nothing inside retention is lost or counted twice, after any run: the rows at or above a
      device's largest cutoff are exactly the newest delivered events there, one row each. */
  lemma RetentionExact(run: seq<Action>)
    ensures var s := Run(run);
      (forall k :: k in s.events && k.ts >= Cut(run, k.id.device) ==>
         Newest(run, k.id).Some? && KeyOf(Newest(run, k.id).value) == k && s.events[k] == Row(Newest(run, k.id).value)) &&
      (forall id :: Newest(run, id).Some? && Newest(run, id).value.ts >= Cut(run, id.device) ==>
         var e := Newest(run, id).value;
         KeyOf(e) in s.events && s.events[KeyOf(e)] == Row(e) && SessionOf(s, KeyOf(e)) == e.session)
  {
    RunFaithful(run);
    var s := Run(run);
    var newest, cut := id => Newest(run, id), d => Cut(run, d);
    assert Faithful(s, newest, cut);
    forall k | k in s.events && k.ts >= Cut(run, k.id.device)
      ensures Newest(run, k.id).Some? && KeyOf(Newest(run, k.id).value) == k && s.events[k] == Row(Newest(run, k.id).value)
    {
      assert k.ts >= cut(k.id.device) && newest(k.id).Some?;
      assert Holds(s, k.id, newest(k.id).value);
    }
    forall id | Newest(run, id).Some? && Newest(run, id).value.ts >= Cut(run, id.device)
      ensures Holds(s, id, Newest(run, id).value)
    {
      assert newest(id).value.ts >= cut(id.device);
    }
  }

  /** After a prune no pointer of the device names a row below the cutoff, every other pointer is
      as before, and no row, index entry or session is lost. */
  lemma ForgetExact(run: seq<Action>, device: bytes, cutoff: int)
    ensures var s, t := Run(run), Run(run + [Forget(device, cutoff)]);
      t.events == s.events && t.idxUser == s.idxUser && t.sessions == s.sessions &&
      (forall id :: id in t.idxMsg && id.device == device ==> t.idxMsg[id].ts >= cutoff) &&
      (forall id :: id in s.idxMsg && (id.device != device || s.idxMsg[id].ts >= cutoff) ==> id in t.idxMsg) &&
      (forall id :: id in t.idxMsg ==> id in s.idxMsg && t.idxMsg[id] == s.idxMsg[id])
  {
    assert (run + [Forget(device, cutoff)])[..|run|] == run;
    PruneExact(Run(run), device, cutoff);
  }

  // ----- the per-user index over runs -----

  /** The event overwrites a forgotten row of another user, whose index entry then stays behind. */
  predicate Strands(s: Spaces, e: Event) { Overwrites(s, e) && s.events[KeyOf(e)].user != e.user }

  ghost predicate BatchStrands(s: Spaces, w: map<LogicalKey, Event>) { exists id :: id in w && Strands(s, w[id]) }

  lemma StrandsElsewhere(s: Spaces, e: Event, f: Event)
    requires Keyed(s) && e.id != f.id
    ensures Strands(Upsert(s, e), f) <==> Strands(s, f)
  {
  }

  lemma StrandedIsStray(s: Spaces, e: Event)
    requires Valid(s) && Strands(s, e)
    ensures Stray(Upsert(s, e), UserKey(s.events[KeyOf(e)].user, KeyOf(e)))
  {
  }

  lemma {:induction false} StrayStays(s: Spaces, w: map<LogicalKey, Event>, uk: UserKey)
    requires Keyed(s) && ById(w) && Stray(s, uk) && uk.row.id !in w
    ensures Stray(UpsertAll(s, w), uk)
    decreases w.Keys
  {
    if w == map[] {
    } else {
      var first := Pick(w);
      UpsertKeyed(s, w[first]);
      StrayStays(Upsert(s, w[first]), w - {first}, uk);
    }
  }

  /** A batch keeps the user index exact exactly when none of its winners strands an entry. */
  lemma {:induction false} UpsertAllIndexed(s: Spaces, w: map<LogicalKey, Event>)
    requires Valid(s) && ById(w)
    ensures UserIndexed(UpsertAll(s, w)) <==> !BatchStrands(s, w)
    decreases w.Keys
  {
    if w == map[] {
    } else {
      var first := Pick(w);
      var e, rest := w[first], w - {first};
      UpsertKeyed(s, e);
      UpsertUserIndexed(s, e);
      if Strands(s, e) {
        var uk := UserKey(s.events[KeyOf(e)].user, KeyOf(e));
        StrandedIsStray(s, e);
        StrayStays(Upsert(s, e), rest, uk);
        assert Stray(UpsertAll(s, w), uk);
      } else {
        UpsertAllIndexed(Upsert(s, e), rest);
        RestStrands(s, w, first);
      }
    }
  }

  lemma RestStrands(s: Spaces, w: map<LogicalKey, Event>, first: LogicalKey)
    requires Keyed(s) && ById(w) && first in w && !Strands(s, w[first])
    ensures BatchStrands(Upsert(s, w[first]), w - {first}) <==> BatchStrands(s, w)
  {
    var t, rest := Upsert(s, w[first]), w - {first};
    forall id | id in rest ensures rest[id] == w[id] && (Strands(t, rest[id]) <==> Strands(s, w[id])) {
      StrandsElsewhere(s, w[first], w[id]);
    }
    if id :| id in w && Strands(s, w[id]) {
      assert id in rest;
    }
  }

  /** No delivered batch finds a forgotten row of another user under a key of its winners. */
  ghost predicate NothingStranded(run: seq<Action>) {
    run == [] ||
    (NothingStranded(run[..|run| - 1]) &&
     (run[|run| - 1].Deliver? ==> !BatchStrands(Run(run[..|run| - 1]), Winners(run[|run| - 1].batch))))
  }

  ghost predicate AlwaysValid(run: seq<Action>) {
    Valid(Run(run)) && (run == [] || AlwaysValid(run[..|run| - 1]))
  }

  /** The four keyspaces stay consistent throughout a run if and only if nothing is stranded. */
  lemma {:induction false} RunValid(run: seq<Action>)
    ensures AlwaysValid(run) <==> NothingStranded(run)
  {
    if run == [] {
    } else {
      var before := run[..|run| - 1];
      RunValid(before);
      RunFaithful(run);
      if AlwaysValid(before) {
        match run[|run| - 1]
        case Deliver(b) => UpsertAllIndexed(Run(before), Winners(b));
        case Forget(d, c) => PruneValid(Run(before), d, c);
        case Wipe(d) => PurgeComplete(Run(before), d);
      }
    }
  }

  /** Every delivered batch finds each of its devices without rows of another user. */
  ghost predicate OwnersKept(run: seq<Action>) {
    run == [] ||
    (OwnersKept(run[..|run| - 1]) &&
     (run[|run| - 1].Deliver? ==> OwnRows(Run(run[..|run| - 1]), run[|run| - 1].batch)))
  }

  ghost predicate OwnRows(s: Spaces, batch: seq<Event>) {
    forall e, k :: e in batch && k in s.events && k.id.device == e.id.device ==> s.events[k].user == e.user
  }

  /** So a device may change its owner whenever it has no rows. */
  lemma {:induction false} OneOwnerIsValid(run: seq<Action>)
    requires OwnersKept(run)
    ensures NothingStranded(run) && Valid(Run(run))
  {
    if run == [] {
    } else {
      OneOwnerIsValid(run[..|run| - 1]);
    }
    RunValid(run);
  }

  /** One row and nothing else, under its own user or stranded under another. */
  ghost predicate OneRow(s: Spaces, k: RowKey, user: bytes) {
    Keyed(s) && s.events.Keys == {k} && s.events[k].user == user && s.idxMsg.Keys <= {k.id} && s.sessions.Keys <= {k}
  }

  lemma ForgottenRow(a: Event)
    ensures var s := Run([Deliver([a]), Forget(a.id.device, a.ts + 1)]);
      Valid(s) && OneRow(s, KeyOf(a), a.user) && a.id !in s.idxMsg && UserKey(a.user, KeyOf(a)) in s.idxUser
  {
    var run := [Deliver([a]), Forget(a.id.device, a.ts + 1)];
    assert run[..1] == [Deliver([a])] && run[..1][..0] == [] && Run([]) == EMPTY;
    DeliverOne(EMPTY, a);
    UpsertKeyed(EMPTY, a);
    UpsertUserIndexed(EMPTY, a);
    PruneValid(Run(run[..1]), a.id.device, a.ts + 1);
  }

  /** The failing run: the pointer of a stored row is pruned, then the same message of the same
      time is sent again. The user index survives exactly when the device still has its owner. */
  lemma OwnerChangeStrandsIndexEntry(a: Event, b: Event)
    requires KeyOf(a) == KeyOf(b)
    ensures UserIndexed(Run([Deliver([a]), Forget(a.id.device, a.ts + 1), Deliver([b])])) <==> a.user == b.user
  {
    var run := [Deliver([a]), Forget(a.id.device, a.ts + 1), Deliver([b])];
    assert run[..2] == [Deliver([a]), Forget(a.id.device, a.ts + 1)];
    ForgottenRow(a);
    DeliverOne(Run(run[..2]), b);
    UpsertUserIndexed(Run(run[..2]), b);
  }

  /** A stranded entry outlives even the purge of its device: it is all that is left. */
  lemma PurgeLeavesStrandedEntry(a: Event, b: Event)
    requires KeyOf(a) == KeyOf(b)
    ensures var s := Run([Deliver([a]), Forget(a.id.device, a.ts + 1), Deliver([b]), Wipe(a.id.device)]);
      s.events == map[] && s.idxMsg == map[] && s.sessions == map[] && (UserKey(a.user, KeyOf(a)) in s.idxUser <==> a.user != b.user)
  {
    var run := [Deliver([a]), Forget(a.id.device, a.ts + 1), Deliver([b]), Wipe(a.id.device)];
    assert run[..3] == [Deliver([a]), Forget(a.id.device, a.ts + 1), Deliver([b])];
    assert run[..3][..2] == [Deliver([a]), Forget(a.id.device, a.ts + 1)];
    ForgottenRow(a);
    var s := Run(run[..3][..2]);
    DeliverOne(s, b);
    RowReplaced(s, a, b);
    RowPurged(Upsert(s, b), KeyOf(a), b.user, UserKey(a.user, KeyOf(a)));
  }

  lemma RowReplaced(s: Spaces, a: Event, b: Event)
    requires KeyOf(a) == KeyOf(b) && OneRow(s, KeyOf(a), a.user) && a.id !in s.idxMsg && UserKey(a.user, KeyOf(a)) in s.idxUser
    ensures OneRow(Upsert(s, b), KeyOf(a), b.user) && UserKey(a.user, KeyOf(a)) in Upsert(s, b).idxUser
  {
    UpsertKeyed(s, b);
  }

  lemma RowPurged(t: Spaces, k: RowKey, user: bytes, uk: UserKey)
    requires OneRow(t, k, user) && uk in t.idxUser && uk.row == k
    ensures var p := Purge(t, k.id.device);
      p.events == map[] && p.idxMsg == map[] && p.sessions == map[] && (uk in p.idxUser <==> uk.user != user)
  {
    PurgeExact(t, k.id.device);
  }

  // ----- convergence without pruning -----

  ghost predicate OnlyDeliveries(run: seq<Action>) { forall a :: a in run ==> a.Deliver? }

  ghost predicate WasDelivered(run: seq<Action>, e: Event) {
    exists a :: a in run && a.Deliver? && e in a.batch
  }

  lemma {:induction false} NewestIsMaximal(run: seq<Action>, id: LogicalKey)
    requires OnlyDeliveries(run)
    ensures Cut(run, id.device) == -I64_LIMIT
    ensures Newest(run, id).Some? ==> WasDelivered(run, Newest(run, id).value) && Newest(run, id).value.id == id
    ensures forall e :: WasDelivered(run, e) && e.id == id ==>
              Newest(run, id).Some? && e.ts <= Newest(run, id).value.ts
  {
    if run == [] {
    } else {
      var before, a := run[..|run| - 1], run[|run| - 1];
      assert a in run && run == before + [a];
      NewestIsMaximal(before, id);
      forall e | WasDelivered(run, e) && e.id == id
        ensures Newest(run, id).Some? && e.ts <= Newest(run, id).value.ts
      {
        if e !in a.batch {
          var b :| b in run && b.Deliver? && e in b.batch;
          assert b in before;
          assert WasDelivered(before, e);
        }
      }
      if Newest(before, id).Some? && WasDelivered(before, Newest(before, id).value) {
        var b :| b in before && b.Deliver? && Newest(before, id).value in b.batch;
        assert b in run;
      }
    }
  }

  ghost predicate IsNewest(run: seq<Action>, e: Event) {
    WasDelivered(run, e) && forall g :: WasDelivered(run, g) && g.id == e.id ==> g.ts <= e.ts
  }

  /** The newest delivered event of every logical key is the only one with its timestamp. */
  ghost predicate NewestTieFree(run: seq<Action>) {
    forall e, f :: IsNewest(run, e) && WasDelivered(run, f) && KeyOf(e) == KeyOf(f) ==> e == f
  }

  /** `b` delivers what `a` does, in any order, split into any batches and with any repetition. */
  ghost predicate SameDeliveries(a: seq<Action>, b: seq<Action>) {
    OnlyDeliveries(b) && forall e :: WasDelivered(a, e) <==> WasDelivered(b, e)
  }

  ghost predicate OrderImmaterial(a: seq<Action>) {
    forall b, c :: SameDeliveries(a, b) && SameDeliveries(a, c) ==> Run(b) == Run(c)
  }

  /** Without pruning the final state depends only on which events were delivered — not on their
      order, on how they were split into batches, or on how often they were sent — if and only if
      no newest event ties with a different one. Owners may change freely. */
  lemma DeliveriesConverge(a: seq<Action>)
    requires OnlyDeliveries(a)
    ensures OrderImmaterial(a) <==> NewestTieFree(a)
  {
    if NewestTieFree(a) {
      forall b, c | SameDeliveries(a, b) && SameDeliveries(a, c) ensures Run(b) == Run(c) {
        SameNewest(a, b, c);
        SameState(b, c);
      }
    } else {
      var e, f :| IsNewest(a, e) && WasDelivered(a, f) && KeyOf(e) == KeyOf(f) && e != f;
      var b, c := TiesDiffer(a, e, f);
      assert Run(b) != Run(c);
    }
  }

  lemma TiesDiffer(a: seq<Action>, e: Event, f: Event) returns (b: seq<Action>, c: seq<Action>)
    requires OnlyDeliveries(a) && IsNewest(a, e) && WasDelivered(a, f) && KeyOf(e) == KeyOf(f) && e != f
    ensures SameDeliveries(a, b) && SameDeliveries(a, c) && Run(b) != Run(c)
  {
    b, c := a + [Deliver([e])], a + [Deliver([f])];
    DeliverAgain(a, e);
    assert IsNewest(a, f);
    DeliverAgain(a, f);
    if Run(b) == Run(c) { OneIsReported(Run(b), e, f); }
  }

  /** A query that meets the event's row returns exactly the event. */
  ghost predicate Reports(s: Spaces, e: Event) {
    KeyOf(e) in s.events && s.events[KeyOf(e)] == Row(e) && SessionOf(s, KeyOf(e)) == e.session
  }

  lemma OneIsReported(s: Spaces, e: Event, f: Event)
    requires Reports(s, e) && Reports(s, f) && KeyOf(e) == KeyOf(f)
    ensures e == f
  {
  }

  lemma SameNewest(a: seq<Action>, b: seq<Action>, c: seq<Action>)
    requires NewestTieFree(a) && SameDeliveries(a, b) && SameDeliveries(a, c)
    ensures forall id :: Newest(b, id) == Newest(c, id)
  {
    forall id ensures Newest(b, id) == Newest(c, id) {
      SameNewestOf(a, b, c, id);
    }
  }

  lemma SameNewestOf(a: seq<Action>, b: seq<Action>, c: seq<Action>, id: LogicalKey)
    requires NewestTieFree(a) && SameDeliveries(a, b) && SameDeliveries(a, c)
    ensures Newest(b, id) == Newest(c, id)
  {
    NewestIsMaximal(b, id);
    NewestIsMaximal(c, id);
    if Newest(b, id).Some? {
      var e, f := Newest(b, id).value, Newest(c, id).value;
      assert WasDelivered(a, e) && WasDelivered(a, f);
      assert IsNewest(a, e) && KeyOf(e) == KeyOf(f);
    }
  }

  lemma SameState(b: seq<Action>, c: seq<Action>)
    requires OnlyDeliveries(b) && OnlyDeliveries(c) && forall id :: Newest(b, id) == Newest(c, id)
    ensures Run(b) == Run(c)
  {
    var newest, cut := id => Newest(b, id), (d: bytes) => -I64_LIMIT;
    UncutFaithful(b, newest, cut);
    UncutFaithful(c, newest, cut);
    Determined(Run(b), Run(c), newest, cut);
    DeliveriesIndexed(b);
    DeliveriesIndexed(c);
    IndexDetermined(Run(b).idxUser, Run(c).idxUser, Run(b).events);
  }

  /** Delivering a newest event once more makes it the one that is stored. */
  lemma DeliverAgain(a: seq<Action>, e: Event)
    requires OnlyDeliveries(a) && IsNewest(a, e)
    ensures var b := a + [Deliver([e])];
      SameDeliveries(a, b) && Reports(Run(b), e)
  {
    var b := a + [Deliver([e])];
    assert forall x :: x in b <==> x in a || x == Deliver([e]);
    forall g ensures WasDelivered(a, g) <==> WasDelivered(b, g) {
      if WasDelivered(b, g) {
        var x :| x in b && x.Deliver? && g in x.batch;
        assert g == e || x in a;
      }
      if WasDelivered(a, g) {
        var x :| x in a && x.Deliver? && g in x.batch;
        assert x in b;
      }
    }
    assert b[..|a|] == a && [e][..0] == [] && Best([], e.id) == None && Best([e], e.id) == Some(e);
    NewestIsMaximal(a, e.id);
    assert Newest(b, e.id) == Some(e);
    RetentionExact(b);
    NewestIsMaximal(b, e.id);
  }

  /** While nothing is pruned every row is the one its pointer names, so nothing is stranded. */
  lemma {:induction false} DeliveriesIndexed(run: seq<Action>)
    requires OnlyDeliveries(run)
    ensures UserIndexed(Run(run)) && NothingStranded(run)
  {
    if run == [] {
    } else {
      var before := run[..|run| - 1];
      assert run[|run| - 1] in run && forall a :: a in before ==> a in run;
      DeliveriesIndexed(before);
      UncutFaithful(before, id => Newest(before, id), (d: bytes) => -I64_LIMIT);
      assert RowsPointedTo(Run(before), (d: bytes) => -I64_LIMIT);
      assert !BatchStrands(Run(before), Winners(run[|run| - 1].batch));
    }
    RunValid(run);
  }

  lemma UncutFaithful(run: seq<Action>, newest: LogicalKey -> Option<Event>, cut: bytes -> int)
    requires OnlyDeliveries(run)
    requires (forall id :: newest(id) == Newest(run, id)) && (forall d :: cut(d) == -I64_LIMIT)
    ensures Faithful(Run(run), newest, cut)
  {
    RunFaithful(run);
    forall d ensures Cut(run, d) == -I64_LIMIT {
      NewestIsMaximal(run, LogicalKey(d, [], []));
    }
    SameFaithful(Run(run), id => Newest(run, id), newest, d => Cut(run, d), cut);
  }

  lemma DeterminedRow(s: Spaces, newest: LogicalKey -> Option<Event>, cut: bytes -> int, k: RowKey)
    requires Faithful(s, newest, cut) && forall d :: cut(d) == -I64_LIMIT
    ensures k in s.events <==> newest(k.id).Some? && KeyOf(newest(k.id).value) == k
    ensures k in s.events ==> s.events[k] == Row(newest(k.id).value) && k.id in s.idxMsg && s.idxMsg[k.id] == k
    ensures k in s.events ==> SessionOf(s, k) == newest(k.id).value.session
  {
  }

  lemma Determined(s: Spaces, t: Spaces, newest: LogicalKey -> Option<Event>, cut: bytes -> int)
    requires Faithful(s, newest, cut) && Faithful(t, newest, cut) && forall d :: cut(d) == -I64_LIMIT
    ensures s.events == t.events && s.idxMsg == t.idxMsg && s.sessions == t.sessions
  {
    forall k: RowKey ensures SameRow(s, t, k) {
      DeterminedRow(s, newest, cut, k);
      DeterminedRow(t, newest, cut, k);
    }
    SameSpaces(s, t);
  }

  ghost predicate SameRow(s: Spaces, t: Spaces, k: RowKey) {
    (k in s.events <==> k in t.events) &&
    (k in s.events ==> s.events[k] == t.events[k] && SessionOf(s, k) == SessionOf(t, k) &&
                       k.id in s.idxMsg && s.idxMsg[k.id] == k && k.id in t.idxMsg && t.idxMsg[k.id] == k)
  }

  lemma SameSpaces(s: Spaces, t: Spaces)
    requires Keyed(s) && Keyed(t) && forall k: RowKey :: SameRow(s, t, k)
    ensures s.events == t.events && s.idxMsg == t.idxMsg && s.sessions == t.sessions
  {
    assert s.events == t.events by {
      forall k: RowKey ensures (k in s.events <==> k in t.events) && (k in s.events ==> s.events[k] == t.events[k]) {
        assert SameRow(s, t, k);
      }
    }
    assert s.idxMsg == t.idxMsg by {
      assert forall id :: id in s.idxMsg ==> SameRow(s, t, s.idxMsg[id]);
      assert forall id :: id in t.idxMsg ==> SameRow(s, t, t.idxMsg[id]);
    }
    assert s.sessions == t.sessions by {
      assert forall k :: k in s.sessions || k in t.sessions ==> SameRow(s, t, k);
    }
  }

  lemma IndexDetermined(ix: map<UserKey, Event>, iy: map<UserKey, Event>, ev: map<RowKey, Event>)
    requires Indexes(ix, ev) && Indexes(iy, ev)
    ensures ix == iy
  {
  }

  lemma DeliverOne(s: Spaces, e: Event)
    ensures Step(s, Deliver([e])) == Upsert(s, e)
  {
    assert [e][..0] == [] && Best([], e.id) == None && Best([e], e.id) == Some(e);
    var w := Winners([e]);
    assert e.id in w && w == map[e.id := e];
    assert Pick(w) == e.id && w - {e.id} == map[];
    assert UpsertAll(s, w) == UpsertAll(Upsert(s, e), map[]) == Upsert(s, e);
  }

  lemma TwoDeliveries(e: Event, f: Event)
    ensures Run([Deliver([e]), Deliver([f])]) == Upsert(Upsert(EMPTY, e), f)
  {
    var run := [Deliver([e]), Deliver([f])];
    assert run[..1] == [Deliver([e])] && run[..1][..0] == [];
    DeliverOne(EMPTY, e);
    assert Run([]) == EMPTY && Run(run[..1]) == Upsert(EMPTY, e);
    DeliverOne(Upsert(EMPTY, e), f);
  }

  /** Ties are the only thing order can decide: two deliveries commute exactly when they are not
      two versions of one event with one timestamp. */
  lemma DeliveryOrderMatters(e: Event, f: Event)
    ensures Run([Deliver([e]), Deliver([f])]) == Run([Deliver([f]), Deliver([e])])
            <==> (KeyOf(e) == KeyOf(f) ==> e == f)
  {
    TwoDeliveries(e, f);
    TwoDeliveries(f, e);
    if e.id != f.id {
      UpsertsCommute(EMPTY, e, f);
    } else if e.ts == f.ts {
      LastTieWins(e, f);
      LastTieWins(f, e);
      assert Upsert(EMPTY, e).events[KeyOf(e)] == Row(e) && Upsert(EMPTY, f).events[KeyOf(f)] == Row(f);
      assert SessionOf(Upsert(EMPTY, e), KeyOf(e)) == e.session && SessionOf(Upsert(EMPTY, f), KeyOf(f)) == f.session;
      assert Row(e) == Row(f) && e.session == f.session ==> e == f;
    } else if e.ts < f.ts {
      NewerReplaces(e, f);
    } else {
      NewerReplaces(f, e);
    }
  }

  lemma LastTieWins(e: Event, f: Event)
    requires KeyOf(e) == KeyOf(f)
    ensures Upsert(Upsert(EMPTY, e), f) == Upsert(EMPTY, f)
  {
  }

  lemma NewerReplaces(e: Event, f: Event)
    requires e.id == f.id && e.ts < f.ts
    ensures Upsert(Upsert(EMPTY, e), f) == Upsert(Upsert(EMPTY, f), e)
  {
  }
}
