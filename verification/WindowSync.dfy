// One uploaded batch of windows from receipt to reply: sanitise, pre-merge, store, answer.
module WindowSync {
  import opened Options
  import opened ByteStrings
  import opened Windows
  import opened WindowConvergence
  import opened WindowPremerge
  import opened WindowSanitize
  import opened WindowStores

  datatype Reply = SyncAck(lastTs: int) | SyncErr(rejected: nat)

  ghost predicate IsNewest(items: seq<WireWindow>, m: int) {
    (forall w :: w in items ==> w.latest.observed <= m) &&
    (items == [] ==> m == 0) && (items != [] ==> exists w :: w in items && w.latest.observed == m)
  }

  /** `merged` is what a batch received at `now` hands to the store. */
  ghost predicate Offered(batch: seq<WireWindow>, now: int, merged: seq<WireWindow>) {
    Premerged(Sanitize(batch, now).items, merged)
  }

  /** The windows branch of the connection loop. Premature and refused rows make the answer an
      error, so that the client sends them again; permanent rejects and rows over the cap do not. */
  method SyncWindows(store: FjallWindows, user: bytes, provider: bytes, batch: seq<WireWindow>, now: int)
    returns (reply: Reply, ghost merged: seq<WireWindow>)
    modifies store
    ensures Offered(batch, now, merged) && store.windows == StoreAll(old(store.windows), user, provider, merged)
    ensures reply.SyncErr? <==> (Sanitize(batch, now).transientRejects != 0 || Refused(old(store.windows), user, provider, merged) != 0)
    ensures reply.SyncErr? ==> reply.rejected == Sanitize(batch, now).transientRejects + Refused(old(store.windows), user, provider, merged)
    ensures reply.SyncAck? ==> IsNewest(merged, reply.lastTs)
  {
    var clean := SanitizeWindowBatch(batch, now);
    var items := PremergeWindows(clean.items);
    merged := items;
    var skipped := store.UpsertWindows(user, provider, items);
    var dropped := clean.transientRejects + skipped;
    assert clean.transientRejects >= 0 by { CountsAddUp(batch, now); }
    if dropped == 0 {
      var last := NewestObserved(items);
      return SyncAck(last), merged;
    }
    return SyncErr(dropped), merged;
  }

  method NewestObserved(items: seq<WireWindow>) returns (last: int)
    ensures IsNewest(items, last)
  {
    last := 0;
    for i := 0 to |items|
      invariant IsNewest(items[..i], last)
    {
      assert items[..i + 1] == items[..i] + [items[i]];
      if i == 0 || items[i].latest.observed > last {
        last := items[i].latest.observed;
      }
    }
    assert items[..|items|] == items;
  }

  lemma ResultCapped(m: Merging)
    requires forall w :: w in Observations(m) ==> Capped(w)
    ensures Capped(Result(m))
  {
  }

  lemma OfferedCapped(batch: seq<WireWindow>, now: int, merged: seq<WireWindow>, w: WireWindow)
    requires Offered(batch, now, merged) && w in merged
    ensures Capped(w)
  {
    var items := Sanitize(batch, now).items;
    KeptRowsInBounds(batch, now);
    var i :| 0 <= i < |merged| && merged[i] == w;
    assert MergesAll(w, OfKey(items, w.key));
    var m :| Result(m) == w && Observations(m) == OfKey(items, w.key);
    ResultCapped(m);
  }

  /** Clients resend their whole set without a cursor; storing an uploaded batch a second time
      leaves every row as it was, and refuses as many rows as the first time. */
  lemma ResentBatchIsNoOp(m: map<RowId, Stored>, user: bytes, provider: bytes, batch: seq<WireWindow>, now: int, merged: seq<WireWindow>)
    requires Offered(batch, now, merged)
    ensures var once := StoreAll(m, user, provider, merged);
      StoreAll(once, user, provider, merged) == once && Refused(once, user, provider, merged) == Refused(m, user, provider, merged)
  {
    forall w | w in merged ensures Capped(w) {
      OfferedCapped(batch, now, merged, w);
    }
    ResendIsNoOp(m, user, provider, merged);
    SameRefused(m, StoreAll(m, user, provider, merged), user, provider, merged, merged);
  }

  /** The same raw batch uploaded again later — sanitised anew, at the later clock — offers what it
      offered before and changes no row, if its rows are steady. */
  lemma LaterResendIsNoOp(m: map<RowId, Stored>, user: bytes, provider: bytes, batch: seq<WireWindow>,
                          now: int, later: int, merged: seq<WireWindow>)
    requires now <= later && Offered(batch, now, merged) && forall w :: w in batch ==> Steady(w, now, later)
    ensures Offered(batch, later, merged)
    ensures var once := StoreAll(m, user, provider, merged); StoreAll(once, user, provider, merged) == once
  {
    SanitizeSteady(batch, now, later);
    ResentBatchIsNoOp(m, user, provider, batch, now, merged);
  }

  /** An observation clamped to the server's clock does change its row when it is sent again later:
      the observation time moves on with the clock. */
  lemma ClampedResendMovesRow(w: WireWindow, now: int, later: int)
    requires now < later && Passes(w, now) && w.latest.observed > now + 60_000
    ensures Merge(Repaired(w, now), Repaired(w, later)).latest.observed > Repaired(w, now).latest.observed
  {
  }

  lemma {:induction false} SameRefused(m: map<RowId, Stored>, n: map<RowId, Stored>, user: bytes, provider: bytes,
                                       all: seq<WireWindow>, items: seq<WireWindow>)
    requires n == StoreAll(m, user, provider, all)
    ensures Refused(n, user, provider, items) == Refused(m, user, provider, items)
  {
    if items == [] {
    } else {
      SameRefused(m, n, user, provider, all, items[..|items| - 1]);
      FutureStays(m, user, provider, all, RowId(user, provider, items[|items| - 1].key));
    }
  }

  /** The stored row reflects an observation: nothing in it is behind. */
  ghost predicate Reflects(r: WireWindow, w: WireWindow) {
    r.peak >= w.peak && r.limitReached >= w.limitReached && r.fraction >= w.fraction && r.samples >= w.samples &&
    r.latest.observed >= w.latest.observed && (w.finalized ==> r.finalized) && (w.maxedOut ==> r.maxedOut) &&
    (w.firstSeen > 0 ==> 0 < r.firstSeen <= w.firstSeen) &&
    (w.timeTo100 != -1 ==> r.timeTo100 != -1 && r.timeTo100 <= w.timeTo100)
  }

  lemma {:induction false} ResultReflects(m: Merging, w: WireWindow)
    requires w in Observations(m)
    ensures Reflects(Result(m), w)
  {
    match m {
      case Observed(_) =>
      case Merged(l, r) =>
        if w in Observations(l) { ResultReflects(l, w); } else { ResultReflects(r, w); }
    }
  }

  lemma NothingRefused(m: map<RowId, Stored>, user: bytes, provider: bytes, items: seq<WireWindow>, i: nat)
    requires Refused(m, user, provider, items) == 0 && i < |items|
    ensures !Lookup(m, RowId(user, provider, items[i].key)).Some? || !Lookup(m, RowId(user, provider, items[i].key)).value.Future?
  {
  }

  /** After an acknowledgement, every observation of the batch is reflected in the stored row of
      its window, or was rejected as permanent, or is older than 2000 kept windows. */
  lemma AcknowledgedWindowsAreStored(m: map<RowId, Stored>, user: bytes, provider: bytes, batch: seq<WireWindow>,
                                     now: int, merged: seq<WireWindow>, w: WireWindow)
    requires Offered(batch, now, merged) && w in batch
    requires Sanitize(batch, now).transientRejects == 0 && Refused(m, user, provider, merged) == 0
    ensures !WellFormed(w, now) || OverCap(batch, now, w) ||
            StoredReflects(StoreAll(m, user, provider, merged), RowId(user, provider, w.key), Adjusted(w, now))
  {
    LimitsExact(w, now);
    if Passes(w, now) {
      PassingRowStored(m, user, provider, batch, now, merged, w);
    } else {
      assert !StableOk(Floored(w, now), now) by { RejectsCounted(batch, now); }
    }
  }

  lemma PassingRowStored(m: map<RowId, Stored>, user: bytes, provider: bytes, batch: seq<WireWindow>,
                         now: int, merged: seq<WireWindow>, w: WireWindow)
    requires Offered(batch, now, merged) && w in batch && Passes(w, now) && Refused(m, user, provider, merged) == 0
    ensures OverCap(batch, now, w) ||
            StoredReflects(StoreAll(m, user, provider, merged), RowId(user, provider, w.key), Repaired(w, now))
  {
    PassingRowKept(batch, now, w);
    var kept := Sanitize(batch, now).items;
    if Repaired(w, now) in kept {
      OfferedReflects(m, user, provider, kept, merged, Repaired(w, now));
    }
  }

  ghost predicate OverCap(batch: seq<WireWindow>, now: int, w: WireWindow) {
    var kept := Sanitize(batch, now).items;
    |kept| == 2000 && forall k :: k in kept ==> k.key.endMs >= w.key.endMs
  }

  ghost predicate StoredReflects(m: map<RowId, Stored>, id: RowId, w: WireWindow) {
    id in m && m[id].Current? && Reflects(m[id].w, w)
  }

  lemma OfferedReflects(m: map<RowId, Stored>, user: bytes, provider: bytes, items: seq<WireWindow>,
                        merged: seq<WireWindow>, v: WireWindow)
    requires Premerged(items, merged) && v in items && Refused(m, user, provider, merged) == 0
    ensures StoredReflects(StoreAll(m, user, provider, merged), RowId(user, provider, v.key), v)
  {
    var i :| 0 <= i < |merged| && merged[i].key == v.key;
    var id := RowId(user, provider, v.key);
    assert MergesAll(merged[i], OfKey(items, v.key));
    var t :| Result(t) == merged[i] && Observations(t) == OfKey(items, v.key);
    ResultReflects(t, v);
    StoreAllAt(m, user, provider, merged, id);
    NothingRefused(m, user, provider, merged, i);
    assert Lookup(StoreAll(m, user, provider, merged), id) == Some(Absorb(Lookup(m, id), merged[i]));
    AbsorbReflects(Lookup(m, id), merged[i], v);
  }

  lemma AbsorbReflects(v: Option<Stored>, w: WireWindow, o: WireWindow)
    requires Reflects(w, o) && !(v.Some? && v.value.Future?)
    ensures Absorb(v, w).Current? && Reflects(Absorb(v, w).w, o)
  {
  }

  /** Whatever is stored later, a reflected observation stays reflected. */
  lemma {:induction false} StaysReflected(m: map<RowId, Stored>, user: bytes, provider: bytes, items: seq<WireWindow>,
                                          id: RowId, o: WireWindow)
    requires StoredReflects(m, id, o)
    ensures StoredReflects(StoreAll(m, user, provider, items), id, o)
  {
    if items == [] {
    } else {
      StaysReflected(m, user, provider, items[..|items| - 1], id, o);
    }
  }
}
