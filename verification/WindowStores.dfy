// The embedded store of windows: items are merged one by one into a keyspace, and uploads leave in
// each row a merging of everything they said about its window.
module WindowStores {
  import opened Options
  import opened ByteStrings
  import opened Windows
  import opened WindowConvergence
  import opened WindowPremerge

  /** A row's key: the window within its user and provider. */
  datatype RowId = RowId(user: bytes, provider: bytes, key: WindowKey)

  // user NUL provider NUL limit NUL account NUL kind end (8 bytes)
  function RowIdBytes(id: RowId): bytes {
    id.user + [0] + (id.provider + [0] + (id.key.limit + [0] + (id.key.account + [0] + ([id.key.kind] + I64Bytes(id.key.endMs)))))
  }

  ghost predicate CleanRowId(id: RowId) {
    NulFree(id.user) && NulFree(id.provider) && NulFree(id.key.limit) && NulFree(id.key.account)
  }

  /** Distinct windows have distinct row keys, and the anchor reads back from the last eight bytes. */
  lemma RowIdBytesInjective(a: RowId, b: RowId)
    requires CleanRowId(a) && CleanRowId(b)
    ensures RowIdBytes(a) == RowIdBytes(b) ==> a == b
    ensures |RowIdBytes(a)| >= 8 && I64FromBytes(RowIdBytes(a)[|RowIdBytes(a)| - 8..]) == a.key.endMs
  {
    var ta, tb := [a.key.kind] + I64Bytes(a.key.endMs), [b.key.kind] + I64Bytes(b.key.endMs);
    var aa, ab := a.key.account + [0] + ta, b.key.account + [0] + tb;
    var la, lb := a.key.limit + [0] + aa, b.key.limit + [0] + ab;
    var pa, pb := a.provider + [0] + la, b.provider + [0] + lb;
    if RowIdBytes(a) == RowIdBytes(b) {
      SplitAtNul(a.user, b.user, pa, pb);
      SplitAtNul(a.provider, b.provider, la, lb);
      SplitAtNul(a.key.limit, b.key.limit, aa, ab);
      SplitAtNul(a.key.account, b.key.account, ta, tb);
      assert ta[1..] == I64Bytes(a.key.endMs) && tb[1..] == I64Bytes(b.key.endMs) && ta[0] == a.key.kind && tb[0] == b.key.kind;
      I64BytesInjective(a.key.endMs, b.key.endMs);
    }
    I64RoundTrip(a.key.endMs);
    assert RowIdBytes(a)[|RowIdBytes(a)| - 8..] == I64Bytes(a.key.endMs);
  }

  // ----- the Fjall keyspace -----

  /** A stored value: readable, written by a newer binary, or damaged. */
  datatype Stored = Current(w: WireWindow) | Future(raw: bytes) | Corrupt(raw: bytes)

  function Lookup<V>(m: map<RowId, V>, id: RowId): Option<V> {
    if id in m then Some(m[id]) else None
  }

  /** What storing an observation makes of the value under its key. */
  function Absorb(v: Option<Stored>, w: WireWindow): Stored {
    match v
    case Some(Current(prev)) => Current(Merge(prev, w))
    case Some(Future(raw)) => Future(raw)
    case _ => Current(w)
  }

  /** The keyspace after the items, in order. */
  function StoreAll(m: map<RowId, Stored>, user: bytes, provider: bytes, items: seq<WireWindow>): map<RowId, Stored> {
    if items == [] then m else
      var before := StoreAll(m, user, provider, items[..|items| - 1]);
      var w := items[|items| - 1];
      var id := RowId(user, provider, w.key);
      before[id := Absorb(Lookup(before, id), w)]
  }

  /** How many items meet a value that must be preserved. */
  function Refused(m: map<RowId, Stored>, user: bytes, provider: bytes, items: seq<WireWindow>): nat {
    if items == [] then 0 else
      var w := items[|items| - 1];
      var v := Lookup(m, RowId(user, provider, w.key));
      Refused(m, user, provider, items[..|items| - 1]) + if v.Some? && v.value.Future? then 1 else 0
  }

  lemma {:induction false} FutureStays(m: map<RowId, Stored>, user: bytes, provider: bytes, items: seq<WireWindow>, id: RowId)
    ensures var v, v' := Lookup(m, id), Lookup(StoreAll(m, user, provider, items), id);
      (v.Some? && v.value.Future? ==> v' == v) && (v'.Some? && v'.value.Future? ==> v' == v)
  {
    if items == [] {
    } else {
      FutureStays(m, user, provider, items[..|items| - 1], id);
    }
  }

  class FjallWindows {
    var windows: map<RowId, Stored>

    /** Read, merge and write back item by item; unchanged rows are not rewritten, and values of
        a future version are neither touched nor counted as stored. */
    method UpsertWindows(user: bytes, provider: bytes, items: seq<WireWindow>) returns (skipped: nat)
      modifies this
      ensures windows == StoreAll(old(windows), user, provider, items)
      ensures skipped == Refused(old(windows), user, provider, items)
    {
      skipped := 0;
      for i := 0 to |items|
        invariant windows == StoreAll(old(windows), user, provider, items[..i])
        invariant skipped == Refused(old(windows), user, provider, items[..i])
      {
        var w := items[i];
        var id := RowId(user, provider, w.key);
        assert items[..i + 1][..i] == items[..i];
        FutureStays(old(windows), user, provider, items[..i], id);
        if id !in windows || windows[id].Corrupt? {
          windows := windows[id := Current(w)];
        } else if windows[id].Future? {
          skipped := skipped + 1;
          assert windows == windows[id := windows[id]];
        } else {
          var prev := windows[id].w;
          var merged := MergeWireWindows(prev, w);
          if merged == prev {
            assert windows == windows[id := Current(merged)];
          } else {
            windows := windows[id := Current(merged)];
          }
        }
      }
      assert items[..|items|] == items;
    }

    /** Retention: rows whose anchor is older than the cutoff go, in bounded batches. */
    method CleanupOldWindows(cutoff: int, batchSize: nat) returns (removed: nat)
      requires batchSize > 0
      modifies this
      ensures windows == map id | id in old(windows) && id.key.endMs >= cutoff :: old(windows)[id]
      ensures removed == |old(windows)| - |windows|
    {
      removed := 0;
      var stale := ScanExpired(windows, cutoff, batchSize);
      ghost var gone: set<RowId> := {};
      while stale != {}
        invariant stale <= Expired(windows, cutoff) && (stale == {} ==> Expired(windows, cutoff) == {})
        invariant Removed(old(windows), windows, gone, cutoff) && removed == |gone|
        decreases Expired(windows, cutoff)
      {
        RemoveSome(old(windows), windows, gone, stale, cutoff);
        windows := windows - stale;
        gone := gone + stale;
        removed := removed + |stale|;
        stale := ScanExpired(windows, cutoff, batchSize);
      }
      AllGone(old(windows), windows, gone, cutoff);
    }
  }

  function Expired(m: map<RowId, Stored>, cutoff: int): set<RowId> { set id | id in m && id.key.endMs < cutoff }

  /** `m` is what is left of `was` after removing `gone`, all of it expired. */
  ghost predicate Removed(was: map<RowId, Stored>, m: map<RowId, Stored>, gone: set<RowId>, cutoff: int) {
    m == was - gone && Expired(was, cutoff) == gone + Expired(m, cutoff)
  }

  lemma RemoveSome(was: map<RowId, Stored>, m: map<RowId, Stored>, gone: set<RowId>, stale: set<RowId>, cutoff: int)
    requires Removed(was, m, gone, cutoff) && stale <= Expired(m, cutoff)
    ensures Removed(was, m - stale, gone + stale, cutoff) && gone !! stale
    ensures Expired(m - stale, cutoff) == Expired(m, cutoff) - stale
  {
  }

  lemma AllGone(was: map<RowId, Stored>, m: map<RowId, Stored>, gone: set<RowId>, cutoff: int)
    requires Removed(was, m, gone, cutoff) && Expired(m, cutoff) == {}
    ensures m == (map id | id in was && id.key.endMs >= cutoff :: was[id]) && |gone| == |was| - |m|
  {
    assert m.Keys == was.Keys - gone && gone <= was.Keys;
    assert |was| == |was.Keys| && |m| == |m.Keys|;
    forall id ensures id in m <==> id in was && id.key.endMs >= cutoff {
      assert id in was && id.key.endMs < cutoff <==> id in Expired(was, cutoff);
    }
  }

  /** One bounded scan for expired rows. */
  method ScanExpired(m: map<RowId, Stored>, cutoff: int, batchSize: nat) returns (stale: set<RowId>)
    requires batchSize > 0
    ensures stale <= Expired(m, cutoff) && (stale == {} ==> Expired(m, cutoff) == {})
  {
    stale := {};
    var todo := m.Keys;
    while todo != {} && |stale| < batchSize
      invariant todo <= m.Keys && stale <= Expired(m, cutoff)
      invariant stale == {} ==> Expired(m, cutoff) <= todo
    {
      var id :| id in todo;
      todo := todo - {id};
      if id.key.endMs < cutoff {
        stale := stale + {id};
      }
    }
  }

  // ----- resending -----

  ghost predicate DistinctKeys(items: seq<WireWindow>) {
    forall i, j :: 0 <= i < j < |items| ==> items[i].key != items[j].key
  }

  /** Items with distinct keys act on their rows independently. */
  lemma {:induction false} StoreAllAt(m: map<RowId, Stored>, user: bytes, provider: bytes, items: seq<WireWindow>, id: RowId)
    requires DistinctKeys(items)
    ensures forall i :: 0 <= i < |items| && id == RowId(user, provider, items[i].key) ==>
              Lookup(StoreAll(m, user, provider, items), id) == Some(Absorb(Lookup(m, id), items[i]))
    ensures (forall i :: 0 <= i < |items| ==> id != RowId(user, provider, items[i].key)) ==>
              Lookup(StoreAll(m, user, provider, items), id) == Lookup(m, id)
  {
    if items == [] {
    } else {
      var init := items[..|items| - 1];
      StoreAllAt(m, user, provider, init, id);
    }
  }

  /** What an item of distinct key does to its row: it fills an absent or damaged one, leaves one of
      a future version alone, and is merged into any other. */
  lemma RowAfter(m: map<RowId, Stored>, user: bytes, provider: bytes, items: seq<WireWindow>, i: nat)
    requires DistinctKeys(items) && i < |items|
    ensures var id, n := RowId(user, provider, items[i].key), StoreAll(m, user, provider, items);
      id in n &&
      (id !in m || m[id].Corrupt? ==> n[id] == Current(items[i])) &&
      (id in m && m[id].Future? ==> n[id] == m[id]) &&
      (id in m && m[id].Current? ==> n[id].Current? && n[id].w == Merge(m[id].w, items[i]))
  {
    StoreAllAt(m, user, provider, items, RowId(user, provider, items[i].key));
  }

  /** No other row changes, and none is added. */
  lemma OtherRows(m: map<RowId, Stored>, user: bytes, provider: bytes, items: seq<WireWindow>, id: RowId)
    requires DistinctKeys(items) && forall w :: w in items ==> id != RowId(user, provider, w.key)
    ensures var n := StoreAll(m, user, provider, items); (id in n <==> id in m) && (id in m ==> n[id] == m[id])
  {
    StoreAllAt(m, user, provider, items, id);
  }

  /** Counted as refused are the items whose row is of a future version. */
  lemma {:induction false} RefusedExactly(m: map<RowId, Stored>, user: bytes, provider: bytes, items: seq<WireWindow>)
    ensures Refused(m, user, provider, items) == |set i | 0 <= i < |items| && HoldsFuture(m, RowId(user, provider, items[i].key))|
  {
    if items == [] {
    } else {
      var init := items[..|items| - 1];
      RefusedExactly(m, user, provider, init);
      var now, was := set i | 0 <= i < |items| && HoldsFuture(m, RowId(user, provider, items[i].key)), set i | 0 <= i < |init| && HoldsFuture(m, RowId(user, provider, init[i].key));
      assert now == if HoldsFuture(m, RowId(user, provider, items[|init|].key)) then was + {|init|} else was;
    }
  }

  predicate HoldsFuture(m: map<RowId, Stored>, id: RowId) { id in m && m[id].Future? }

  /** A batch changes no row exactly when each of its items is absorbed by the row it meets. */
  lemma BatchUnchanged(m: map<RowId, Stored>, user: bytes, provider: bytes, items: seq<WireWindow>)
    requires DistinctKeys(items)
    ensures StoreAll(m, user, provider, items) == m <==>
      forall i :: 0 <= i < |items| ==>
        var id := RowId(user, provider, items[i].key); Lookup(m, id) == Some(Absorb(Lookup(m, id), items[i]))
  {
    var n := StoreAll(m, user, provider, items);
    forall id ensures forall i :: 0 <= i < |items| && id == RowId(user, provider, items[i].key) ==>
        Lookup(n, id) == Some(Absorb(Lookup(m, id), items[i]))
      ensures (forall i :: 0 <= i < |items| ==> id != RowId(user, provider, items[i].key)) ==> Lookup(n, id) == Lookup(m, id)
    {
      StoreAllAt(m, user, provider, items, id);
    }
    if forall id :: Lookup(n, id) == Lookup(m, id) { SameLookups(n, m); }
  }

  /** Resending a sanitised, pre-merged batch leaves the keyspace as it is. */
  lemma ResendIsNoOp(m: map<RowId, Stored>, user: bytes, provider: bytes, items: seq<WireWindow>)
    requires DistinctKeys(items) && forall w :: w in items ==> Capped(w)
    ensures var once := StoreAll(m, user, provider, items); StoreAll(once, user, provider, items) == once
  {
    assert items[..|items|] == items;
    ResumeCompletes(m, user, provider, items, |items|);
  }

  /** Items are written one at a time; a batch cut off after any number of them and sent again
      ends as if it had gone through at once. */
  lemma ResumeCompletes(m: map<RowId, Stored>, user: bytes, provider: bytes, items: seq<WireWindow>, n: nat)
    requires n <= |items| && DistinctKeys(items) && forall w :: w in items ==> Capped(w)
    ensures StoreAll(StoreAll(m, user, provider, items[..n]), user, provider, items) == StoreAll(m, user, provider, items)
  {
    var part := StoreAll(m, user, provider, items[..n]);
    var resumed, whole := StoreAll(part, user, provider, items), StoreAll(m, user, provider, items);
    forall id ensures Lookup(resumed, id) == Lookup(whole, id) {
      StoreAllAt(m, user, provider, items[..n], id);
      StoreAllAt(part, user, provider, items, id);
      StoreAllAt(m, user, provider, items, id);
      if i :| 0 <= i < |items| && id == RowId(user, provider, items[i].key) {
        assert items[i] in items;
        if i < n {
          assert items[..n][i] == items[i];
          AbsorbTwice(Lookup(m, id), items[i]);
        }
      }
    }
    SameLookups(resumed, whole);
  }

  lemma AbsorbTwice(v: Option<Stored>, w: WireWindow)
    requires Capped(w)
    ensures Absorb(Some(Absorb(v, w)), w) == Absorb(v, w)
  {
  }

  lemma SameLookups<V>(a: map<RowId, V>, b: map<RowId, V>)
    requires forall id :: Lookup(a, id) == Lookup(b, id)
    ensures a == b
  {
    assert forall id :: id in a <==> Lookup(a, id).Some?;
    assert forall id :: id in b <==> Lookup(b, id).Some?;
    forall id | id in a ensures a[id] == b[id] {
      assert Lookup(a, id) == Lookup(b, id);
    }
  }

  // ----- convergence of uploads -----

  /** One accepted upload: a user's sanitised observations for a provider. */
  datatype Upload = Upload(user: bytes, provider: bytes, items: seq<WireWindow>)

  /** `m` can result from these uploads, each pre-merged and then stored. */
  ghost predicate Reaches(uploads: seq<Upload>, m: map<RowId, Stored>) {
    if uploads == [] then m == map[] else
      var last := uploads[|uploads| - 1];
      exists before, batch :: Reaches(uploads[..|uploads| - 1], before) && StoredFrom(before, last, batch, m)
  }

  ghost predicate StoredFrom(before: map<RowId, Stored>, up: Upload, batch: seq<WireWindow>, m: map<RowId, Stored>) {
    Premerged(up.items, batch) && m == StoreAll(before, up.user, up.provider, batch)
  }

  /** What one upload observes of a window. */
  ghost function Adds(up: Upload, id: RowId): set<WireWindow> {
    if up.user == id.user && up.provider == id.provider then OfKey(up.items, id.key) else {}
  }

  /** All observations of one window that were ever uploaded. */
  ghost function Uploaded(uploads: seq<Upload>, id: RowId): set<WireWindow> {
    if uploads == [] then {} else Uploaded(uploads[..|uploads| - 1], id) + Adds(uploads[|uploads| - 1], id)
  }

  /** The row of a window is some merging of everything uploaded about it. */
  ghost predicate RowIs(v: Option<Stored>, ws: set<WireWindow>) {
    if ws == {} then v == None else v.Some? && v.value.Current? && MergesAll(v.value.w, ws)
  }

  lemma AbsorbRow(v: Option<Stored>, ws: set<WireWindow>, w: WireWindow, added: set<WireWindow>)
    requires RowIs(v, ws) && MergesAll(w, added)
    ensures RowIs(Some(Absorb(v, w)), ws + added)
  {
    MergesSome(w, added);
    if ws == {} {
      assert ws + added == added;
    } else {
      var r :| Result(r) == v.value.w && Observations(r) == ws;
      var m :| Result(m) == w && Observations(m) == added;
      assert Result(Merged(r, m)) == Merge(v.value.w, w) && Observations(Merged(r, m)) == ws + added;
    }
  }

  lemma StoredRow(before: map<RowId, Stored>, up: Upload, batch: seq<WireWindow>, m: map<RowId, Stored>,
                  id: RowId, ws: set<WireWindow>)
    requires StoredFrom(before, up, batch, m) && RowIs(Lookup(before, id), ws)
    ensures RowIs(Lookup(m, id), ws + Adds(up, id))
  {
    StoreAllAt(before, up.user, up.provider, batch, id);
    if i :| 0 <= i < |batch| && id == RowId(up.user, up.provider, batch[i].key) {
      AbsorbRow(Lookup(before, id), ws, batch[i], Adds(up, id));
    } else {
      assert Adds(up, id) == {} by {
        assert forall w :: w in Adds(up, id) ==> w in up.items && id == RowId(up.user, up.provider, w.key);
      }
      assert ws + Adds(up, id) == ws;
    }
  }

  /** After any uploads, each row is a merging of exactly what was uploaded about its window. */
  lemma {:induction false} UploadsMerged(uploads: seq<Upload>, m: map<RowId, Stored>, id: RowId)
    requires Reaches(uploads, m)
    ensures RowIs(Lookup(m, id), Uploaded(uploads, id))
  {
    if uploads == [] {
    } else {
      var last, init := uploads[|uploads| - 1], uploads[..|uploads| - 1];
      var before, batch :| Reaches(init, before) && StoredFrom(before, last, batch, m);
      UploadsMerged(init, before, id);
      StoredRow(before, last, batch, m, id, Uploaded(init, id));
    }
  }

  lemma SettledRow(a: seq<Upload>, m: map<RowId, Stored>, b: seq<Upload>, n: map<RowId, Stored>, id: RowId)
    requires Reaches(a, m) && Reaches(b, n) && Uploaded(a, id) == Uploaded(b, id)
    requires Uploaded(a, id) != {} ==> Comparable(Uploaded(a, id)) && Settles(Uploaded(a, id))
    ensures Lookup(m, id) == Lookup(n, id)
  {
    UploadsMerged(a, m, id);
    UploadsMerged(b, n, id);
    var ws := Uploaded(a, id);
    if ws != {} {
      var l :| Result(l) == Lookup(m, id).value.w && Observations(l) == ws;
      var r :| Result(r) == Lookup(n, id).value.w && Observations(r) == ws;
      SettledConverge(l, r);
    }
  }

  /** Any order, grouping and duplication of uploads ends in the same store, as long as the
      observations of each window settle. */
  lemma UploadsConverge(a: seq<Upload>, m: map<RowId, Stored>, b: seq<Upload>, n: map<RowId, Stored>)
    requires Reaches(a, m) && Reaches(b, n)
    requires forall id :: Uploaded(a, id) == Uploaded(b, id)
    requires forall id :: Uploaded(a, id) != {} ==> Comparable(Uploaded(a, id)) && Settles(Uploaded(a, id))
    ensures m == n
  {
    forall id ensures Lookup(m, id) == Lookup(n, id) {
      SettledRow(a, m, b, n, id);
    }
    SameLookups(m, n);
  }

  /** One upload for each observation. */
  function Singly(id: RowId, q: seq<WireWindow>): seq<Upload> {
    if q == [] then [] else Singly(id, q[..|q| - 1]) + [Upload(id.user, id.provider, [q[|q| - 1]])]
  }

  lemma {:induction false} SinglyReaches(id: RowId, q: seq<WireWindow>) returns (m: map<RowId, Stored>)
    requires forall w :: w in q ==> w.key == id.key
    ensures LeftBySingles(id, q, m)
  {
    m := map[];
    if q != [] {
      var init, w := q[..|q| - 1], q[|q| - 1];
      assert forall x :: x in init ==> x in q;
      var before := SinglyReaches(id, init);
      m := before[id := Absorb(Lookup(before, id), w)];
      OneMoreSingle(id, init, before, w, m);
      assert q == init + [w];
    } else {
      assert Elements(q) == {};
    }
  }

  ghost predicate LeftBySingles(id: RowId, q: seq<WireWindow>, m: map<RowId, Stored>) {
    Reaches(Singly(id, q), m) && Uploaded(Singly(id, q), id) == Elements(q) &&
    Lookup(m, id) == if q == [] then None else Some(Current(Result(InTurn(q))))
  }

  lemma OneMoreSingle(id: RowId, q: seq<WireWindow>, before: map<RowId, Stored>, w: WireWindow, m: map<RowId, Stored>)
    requires LeftBySingles(id, q, before) && w.key == id.key && m == before[id := Absorb(Lookup(before, id), w)]
    ensures LeftBySingles(id, q + [w], m)
  {
    var up := Upload(id.user, id.provider, [w]);
    assert (q + [w])[..|q|] == q && Singly(id, q + [w]) == Singly(id, q) + [up];
    SingleStored(before, id, w, m);
    UploadMore(Singly(id, q), up, before, [w], m, id);
    assert Elements(q + [w]) == Elements(q) + {w};
    MergedInTurn(q, Lookup(before, id), w);
  }

  lemma MergedInTurn(q: seq<WireWindow>, v: Option<Stored>, w: WireWindow)
    requires v == if q == [] then None else Some(Current(Result(InTurn(q))))
    ensures Absorb(v, w) == Current(Result(InTurn(q + [w])))
  {
    if q != [] { InTurnStep(q, w); }
  }

  lemma UploadMore(uploads: seq<Upload>, up: Upload, before: map<RowId, Stored>, batch: seq<WireWindow>, m: map<RowId, Stored>, id: RowId)
    requires Reaches(uploads, before) && StoredFrom(before, up, batch, m)
    ensures Reaches(uploads + [up], m) && Uploaded(uploads + [up], id) == Uploaded(uploads, id) + Adds(up, id)
  {
    var all := uploads + [up];
    assert all[..|all| - 1] == uploads && all[|all| - 1] == up;
    assert Reaches(all[..|all| - 1], before) && StoredFrom(before, all[|all| - 1], batch, m);
  }

  lemma SingleStored(before: map<RowId, Stored>, id: RowId, w: WireWindow, m: map<RowId, Stored>)
    requires w.key == id.key && m == before[id := Absorb(Lookup(before, id), w)]
    ensures StoredFrom(before, Upload(id.user, id.provider, [w]), [w], m) && Adds(Upload(id.user, id.provider, [w]), id) == {w}
  {
    assert [w][..0] == [];
    assert OfKey([w], w.key) == {w} && Result(Observed(w)) == w && Observations(Observed(w)) == {w};
  }

  /** All uploads that say the same about a window leave the same row for it. */
  ghost predicate RowDetermined(id: RowId, ws: set<WireWindow>) {
    forall a, m, b, n :: Reaches(a, m) && Reaches(b, n) && Uploaded(a, id) == ws && Uploaded(b, id) == ws ==> Lookup(m, id) == Lookup(n, id)
  }

  /** What was uploaded about a window determines its row, whatever the order, grouping and
      duplication, if and only if the observations settle. */
  lemma RowDeterminedIffSettled(id: RowId, ws: set<WireWindow>)
    requires Comparable(ws) && forall w :: w in ws ==> w.key == id.key
    ensures RowDetermined(id, ws) <==> Settles(ws)
  {
    if Settles(ws) {
      forall a, m, b, n | Reaches(a, m) && Reaches(b, n) && Uploaded(a, id) == ws && Uploaded(b, id) == ws
        ensures Lookup(m, id) == Lookup(n, id)
      {
        SettledRow(a, m, b, n, id);
      }
    } else {
      var p, q := UnsettledDiffer(ws);
      assert forall w :: w in p || w in q ==> w in Elements(p) || w in Elements(q);
      var m := SinglyReaches(id, p);
      var n := SinglyReaches(id, q);
      assert Lookup(m, id) != Lookup(n, id);
    }
  }
}
