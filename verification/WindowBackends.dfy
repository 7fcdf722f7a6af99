// The ClickHouse path for windows: a bounded read of the merged rows, an in-memory merge, and an
// append of versioned rows of which the highest `updated_at` survives.
module WindowBackends {
  import opened Options
  import opened ByteStrings
  import opened Windows
  import opened WindowStores

  /** One inserted row. */
  datatype Version = Version(user: bytes, provider: bytes, w: WireWindow, updatedAt: int) {
    function Id(): RowId { RowId(user, provider, w.key) }
  }

  /** The rows a merging read (`FINAL`) returns: per key the highest version, the later insert
      among equals. */
  function Final(table: seq<Version>): map<RowId, WireWindow> {
    map id | id in Clocks(table) :: Surviving(table, id).w
  }

  /** The version that survives for each key. */
  function Clocks(table: seq<Version>): map<RowId, int> {
    if table == [] then map[] else
      var before, v := Clocks(table[..|table| - 1]), table[|table| - 1];
      if v.Id() in before && before[v.Id()] > v.updatedAt then before else before[v.Id() := v.updatedAt]
  }

  function Surviving(table: seq<Version>, id: RowId): (v: Version)
    requires id in Clocks(table)
    ensures v in table && v.Id() == id && v.updatedAt == Clocks(table)[id]
  {
    var v := table[|table| - 1];
    if v.Id() == id && Clocks(table)[id] == v.updatedAt then v else Surviving(table[..|table| - 1], id)
  }

  /** What is read back is, per key, a row no other version of the key exceeds. */
  lemma {:induction false} FinalIsNewest(table: seq<Version>)
    ensures forall v :: v in table ==> v.Id() in Final(table) && v.updatedAt <= Surviving(table, v.Id()).updatedAt
  {
    if table == [] {
    } else {
      FinalIsNewest(table[..|table| - 1]);
      assert table == table[..|table| - 1] + [table[|table| - 1]];
    }
  }

  /** An appended version replaces the row of its key exactly when no version of that key carries a
      later clock value — or the row it loses to says the same. */
  lemma FinalAppend(table: seq<Version>, v: Version)
    ensures Final(table + [v]) == Final(table)[v.Id() := v.w]
        <==> (v.Id() in Clocks(table) && Clocks(table)[v.Id()] > v.updatedAt ==> Surviving(table, v.Id()).w == v.w)
  {
    AppendedRow(table, v);
    OtherRows(table, v);
    var t := Final(table + [v]);
    assert t == Final(table)[v.Id() := t[v.Id()]];
  }

  lemma OtherRows(table: seq<Version>, v: Version)
    ensures Final(table + [v]).Keys == Final(table).Keys + {v.Id()}
    ensures forall id :: id in Final(table) && id != v.Id() ==> Final(table + [v])[id] == Final(table)[id]
  {
  }

  lemma AppendedRow(table: seq<Version>, v: Version)
    ensures v.Id() in Clocks(table + [v])
    ensures Surviving(table + [v], v.Id()).w
         == if v.Id() in Clocks(table) && Clocks(table)[v.Id()] > v.updatedAt then Surviving(table, v.Id()).w else v.w
  {
  }

  /** The bounded read of an upload: one user's rows of one provider from the oldest incoming
      anchor on. */
  method QueryFiltered(table: seq<Version>, user: bytes, provider: bytes, since: int) returns (rows: map<WindowKey, WireWindow>)
    ensures forall key :: key in rows <==> RowId(user, provider, key) in Final(table) && key.endMs >= since
    ensures forall key :: key in rows ==> rows[key] == Final(table)[RowId(user, provider, key)] && rows[key].key == key
  {
    var final := Final(table);
    rows := map id | id in final && id.user == user && id.provider == provider && id.key.endMs >= since :: id.key := final[id];
    forall key | RowId(user, provider, key) in final && key.endMs >= since ensures key in rows {
      assert RowId(user, provider, key).key == key;
    }
  }

  function MinEnd(items: seq<WireWindow>): (m: int)
    requires items != []
    ensures forall w :: w in items ==> m <= w.key.endMs
  {
    if |items| == 1 then items[0].key.endMs else
      var rest := MinEnd(items[1..]);
      assert forall w :: w in items ==> w == items[0] || w in items[1..];
      Min(items[0].key.endMs, rest)
  }

  /** What merging an item makes of its row. */
  function MergedRow(m: map<RowId, WireWindow>, id: RowId, w: WireWindow): WireWindow {
    if id in m then Merge(m[id], w) else w
  }

  predicate Changes(m: map<RowId, WireWindow>, id: RowId, w: WireWindow) { id !in m || Merge(m[id], w) != m[id] }

  /** The rows once the items are merged in, one after another. */
  function MergeAll(m: map<RowId, WireWindow>, user: bytes, provider: bytes, items: seq<WireWindow>): map<RowId, WireWindow> {
    if items == [] then m else
      var before, w := MergeAll(m, user, provider, items[..|items| - 1]), items[|items| - 1];
      var id := RowId(user, provider, w.key);
      before[id := MergedRow(before, id, w)]
  }

  /** Items with distinct keys act on their rows independently. */
  lemma {:induction false} MergeAllAt(m: map<RowId, WireWindow>, user: bytes, provider: bytes, items: seq<WireWindow>, id: RowId)
    requires DistinctKeys(items)
    ensures forall i :: 0 <= i < |items| && id == RowId(user, provider, items[i].key) ==>
              Lookup(MergeAll(m, user, provider, items), id) == Some(MergedRow(m, id, items[i]))
    ensures (forall i :: 0 <= i < |items| ==> id != RowId(user, provider, items[i].key)) ==>
              Lookup(MergeAll(m, user, provider, items), id) == Lookup(m, id)
  {
    if items == [] {
    } else {
      MergeAllAt(m, user, provider, items[..|items| - 1], id);
    }
  }

  /** The rows an upload inserts: the merged ones, without those that stay as they are. */
  function ChangedRows(m: map<RowId, WireWindow>, user: bytes, provider: bytes, items: seq<WireWindow>): seq<WireWindow> {
    if items == [] then [] else
      var before, w := ChangedRows(m, user, provider, items[..|items| - 1]), items[|items| - 1];
      var id := RowId(user, provider, w.key);
      if Changes(m, id, w) then before + [MergedRow(m, id, w)] else before
  }

  /** The table once rows are inserted under one clock value. */
  function Inserted(table: seq<Version>, user: bytes, provider: bytes, rows: seq<WireWindow>, now: int): seq<Version> {
    if rows == [] then table else
      Inserted(table, user, provider, rows[..|rows| - 1], now) + [Version(user, provider, rows[|rows| - 1], now)]
  }

  /** A version of the row was written under a later clock value. */
  predicate Ahead(table: seq<Version>, id: RowId, now: int) { id in Clocks(table) && Clocks(table)[id] > now }

  /** The table after an upload. */
  function Uploaded(table: seq<Version>, user: bytes, provider: bytes, items: seq<WireWindow>, now: int): seq<Version> {
    Inserted(table, user, provider, ChangedRows(Final(table), user, provider, items), now)
  }

  /** An upload leaves rows alone that none of its items is about. */
  lemma {:induction false} OthersUntouched(table: seq<Version>, user: bytes, provider: bytes, items: seq<WireWindow>, now: int, id: RowId)
    requires forall i :: 0 <= i < |items| ==> id != RowId(user, provider, items[i].key)
    ensures Lookup(Final(Uploaded(table, user, provider, items, now)), id) == Lookup(Final(table), id)
    ensures Lookup(Clocks(Uploaded(table, user, provider, items, now)), id) == Lookup(Clocks(table), id)
  {
    if items == [] {
    } else {
      OthersUntouched(table, user, provider, items[..|items| - 1], now, id);
      LastItem(table, user, provider, items, now, id);
    }
  }

  lemma LastItem(table: seq<Version>, user: bytes, provider: bytes, items: seq<WireWindow>, now: int, id: RowId)
    requires items != []
    ensures var before, after := Uploaded(table, user, provider, items[..|items| - 1], now), Uploaded(table, user, provider, items, now);
      var w := items[|items| - 1];
      if id == RowId(user, provider, w.key) && Changes(Final(table), id, w) then
        Lookup(Final(after), id) == if Ahead(before, id, now) then Lookup(Final(before), id) else Some(MergedRow(Final(table), id, w))
      else Lookup(Final(after), id) == Lookup(Final(before), id) && Lookup(Clocks(after), id) == Lookup(Clocks(before), id)
  {
    var w := items[|items| - 1];
    var wid := RowId(user, provider, w.key);
    if Changes(Final(table), wid, w) {
      var rows := ChangedRows(Final(table), user, provider, items[..|items| - 1]);
      OneInserted(table, user, provider, rows, now, MergedRow(Final(table), wid, w), id);
    }
  }

  /** The row of an item, once the upload got as far as that item: the merged row, unless a
      version of it is ahead. */
  ghost predicate RowInserted(table: seq<Version>, t: seq<Version>, id: RowId, w: WireWindow, now: int) {
    Lookup(Final(t), id) == if Changes(Final(table), id, w) && !Ahead(table, id, now)
                            then Some(MergedRow(Final(table), id, w)) else Lookup(Final(table), id)
  }

  lemma LastInserted(table: seq<Version>, user: bytes, provider: bytes, items: seq<WireWindow>, now: int)
    requires items != [] && DistinctKeys(items)
    ensures var w := items[|items| - 1];
      RowInserted(table, Uploaded(table, user, provider, items, now), RowId(user, provider, w.key), w, now)
  {
    var init, w := items[..|items| - 1], items[|items| - 1];
    var id := RowId(user, provider, w.key);
    LastItem(table, user, provider, items, now, id);
    OthersUntouched(table, user, provider, init, now, id);
    SameClock(table, Uploaded(table, user, provider, init, now), id, now);
  }

  lemma SameClock(t: seq<Version>, u: seq<Version>, id: RowId, now: int)
    requires Lookup(Clocks(t), id) == Lookup(Clocks(u), id)
    ensures Ahead(t, id, now) == Ahead(u, id, now)
  {
    assert id in Clocks(t) <==> Lookup(Clocks(t), id).Some?;
    assert id in Clocks(u) <==> Lookup(Clocks(u), id).Some?;
  }

  lemma {:induction false} InsertedAt(table: seq<Version>, user: bytes, provider: bytes, items: seq<WireWindow>, now: int, i: nat)
    requires DistinctKeys(items) && i < |items|
    ensures RowInserted(table, Uploaded(table, user, provider, items, now), RowId(user, provider, items[i].key), items[i], now)
  {
    var n := |items| - 1;
    if i < n {
      var id := RowId(user, provider, items[i].key);
      assert items[..n][i] == items[i] && id != RowId(user, provider, items[n].key);
      InsertedAt(table, user, provider, items[..n], now, i);
      LastItem(table, user, provider, items, now, id);
    } else {
      LastInserted(table, user, provider, items, now);
    }
  }

  lemma OneInserted(table: seq<Version>, user: bytes, provider: bytes, rows: seq<WireWindow>, now: int, r: WireWindow, id: RowId)
    ensures var before, after := Inserted(table, user, provider, rows, now), Inserted(table, user, provider, rows + [r], now);
      if id == RowId(user, provider, r.key) then
        Lookup(Final(after), id) == if Ahead(before, id, now) then Lookup(Final(before), id) else Some(r)
      else Lookup(Final(after), id) == Lookup(Final(before), id) && Lookup(Clocks(after), id) == Lookup(Clocks(before), id)
  {
    assert (rows + [r])[..|rows|] == rows;
    var before, v := Inserted(table, user, provider, rows, now), Version(user, provider, r, now);
    assert (before + [v])[..|before|] == before;
    AppendedRow(before, v);
    OtherRows(before, v);
  }

  ghost predicate RowClockKept(table: seq<Version>, user: bytes, provider: bytes, items: seq<WireWindow>, now: int, id: RowId) {
    forall i :: 0 <= i < |items| && id == RowId(user, provider, items[i].key) && Changes(Final(table), id, items[i]) ==> !Ahead(table, id, now)
  }

  /** No row that the upload has to change was written under a later clock value. */
  ghost predicate ClockKept(table: seq<Version>, user: bytes, provider: bytes, items: seq<WireWindow>, now: int) {
    forall id :: RowClockKept(table, user, provider, items, now, id)
  }

  lemma UploadedRow(table: seq<Version>, user: bytes, provider: bytes, items: seq<WireWindow>, now: int, id: RowId)
    requires DistinctKeys(items)
    ensures Lookup(Final(Uploaded(table, user, provider, items, now)), id) == Lookup(MergeAll(Final(table), user, provider, items), id)
        <==> RowClockKept(table, user, provider, items, now, id)
  {
    MergeAllAt(Final(table), user, provider, items, id);
    if i :| 0 <= i < |items| && id == RowId(user, provider, items[i].key) {
      InsertedAt(table, user, provider, items, now, i);
    } else {
      OthersUntouched(table, user, provider, items, now, id);
    }
  }

  /** The upload has its effect if and only if no row it has to change was written under a later
      clock value. */
  lemma UploadTakesEffect(table: seq<Version>, user: bytes, provider: bytes, items: seq<WireWindow>, now: int)
    requires DistinctKeys(items)
    ensures Final(Uploaded(table, user, provider, items, now)) == MergeAll(Final(table), user, provider, items)
        <==> ClockKept(table, user, provider, items, now)
  {
    var final, merged := Final(Uploaded(table, user, provider, items, now)), MergeAll(Final(table), user, provider, items);
    forall id ensures Lookup(final, id) == Lookup(merged, id) <==> RowClockKept(table, user, provider, items, now, id) {
      UploadedRow(table, user, provider, items, now, id);
    }
    if forall id :: Lookup(final, id) == Lookup(merged, id) {
      SameLookups(final, merged);
    }
  }

  /** The item fills an absent row or changes what is there. */
  predicate NeedsChange(m: map<RowId, WireWindow>, id: RowId, w: WireWindow) { id in m ==> Merge(m[id], w) != m[id] }

  /** `r` is what an item that has to change its row makes of it. */
  ghost predicate IsChange(m: map<RowId, WireWindow>, user: bytes, provider: bytes, items: seq<WireWindow>, r: WireWindow) {
    var id := RowId(user, provider, r.key);
    if id in m then r != m[id] && exists w :: w in items && w.key == r.key && r == Merge(m[id], w) else r in items
  }

  function Versions(user: bytes, provider: bytes, rows: seq<WireWindow>, now: int): (t: seq<Version>)
    ensures |t| == |rows| && forall i :: 0 <= i < |t| ==> t[i] == Version(user, provider, rows[i], now)
  {
    if rows == [] then [] else Versions(user, provider, rows[..|rows| - 1], now) + [Version(user, provider, rows[|rows| - 1], now)]
  }

  lemma {:induction false} AppendedOnly(table: seq<Version>, user: bytes, provider: bytes, rows: seq<WireWindow>, now: int)
    ensures Inserted(table, user, provider, rows, now) == table + Versions(user, provider, rows, now)
  {
    if rows == [] {
    } else {
      AppendedOnly(table, user, provider, rows[..|rows| - 1], now);
    }
  }

  lemma {:induction false} ChangesOnly(m: map<RowId, WireWindow>, user: bytes, provider: bytes, items: seq<WireWindow>)
    requires forall id :: id in m ==> m[id].key == id.key
    ensures forall r :: r in ChangedRows(m, user, provider, items) ==> IsChange(m, user, provider, items, r)
  {
    if items == [] {
    } else {
      var init, w := items[..|items| - 1], items[|items| - 1];
      assert items == init + [w];
      ChangesOnly(m, user, provider, init);
    }
  }

  lemma {:induction false} ChangesOnce(m: map<RowId, WireWindow>, user: bytes, provider: bytes, items: seq<WireWindow>)
    requires DistinctKeys(items) && forall id :: id in m ==> m[id].key == id.key
    ensures var rows := ChangedRows(m, user, provider, items);
      (forall r :: r in rows ==> exists w :: w in items && w.key == r.key) &&
      (forall i, j :: 0 <= i < j < |rows| ==> rows[i].key != rows[j].key)
  {
    if items == [] {
    } else {
      var init, w := items[..|items| - 1], items[|items| - 1];
      assert items == init + [w];
      ChangesOnce(m, user, provider, init);
      var before := ChangedRows(m, user, provider, init);
      assert forall i :: 0 <= i < |before| ==> before[i] in before;
    }
  }

  lemma {:induction false} ChangesAll(m: map<RowId, WireWindow>, user: bytes, provider: bytes, items: seq<WireWindow>)
    requires forall id :: id in m ==> m[id].key == id.key
    ensures forall w :: w in items && NeedsChange(m, RowId(user, provider, w.key), w) ==>
      exists r :: r in ChangedRows(m, user, provider, items) && r.key == w.key
  {
    if items == [] {
    } else {
      var init, last := items[..|items| - 1], items[|items| - 1];
      assert items == init + [last];
      ChangesAll(m, user, provider, init);
      var before, rows := ChangedRows(m, user, provider, init), ChangedRows(m, user, provider, items);
      assert forall r :: r in before ==> r in rows;
      var id := RowId(user, provider, last.key);
      if NeedsChange(m, id, last) { assert MergedRow(m, id, last) in rows; }
    }
  }

  /** An upload appends, under its clock value, one version for each row that its items change,
      holding the change. Nothing else is written. */
  lemma UploadAppends(table: seq<Version>, user: bytes, provider: bytes, items: seq<WireWindow>, now: int) returns (rows: seq<WireWindow>)
    requires DistinctKeys(items)
    ensures Uploaded(table, user, provider, items, now) == table + Versions(user, provider, rows, now)
    ensures forall r :: r in rows ==> IsChange(Final(table), user, provider, items, r)
    ensures forall w :: w in items && NeedsChange(Final(table), RowId(user, provider, w.key), w) ==> exists r :: r in rows && r.key == w.key
    ensures forall i, j :: 0 <= i < j < |rows| ==> rows[i].key != rows[j].key
  {
    rows := ChangedRows(Final(table), user, provider, items);
    AppendedOnly(table, user, provider, rows, now);
    ChangesOnly(Final(table), user, provider, items);
    ChangesOnce(Final(table), user, provider, items);
    ChangesAll(Final(table), user, provider, items);
  }

  /** Read the affected range, merge in memory, append the rows that changed under one clock
      value. The bounded read misses no row it needs, and the result is row for row what the
      Fjall keyspace holds after the same batch — if and only if no row the batch has to change
      was written under a later clock value. */
  method UpsertWindows(table: seq<Version>, user: bytes, provider: bytes, items: seq<WireWindow>, now: int)
    returns (table': seq<Version>)
    requires DistinctKeys(items)
    ensures AsStored(Final(table')) == StoreAll(AsStored(Final(table)), user, provider, items)
        <==> ClockKept(table, user, provider, items, now)
    ensures table' == Uploaded(table, user, provider, items, now)
  {
    table' := table;
    if items != [] {
      var since := MinEnd(items);
      var byKey := QueryFiltered(table, user, provider, since);
      var merged := MergeChanged(Final(table), byKey, user, provider, items, since);
      for i := 0 to |merged|
        invariant table' == Inserted(table, user, provider, merged[..i], now)
      {
        assert merged[..i + 1][..i] == merged[..i];
        table' := table' + [Version(user, provider, merged[i], now)];
      }
      assert merged[..|merged|] == merged;
    }
    UploadTakesEffect(table, user, provider, items, now);
    BackendsAgree(Final(table), user, provider, items);
    StoredAlike(Final(table'), MergeAll(Final(table), user, provider, items));
  }

  /** The in-memory merge: every item against the row that was read for it, unchanged rows left out. */
  method MergeChanged(ghost m: map<RowId, WireWindow>, byKey: map<WindowKey, WireWindow>, user: bytes, provider: bytes,
                      items: seq<WireWindow>, ghost since: int) returns (merged: seq<WireWindow>)
    requires forall w :: w in items ==> since <= w.key.endMs
    requires forall key :: key in byKey <==> RowId(user, provider, key) in m && key.endMs >= since
    requires forall key :: key in byKey ==> byKey[key] == m[RowId(user, provider, key)]
    ensures merged == ChangedRows(m, user, provider, items)
  {
    merged := [];
    for i := 0 to |items|
      invariant merged == ChangedRows(m, user, provider, items[..i])
    {
      var w := items[i];
      assert items[..i + 1][..i] == items[..i] && w in items;
      if w.key in byKey {
        var base := MergeWireWindows(byKey[w.key], w);
        if base != byKey[w.key] {
          merged := merged + [base];
        }
      } else {
        merged := merged + [w];
      }
    }
    assert items[..|items|] == items;
  }

  lemma StoredAlike(m: map<RowId, WireWindow>, n: map<RowId, WireWindow>)
    ensures AsStored(m) == AsStored(n) <==> m == n
  {
    if AsStored(m) == AsStored(n) {
      assert m.Keys == AsStored(m).Keys && n.Keys == AsStored(n).Keys;
      forall id | id in m ensures m[id] == n[id] {
        assert AsStored(m)[id] == Current(m[id]) && AsStored(n)[id] == Current(n[id]);
      }
    }
  }

  /** The failing upload: the server's clock was set back since the row was written, and the higher
      peak that the Fjall keyspace would keep is lost. */
  lemma ClockSetBackLosesPeak() returns (table: seq<Version>, items: seq<WireWindow>)
    ensures DistinctKeys(items) && Final(Uploaded(table, [1], [2], items, 99)) != MergeAll(Final(table), [1], [2], items)
  {
    var w := WireWindow(WindowKey(0, [], [], 0), Latest(1, 0, 0, 0, 300, []), 10, 0, false, false, 0, -1, 0, 0, 0);
    table, items := [Version([1], [2], w, 100)], [w.(peak := 20)];
    assert table[..0] == [];
    var id := RowId([1], [2], w.key);
    assert Final(table)[id] == w && Ahead(table, id, 99) && Changes(Final(table), id, items[0]);
    assert !RowClockKept(table, [1], [2], items, 99, id);
    UploadTakesEffect(table, [1], [2], items, 99);
  }

  /** The same rows as the Fjall keyspace would hold them. */
  function AsStored(m: map<RowId, WireWindow>): map<RowId, Stored> { map id | id in m :: Current(m[id]) }

  lemma {:induction false} BackendsAgree(m: map<RowId, WireWindow>, user: bytes, provider: bytes, items: seq<WireWindow>)
    ensures AsStored(MergeAll(m, user, provider, items)) == StoreAll(AsStored(m), user, provider, items)
  {
    if items == [] {
    } else {
      BackendsAgree(m, user, provider, items[..|items| - 1]);
    }
  }
}
