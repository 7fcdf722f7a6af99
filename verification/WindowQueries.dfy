// Reading a user's windows back from the keyspace, from the bytes of the keys.
module WindowQueries {
  import opened Options
  import opened ByteStrings
  import opened Windows
  import opened WindowStores
  import opened EventQueries

  /** The bytes before the first NUL. */
  function UntilNul(s: bytes): bytes {
    if s == [] || s[0] == 0 then [] else [s[0]] + UntilNul(s[1..])
  }

  lemma {:induction false} UntilNulOf(x: bytes, tail: bytes)
    requires NulFree(x)
    ensures UntilNul(x + [0] + tail) == x
  {
    if x == [] {
    } else {
      assert (x + [0] + tail)[1..] == x[1..] + [0] + tail;
      UntilNulOf(x[1..], tail);
    }
  }

  /** A row key tells its user by prefix, its provider up to the next NUL, and its anchor in the
      last eight bytes. */
  lemma KeyReadsBack(id: RowId, user: bytes)
    requires CleanRowId(id) && NulFree(user)
    ensures var raw := RowIdBytes(id);
      (HasPrefix(raw, user + [0]) <==> id.user == user) && |raw| >= |id.user| + 9 &&
      UntilNul(raw[|id.user| + 1..]) == id.provider && I64FromBytes(raw[|raw| - 8..]) == id.key.endMs
  {
    var tail := id.key.limit + [0] + (id.key.account + [0] + ([id.key.kind] + I64Bytes(id.key.endMs)));
    var raw := RowIdBytes(id);
    assert raw == id.user + [0] + (id.provider + [0] + tail);
    assert raw[|id.user| + 1..] == id.provider + [0] + tail;
    PrefixAtNul(user, id.user, id.provider + [0] + tail);
    UntilNulOf(id.provider, tail);
    RowIdBytesInjective(id, id);
  }

  /** A row of the answer: readable, of the user, and anchored at or after the bound. */
  predicate Listed(m: map<RowId, Stored>, user: bytes, since: int, id: RowId) {
    id in m && id.user == user && id.key.endMs >= since && m[id].Current? && m[id].w.key.endMs >= since
  }

  datatype Found = Found(provider: bytes, w: WireWindow)

  ghost function Listing(m: map<RowId, Stored>, ids: seq<RowId>): seq<Found>
    requires forall id :: id in ids ==> id in m && m[id].Current?
  {
    seq(|ids|, i requires 0 <= i < |ids| => Found(ids[i].provider, m[ids[i]].w))
  }

  ghost function Wanted(m: map<RowId, Stored>, user: bytes, since: int): set<RowId> {
    set id | id in m && Listed(m, user, since, id)
  }

  lemma RowIdsEncode(ids: set<RowId>)
    requires forall id :: id in ids ==> CleanRowId(id)
    ensures Encodes(RowIdBytes, ids)
  {
    forall a, b | a in ids && b in ids && RowIdBytes(a) == RowIdBytes(b) ensures a == b {
      RowIdBytesInjective(a, b);
    }
  }

  /** One entry of the prefix scan: the anchor decides first, then the value. */
  method ReadRow(m: map<RowId, Stored>, id: RowId, user: bytes, since: i64) returns (found: Option<Found>)
    requires Prefixed(m, user, id) && NulFree(user)
    ensures found == if Listed(m, user, since, id) then Some(Found(id.provider, m[id].w)) else None
  {
    KeyReadsBack(id, user);
    var raw := RowIdBytes(id);
    if I64FromBytes(raw[|raw| - 8..]) < since || !m[id].Current? || m[id].w.key.endMs < since {
      return None;
    }
    return Some(Found(UntilNul(raw[|user| + 1..]), m[id].w));
  }

  /** Exactly the user's readable windows from the bound on, each once with its provider, in key
      order. Values of a newer version and damaged ones are passed over. */
  method QueryUserWindows(m: map<RowId, Stored>, user: bytes, since: i64) returns (out: seq<Found>)
    requires NulFree(user) && forall id :: id in m ==> CleanRowId(id)
    ensures Encodes(RowIdBytes, Wanted(m, user, since))
    ensures out == Listing(m, InOrder(RowIdBytes, Wanted(m, user, since)))
    ensures exists ids :: ListedAs(m, user, since, out, ids)
  {
    var entries := set id | id in m && HasPrefix(RowIdBytes(id), user + [0]);
    RowIdsEncode(entries);
    var keys := Enumerate(RowIdBytes, entries);
    assert forall i :: 0 <= i < |keys| ==> keys[i] in keys;
    ghost var ids;
    out, ids := ReadRows(m, keys, user, since);
    AllListed(m, user, since, keys, ids);
    assert ListedAs(m, user, since, out, ids);
  }

  /** The answer lists these rows, in the byte order of their keys: every readable row of the user
      that ends at `since` or later, by its key and by its value. */
  ghost predicate ListedAs(m: map<RowId, Stored>, user: bytes, since: int, out: seq<Found>, ids: seq<RowId>) {
    |out| == |ids| && (forall i, j :: 0 <= i < j < |ids| ==> LexLess(RowIdBytes(ids[i]), RowIdBytes(ids[j]))) &&
    (forall i :: 0 <= i < |ids| ==> ids[i] in m && m[ids[i]].Current? && out[i] == Found(ids[i].provider, m[ids[i]].w)) &&
    forall id :: id in ids <==> id in m && id.user == user && m[id].Current? && since <= id.key.endMs && since <= m[id].w.key.endMs
  }

  method ReadRows(m: map<RowId, Stored>, keys: seq<RowId>, user: bytes, since: i64) returns (out: seq<Found>, ghost ids: seq<RowId>)
    requires NulFree(user) && Ascending(RowIdBytes, keys)
    requires forall i :: 0 <= i < |keys| ==> Prefixed(m, user, keys[i])
    ensures Scanned(m, user, since, keys, ids) && out == Listing(m, ids)
  {
    out, ids := [], [];
    for i := 0 to |keys|
      invariant Scanned(m, user, since, keys[..i], ids) && out == Listing(m, ids)
    {
      assert Prefixed(m, user, keys[i]);
      ScanStep(m, user, since, keys, i, ids);
      var found := ReadRow(m, keys[i], user, since);
      if found.Some? {
        ids := ids + [keys[i]];
        out := out + [found.value];
      }
    }
    assert keys[..|keys|] == keys;
  }

  ghost predicate Prefixed(m: map<RowId, Stored>, user: bytes, id: RowId) {
    id in m && CleanRowId(id) && HasPrefix(RowIdBytes(id), user + [0])
  }

  /** `ids` are the keys scanned so far that belong to the answer. */
  ghost predicate Scanned(m: map<RowId, Stored>, user: bytes, since: int, keys: seq<RowId>, ids: seq<RowId>) {
    Ascending(RowIdBytes, ids) && forall id :: id in ids <==> id in keys && Listed(m, user, since, id)
  }

  lemma ScanStep(m: map<RowId, Stored>, user: bytes, since: int, keys: seq<RowId>, i: nat, ids: seq<RowId>)
    requires i < |keys| && Ascending(RowIdBytes, keys) && Scanned(m, user, since, keys[..i], ids)
    ensures Scanned(m, user, since, keys[..i + 1], if Listed(m, user, since, keys[i]) then ids + [keys[i]] else ids)
  {
    assert keys[..i + 1] == keys[..i] + [keys[i]];
    forall j | 0 <= j < |ids| ensures LexLess(RowIdBytes(ids[j]), RowIdBytes(keys[i])) {
      assert ids[j] in ids;
      var n :| 0 <= n < i && keys[n] == ids[j];
    }
  }

  lemma AllListed(m: map<RowId, Stored>, user: bytes, since: int, keys: seq<RowId>, ids: seq<RowId>)
    requires NulFree(user) && forall id :: id in m ==> CleanRowId(id)
    requires forall id :: id in keys <==> id in m && HasPrefix(RowIdBytes(id), user + [0])
    requires Scanned(m, user, since, keys, ids)
    ensures Encodes(RowIdBytes, Wanted(m, user, since)) && ids == InOrder(RowIdBytes, Wanted(m, user, since))
  {
    RowIdsEncode(Wanted(m, user, since));
    forall id | id in m ensures id in ids <==> id in Wanted(m, user, since) {
      KeyReadsBack(id, user);
    }
    AscendingUnique(RowIdBytes, ids, InOrder(RowIdBytes, Wanted(m, user, since)));
  }
}
