// Usage events, the keys the Fjall store files them under, and the byte layout of those keys.
// Identifiers are their UTF-8 bytes.
module EventKeys {
  import opened ByteStrings

  /** What an event is deduplicated by; also the key of the dedup index. */
  datatype LogicalKey = LogicalKey(device: bytes, provider: bytes, msg: bytes)

  /** Key of a row in `events` and in `sessions`. */
  datatype RowKey = RowKey(ts: i64, id: LogicalKey)

  /** Key of an entry of the per-user index. */
  datatype UserKey = UserKey(user: bytes, row: RowKey)

  /** The payload columns that travel with an event. */
  datatype Usage = Usage(model: bytes, project: bytes, input: nat, output: nat,
                         cacheCreation: nat, cacheRead: nat, total: nat)

  datatype Event = Event(id: LogicalKey, user: bytes, ts: i64, session: bytes, usage: Usage)

  function KeyOf(e: Event): RowKey { RowKey(e.ts, e.id) }

  /** The stored value: every column except the session, which has a keyspace of its own. */
  function Row(e: Event): Event { e.(session := []) }

  // ----- byte layout -----

  // device NUL provider NUL msg
  function MsgBytes(id: LogicalKey): bytes {
    id.device + [0] + (id.provider + [0] + id.msg)
  }

  // ts (8 bytes) device NUL provider NUL msg
  function RowBytes(k: RowKey): bytes {
    I64Bytes(k.ts) + MsgBytes(k.id)
  }

  // user NUL row key
  function UserBytes(k: UserKey): bytes {
    k.user + [0] + RowBytes(k.row)
  }

  /** The components that precede a NUL hold no NUL themselves. */
  predicate CleanId(id: LogicalKey) { NulFree(id.device) && NulFree(id.provider) }

  /** Different logical keys have different dedup keys, whatever the message id contains. */
  lemma MsgBytesInjective(a: LogicalKey, b: LogicalKey)
    requires CleanId(a) && CleanId(b) && MsgBytes(a) == MsgBytes(b)
    ensures a == b
  {
    SplitAtNul(a.device, b.device, a.provider + [0] + a.msg, b.provider + [0] + b.msg);
    SplitAtNul(a.provider, b.provider, a.msg, b.msg);
  }

  /** What precedes the first NUL, and what follows it. */
  lemma {:induction false} FirstNul(s: bytes) returns (x: bytes, rest: bytes)
    requires !NulFree(s)
    ensures s == x + [0] + rest && NulFree(x)
  {
    if s[0] == 0 {
      x, rest := [], s[1..];
    } else {
      var y;
      y, rest := FirstNul(s[1..]);
      x := [s[0]] + y;
    }
  }

  /** Any dedup key is also that of a logical key without stray NULs. */
  lemma CleanReading(a: LogicalKey) returns (b: LogicalKey)
    ensures CleanId(b) && MsgBytes(b) == MsgBytes(a)
  {
    var s := MsgBytes(a);
    var n := |a.device| + 1 + |a.provider|;
    assert s[n] == 0 && s[|a.device|] == 0;
    var x, r := FirstNul(s);
    assert |x| <= |a.device| by {
      assert forall i :: 0 <= i < |x| ==> x[i] == s[i];
    }
    assert r[n - |x| - 1] == s[n];
    var y, m := FirstNul(r);
    b := LogicalKey(x, y, m);
  }

  /** A logical key shares its dedup key with another one that has no NUL in device and provider
      exactly when it has one there itself; the batch's provider is not checked for it. */
  lemma MsgBytesCollideWithNul(a: LogicalKey)
    ensures (exists b :: CleanId(b) && b != a && MsgBytes(b) == MsgBytes(a)) <==> !CleanId(a)
  {
    if CleanId(a) {
      forall b | CleanId(b) && MsgBytes(b) == MsgBytes(a) ensures b == a {
        MsgBytesInjective(a, b);
      }
    } else {
      var b := CleanReading(a);
    }
  }

  /** It shares its dedup key with any other at all exactly when a component contains a NUL. */
  lemma MsgBytesUnique(a: LogicalKey)
    ensures (exists b :: b != a && MsgBytes(b) == MsgBytes(a)) <==> !CleanId(a) || !NulFree(a.msg)
  {
    if !CleanId(a) {
      var b := CleanReading(a);
    } else if !NulFree(a.msg) {
      var x, r := FirstNul(a.msg);
      var b := LogicalKey(a.device, a.provider + [0] + x, r);
      assert MsgBytes(b) == MsgBytes(a);
    } else {
      forall b | MsgBytes(b) == MsgBytes(a) ensures b == a {
        OnlyTwoNuls(a, b);
      }
    }
  }

  lemma OnlyTwoNuls(a: LogicalKey, b: LogicalKey)
    requires CleanId(a) && NulFree(a.msg) && MsgBytes(a) == MsgBytes(b)
    ensures a == b
  {
    var s, t := MsgBytes(a), MsgBytes(b);
    var d, p := |a.device|, |a.device| + 1 + |a.provider|;
    assert forall i :: 0 <= i < |s| && s[i] == 0 ==> i == d || i == p by {
      assert forall i :: 0 <= i < d ==> s[i] == a.device[i];
      assert forall i :: d < i < p ==> s[i] == a.provider[i - d - 1];
      assert forall i :: p < i < |s| ==> s[i] == a.msg[i - p - 1];
    }
    assert t[|b.device|] == 0 && t[|b.device| + 1 + |b.provider|] == 0;
    assert CleanId(b) by {
      assert forall i :: 0 <= i < |b.device| ==> b.device[i] == t[i];
      assert forall i :: 0 <= i < |b.provider| ==> b.provider[i] == t[|b.device| + 1 + i];
    }
    MsgBytesInjective(a, b);
  }

  /** A row key determines timestamp and logical key. */
  lemma RowBytesInjective(k: RowKey, l: RowKey)
    requires CleanId(k.id) && CleanId(l.id) && RowBytes(k) == RowBytes(l)
    ensures k == l
  {
    assert RowBytes(k)[..8] == I64Bytes(k.ts) && RowBytes(k)[8..] == MsgBytes(k.id);
    assert RowBytes(l)[..8] == I64Bytes(l.ts) && RowBytes(l)[8..] == MsgBytes(l.id);
    I64BytesInjective(k.ts, l.ts);
    MsgBytesInjective(k.id, l.id);
  }

  lemma UserBytesInjective(k: UserKey, l: UserKey)
    requires NulFree(k.user) && NulFree(l.user) && CleanId(k.row.id) && CleanId(l.row.id)
    requires UserBytes(k) == UserBytes(l)
    ensures k == l
  {
    SplitAtNul(k.user, l.user, RowBytes(k.row), RowBytes(l.row));
    RowBytesInjective(k.row, l.row);
  }

  /** The timestamp the code reads back from the first eight bytes of a row key, and from the
      eight bytes after the user prefix of an index key, is the row's. */
  lemma TimestampReadsBack(user: bytes, k: RowKey)
    ensures I64FromBytes(RowBytes(k)[..8]) == k.ts
    ensures I64FromBytes(UserBytes(UserKey(user, k))[|user| + 1..|user| + 9]) == k.ts
  {
    I64RoundTrip(k.ts);
    assert RowBytes(k)[..8] == I64Bytes(k.ts);
    var u := UserBytes(UserKey(user, k));
    assert u[|user| + 1..] == RowBytes(k);
    assert u[|user| + 1..|user| + 9] == RowBytes(k)[..8];
  }

  /** The prefix scan of the dedup index for a device meets exactly that device's pointers. */
  lemma DevicePrefix(device: bytes, id: LogicalKey)
    requires NulFree(device) && NulFree(id.device)
    ensures HasPrefix(MsgBytes(id), device + [0]) <==> id.device == device
  {
    PrefixAtNul(device, id.device, id.provider + [0] + id.msg);
  }

  /** The prefix scan of the user index for a user meets exactly that user's entries. */
  lemma UserPrefix(user: bytes, k: UserKey)
    requires NulFree(user) && NulFree(k.user)
    ensures HasPrefix(UserBytes(k), user + [0]) <==> k.user == user
  {
    PrefixAtNul(user, k.user, RowBytes(k.row));
  }

  /** Rows in byte order: time order within the non-negative and within the negative
      timestamps, and every negative timestamp after every non-negative one. */
  lemma RowOrder(k: RowKey, l: RowKey)
    requires k.ts != l.ts
    ensures LexLess(RowBytes(k), RowBytes(l)) <==>
            if (k.ts < 0) == (l.ts < 0) then k.ts < l.ts else l.ts < 0
  {
    I64BytesOrder(k.ts, l.ts);
    if I64Bytes(k.ts) == I64Bytes(l.ts) { I64BytesInjective(k.ts, l.ts); }
    LexByHead(I64Bytes(k.ts), I64Bytes(l.ts), MsgBytes(k.id), MsgBytes(l.id));
  }

  /** Within one user's prefix the index is in row order. */
  lemma UserOrder(user: bytes, k: RowKey, l: RowKey)
    ensures LexLess(UserBytes(UserKey(user, k)), UserBytes(UserKey(user, l))) <==> LexLess(RowBytes(k), RowBytes(l))
  {
    LexCommonPrefix(user + [0], RowBytes(k), RowBytes(l));
  }

  /** Where `range(since..)` starts: a row with a non-negative timestamp is met exactly when the
      bound is non-negative too and not later. A negative bound starts after all of them. */
  lemma RangeStart(since: i64, k: RowKey)
    requires k.ts >= 0
    ensures !LexLess(RowBytes(k), I64Bytes(since)) <==> 0 <= since <= k.ts
  {
    I64BytesOrder(k.ts, since);
    var h, t := I64Bytes(k.ts), I64Bytes(since);
    if k.ts == since {
      assert h + MsgBytes(k.id) == RowBytes(k) && t + [] == t;
      LexCommonPrefix(h, MsgBytes(k.id), []);
    } else {
      if h == t { I64BytesInjective(k.ts, since); }
      LexByHead(h, t, MsgBytes(k.id), []);
      assert t + [] == t;
    }
  }
}
