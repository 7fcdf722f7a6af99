// Reading the event store: the full scan of `events`, the prefix scan of the per-user index,
// and the query that chooses between them.
module EventQueries {
  import opened ByteStrings
  import opened EventKeys
  import opened EventSpaces
  import opened Sums

  datatype UserFilter = Single(user: bytes) | Multiple(users: seq<bytes>) | All

  predicate Matches(filter: UserFilter, user: bytes) {
    match filter
    case Single(u) => user == u
    case Multiple(us) => user in us
    case All => true
  }

  // ----- what a scan may rely on -----

  ghost predicate CleanFilter(filter: UserFilter) {
    (filter.Single? ==> NulFree(filter.user)) && (filter.Multiple? ==> forall u :: u in filter.users ==> NulFree(u))
  }

  /** Key components are NUL-free and timestamps non-negative. */
  ghost predicate Scannable(s: Spaces) {
    (forall k :: k in s.events ==> CleanId(k.id) && k.ts >= 0) &&
    (forall uk :: uk in s.idxUser ==> NulFree(uk.user) && CleanId(uk.row.id) && uk.row.ts >= 0)
  }

  lemma RowKeysEncode(ks: set<RowKey>)
    requires forall k :: k in ks ==> CleanId(k.id)
    ensures Encodes(RowBytes, ks)
  {
    forall k, l | k in ks && l in ks && RowBytes(k) == RowBytes(l) ensures k == l {
      RowBytesInjective(k, l);
    }
  }

  lemma UserKeysEncode(ks: set<UserKey>)
    requires forall k :: k in ks ==> NulFree(k.user) && CleanId(k.row.id)
    ensures Encodes(UserBytes, ks)
  {
    forall k, l | k in ks && l in ks && UserBytes(k) == UserBytes(l) ensures k == l {
      UserBytesInjective(k, l);
    }
  }

  // ----- what a scan returns -----

  /** A stored row as a query reports it: with its session put back. */
  function Load(row: Event, sessions: map<RowKey, bytes>): Event {
    row.(session := if KeyOf(row) in sessions then sessions[KeyOf(row)] else [])
  }

  /** A scan stops once it holds `limit` rows, which it notices only after taking one. */
  function Page<T>(r: seq<T>, limit: nat): (p: seq<T>)
    ensures p <= r && |p| == if |r| <= limit then |r| else if limit == 0 then 1 else limit
    ensures |r| < limit || r == [] ==> p == r
    ensures forall i :: 0 <= i < |p| ==> p[i] == r[i] && p[i] in r
  {
    var n := if limit == 0 then 1 else limit;
    if |r| <= n then r else r[..n]
  }

  ghost function Rows(s: Spaces, ks: seq<RowKey>): (r: seq<Event>)
    requires forall k :: k in ks ==> k in s.events
    ensures |r| == |ks|
  {
    seq(|ks|, i requires 0 <= i < |ks| => Load(s.events[ks[i]], s.sessions))
  }

  /** The rows of a half-open time window that match a filter. */
  ghost function Hits(s: Spaces, filter: UserFilter, since: int, until: int): set<RowKey> {
    set k | k in s.events && since <= k.ts < until && Matches(filter, s.events[k].user)
  }

  /** The answer to a scan: the hits in key order, cut at the limit. */
  ghost function Answer(s: Spaces, filter: UserFilter, since: int, until: int, limit: nat): seq<Event>
    requires Scannable(s)
  {
    RowKeysEncode(Hits(s, filter, since, until));
    Rows(s, Page(InOrder(RowBytes, Hits(s, filter, since, until)), limit))
  }

  /** What the full scan finds: its range starts at the encoded lower bound, and a negative bound
      encodes above every row. */
  ghost function FullScanAnswer(s: Spaces, filter: UserFilter, since: int, until: int, limit: nat): seq<Event>
    requires Scannable(s)
  {
    if since >= 0 then Answer(s, filter, since, until, limit) else []
  }

  // ----- iterating a keyspace -----

  /** The engine's iterator over a set of keys. */
  method Enumerate<K(==, !new)>(enc: K -> bytes, ks: set<K>) returns (r: seq<K>)
    requires Encodes(enc, ks)
    ensures r == InOrder(enc, ks)
  {
    r := [];
    var rest := ks;
    while rest != {}
      invariant Ascending(enc, r) && rest <= ks
      invariant forall k :: k in ks <==> k in r || k in rest
      invariant forall i, k :: 0 <= i < |r| && k in rest ==> LexLess(enc(r[i]), enc(k))
    {
      var least :| least in rest;
      var todo := rest - {least};
      while todo != {}
        invariant todo <= rest && least in rest - todo
        invariant forall k :: k in rest - todo ==> k == least || LexLess(enc(least), enc(k))
      {
        var k :| k in todo;
        LexTotal(enc(k), enc(least));
        if LexLess(enc(k), enc(least)) {
          forall o | o in rest - todo && o != least ensures LexLess(enc(k), enc(o)) {
            LexTransitive(enc(k), enc(least), enc(o));
          }
          least := k;
        }
        todo := todo - {k};
      }
      r, rest := r + [least], rest - {least};
    }
    AscendingUnique(enc, r, InOrder(enc, ks));
  }

  /** What is selected from an ascending run of keys is ascending, and is the selected set in order. */
  ghost function Select<K(!new)>(ks: seq<K>, p: K -> bool): (r: seq<K>)
    ensures forall k :: k in r <==> k in ks && p(k)
  {
    if ks == [] then [] else
      var init, last := Select(ks[..|ks| - 1], p), ks[|ks| - 1];
      if p(last) then init + [last] else init
  }

  lemma {:induction false} SelectAscends<K(!new)>(enc: K -> bytes, ks: seq<K>, p: K -> bool)
    requires Ascending(enc, ks)
    ensures Ascending(enc, Select(ks, p))
  {
    if ks == [] {
    } else {
      SelectAscends(enc, ks[..|ks| - 1], p);
      var init, last := Select(ks[..|ks| - 1], p), ks[|ks| - 1];
      forall i | 0 <= i < |init| ensures LexLess(enc(init[i]), enc(last)) {
        assert init[i] in init;
        var j :| 0 <= j < |ks| - 1 && ks[..|ks| - 1][j] == init[i];
      }
    }
  }

  lemma {:induction false} SelectNone<K(!new)>(a: seq<K>, b: seq<K>, p: K -> bool)
    requires forall k :: k in b ==> !p(k)
    ensures Select(a + b, p) == Select(a, p)
    decreases |b|
  {
    if b == [] {
      assert a + b == a;
    } else {
      assert (a + b)[..|a + b| - 1] == a + b[..|b| - 1] && b[|b| - 1] in b;
      SelectNone(a, b[..|b| - 1], p);
    }
  }

  lemma {:induction false} SelectPrefix<K(!new)>(a: seq<K>, b: seq<K>, p: K -> bool)
    ensures Select(a, p) <= Select(a + b, p)
    decreases |b|
  {
    if b == [] {
      assert a + b == a;
    } else {
      assert (a + b)[..|a + b| - 1] == a + b[..|b| - 1];
      SelectPrefix(a, b[..|b| - 1], p);
    }
  }

  ghost function Within<K>(ts: K -> int, until: int, keep: K -> bool): K -> bool {
    k => ts(k) < until && keep(k)
  }

  /** The loop both scans run over keys whose timestamps never decrease: leave at the first key
      past the window, skip what does not match, leave when the limit is reached. */
  method ScanKeys<K(!new)>(keys: seq<K>, ts: K -> int, keep: K -> bool, until: int, limit: nat) returns (taken: seq<K>)
    requires forall i, j :: 0 <= i < j < |keys| ==> ts(keys[i]) <= ts(keys[j])
    ensures taken == Page(Select(keys, Within(ts, until, keep)), limit)
  {
    ghost var p := Within(ts, until, keep);
    taken := [];
    var i := 0;
    while i < |keys|
      invariant i <= |keys| && taken == Select(keys[..i], p) && (taken == [] || |taken| < limit)
    {
      if ts(keys[i]) >= until {
        WindowPassed(keys, ts, keep, until, i);
        break;
      }
      SelectStep(keys, i, p);
      if keep(keys[i]) {
        taken := taken + [keys[i]];
        if |taken| >= limit {
          i := i + 1;
          break;
        }
      }
      i := i + 1;
    }
    ScanEnds(keys, i, p, taken, limit);
  }

  ghost predicate NothingFrom<K(!new)>(keys: seq<K>, i: nat, p: K -> bool) { forall j :: i <= j < |keys| ==> !p(keys[j]) }

  lemma WindowPassed<K(!new)>(keys: seq<K>, ts: K -> int, keep: K -> bool, until: int, i: nat)
    requires forall i, j :: 0 <= i < j < |keys| ==> ts(keys[i]) <= ts(keys[j])
    requires i < |keys| && ts(keys[i]) >= until
    ensures NothingFrom(keys, i, Within(ts, until, keep))
  {
  }

  /** Leaving with nothing more to find, or with the page just filled, leaves with the page. */
  lemma ScanEnds<K(!new)>(keys: seq<K>, i: nat, p: K -> bool, taken: seq<K>, limit: nat)
    requires i <= |keys| && taken == Select(keys[..i], p)
    requires (NothingFrom(keys, i, p) && (taken == [] || |taken| < limit)) || (|taken| == if limit == 0 then 1 else limit)
    ensures taken == Page(Select(keys, p), limit)
  {
    SelectStops(keys, i, p);
  }

  lemma SelectStep<K(!new)>(keys: seq<K>, i: nat, p: K -> bool)
    requires i < |keys|
    ensures Select(keys[..i + 1], p) == Select(keys[..i], p) + if p(keys[i]) then [keys[i]] else []
  {
    assert keys[..i + 1][..i] == keys[..i];
  }

  lemma SelectStops<K(!new)>(keys: seq<K>, i: nat, p: K -> bool)
    requires i <= |keys|
    ensures Select(keys[..i], p) <= Select(keys, p)
    ensures NothingFrom(keys, i, p) ==> Select(keys[..i], p) == Select(keys, p)
  {
    assert keys == keys[..i] + keys[i..];
    SelectPrefix(keys[..i], keys[i..], p);
    if NothingFrom(keys, i, p) {
      SelectNone(keys[..i], keys[i..], p);
    }
  }

  // ----- the full scan -----

  /** `scan_events`: a range scan from the encoded lower bound, filtered row by row. A negative
      bound encodes above every row, so it finds nothing. */
  method ScanEvents(events: map<RowKey, Event>, sessions: map<RowKey, bytes>, since: i64, until: int,
                    filter: UserFilter, limit: nat, ghost s: Spaces) returns (results: seq<Event>)
    requires s.events == events && s.sessions == sessions && Scannable(s)
    ensures results == FullScanAnswer(s, filter, since, until, limit)
  {
    var start := I64Bytes(since);
    var range := set k | k in events && !LexLess(RowBytes(k), start);
    RowKeysEncode(range);
    var keys := Enumerate(RowBytes, range);
    RangeFromBound(s, since, range);
    TimesAscend(keys);
    var keep := (k: RowKey) => k in events && Matches(filter, events[k].user);
    var ts := (k: RowKey) => k.ts as int;
    var taken := ScanKeys(keys, ts, keep, until, limit);
    FullScanHits(s, filter, since, until, keys, Within(ts, until, keep));
    results := seq(|taken|, i requires 0 <= i < |taken| => Load(events[taken[i]], sessions));
  }

  lemma RangeFromBound(s: Spaces, since: i64, range: set<RowKey>)
    requires Scannable(s) && range == set k | k in s.events && !LexLess(RowBytes(k), I64Bytes(since))
    ensures range == set k | k in s.events && 0 <= since <= k.ts
  {
    forall k | k in s.events ensures k in range <==> 0 <= since <= k.ts { RangeStart(since, k); }
  }

  /** Keys of non-negative timestamps in byte order are in time order. */
  lemma TimesAscend(keys: seq<RowKey>)
    requires Ascending(RowBytes, keys) && forall k :: k in keys ==> k.ts >= 0
    ensures forall i, j :: 0 <= i < j < |keys| ==> keys[i].ts <= keys[j].ts
  {
    forall i, j | 0 <= i < j < |keys| ensures keys[i].ts <= keys[j].ts {
      var k, l := keys[i], keys[j];
      assert k in keys && l in keys;
      if k.ts != l.ts { RowOrder(k, l); }
    }
  }

  lemma HeadIn<T>(q: seq<T>)
    ensures q == [] || q[0] in q
  {
  }

  lemma FullScanHits(s: Spaces, filter: UserFilter, since: int, until: int, keys: seq<RowKey>, p: RowKey -> bool)
    requires Scannable(s) && Ascending(RowBytes, keys)
    requires forall k :: k in keys <==> k in s.events && 0 <= since <= k.ts
    requires forall k :: k in keys ==> (p(k) <==> k.ts < until && Matches(filter, s.events[k].user))
    ensures forall k :: k in Select(keys, p) ==> k in s.events
    ensures since >= 0 ==> Encodes(RowBytes, Hits(s, filter, since, until))
                           && Select(keys, p) == InOrder(RowBytes, Hits(s, filter, since, until))
    ensures since < 0 ==> Select(keys, p) == []
  {
    RowKeysEncode(Hits(s, filter, since, until));
    SelectAscends(RowBytes, keys, p);
    if since >= 0 {
      AscendingUnique(RowBytes, Select(keys, p), InOrder(RowBytes, Hits(s, filter, since, until)));
    } else {
      HeadIn(keys);
    }
  }

  // ----- the index scan -----

  /** `scan_user_events`: a prefix scan of the per-user index, whose entries carry the row. */
  method ScanUserEvents(idxUser: map<UserKey, Event>, sessions: map<RowKey, bytes>, user: bytes,
                        since: i64, until: int, limit: nat, ghost s: Spaces) returns (results: seq<Event>)
    requires s.idxUser == idxUser && s.sessions == sessions && Scannable(s) && NulFree(user) && Valid(s)
    ensures results == Answer(s, Single(user), since, until, limit)
  {
    var keys := UserEntries(idxUser, user);
    EntriesOfUser(s, user, keys);
    var keep := (uk: UserKey) => uk.row.ts >= since;
    var ts := (uk: UserKey) => uk.row.ts as int;
    var taken := ScanKeys(keys, ts, keep, until, limit);
    UserScanAnswers(s, user, since, until, keys, Within(ts, until, keep), limit);
    results := LoadEntries(idxUser, taken, sessions);
  }

  /** The prefix scan, in key order. */
  method UserEntries(idxUser: map<UserKey, Event>, user: bytes) returns (keys: seq<UserKey>)
    requires forall uk :: uk in idxUser ==> NulFree(uk.user) && CleanId(uk.row.id)
    ensures Ascending(UserBytes, keys) && forall uk :: uk in keys <==> uk in idxUser && HasPrefix(UserBytes(uk), user + [0])
  {
    var entries := set uk | uk in idxUser && HasPrefix(UserBytes(uk), user + [0]);
    UserKeysEncode(entries);
    keys := Enumerate(UserBytes, entries);
  }

  lemma UserScanAnswers(s: Spaces, user: bytes, since: int, until: int, keys: seq<UserKey>, p: UserKey -> bool, limit: nat)
    requires Scannable(s) && Valid(s) && Ascending(UserBytes, keys)
    requires forall uk :: uk in keys <==> uk in s.idxUser && uk.user == user
    requires forall uk :: uk in keys ==> (p(uk) <==> since <= uk.row.ts < until)
    ensures var taken := Page(Select(keys, p), limit);
      AllIndexed(s.idxUser, taken) && Answer(s, Single(user), since, until, limit) == LoadEntries(s.idxUser, taken, s.sessions)
  {
    IndexScanHits(s, user, since, until, keys, p);
    EntriesAreRows(s, user, Select(keys, p), Hits(s, Single(user), since, until), limit);
  }

  /** An index entry as a query reports it: the inline copy, with the session of the row key. */
  function LoadEntry(idxUser: map<UserKey, Event>, uk: UserKey, sessions: map<RowKey, bytes>): Event
    requires uk in idxUser
  {
    idxUser[uk].(session := if uk.row in sessions then sessions[uk.row] else [])
  }

  predicate AllIndexed(idxUser: map<UserKey, Event>, uks: seq<UserKey>) { forall i :: 0 <= i < |uks| ==> uks[i] in idxUser }

  function LoadEntries(idxUser: map<UserKey, Event>, uks: seq<UserKey>, sessions: map<RowKey, bytes>): seq<Event>
    requires AllIndexed(idxUser, uks)
  {
    seq(|uks|, i requires 0 <= i < |uks| => LoadEntry(idxUser, uks[i], sessions))
  }

  lemma EntriesOfUser(s: Spaces, user: bytes, keys: seq<UserKey>)
    requires Scannable(s) && NulFree(user) && Ascending(UserBytes, keys)
    requires forall uk :: uk in keys <==> uk in s.idxUser && HasPrefix(UserBytes(uk), user + [0])
    ensures forall uk :: uk in keys <==> uk in s.idxUser && uk.user == user
    ensures forall i, j :: 0 <= i < j < |keys| ==> keys[i].row.ts <= keys[j].row.ts
  {
    forall uk | uk in s.idxUser ensures uk in keys <==> uk.user == user { UserPrefix(user, uk); }
    var rows := RowsOfEntries(user, keys);
    EntriesAscend(user, keys);
    forall k | k in rows ensures k.ts >= 0 {
      var i :| 0 <= i < |rows| && rows[i] == k;
      assert keys[i] in keys;
    }
    TimesAscend(rows);
    forall i, j | 0 <= i < j < |keys| ensures keys[i].row.ts <= keys[j].row.ts {
      assert rows[i].ts <= rows[j].ts;
    }
  }

  lemma EntriesAreRows(s: Spaces, user: bytes, sel: seq<UserKey>, hits: set<RowKey>, limit: nat)
    requires Valid(s) && Encodes(RowBytes, hits) && RowsOfEntries(user, sel) == InOrder(RowBytes, hits)
    requires forall k :: k in hits ==> k in s.events
    requires forall uk :: uk in sel ==> uk in s.idxUser
    ensures AllIndexed(s.idxUser, Page(sel, limit))
    ensures Rows(s, Page(InOrder(RowBytes, hits), limit)) == LoadEntries(s.idxUser, Page(sel, limit), s.sessions)
  {
    var taken, rows := Page(sel, limit), Page(InOrder(RowBytes, hits), limit);
    assert forall i :: 0 <= i < |taken| ==> taken[i] == sel[i] && sel[i] in sel;
    forall i | 0 <= i < |taken|
      ensures LoadEntry(s.idxUser, taken[i], s.sessions) == Load(s.events[rows[i]], s.sessions)
    {
      assert rows[i] == RowsOfEntries(user, sel)[i] == taken[i].row && rows[i] in rows;
      EntryIsRow(s, taken[i]);
    }
  }

  lemma EntryIsRow(s: Spaces, uk: UserKey)
    requires Valid(s) && uk in s.idxUser
    ensures uk.row in s.events && LoadEntry(s.idxUser, uk, s.sessions) == Load(s.events[uk.row], s.sessions)
  {
  }

  ghost function RowsOfEntries(user: bytes, keys: seq<UserKey>): seq<RowKey> {
    seq(|keys|, i requires 0 <= i < |keys| => keys[i].row)
  }

  lemma EntriesAscend(user: bytes, keys: seq<UserKey>)
    requires Ascending(UserBytes, keys) && forall uk :: uk in keys ==> uk.user == user
    ensures Ascending(RowBytes, RowsOfEntries(user, keys))
  {
    forall i, j | 0 <= i < j < |keys| ensures LexLess(RowBytes(keys[i].row), RowBytes(keys[j].row)) {
      assert keys[i] in keys && keys[j] in keys;
      UserOrder(user, keys[i].row, keys[j].row);
    }
  }

  lemma IndexScanHits(s: Spaces, user: bytes, since: int, until: int, keys: seq<UserKey>, p: UserKey -> bool)
    requires Scannable(s) && Valid(s) && Ascending(UserBytes, keys)
    requires forall uk :: uk in keys <==> uk in s.idxUser && uk.user == user
    requires forall uk :: uk in keys ==> (p(uk) <==> since <= uk.row.ts < until)
    ensures Encodes(RowBytes, Hits(s, Single(user), since, until))
    ensures forall uk :: uk in Select(keys, p) ==> uk in s.idxUser
    ensures RowsOfEntries(user, Select(keys, p)) == InOrder(RowBytes, Hits(s, Single(user), since, until))
  {
    var hits, sel := Hits(s, Single(user), since, until), Select(keys, p);
    RowKeysEncode(hits);
    SelectAscends(UserBytes, keys, p);
    EntriesAscend(user, sel);
    var rows := RowsOfEntries(user, sel);
    forall k ensures k in rows <==> k in hits {
      if k in hits {
        assert UserKey(user, k) in sel;
        var i :| 0 <= i < |sel| && sel[i] == UserKey(user, k);
        assert rows[i] == k;
      }
      if k in rows {
        var i :| 0 <= i < |rows| && rows[i] == k;
        assert sel[i] in sel && sel[i] in s.idxUser;
      }
    }
    AscendingUnique(RowBytes, rows, InOrder(RowBytes, hits));
  }

  // ----- agreement of the two paths -----

  /** The index scan of a user and the full scan filtered to that user answer alike exactly when
      the bound is non-negative or there is nothing to find: a negative `since` makes the full
      scan start behind every row. */
  lemma ScansAgree(s: Spaces, user: bytes, since: i64, until: int, limit: nat)
    requires Scannable(s)
    ensures Answer(s, Single(user), since, until, limit) == FullScanAnswer(s, Single(user), since, until, limit)
            <==> since >= 0 || Hits(s, Single(user), since, until) == {}
  {
  }

  /** Both paths run side by side: their results are equal if and only if the bound is
      non-negative or the user has nothing in the window. */
  method ScanBothWays(s: Spaces, user: bytes, since: i64, until: int, limit: nat) returns (full: seq<Event>, indexed: seq<Event>)
    requires Valid(s) && Scannable(s) && NulFree(user)
    ensures full == indexed <==> since >= 0 || Hits(s, Single(user), since, until) == {}
    ensures since >= 0 ==> full == Answer(s, Single(user), since, until, limit)
  {
    full := ScanEvents(s.events, s.sessions, since, until, Single(user), limit, s);
    indexed := ScanUserEvents(s.idxUser, s.sessions, user, since, until, limit, s);
    ScansAgree(s, user, since, until, limit);
  }

  /** The failing query: from one millisecond before 1970 on, the full scan misses what the index
      scan finds. */
  lemma NegativeBoundMissesRow() returns (s: Spaces, user: bytes)
    ensures Valid(s) && Scannable(s)
    ensures Answer(s, Single(user), -1, 9, 1) != FullScanAnswer(s, Single(user), -1, 9, 1)
  {
    var e := Event(LogicalKey([1], [2], [3]), [10], 5, [], Usage([], [], 0, 0, 0, 0, 0));
    var k := KeyOf(e);
    user := [10];
    s := Spaces(map[k := e], map[e.id := k], map[UserKey(user, k) := e], map[]);
    assert k in Hits(s, Single(user), -1, 9);
    ScansAgree(s, user, -1, 9, 1);
  }

  // ----- several users -----

  /** The answers for several users, each asked for with the room its predecessors left. */
  ghost function Gathered(users: seq<bytes>, limit: nat, ask: (bytes, nat) -> seq<Event>): seq<Event> {
    if users == [] then [] else
      var before := Gathered(users[..|users| - 1], limit, ask);
      if |before| >= limit then before else before + ask(users[|users| - 1], limit - |before|)
  }

  ghost function AnswersTo(s: Spaces, since: int, until: int): (bytes, nat) -> seq<Event>
    requires Scannable(s)
  {
    (u: bytes, room: nat) => Answer(s, Single(u), since, until, room)
  }

  /** One index scan per user. */
  ghost function TeamAnswer(s: Spaces, users: seq<bytes>, since: int, until: int, limit: nat): seq<Event>
    requires Scannable(s)
  {
    Gathered(users, limit, AnswersTo(s, since, until))
  }

  lemma {:induction false} GatheredFull(users: seq<bytes>, i: nat, limit: nat, ask: (bytes, nat) -> seq<Event>)
    requires i <= |users| && |Gathered(users[..i], limit, ask)| >= limit
    ensures Gathered(users, limit, ask) == Gathered(users[..i], limit, ask)
  {
    if i == |users| {
      assert users[..i] == users;
    } else {
      assert users[..|users| - 1][..i] == users[..i];
      GatheredFull(users[..|users| - 1], i, limit, ask);
    }
  }

  lemma GatheredMore(users: seq<bytes>, i: nat, limit: nat, ask: (bytes, nat) -> seq<Event>)
    requires i < |users| && |Gathered(users[..i], limit, ask)| < limit
    ensures var before := Gathered(users[..i], limit, ask);
      Gathered(users[..i + 1], limit, ask) == before + ask(users[i], limit - |before|)
  {
    assert users[..i + 1][..i] == users[..i];
  }

  // ----- what the answers are, in so many words -----

  /** The rows of these keys with their sessions, in key order, as many as the limit allows (one,
      if it is 0). */
  ghost predicate ListedInOrder(s: Spaces, results: seq<Event>, ks: set<RowKey>, limit: nat) {
    ks <= s.events.Keys && exists order :: Enumerates(RowBytes, order, ks) && FirstRows(s, results, order, limit)
  }

  ghost predicate FirstRows(s: Spaces, results: seq<Event>, order: seq<RowKey>, limit: nat) {
    (forall k :: k in order ==> k in s.events) &&
    |results| == (if |order| <= limit then |order| else if limit == 0 then 1 else limit) &&
    forall i :: 0 <= i < |results| ==>
      results[i] == s.events[order[i]].(session := if order[i] in s.sessions then s.sessions[order[i]] else [])
  }

  lemma AnswerListed(s: Spaces, filter: UserFilter, since: int, until: int, limit: nat)
    requires Scannable(s) && Keyed(s)
    ensures ListedInOrder(s, Answer(s, filter, since, until, limit), Hits(s, filter, since, until), limit)
  {
    var hits, results := Hits(s, filter, since, until), Answer(s, filter, since, until, limit);
    RowKeysEncode(hits);
    var order := InOrder(RowBytes, hits);
    assert forall i :: 0 <= i < |results| ==> order[i] in order;
    assert FirstRows(s, results, order, limit) && Enumerates(RowBytes, order, hits);
  }

  function Take<T>(r: seq<T>, n: nat): seq<T> { if |r| <= n then r else r[..n] }

  function Flatten<T>(parts: seq<seq<T>>): seq<T> {
    if parts == [] then [] else Flatten(parts[..|parts| - 1]) + parts[|parts| - 1]
  }

  /** Every user's listing in full, one after another, up to the limit. */
  ghost predicate ListedInTurn(s: Spaces, results: seq<Event>, users: seq<bytes>, since: int, until: int, limit: nat) {
    exists parts: seq<seq<Event>> :: UsersListed(s, parts, users, since, until) && results == Take(Flatten(parts), limit)
  }

  ghost predicate UsersListed(s: Spaces, parts: seq<seq<Event>>, users: seq<bytes>, since: int, until: int) {
    |parts| == |users| && forall i :: 0 <= i < |users| ==> ListedInOrder(s, parts[i], UsersRows(s, users[i], since, until), |s.events|)
  }

  ghost function UsersRows(s: Spaces, user: bytes, since: int, until: int): set<RowKey> {
    set k | k in s.events && since <= k.ts < until && s.events[k].user == user
  }

  /** Everybody's rows. */
  ghost function WindowRows(s: Spaces, since: int, until: int): set<RowKey> { set k | k in s.events && since <= k.ts < until }

  ghost function InFull(s: Spaces, since: int, until: int, users: seq<bytes>): seq<seq<Event>>
    requires Scannable(s)
  {
    seq(|users|, i requires 0 <= i < |users| => Answer(s, Single(users[i]), since, until, |s.events|))
  }

  lemma {:induction false} GatheredTakes(s: Spaces, since: int, until: int, users: seq<bytes>, limit: nat)
    requires Scannable(s)
    ensures TeamAnswer(s, users, since, until, limit) == Take(Flatten(InFull(s, since, until, users)), limit)
  {
    if users == [] {
    } else {
      var init, last := users[..|users| - 1], users[|users| - 1];
      var full := InFull(s, since, until, users);
      assert full[..|users| - 1] == InFull(s, since, until, init);
      GatheredTakes(s, since, until, init, limit);
      MemberTakes(s, last, since, until, limit);
      TakeMore(Flatten(InFull(s, since, until, init)), full[|users| - 1], limit);
    }
  }

  lemma TakeMore<T>(a: seq<T>, b: seq<T>, limit: nat)
    ensures Take(a + b, limit) == if |a| >= limit then Take(a, limit) else a + Take(b, limit - |a|)
    ensures |a| >= limit <==> |Take(a, limit)| >= limit
  {
  }

  lemma MemberTakes(s: Spaces, user: bytes, since: int, until: int, limit: nat)
    requires Scannable(s)
    ensures forall room: nat :: 0 < room ==>
      AnswersTo(s, since, until)(user, room) == Take(Answer(s, Single(user), since, until, |s.events|), room)
  {
    var hits := Hits(s, Single(user), since, until);
    RowKeysEncode(hits);
    InOrderSize(RowBytes, hits);
    SubsetSize(hits, s.events.Keys);
    forall room: nat | 0 < room
      ensures AnswersTo(s, since, until)(user, room) == Take(Answer(s, Single(user), since, until, |s.events|), room)
    {
      var order := InOrder(RowBytes, hits);
      assert |order| <= |s.events|;
    }
  }

  lemma TeamListed(s: Spaces, users: seq<bytes>, since: int, until: int, limit: nat)
    requires Scannable(s) && Keyed(s)
    ensures ListedInTurn(s, TeamAnswer(s, users, since, until, limit), users, since, until, limit)
  {
    var parts := InFull(s, since, until, users);
    forall i | 0 <= i < |users| ensures ListedInOrder(s, parts[i], UsersRows(s, users[i], since, until), |s.events|) {
      AnswerListed(s, Single(users[i]), since, until, |s.events|);
      assert Hits(s, Single(users[i]), since, until) == UsersRows(s, users[i], since, until);
    }
    GatheredTakes(s, since, until, users, limit);
    assert UsersListed(s, parts, users, since, until);
  }

  /** `query_events`: users through the index, everything through the full scan. */
  method QueryEvents(s: Spaces, since: i64, until: int, filter: UserFilter, limit: nat) returns (results: seq<Event>)
    requires Valid(s) && Scannable(s)
    requires CleanFilter(filter)
    ensures filter.Single? ==> ListedInOrder(s, results, UsersRows(s, filter.user, since, until), limit)
    ensures filter.Multiple? ==> ListedInTurn(s, results, filter.users, since, until, limit)
    ensures filter.All? && since >= 0 ==> ListedInOrder(s, results, WindowRows(s, since, until), limit)
    ensures filter.All? && since < 0 ==> results == []
    ensures filter.Single? || (filter.All? && since >= 0) ==> results == Answer(s, filter, since, until, limit)
    ensures filter.Multiple? ==> results == TeamAnswer(s, filter.users, since, until, limit)
  {
    match filter {
      case Single(u) =>
        results := ScanUserEvents(s.idxUser, s.sessions, u, since, until, limit, s);
        AnswerListed(s, filter, since, until, limit);
        assert Hits(s, filter, since, until) == UsersRows(s, u, since, until);
      case Multiple(us) =>
        results := QueryTeam(s, us, since, until, limit);
        TeamListed(s, us, since, until, limit);
      case All =>
        results := ScanEvents(s.events, s.sessions, since, until, filter, limit, s);
        AnswerListed(s, filter, since, until, limit);
        assert Hits(s, filter, since, until) == WindowRows(s, since, until);
    }
  }

  method QueryTeam(s: Spaces, users: seq<bytes>, since: i64, until: int, limit: nat) returns (results: seq<Event>)
    requires Valid(s) && Scannable(s) && forall u :: u in users ==> NulFree(u)
    ensures results == TeamAnswer(s, users, since, until, limit)
  {
    ghost var ask := AnswersTo(s, since, until);
    results := [];
    for i := 0 to |users|
      invariant results == Gathered(users[..i], limit, ask)
    {
      if |results| >= limit {
        GatheredFull(users, i, limit, ask);
        return;
      }
      GatheredMore(users, i, limit, ask);
      var found := ScanMember(s, users[i], since, until, limit - |results|, ask);
      results := results + found;
    }
    assert users[..|users|] == users;
  }

  method ScanMember(s: Spaces, user: bytes, since: i64, until: int, room: nat, ghost ask: (bytes, nat) -> seq<Event>)
    returns (found: seq<Event>)
    requires Valid(s) && Scannable(s) && NulFree(user) && ask == AnswersTo(s, since, until)
    ensures found == ask(user, room)
  {
    found := ScanUserEvents(s.idxUser, s.sessions, user, since, until, room, s);
  }

  /** All rows of a set of keys, without regard to order. */
  ghost function Bag(s: Spaces, ks: set<RowKey>): multiset<Event>
    requires Scannable(s) && ks <= s.events.Keys
  {
    RowKeysEncode(ks);
    multiset(Rows(s, InOrder(RowBytes, ks)))
  }

  lemma {:induction false} NoDuplicates<T>(r: seq<T>, x: T)
    requires forall i, j :: 0 <= i < j < |r| ==> r[i] != r[j]
    ensures multiset(r)[x] == if x in r then 1 else 0
  {
    if r == [] {
    } else {
      NoDuplicates(r[..|r| - 1], x);
      assert r == r[..|r| - 1] + [r[|r| - 1]];
    }
  }

  lemma RowsDistinct(s: Spaces, keys: seq<RowKey>)
    requires Keyed(s) && Ascending(RowBytes, keys) && forall k :: k in keys ==> k in s.events
    ensures forall i :: 0 <= i < |keys| ==> KeyOf(Rows(s, keys)[i]) == keys[i]
    ensures forall i, j :: 0 <= i < j < |keys| ==> Rows(s, keys)[i] != Rows(s, keys)[j]
  {
    var rows := Rows(s, keys);
    forall i | 0 <= i < |keys| ensures KeyOf(rows[i]) == keys[i] {
      assert keys[i] in keys;
    }
    forall i, j | 0 <= i < j < |keys| ensures rows[i] != rows[j] {
      LexTotal(RowBytes(keys[i]), RowBytes(keys[j]));
    }
  }

  lemma BagCounts(s: Spaces, ks: set<RowKey>, e: Event)
    requires Scannable(s) && Keyed(s) && ks <= s.events.Keys
    ensures Bag(s, ks)[e] == if KeyOf(e) in ks && Load(s.events[KeyOf(e)], s.sessions) == e then 1 else 0
  {
    RowKeysEncode(ks);
    var keys := InOrder(RowBytes, ks);
    var rows := Rows(s, keys);
    RowsDistinct(s, keys);
    NoDuplicates(rows, e);
    if e in rows {
      var i :| 0 <= i < |rows| && rows[i] == e;
      assert keys[i] in keys;
    } else if KeyOf(e) in ks {
      var i :| 0 <= i < |keys| && keys[i] == KeyOf(e);
      assert rows[i] in rows;
    }
  }

  lemma {:induction false} InOrderSize<K(!new)>(enc: K -> bytes, ks: set<K>)
    requires Encodes(enc, ks)
    ensures |InOrder(enc, ks)| == |ks|
    decreases |ks|
  {
    if ks == {} {
    } else {
      var r := InOrder(enc, ks);
      var k := r[0];
      assert k in r;
      var rest := r[1..];
      AfterHead(enc, r);
      assert forall x :: x in rest <==> x in ks - {k} by {
        forall x ensures x in rest <==> x in ks - {k} {
          assert x in r <==> x == k || x in rest;
        }
      }
      AscendingUnique(enc, rest, InOrder(enc, ks - {k}));
      InOrderSize(enc, ks - {k});
    }
  }

  /** With room for all hits a scan returns each of them once. */
  lemma AnswerComplete(s: Spaces, filter: UserFilter, since: int, until: int, room: nat)
    requires Scannable(s) && |Hits(s, filter, since, until)| <= room
    ensures multiset(Answer(s, filter, since, until, room)) == Bag(s, Hits(s, filter, since, until))
    ensures |Answer(s, filter, since, until, room)| == |Hits(s, filter, since, until)|
  {
    var hits := Hits(s, filter, since, until);
    RowKeysEncode(hits);
    InOrderSize(RowBytes, hits);
  }

  lemma TeamHits(s: Spaces, users: seq<bytes>, since: int, until: int)
    requires users != [] && forall i, j :: 0 <= i < j < |users| ==> users[i] != users[j]
    ensures var init, last := users[..|users| - 1], users[|users| - 1];
      var mine, others := Hits(s, Single(last), since, until), Hits(s, Multiple(init), since, until);
      mine !! others && Hits(s, Multiple(users), since, until) == others + mine
      && |Hits(s, Multiple(users), since, until)| == |mine| + |others|
  {
  }

  /** With room for everything, the query over distinct users returns exactly the rows the full
      scan filtered to those users would, each once. */
  lemma TeamQueryComplete(s: Spaces, users: seq<bytes>, since: int, until: int, room: nat)
    requires Scannable(s) && Keyed(s)
    requires forall i, j :: 0 <= i < j < |users| ==> users[i] != users[j]
    requires |Hits(s, Multiple(users), since, until)| <= room
    ensures multiset(TeamAnswer(s, users, since, until, room)) == multiset(Answer(s, Multiple(users), since, until, room))
  {
    var hits, answer := Hits(s, Multiple(users), since, until), TeamAnswer(s, users, since, until, room);
    AnswerComplete(s, Multiple(users), since, until, room);
    forall e ensures multiset(answer)[e] == Bag(s, hits)[e] {
      AnswersListEach(s, since, until, e);
      GatheredLists(s, users, since, until, room, AnswersTo(s, since, until), e);
      BagCounts(s, hits, e);
    }
  }

  /** How often a complete answer lists an event: once if its row is met and is exactly the event. */
  ghost function Listed(s: Spaces, hits: set<RowKey>, e: Event): nat
    requires hits <= s.events.Keys
  {
    if KeyOf(e) in hits && Load(s.events[KeyOf(e)], s.sessions) == e then 1 else 0
  }

  /** The answer is as long as there are rows, and lists the event as often as it should. */
  ghost predicate Lists(s: Spaces, answer: seq<Event>, hits: set<RowKey>, e: Event)
    requires hits <= s.events.Keys
  {
    |answer| == |hits| && multiset(answer)[e] == Listed(s, hits, e)
  }

  /** With enough room, the answer for any one user does. */
  ghost predicate ListsEach(s: Spaces, since: int, until: int, ask: (bytes, nat) -> seq<Event>, e: Event) {
    forall u, room :: |Hits(s, Single(u), since, until)| <= room ==> Lists(s, ask(u, room), Hits(s, Single(u), since, until), e)
  }

  lemma AnswersListEach(s: Spaces, since: int, until: int, e: Event)
    requires Scannable(s) && Keyed(s)
    ensures ListsEach(s, since, until, AnswersTo(s, since, until), e)
  {
    forall u, room: nat | |Hits(s, Single(u), since, until)| <= room
      ensures Lists(s, AnswersTo(s, since, until)(u, room), Hits(s, Single(u), since, until), e)
    {
      AnswerComplete(s, Single(u), since, until, room);
      BagCounts(s, Hits(s, Single(u), since, until), e);
    }
  }

  lemma {:induction false} GatheredLists(s: Spaces, users: seq<bytes>, since: int, until: int, room: nat,
                                         ask: (bytes, nat) -> seq<Event>, e: Event)
    requires ListsEach(s, since, until, ask, e) && |Hits(s, Multiple(users), since, until)| <= room
    requires forall i, j :: 0 <= i < j < |users| ==> users[i] != users[j]
    ensures Lists(s, Gathered(users, room, ask), Hits(s, Multiple(users), since, until), e)
  {
    if users == [] {
      assert Hits(s, Multiple(users), since, until) == {};
    } else {
      var init, last := users[..|users| - 1], users[|users| - 1];
      var mine, others := Hits(s, Single(last), since, until), Hits(s, Multiple(init), since, until);
      TeamHits(s, users, since, until);
      GatheredLists(s, init, since, until, room, ask, e);
      if |others| < room {
        assert Lists(s, ask(last, room - |others|), mine, e);
      } else {
        assert mine == {};
      }
    }
  }
}
