// Per-user settings with optimistic versions and a quota: the write transaction step by step, any
// number of them interleaved with each other and with deletions.
module MonitorSettings {
  import opened Options
  import opened ByteStrings
  import opened Sums

  datatype RowKey = RowKey(user: nat, key: bytes)

  datatype Setting = Setting(value: bytes, size: nat, version: nat, updatedAt: int)

  type Rows = map<RowKey, Setting>

  datatype Quota = Quota(maxEntries: int, maxBytes: int)

  datatype Request = Request(row: RowKey, value: bytes, ifVersion: Option<nat>, now: int)

  datatype Outcome =
    | Written(version: nat, updatedAt: int, previous: Option<nat>)
    | VersionMismatch(currentVersion: Option<nat>, currentUpdatedAt: Option<int>)
    | EntriesExceeded(used: int, limit: int)
    | BytesExceeded(used: int, limit: int)

  datatype DeleteOutcome = Deleted | DeleteMismatch(currentVersion: nat, currentUpdatedAt: int) | NotFound

  function Current(m: Rows, k: RowKey): Option<Setting> { if k in m then Some(m[k]) else None }

  /** The version a conditional write compares with; 0 stands for nothing stored. */
  function Version(m: Rows, k: RowKey): nat { if k in m then m[k].version else 0 }

  // ----- usage -----

  function OfUser(m: Rows, user: nat): set<RowKey> { set k | k in m && k.user == user }

  function SizeIn(m: Rows): RowKey -> int { k => if k in m then m[k].size else 0 }

  ghost function SizeOf(m: Rows, ks: set<RowKey>): (n: nat) {
    SumPositive(ks, SizeIn(m));
    Sum(ks, SizeIn(m))
  }

  ghost function Total(m: Rows, user: nat): nat { SizeOf(m, OfUser(m, user)) }

  /** Storing or removing a row moves its user's usage by that row alone. */
  lemma UsageWithout(m: Rows, k: RowKey, user: nat)
    ensures OfUser(m - {k}, user) == OfUser(m, user) - {k}
    ensures Total(m, user) == Total(m - {k}, user) + if k in m && k.user == user then m[k].size else 0
  {
    assert OfUser(m - {k}, user) == OfUser(m, user) - {k};
    if k in OfUser(m, user) {
      SumWithout(OfUser(m, user), SizeIn(m), k);
    } else {
      assert OfUser(m, user) - {k} == OfUser(m, user);
    }
    SumSame(OfUser(m, user) - {k}, SizeIn(m), SizeIn(m - {k}));
  }

  lemma UsageWith(m: Rows, k: RowKey, v: Setting, user: nat)
    ensures Total(m[k := v], user) == Total(m - {k}, user) + if k.user == user then v.size else 0
    ensures OfUser(m[k := v], user) == OfUser(m - {k}, user) + if k.user == user then {k} else {}
  {
    UsageWithout(m[k := v], k, user);
    assert m[k := v] - {k} == m - {k};
  }

  // ----- one transaction as a whole -----

  /** What the store answers and becomes when a write runs alone. */
  datatype Result = Result(rows: Rows, outcome: Outcome)

  function Mismatch(current: Option<Setting>): Outcome {
    if current.Some? then VersionMismatch(Some(current.value.version), Some(current.value.updatedAt)) else VersionMismatch(None, None)
  }

  predicate Expected(current: Option<Setting>, ifVersion: Option<nat>) {
    ifVersion.None? || ifVersion.value == (if current.Some? then current.value.version else 0)
  }

  function Stored(current: Option<Setting>, r: Request): Setting {
    Setting(r.value, |r.value|, if current.Some? then current.value.version + 1 else 1, r.now)
  }

  /** The refusal, if any, given the usage before the write. */
  function OverQuota(current: Option<Setting>, count: nat, total: nat, r: Request, q: Quota): Option<Outcome> {
    var newCount := if current.Some? then count else count + 1;
    var newTotal := total - (if current.Some? then current.value.size else 0) + |r.value|;
    if newCount > q.maxEntries then Some(EntriesExceeded(newCount, q.maxEntries))
    else if newTotal > q.maxBytes then Some(BytesExceeded(newTotal, q.maxBytes))
    else None
  }

  function Write(m: Rows, current: Option<Setting>, count: nat, total: nat, r: Request, q: Quota): Result {
    var refusal := OverQuota(current, count, total, r, q);
    if refusal.Some? then Result(m, refusal.value) else
      var s := Stored(Current(m, r.row), r);
      Result(m[r.row := s], Written(s.version, s.updatedAt, if current.Some? then Some(current.value.version) else None))
  }

  ghost function Upsert(m: Rows, r: Request, q: Quota): Result {
    var current := Current(m, r.row);
    if !Expected(current, r.ifVersion) then Result(m, Mismatch(current))
    else Write(m, current, |OfUser(m, r.row.user)|, Total(m, r.row.user), r, q)
  }

  function Delete(m: Rows, k: RowKey, ifVersion: Option<nat>): Rows {
    if k in m && Expected(Some(m[k]), ifVersion) then m - {k} else m
  }

  /** The user's keys once this one is among them. */
  function KeysWith(m: Rows, k: RowKey): set<RowKey> { OfUser(m, k.user) + {k} }

  lemma AfterWrite(m: Rows, k: RowKey)
    ensures |KeysWith(m, k)| == if k in m then |OfUser(m, k.user)| else |OfUser(m, k.user)| + 1
    ensures Total(m - {k}, k.user) == Total(m, k.user) - if k in m then m[k].size else 0
  {
    UsageWithout(m, k, k.user);
    if k in m {
      assert KeysWith(m, k) == OfUser(m, k.user);
    }
  }

  /** The quotas are judged on what the user would hold after the write. */
  lemma QuotaAfterWrite(m: Rows, r: Request, q: Quota)
    ensures var entries, used := |KeysWith(m, r.row)|, Total(m - {r.row}, r.row.user) + |r.value|;
      OverQuota(Current(m, r.row), |OfUser(m, r.row.user)|, Total(m, r.row.user), r, q) ==
      if entries > q.maxEntries then Some(EntriesExceeded(entries, q.maxEntries))
      else if used > q.maxBytes then Some(BytesExceeded(used, q.maxBytes))
      else None
  {
    AfterWrite(m, r.row);
  }

  /** When a write alone is accepted, judged on the rows before it. */
  lemma AcceptedExactly(m: Rows, r: Request, q: Quota)
    ensures Upsert(m, r, q).outcome.Written? <==>
      (r.ifVersion == None || r.ifVersion == Some(if r.row in m then m[r.row].version else 0)) &&
      |KeysWith(m, r.row)| <= q.maxEntries && Total(m - {r.row}, r.row.user) + |r.value| <= q.maxBytes
  {
    QuotaAfterWrite(m, r, q);
  }

  /** The refusals: the version is compared before anything is counted, the entries before the bytes. */
  lemma RefusalExact(m: Rows, r: Request, q: Quota)
    ensures Upsert(m, r, q).outcome.VersionMismatch? <==>
      r.ifVersion.Some? && r.ifVersion.value != if r.row in m then m[r.row].version else 0
    ensures var o := Upsert(m, r, q).outcome; o.VersionMismatch? && r.row in m ==>
      o.currentVersion == Some(m[r.row].version) && o.currentUpdatedAt == Some(m[r.row].updatedAt)
    ensures var o := Upsert(m, r, q).outcome;
      o.VersionMismatch? && r.row !in m ==> o.currentVersion == None && o.currentUpdatedAt == None
    ensures var o := Upsert(m, r, q).outcome;
      o.EntriesExceeded? ==> o.used == |KeysWith(m, r.row)| > o.limit == q.maxEntries
    ensures var o := Upsert(m, r, q).outcome;
      o.BytesExceeded? ==> |KeysWith(m, r.row)| <= q.maxEntries && o.used == Total(m - {r.row}, r.row.user) + |r.value| > o.limit == q.maxBytes
  {
    QuotaAfterWrite(m, r, q);
  }

  // ----- the store as the program sees it -----

  class Settings {
    var rows: Rows

    method Usage(user: nat) returns (count: nat, total: nat)
      ensures count == |OfUser(rows, user)| && total == Total(rows, user)
    {
      var todo := OfUser(rows, user);
      count, total := |todo|, 0;
      while todo != {}
        invariant todo <= OfUser(rows, user) && total + SizeOf(rows, todo) == Total(rows, user)
      {
        var k :| k in todo;
        SumWithout(todo, SizeIn(rows), k);
        total := total + rows[k].size;
        todo := todo - {k};
      }
    }

    /** Lock, read, compare, measure, write. */
    method UpsertMonitorSetting(r: Request, q: Quota) returns (o: Outcome)
      modifies this
      ensures Result(rows, o) == Upsert(old(rows), r, q)
      ensures o.Written? ==> rows == old(rows)[r.row := Setting(r.value, |r.value|, o.version, r.now)] && o.updatedAt == r.now
      ensures o.Written? && r.row in old(rows) ==> o.version == old(rows)[r.row].version + 1 && o.previous == Some(old(rows)[r.row].version)
      ensures o.Written? && r.row !in old(rows) ==> o.version == 1 && o.previous == None
      ensures !o.Written? ==> rows == old(rows)
    {
      var current := Current(rows, r.row);
      if r.ifVersion.Some? {
        var actual := if current.Some? then current.value.version else 0;
        if actual != r.ifVersion.value {
          return Mismatch(current);
        }
      }
      var count, total := Usage(r.row.user);
      var existing := if current.Some? then current.value.size else 0;
      var newCount := if current.Some? then count else count + 1;
      var newTotal := total - existing + |r.value|;
      if newCount > q.maxEntries {
        return EntriesExceeded(newCount, q.maxEntries);
      }
      if newTotal > q.maxBytes {
        return BytesExceeded(newTotal, q.maxBytes);
      }
      var version := if r.row in rows then rows[r.row].version + 1 else 1;
      rows := rows[r.row := Setting(r.value, |r.value|, version, r.now)];
      o := Written(version, r.now, if current.Some? then Some(current.value.version) else None);
    }

    method DeleteMonitorSetting(k: RowKey, ifVersion: Option<nat>) returns (o: DeleteOutcome)
      modifies this
      ensures rows == Delete(old(rows), k, ifVersion)
      ensures o.Deleted? <==> rows != old(rows)
      ensures o.NotFound? <==> k !in old(rows)
      ensures o.Deleted? <==> k in old(rows) && (ifVersion == None || ifVersion == Some(old(rows)[k].version))
      ensures rows == if o.Deleted? then old(rows) - {k} else old(rows)
      ensures o.DeleteMismatch? ==> o.currentVersion == rows[k].version && ifVersion.Some? && ifVersion.value != rows[k].version
      ensures o.DeleteMismatch? ==> o.currentUpdatedAt == rows[k].updatedAt
    {
      if k in rows && (ifVersion.None? || rows[k].version == ifVersion.value) {
        rows := rows - {k};
        return Deleted;
      }
      if k in rows && ifVersion.Some? {
        return DeleteMismatch(rows[k].version, rows[k].updatedAt);
      }
      return NotFound;
    }
  }

  // ----- what one write guarantees -----

  ghost predicate WithinQuota(m: Rows, q: Quota) {
    (forall k :: k in m ==> m[k].size == |m[k].value|) &&
    forall user :: OfUser(m, user) != {} ==> |OfUser(m, user)| <= q.maxEntries && Total(m, user) <= q.maxBytes
  }

  lemma UpsertUsage(m: Rows, r: Request, q: Quota)
    requires OverQuota(Current(m, r.row), |OfUser(m, r.row.user)|, Total(m, r.row.user), r, q).None?
    ensures var n := m[r.row := Stored(Current(m, r.row), r)];
      |OfUser(n, r.row.user)| <= q.maxEntries && Total(n, r.row.user) <= q.maxBytes
  {
    UsageWithout(m, r.row, r.row.user);
    UsageWith(m, r.row, Stored(Current(m, r.row), r), r.row.user);
  }

  lemma UpsertKeepsQuota(m: Rows, r: Request, q: Quota)
    requires WithinQuota(m, q)
    ensures WithinQuota(Upsert(m, r, q).rows, q)
  {
    var n := Upsert(m, r, q).rows;
    if n != m {
      UpsertUsage(m, r, q);
      forall user | OfUser(n, user) != {} ensures |OfUser(n, user)| <= q.maxEntries && Total(n, user) <= q.maxBytes {
        if user != r.row.user { OthersUsage(m, r.row, n[r.row], user); }
      }
    }
  }

  lemma OthersUsage(m: Rows, k: RowKey, v: Setting, user: nat)
    requires user != k.user
    ensures OfUser(m[k := v], user) == OfUser(m, user) && Total(m[k := v], user) == Total(m, user)
  {
    UsageWithout(m, k, user);
    UsageWith(m, k, v, user);
    assert k !in OfUser(m, user);
  }

  lemma DeleteKeepsQuota(m: Rows, k: RowKey, ifVersion: Option<nat>, q: Quota)
    requires WithinQuota(m, q)
    ensures WithinQuota(Delete(m, k, ifVersion), q)
  {
    var n := m - {k};
    forall user | OfUser(n, user) != {} ensures |OfUser(n, user)| <= q.maxEntries && Total(n, user) <= q.maxBytes {
      UsageWithout(m, k, user);
      assert OfUser(m, user) != {};
      SubsetSize(OfUser(n, user), OfUser(m, user));
    }
    assert Delete(m, k, ifVersion) == m || Delete(m, k, ifVersion) == n;
  }

  /** Replacing an entry by one no larger is refused exactly when the user is over a quota already
      and the smaller value does not bring the bytes back under it. Under an unchanged quota that
      cannot happen. */
  lemma SmallerReplacement(m: Rows, r: Request, q: Quota)
    requires r.row in m && |r.value| <= m[r.row].size && Expected(Some(m[r.row]), r.ifVersion)
    ensures var user := r.row.user;
      Upsert(m, r, q).outcome.Written? <==>
        |OfUser(m, user)| <= q.maxEntries && Total(m, user) - m[r.row].size + |r.value| <= q.maxBytes
    ensures WithinQuota(m, q) ==> Upsert(m, r, q).outcome.Written?
  {
    assert r.row in OfUser(m, r.row.user);
  }

  /** The failing write: after the byte limit is lowered to 4, replacing 10 bytes by 5 is refused. */
  lemma LoweredQuotaRefusesSmaller() returns (m: Rows, r: Request)
    ensures r.row in m && |r.value| == 5 < m[r.row].size == 10 && Upsert(m, r, Quota(1, 4)).outcome == BytesExceeded(5, 4)
  {
    var k := RowKey(1, [1]);
    m := map[k := Setting(seq(10, _ => 0), 10, 1, 0)];
    r := Request(k, seq(5, _ => 0), None, 0);
    assert OfUser(m, 1) == {k};
    SumWithout({k}, SizeIn(m), k);
  }

  // ----- interleaved transactions -----

  datatype Phase =
    | Begun
    | Locked
    | Fetched(current: Option<Setting>)
    | Matched(current: Option<Setting>)
    | Measured(current: Option<Setting>, count: nat, total: nat)

  datatype Txn = Txn(req: Request, phase: Phase)

  datatype Db = Db(rows: Rows, txns: map<nat, Txn>)

  datatype Action =
    | Begin(x: nat, req: Request)
    | Lock(x: nat)
    | Fetch(x: nat)
    | Compare(x: nat)
    | Measure(x: nat)
    | Finish(x: nat)
    | Abort(x: nat)
    | Remove(row: RowKey, ifVersion: Option<nat>)
    | Crash

  predicate Holds(s: Db, x: nat, user: nat) { x in s.txns && !s.txns[x].phase.Begun? && s.txns[x].req.row.user == user }

  ghost predicate Free(s: Db, user: nat) { forall x :: !Holds(s, x, user) }

  /** A user's row lock excludes every other write and deletion of that user's settings. */
  ghost predicate Enabled(s: Db, a: Action) {
    match a
    case Begin(x, _) => x !in s.txns
    case Lock(x) => x in s.txns && s.txns[x].phase.Begun? && Free(s, s.txns[x].req.row.user)
    case Fetch(x) => x in s.txns && s.txns[x].phase.Locked?
    case Compare(x) => x in s.txns && s.txns[x].phase.Fetched?
    case Measure(x) => x in s.txns && s.txns[x].phase.Matched?
    case Finish(x) => x in s.txns && s.txns[x].phase.Measured?
    case Abort(x) => x in s.txns
    case Remove(k, _) => Free(s, k.user)
    case Crash => true
  }

  ghost function Next(s: Db, a: Action, q: Quota): (r: (Db, Option<Outcome>))
    requires Enabled(s, a)
  {
    match a
    case Begin(x, req) => (s.(txns := s.txns[x := Txn(req, Begun)]), None)
    case Lock(x) => (s.(txns := s.txns[x := s.txns[x].(phase := Locked)]), None)
    case Fetch(x) =>
      var t := s.txns[x];
      (s.(txns := s.txns[x := t.(phase := Fetched(Current(s.rows, t.req.row)))]), None)
    case Compare(x) =>
      var t := s.txns[x];
      var c := t.phase.current;
      if Expected(c, t.req.ifVersion) then (s.(txns := s.txns[x := t.(phase := Matched(c))]), None)
      else (s.(txns := s.txns - {x}), Some(Mismatch(c)))
    case Measure(x) =>
      var t := s.txns[x];
      var user := t.req.row.user;
      (s.(txns := s.txns[x := t.(phase := Measured(t.phase.current, |OfUser(s.rows, user)|, Total(s.rows, user)))]), None)
    case Finish(x) =>
      var t := s.txns[x];
      var w := Write(s.rows, t.phase.current, t.phase.count, t.phase.total, t.req, q);
      (Db(w.rows, s.txns - {x}), Some(w.outcome))
    case Abort(x) => (s.(txns := s.txns - {x}), None)
    case Remove(k, v) => (s.(rows := Delete(s.rows, k, v)), None)
    case Crash => (s.(txns := map[]), None)
  }

  ghost function Step(s: Db, a: Action, q: Quota): Db
    requires Enabled(s, a)
  {
    Next(s, a, q).0
  }

  ghost function Answer(s: Db, a: Action, q: Quota): Option<Outcome>
    requires Enabled(s, a)
  {
    Next(s, a, q).1
  }

  /** What a transaction has read is still so, and it passed the comparison. */
  ghost predicate Fresh(m: Rows, t: Txn) {
    match t.phase
    case Begun => true
    case Locked => true
    case Fetched(c) => c == Current(m, t.req.row)
    case Matched(c) => c == Current(m, t.req.row) && Expected(c, t.req.ifVersion)
    case Measured(c, n, b) =>
      c == Current(m, t.req.row) && Expected(c, t.req.ifVersion) &&
      n == |OfUser(m, t.req.row.user)| && b == Total(m, t.req.row.user)
  }

  ghost predicate Exclusive(s: Db) {
    forall x, y, user :: Holds(s, x, user) && Holds(s, y, user) ==> x == y
  }

  ghost predicate Inv(s: Db) { Exclusive(s) && forall x :: x in s.txns ==> Fresh(s.rows, s.txns[x]) }

  /** The transactions serialise: the step that answers a request gives the answer, and has the
      effect, of the whole write run alone at that instant. No other step of a write touches a row. */
  lemma AnswersAreAtomic(s: Db, a: Action, q: Quota)
    requires Inv(s) && Enabled(s, a) && !a.Remove?
    ensures Answer(s, a, q).Some? ==> a.Compare? || a.Finish?
    ensures Answer(s, a, q).Some? ==> Result(Step(s, a, q).rows, Answer(s, a, q).value) == Upsert(s.rows, s.txns[a.x].req, q)
    ensures Answer(s, a, q).None? ==> Step(s, a, q).rows == s.rows
  {
  }

  /** A row of another user is none of this transaction's business. */
  lemma OtherUsersFresh(m: Rows, n: Rows, k: RowKey, t: Txn)
    requires Fresh(m, t) && t.req.row.user != k.user && n - {k} == m - {k}
    ensures Fresh(n, t)
  {
    var user := t.req.row.user;
    UsageWithout(m, k, user);
    UsageWithout(n, k, user);
    assert k !in OfUser(m, user) && k !in OfUser(n, user);
    assert OfUser(m, user) == OfUser(n, user);
    assert forall j :: j != k ==> Current(m, j) == Current(m - {k}, j) && Current(n, j) == Current(n - {k}, j);
  }

  lemma StepKeepsExclusive(s: Db, a: Action, q: Quota)
    requires Inv(s) && Enabled(s, a)
    ensures Exclusive(Step(s, a, q))
  {
    var t := Step(s, a, q);
    if a.Lock? {
      assert forall y, user :: Holds(t, y, user) ==> Holds(s, y, user) || (y == a.x && user == s.txns[a.x].req.row.user);
    } else {
      assert forall y, user :: Holds(t, y, user) ==> Holds(s, y, user);
    }
  }

  lemma ChangeKeepsFresh(s: Db, a: Action, q: Quota)
    requires Inv(s) && Enabled(s, a) && (a.Finish? || a.Remove?)
    ensures forall y :: y in Step(s, a, q).txns ==> Fresh(Step(s, a, q).rows, Step(s, a, q).txns[y])
  {
    var t := Step(s, a, q);
    var k := if a.Finish? then s.txns[a.x].req.row else a.row;
    assert t.rows - {k} == s.rows - {k};
    forall y | y in t.txns ensures Fresh(t.rows, t.txns[y]) {
      assert Fresh(s.rows, s.txns[y]);
      if !t.txns[y].phase.Begun? {
        assert Holds(s, y, t.txns[y].req.row.user);
        assert a.Finish? ==> Holds(s, a.x, k.user);
        OtherUsersFresh(s.rows, t.rows, k, t.txns[y]);
      }
    }
  }

  lemma StepKeepsInv(s: Db, a: Action, q: Quota)
    requires Inv(s) && Enabled(s, a)
    ensures Inv(Step(s, a, q))
  {
    StepKeepsExclusive(s, a, q);
    if a.Finish? || a.Remove? { ChangeKeepsFresh(s, a, q); }
  }

  // ----- runs -----

  ghost predicate Runs(s: Db, actions: seq<Action>, q: Quota)
    decreases |actions|
  {
    actions == [] || (Enabled(s, actions[0]) && Runs(Step(s, actions[0], q), actions[1..], q))
  }

  ghost function After(s: Db, actions: seq<Action>, q: Quota): Db
    requires Runs(s, actions, q)
    decreases |actions|
  {
    if actions == [] then s else After(Step(s, actions[0], q), actions[1..], q)
  }

  lemma StepKeepsQuota(s: Db, a: Action, q: Quota)
    requires Inv(s) && Enabled(s, a) && WithinQuota(s.rows, q)
    ensures WithinQuota(Step(s, a, q).rows, q)
  {
    if a.Remove? {
      DeleteKeepsQuota(s.rows, a.row, a.ifVersion, q);
    } else {
      AnswersAreAtomic(s, a, q);
      if Answer(s, a, q).Some? { UpsertKeepsQuota(s.rows, s.txns[a.x].req, q); }
    }
  }

  /** Whatever the interleaving, no user's entries or bytes ever exceed the quota, and recorded
      sizes are the true ones. */
  lemma {:induction false} QuotaHolds(s: Db, actions: seq<Action>, q: Quota)
    requires Inv(s) && WithinQuota(s.rows, q) && Runs(s, actions, q)
    ensures Inv(After(s, actions, q)) && WithinQuota(After(s, actions, q).rows, q)
    decreases |actions|
  {
    if actions == [] {
    } else {
      StepKeepsInv(s, actions[0], q);
      StepKeepsQuota(s, actions[0], q);
      QuotaHolds(Step(s, actions[0], q), actions[1..], q);
    }
  }

  // ----- versions -----

  ghost predicate Writes(s: Db, a: Action, q: Quota, k: RowKey)
    requires Enabled(s, a)
  {
    a.Finish? && s.txns[a.x].req.row == k && Answer(s, a, q).value.Written?
  }

  /** Per step, a version rises by one if its row is written, and changes otherwise only by deletion. */
  lemma VersionStep(s: Db, a: Action, q: Quota, k: RowKey)
    requires Inv(s) && Enabled(s, a)
    ensures Writes(s, a, q, k) ==>
              Version(Step(s, a, q).rows, k) == Version(s.rows, k) + 1 == Answer(s, a, q).value.version &&
              (s.txns[a.x].req.ifVersion.Some? ==> Version(s.rows, k) == s.txns[a.x].req.ifVersion.value)
    ensures !Writes(s, a, q, k) && !(a.Remove? && a.row == k) ==> Version(Step(s, a, q).rows, k) == Version(s.rows, k)
  {
  }

  lemma {:induction false} VersionsRise(s: Db, actions: seq<Action>, q: Quota, k: RowKey)
    requires Inv(s) && Runs(s, actions, q)
    requires forall a :: a in actions ==> !(a.Remove? && a.row == k)
    ensures Inv(After(s, actions, q)) && Version(After(s, actions, q).rows, k) >= Version(s.rows, k)
    decreases |actions|
  {
    if actions == [] {
    } else {
      assert actions[0] in actions;
      StepKeepsInv(s, actions[0], q);
      VersionStep(s, actions[0], q, k);
      VersionsRise(Step(s, actions[0], q), actions[1..], q, k);
    }
  }

  /** Of two writes conditional on the same version, with no deletion of the key in between, at
      most one succeeds. */
  lemma ConditionalWriteWinsOnce(s: Db, first: Action, between: seq<Action>, second: Action, q: Quota, k: RowKey, version: nat)
    requires Inv(s) && Enabled(s, first) && Writes(s, first, q, k) && s.txns[first.x].req.ifVersion == Some(version)
    requires Runs(Step(s, first, q), between, q) && forall a :: a in between ==> !(a.Remove? && a.row == k)
    requires second.Finish? && Enabled(After(Step(s, first, q), between, q), second)
    requires var r := After(Step(s, first, q), between, q).txns[second.x].req; r.row == k && r.ifVersion == Some(version)
    ensures !Writes(After(Step(s, first, q), between, q), second, q, k)
  {
    StepKeepsInv(s, first, q);
    VersionStep(s, first, q, k);
    VersionsRise(Step(s, first, q), between, q, k);
    VersionStep(After(Step(s, first, q), between, q), second, q, k);
  }

  // ----- values -----

  /** The value of the last successful write of a key since its last deletion. */
  ghost function LastWritten(s: Db, actions: seq<Action>, q: Quota, k: RowKey, known: Option<bytes>): Option<bytes>
    requires Runs(s, actions, q)
    decreases |actions|
  {
    if actions == [] then known else
      var a := actions[0];
      var now :=
        if a.Remove? && a.row == k && k in s.rows && (a.ifVersion == None || a.ifVersion == Some(s.rows[k].version)) then None
        else if a.Finish? && s.txns[a.x].req.row == k && Answer(s, a, q).value.Written? then Some(s.txns[a.x].req.value)
        else known;
      LastWritten(Step(s, a, q), actions[1..], q, k, now)
  }

  function ValueOf(m: Rows, k: RowKey): Option<bytes> { if k in m then Some(m[k].value) else None }

  /** Whatever the interleaving, the value under a key is that of its last successful write since
      its last deletion. */
  lemma {:induction false} ValueIsLastWritten(s: Db, actions: seq<Action>, q: Quota, k: RowKey)
    requires Inv(s) && Runs(s, actions, q)
    ensures ValueOf(After(s, actions, q).rows, k) == LastWritten(s, actions, q, k, ValueOf(s.rows, k))
    decreases |actions|
  {
    if actions == [] {
    } else {
      StepKeepsInv(s, actions[0], q);
      ValueIsLastWritten(Step(s, actions[0], q), actions[1..], q, k);
    }
  }
}
