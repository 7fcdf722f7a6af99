// The cache of users' active status: readers that fill it and administrators that change the
// database and then evict, interleaved step by step.
module ActiveCache {
  import opened Options

  type User = nat

  const GENERATIONS: nat := 0x1_0000_0000_0000_0000
  const TTL_MS: nat := 60_000

  // ----- the cache object -----

  datatype Entry = Entry(active: bool, at: nat)

  /** The mutex-guarded map and the generation counter. Times are in milliseconds. */
  class ActiveCacheInner {
    var entries: map<User, Entry>
    var generation: nat

    ghost predicate Valid()
      reads this
    {
      generation < GENERATIONS
    }

    /** What readers see at time `now`: entries younger than the time to live. */
    function Fresh(now: nat): map<User, bool>
      reads this
    {
      map u | u in entries && now - entries[u].at < TTL_MS :: entries[u].active
    }

    constructor ()
      ensures Valid() && entries == map[] && generation == 0
    {
      entries, generation := map[], 0;
    }

    method GetFresh(u: User, now: nat) returns (r: Option<bool>)
      ensures r == if u in Fresh(now) then Some(Fresh(now)[u]) else None
      ensures r == if u in entries && now - entries[u].at < 60_000 then Some(entries[u].active) else None
    {
      if u in entries && now - entries[u].at < TTL_MS {
        return Some(entries[u].active);
      }
      return None;
    }

    method InsertIfCurrent(u: User, active: bool, genAtRead: nat, now: nat)
      requires Valid()
      modifies this`entries
      ensures Valid() && Fresh(now) == Inserted(old(Fresh(now)), generation, u, active, genAtRead)
      ensures generation == genAtRead ==> u in entries && entries[u] == Entry(active, now)
      ensures forall v :: v in entries ==> (v == u && generation == genAtRead) || (v in old(entries) && entries[v] == old(entries)[v])
      ensures forall v :: v in old(entries) ==> (v in entries <==> now - old(entries)[v].at < 60_000 || (v == u && generation == genAtRead))
    {
      entries := map v | v in entries && now - entries[v].at < TTL_MS :: entries[v];
      if generation == genAtRead {
        entries := entries[u := Entry(active, now)];
      }
    }

    method Evict(u: User)
      requires Valid()
      modifies this
      ensures Valid() && entries == old(entries) - {u} && generation == Next(old(generation))
      ensures forall now :: Fresh(now) == old(Fresh(now)) - {u}
    {
      entries := entries - {u};
      generation := (generation + 1) % GENERATIONS;
    }
  }

  /** A lookup undisturbed by others: a fresh entry answers, else the database does and is cached.
      `stored` is what the database reads for the user. */
  method IsUserActiveCached(cache: ActiveCacheInner, stored: Option<bool>, u: User, now: nat) returns (active: bool)
    requires cache.Valid()
    modifies cache`entries
    ensures cache.Valid() && u in cache.Fresh(now) && cache.Fresh(now)[u] == active
    ensures active == if u in old(cache.Fresh(now)) then old(cache.Fresh(now))[u] else stored == Some(true)
    ensures cache.Fresh(now) == old(cache.Fresh(now))[u := active]
    ensures var was := old(cache.entries);
      if u in was && now - was[u].at < 60_000 then active == was[u].active && cache.entries == was
      else u in cache.entries && cache.entries[u] == Entry(stored == Some(true), now)
  {
    var hit := cache.GetFresh(u, now);
    if hit.Some? {
      return hit.value;
    }
    var genAtRead := cache.generation;
    active := if stored.Some? then stored.value else false;
    cache.InsertIfCurrent(u, active, genAtRead, now);
  }

  function Inserted(cached: map<User, bool>, generation: nat, u: User, active: bool, genAtRead: nat): map<User, bool> {
    if generation == genAtRead then cached[u := active] else cached
  }

  function Next(generation: nat): nat { (generation + 1) % GENERATIONS }

  // ----- the protocol -----

  /** How far a lookup has come after missing the cache. */
  datatype Reader = Missed(user: User) | Captured(user: User, gen: nat) | Fetched(user: User, gen: nat, active: bool)

  /** `cached` holds the fresh entries, `pending` the administrators whose eviction is not finished,
      and `holder` the one that holds the map lock between removing the entry and moving the
      generation. */
  datatype Server = Server(
    db: map<User, bool>,
    cached: map<User, bool>,
    generation: nat,
    holder: Option<nat>,
    readers: map<nat, Reader>,
    pending: map<nat, User>)

  datatype Action =
    | Miss(reader: nat, user: User)
    | Capture(reader: nat)
    | Fetch(reader: nat)
    | Insert(reader: nat)
    | Abandon(reader: nat)
    | SetActive(admin: nat, user: User, active: bool)
    | EvictAnyway(admin: nat, user: User)
    | Remove(admin: nat)
    | Bump(admin: nat)
    | DeleteRow(user: User)
    | Expire(users: set<User>)

  /** A missing user counts as inactive. */
  predicate Active(db: map<User, bool>, u: User) { u in db && db[u] }

  predicate Enabled(s: Server, a: Action) {
    match a
    case Miss(r, u) => r !in s.readers && s.holder == None && u !in s.cached
    case Capture(r) => r in s.readers && s.readers[r].Missed?
    case Fetch(r) => r in s.readers && s.readers[r].Captured?
    case Insert(r) => r in s.readers && s.readers[r].Fetched? && s.holder == None
    case Abandon(r) => r in s.readers
    case SetActive(x, u, _) => x !in s.pending && u in s.db
    case EvictAnyway(x, _) => x !in s.pending
    case Remove(x) => x in s.pending && s.holder == None
    case Bump(x) => s.holder == Some(x) && x in s.pending
    case DeleteRow(u) => u in s.db
    case Expire(_) => true
  }

  function Step(s: Server, a: Action): Server
    requires Enabled(s, a)
  {
    match a
    case Miss(r, u) => s.(readers := s.readers[r := Missed(u)])
    case Capture(r) => s.(readers := s.readers[r := Captured(s.readers[r].user, s.generation)])
    case Fetch(r) =>
      var rd := s.readers[r];
      s.(readers := s.readers[r := Fetched(rd.user, rd.gen, Active(s.db, rd.user))])
    case Insert(r) =>
      var rd := s.readers[r];
      s.(cached := Inserted(s.cached, s.generation, rd.user, rd.active, rd.gen), readers := s.readers - {r})
    case Abandon(r) => s.(readers := s.readers - {r})
    case SetActive(x, u, v) => s.(db := s.db[u := v], pending := s.pending[x := u])
    case EvictAnyway(x, u) => s.(pending := s.pending[x := u])
    case Remove(x) => s.(cached := s.cached - {s.pending[x]}, holder := Some(x))
    case Bump(x) => s.(generation := Next(s.generation), holder := None, pending := s.pending - {x})
    case DeleteRow(u) => s.(db := s.db - {u})
    case Expire(us) => s.(cached := s.cached - us)
  }

  // ----- coherence -----

  ghost predicate EvictPending(s: Server, u: User) { u in s.pending.Values }

  /** The read a lookup would still be allowed to cache. */
  predicate Insertable(s: Server, r: nat) { r in s.readers && s.readers[r].Fetched? && s.readers[r].gen == s.generation }

  /** What is cached for the user, and what a lookup may still cache, is what the database says —
      unless an eviction is still to come. */
  ghost predicate Coherent(s: Server, u: User) {
    !EvictPending(s, u) ==>
      (u in s.cached ==> s.cached[u] == Active(s.db, u)) &&
      forall r :: Insertable(s, r) && s.readers[r].user == u ==> s.readers[r].active == Active(s.db, u)
  }

  /** Generations captured so far do not lie ahead; `n` bounds the evictions so far. */
  ghost predicate Numbered(s: Server, n: nat) {
    s.generation <= n && forall r :: r in s.readers && !s.readers[r].Missed? ==> s.readers[r].gen <= s.generation
  }

  ghost predicate LockInv(s: Server) {
    s.holder.Some? ==> s.holder.value in s.pending && s.pending[s.holder.value] !in s.cached
  }

  /** What holds in every state, whatever is deleted. */
  ghost predicate Inv(s: Server, n: nat) { Numbered(s, n) && LockInv(s) }

  /** The user is inactive, is not cached as active, and no lookup may still cache that. */
  ghost predicate Shut(s: Server, u: User) {
    !Active(s.db, u) && !(u in s.cached && s.cached[u]) &&
    forall r :: Insertable(s, r) && s.readers[r].user == u ==> !s.readers[r].active
  }

  /** Row deletion is the one database write no eviction follows. It does the user no harm when it
      is not theirs, when an eviction is still to come, or when no `true` is cached for them and no
      lookup may still cache one. */
  ghost predicate Harmless(s: Server, a: Action, u: User) {
    a.DeleteRow? && a.user == u && !EvictPending(s, u) ==>
      !(u in s.cached && s.cached[u]) && forall r :: Insertable(s, r) && s.readers[r].user == u ==> !s.readers[r].active
  }

  lemma StepKeepsInv(s: Server, a: Action, n: nat)
    requires Inv(s, n) && Enabled(s, a) && n + 1 < GENERATIONS
    ensures Inv(Step(s, a), n + 1)
  {
  }

  lemma BumpCoherent(s: Server, x: nat, u: User, n: nat)
    requires Inv(s, n) && Coherent(s, u) && Enabled(s, Bump(x)) && n + 1 < GENERATIONS
    ensures Coherent(Step(s, Bump(x)), u)
  {
    var t := Step(s, Bump(x));
    assert forall y :: y in s.pending && s.pending[y] == u && s.pending[x] != u ==> y in t.pending && t.pending[y] == u;
    assert s.pending[x] == u ==> u !in t.cached;
  }

  lemma PendingGrows(s: Server, t: Server, x: nat, u: User, v: User)
    requires x !in s.pending && t.pending == s.pending[x := u]
    ensures EvictPending(t, u) && (EvictPending(s, v) ==> EvictPending(t, v))
  {
    assert t.pending[x] == u;
    if y :| y in s.pending && s.pending[y] == v { assert t.pending[y] == v; }
  }

  lemma DeleteCoherent(s: Server, u: User, v: User, n: nat)
    requires Coherent(s, u) && Enabled(s, DeleteRow(v))
    ensures Coherent(Step(s, DeleteRow(v)), u) <==> Harmless(s, DeleteRow(v), u)
  {
    var t := Step(s, DeleteRow(v));
    assert EvictPending(s, u) == EvictPending(t, u);
    assert forall r :: Insertable(s, r) == Insertable(t, r);
  }

  /** A step keeps the cache coherent for a user exactly when it is not a harmful deletion of theirs. */
  lemma StepCoherent(s: Server, a: Action, u: User, n: nat)
    requires Inv(s, n) && Coherent(s, u) && Enabled(s, a) && n + 1 < GENERATIONS
    ensures Coherent(Step(s, a), u) <==> Harmless(s, a, u)
  {
    match a {
      case Bump(x) => BumpCoherent(s, x, u, n);
      case SetActive(x, v, _) => PendingGrows(s, Step(s, a), x, v, u);
      case EvictAnyway(x, v) => PendingGrows(s, Step(s, a), x, v, u);
      case Insert(r) => assert s.readers[r].gen == s.generation ==> Insertable(s, r);
      case DeleteRow(v) => DeleteCoherent(s, u, v, n);
      case _ =>
    }
  }

  // ----- runs -----

  ghost predicate Runs(s: Server, actions: seq<Action>)
    decreases |actions|
  {
    actions == [] || (Enabled(s, actions[0]) && Runs(Step(s, actions[0]), actions[1..]))
  }

  ghost function After(s: Server, actions: seq<Action>): Server
    requires Runs(s, actions)
    decreases |actions|
  {
    if actions == [] then s else After(Step(s, actions[0]), actions[1..])
  }

  ghost predicate AllHarmless(s: Server, actions: seq<Action>, u: User)
    requires Runs(s, actions)
    decreases |actions|
  {
    actions == [] || (Harmless(s, actions[0], u) && AllHarmless(Step(s, actions[0]), actions[1..], u))
  }

  /** The cache is coherent for the user in every state of the run. */
  ghost predicate AlwaysCoherent(s: Server, actions: seq<Action>, u: User)
    requires Runs(s, actions)
    decreases |actions|
  {
    Coherent(s, u) && (actions == [] || AlwaysCoherent(Step(s, actions[0]), actions[1..], u))
  }

  function Start(db: map<User, bool>): Server { Server(db, map[], 0, None, map[], map[]) }

  lemma {:induction false} RunKeepsInv(s: Server, actions: seq<Action>, n: nat)
    requires Inv(s, n) && Runs(s, actions) && n + |actions| < GENERATIONS
    ensures Inv(After(s, actions), n + |actions|)
    decreases |actions|
  {
    if actions == [] {
    } else {
      StepKeepsInv(s, actions[0], n);
      RunKeepsInv(Step(s, actions[0]), actions[1..], n + 1);
    }
  }

  lemma {:induction false} RunCoherent(s: Server, actions: seq<Action>, u: User, n: nat)
    requires Inv(s, n) && Coherent(s, u) && Runs(s, actions) && n + |actions| < GENERATIONS
    ensures AlwaysCoherent(s, actions, u) <==> AllHarmless(s, actions, u)
    ensures AllHarmless(s, actions, u) ==> Coherent(After(s, actions), u)
    decreases |actions|
  {
    if actions == [] {
    } else {
      StepKeepsInv(s, actions[0], n);
      StepCoherent(s, actions[0], u, n);
      if Harmless(s, actions[0], u) {
        RunCoherent(Step(s, actions[0]), actions[1..], u, n + 1);
      }
    }
  }

  /** Whatever the interleaving of lookups, evictions and expiry, and whatever happens to others:
      the cache is coherent for a user throughout a run if and only if the run contains no harmful
      deletion of that user. */
  lemma CacheIsCoherent(db: map<User, bool>, actions: seq<Action>, u: User)
    requires Runs(Start(db), actions) && |actions| < GENERATIONS
    ensures AlwaysCoherent(Start(db), actions, u) <==> AllHarmless(Start(db), actions, u)
    ensures AllHarmless(Start(db), actions, u) ==> Coherent(After(Start(db), actions), u)
  {
    RunCoherent(Start(db), actions, u, 0);
  }

  /** Deleting the row of an inactive user does no harm. */
  lemma InactiveDeleteIsHarmless(s: Server, u: User)
    requires Coherent(s, u) && Enabled(s, DeleteRow(u)) && !Active(s.db, u)
    ensures forall v :: Harmless(s, DeleteRow(u), v)
  {
  }

  /** A user deactivated for deletion, reactivated by a second administrator before the row goes,
      and looked up in between stays cached as active after the deletion. */
  lemma DeleteAfterReactivationIsStale()
    ensures exists actions, u :: Runs(Start(map[u := true]), actions) && StaleActive(After(Start(map[u := true]), actions), u)
  {
    var u := 0;
    var s0 := Start(map[u := true]);
    var off := [SetActive(1, u, false), Remove(1), Bump(1)];
    var on := [SetActive(2, u, true), Remove(2), Bump(2)];
    var look := [Miss(3, u), Capture(3), Fetch(3), Insert(3)];
    var s3 := Server(map[u := false], map[], 1, None, map[], map[]);
    var s6 := Server(map[u := true], map[], 2, None, map[], map[]);
    var s10 := Server(map[u := true], map[u := true], 2, None, map[], map[]);
    ChangeRuns(s0, 1, u, false, s3);
    ChangeRuns(s3, 2, u, true, s6);
    LookupRuns(s6, 3, u, s10);
    var s11 := Step(s10, DeleteRow(u));
    assert Runs(s10, [DeleteRow(u)]) && After(s10, [DeleteRow(u)]) == s11 by {
      assert [DeleteRow(u)][1..] == [];
      assert Runs(s11, []) && After(s11, []) == s11;
    }
    RunsJoin(s6, look, [DeleteRow(u)]);
    RunsJoin(s3, on, look + [DeleteRow(u)]);
    RunsJoin(s0, off, on + (look + [DeleteRow(u)]));
  }

  ghost predicate StaleActive(s: Server, u: User) {
    u in s.cached && s.cached[u] && !Active(s.db, u) && s.pending == map[]
  }

  lemma {:induction false} RunsJoin(s: Server, a: seq<Action>, b: seq<Action>)
    requires Runs(s, a) && Runs(After(s, a), b)
    ensures Runs(s, a + b) && After(s, a + b) == After(After(s, a), b)
    decreases |a|
  {
    if a == [] {
      assert a + b == b;
    } else {
      assert (a + b)[1..] == a[1..] + b;
      RunsJoin(Step(s, a[0]), a[1..], b);
    }
  }

  lemma OneStep(s: Server, a: Action, rest: seq<Action>)
    requires Enabled(s, a) && Runs(Step(s, a), rest)
    ensures Runs(s, [a] + rest) && After(s, [a] + rest) == After(Step(s, a), rest)
  {
  }

  lemma EvictRuns(s: Server, x: nat, t: Server)
    requires s.pending.Keys == {x} && s.pending[x] !in s.cached && s.holder == None
    requires t == s.(pending := map[], generation := Next(s.generation))
    ensures Runs(s, [Remove(x), Bump(x)]) && After(s, [Remove(x), Bump(x)]) == t
  {
    assert s.cached - {s.pending[x]} == s.cached && s.pending - {x} == map[];
    var s2 := Step(s, Remove(x));
    assert Step(s2, Bump(x)) == t;
    OneStep(s2, Bump(x), []);
    OneStep(s, Remove(x), [Bump(x)]);
    assert [Remove(x)] + [Bump(x)] == [Remove(x), Bump(x)];
  }

  lemma ChangeRuns(s: Server, x: nat, u: User, v: bool, t: Server)
    requires u in s.db && u !in s.cached && s.holder == None && s.pending == map[]
    requires t == s.(db := s.db[u := v], generation := Next(s.generation))
    ensures Runs(s, [SetActive(x, u, v), Remove(x), Bump(x)]) && After(s, [SetActive(x, u, v), Remove(x), Bump(x)]) == t
  {
    var s1 := Step(s, SetActive(x, u, v));
    assert s1.pending == map[x := u];
    EvictRuns(s1, x, t);
    OneStep(s, SetActive(x, u, v), [Remove(x), Bump(x)]);
    assert [SetActive(x, u, v)] + [Remove(x), Bump(x)] == [SetActive(x, u, v), Remove(x), Bump(x)];
  }

  lemma LookupRuns(s: Server, r: nat, u: User, t: Server)
    requires u !in s.cached && s.holder == None && s.readers == map[]
    requires t == s.(cached := s.cached[u := Active(s.db, u)])
    ensures Runs(s, [Miss(r, u), Capture(r), Fetch(r), Insert(r)]) && After(s, [Miss(r, u), Capture(r), Fetch(r), Insert(r)]) == t
  {
    var s1 := Step(s, Miss(r, u));
    var s2 := Step(s1, Capture(r));
    var s3 := Step(s2, Fetch(r));
    assert Step(s3, Insert(r)) == t;
    OneStep(s3, Insert(r), []);
    OneStep(s2, Fetch(r), [Insert(r)]);
    OneStep(s1, Capture(r), [Fetch(r)] + [Insert(r)]);
    OneStep(s, Miss(r, u), [Capture(r)] + ([Fetch(r)] + [Insert(r)]));
    assert [Miss(r, u)] + ([Capture(r)] + ([Fetch(r)] + [Insert(r)])) == [Miss(r, u), Capture(r), Fetch(r), Insert(r)];
  }

  // ----- after a deactivation -----

  lemma StepStaysShut(s: Server, a: Action, u: User, n: nat)
    requires Shut(s, u) && Numbered(s, n) && Enabled(s, a) && n + 1 < GENERATIONS
    requires !(a.SetActive? && a.user == u && a.active)
    ensures Shut(Step(s, a), u)
  {
  }

  lemma {:induction false} RunStaysShut(s: Server, actions: seq<Action>, u: User, n: nat)
    requires Shut(s, u) && Inv(s, n) && Runs(s, actions) && n + |actions| < GENERATIONS
    requires forall a :: a in actions ==> !(a.SetActive? && a.user == u && a.active)
    ensures Shut(After(s, actions), u)
    decreases |actions|
  {
    if actions == [] {
    } else {
      assert actions[0] in actions;
      StepStaysShut(s, actions[0], u, n);
      StepKeepsInv(s, actions[0], n);
      RunStaysShut(Step(s, actions[0]), actions[1..], u, n + 1);
    }
  }

  /** Finishing an eviction clears the user's entry and outdates every read of theirs. */
  lemma EvictionShuts(s: Server, x: nat, n: nat)
    requires Inv(s, n) && n + 1 < GENERATIONS && Enabled(s, Bump(x)) && !Active(s.db, s.pending[x])
    ensures Shut(Step(s, Bump(x)), s.pending[x])
  {
  }

  /** From the moment a deactivation finishes, no lookup finds the user cached as active until
      somebody reactivates them — whatever ran before it, harmful deletions included, and whatever
      else runs after it. */
  lemma DeactivationSticks(db: map<User, bool>, before: seq<Action>, x: nat, after: seq<Action>, u: User)
    requires Runs(Start(db), before)
    requires var s := After(Start(db), before);
      Enabled(s, Bump(x)) && s.pending[x] == u && !Active(s.db, u) && Runs(Step(s, Bump(x)), after)
    requires forall a :: a in after ==> !(a.SetActive? && a.user == u && a.active)
    requires |before| + 1 + |after| < GENERATIONS
    ensures var t := After(Step(After(Start(db), before), Bump(x)), after);
      !Active(t.db, u) && (u in t.cached ==> !t.cached[u])
  {
    var s := After(Start(db), before);
    RunKeepsInv(Start(db), before, 0);
    StepKeepsInv(s, Bump(x), |before|);
    EvictionShuts(s, x, |before|);
    RunStaysShut(Step(s, Bump(x)), after, u, |before| + 1);
  }

  /** The same from any state in which the user is inactive with no eviction to come, if no harmful
      deletion of theirs led there. */
  lemma InactiveStaysOut(db: map<User, bool>, before: seq<Action>, after: seq<Action>, u: User)
    requires Runs(Start(db), before) && AllHarmless(Start(db), before, u)
    requires var s := After(Start(db), before); !Active(s.db, u) && u !in s.pending.Values && Runs(s, after)
    requires forall a :: a in after ==> !(a.SetActive? && a.user == u && a.active)
    requires |before| + |after| < GENERATIONS
    ensures var t := After(After(Start(db), before), after);
      !Active(t.db, u) && (u in t.cached ==> !t.cached[u])
  {
    RunKeepsInv(Start(db), before, 0);
    RunCoherent(Start(db), before, u, 0);
    RunStaysShut(After(Start(db), before), after, u, |before|);
  }
}
