// From delivery to answer: what a query reports after any run of the event store.
module EventAnswers {
  import opened Options
  import opened ByteStrings
  import opened EventKeys
  import opened EventSpaces
  import opened EventStore
  import opened EventHistory
  import opened EventQueries

  predicate CleanEvent(e: Event) { CleanId(e.id) && NulFree(e.user) && e.ts >= 0 }

  /** Every delivered event has NUL-free identifiers and a timestamp that is not negative. */
  ghost predicate CleanRun(run: seq<Action>) { forall e :: WasDelivered(run, e) ==> CleanEvent(e) }

  lemma UpsertScannable(s: Spaces, e: Event)
    requires Scannable(s) && CleanEvent(e)
    ensures Scannable(Upsert(s, e))
  {
  }

  lemma {:induction false} UpsertAllScannable(s: Spaces, w: map<LogicalKey, Event>)
    requires Scannable(s) && forall id :: id in w ==> CleanEvent(w[id])
    ensures Scannable(UpsertAll(s, w))
    decreases w.Keys
  {
    if w == map[] {
    } else {
      UpsertScannable(s, w[Pick(w)]);
      UpsertAllScannable(Upsert(s, w[Pick(w)]), w - {Pick(w)});
    }
  }

  /** Clean deliveries leave keyspaces that the scans can rely on, whatever is pruned or purged. */
  lemma {:induction false} RunScannable(run: seq<Action>)
    requires CleanRun(run)
    ensures Scannable(Run(run))
  {
    if run == [] {
    } else {
      var before, a := run[..|run| - 1], run[|run| - 1];
      assert a in run && forall x :: x in before ==> x in run;
      assert CleanRun(before) by {
        forall e | WasDelivered(before, e) ensures CleanEvent(e) {
          assert WasDelivered(run, e);
        }
      }
      RunScannable(before);
      if a.Deliver? {
        forall id | id in Winners(a.batch) ensures CleanEvent(Winners(a.batch)[id]) {
          assert WasDelivered(run, Winners(a.batch)[id]);
        }
        UpsertAllScannable(Run(before), Winners(a.batch));
      }
    }
  }

  /** What is listed for an event at or above its device's cutoff: the newest delivered event of
      its logical key, and nothing else. */
  lemma NewestListed(run: seq<Action>, hits: set<RowKey>, e: Event)
    requires hits <= Run(run).events.Keys && e.ts >= Cut(run, e.id.device)
    ensures Listed(Run(run), hits, e) == if KeyOf(e) in hits && Newest(run, e.id) == Some(e) then 1 else 0
  {
    RetentionExact(run);
    RunFaithful(run);
    if KeyOf(e) in hits {
      var n := Newest(run, e.id).value;
      assert KeyOf(n) == KeyOf(e) && Load(Run(run).events[KeyOf(e)], Run(run).sessions) == n;
    }
  }

  /** After any run of clean deliveries, prunes and purges, an answer with room for its rows lists
      an event at or above its device's cutoff once if it is the newest delivered of its logical
      key, in the window and of a user asked for; otherwise not at all. */
  lemma QueriesReportNewest(run: seq<Action>, filter: UserFilter, since: int, until: int, room: nat, e: Event)
    requires CleanRun(run) && Scannable(Run(run)) && |Hits(Run(run), filter, since, until)| <= room
    requires e.ts >= Cut(run, e.id.device)
    ensures multiset(Answer(Run(run), filter, since, until, room))[e]
         == if Newest(run, e.id) == Some(e) && since <= e.ts < until &&
              (filter.All? || (filter.Single? && e.user == filter.user) || (filter.Multiple? && e.user in filter.users)) then 1 else 0
  {
    var s := Run(run);
    var hits := Hits(s, filter, since, until);
    RunFaithful(run);
    AnswerComplete(s, filter, since, until, room);
    BagCounts(s, hits, e);
    NewestListed(run, hits, e);
    RetentionExact(run);
    assert Newest(run, e.id) == Some(e) ==> KeyOf(e) in s.events && s.events[KeyOf(e)] == Row(e);
  }

  /** The per-user query as it runs, after any run in which no index entry was stranded. */
  method QueryAfter(ghost run: seq<Action>, s: Spaces, user: bytes, since: i64, until: int, room: nat) returns (results: seq<Event>)
    requires CleanRun(run) && NothingStranded(run) && s == Run(run) && NulFree(user)
    requires |Hits(s, Single(user), since, until)| <= room
    ensures forall e: Event :: e.ts >= Cut(run, e.id.device) ==>
      multiset(results)[e] == if Newest(run, e.id) == Some(e) && since <= e.ts < until && e.user == user then 1 else 0
  {
    RunScannable(run);
    RunValid(run);
    results := ScanUserEvents(s.idxUser, s.sessions, user, since, until, room, s);
    forall e: Event | e.ts >= Cut(run, e.id.device)
      ensures multiset(results)[e] == if Newest(run, e.id) == Some(e) && since <= e.ts < until && e.user == user then 1 else 0
    {
      QueriesReportNewest(run, Single(user), since, until, room, e);
    }
  }

  /** The query for everybody as it runs: every newest event of the window, whoever its user is. */
  method QueryAllAfter(ghost run: seq<Action>, s: Spaces, since: i64, until: int, room: nat) returns (results: seq<Event>)
    requires CleanRun(run) && NothingStranded(run) && s == Run(run) && since >= 0
    requires |WindowRows(s, since, until)| <= room
    ensures forall e: Event :: e.ts >= Cut(run, e.id.device) ==>
      multiset(results)[e] == if Newest(run, e.id) == Some(e) && since <= e.ts < until then 1 else 0
  {
    RunScannable(run);
    RunValid(run);
    results := QueryEvents(s, since, until, All, room);
    assert Hits(s, All, since, until) == WindowRows(s, since, until);
    forall e: Event | e.ts >= Cut(run, e.id.device)
      ensures multiset(results)[e] == if Newest(run, e.id) == Some(e) && since <= e.ts < until then 1 else 0
    {
      QueriesReportNewest(run, All, since, until, room, e);
    }
  }

  /** And the query for several users. */
  method QueryTeamAfter(ghost run: seq<Action>, s: Spaces, users: seq<bytes>, since: i64, until: int, room: nat) returns (results: seq<Event>)
    requires CleanRun(run) && NothingStranded(run) && s == Run(run) && forall u :: u in users ==> NulFree(u)
    requires (forall i, j :: 0 <= i < j < |users| ==> users[i] != users[j]) && |Hits(s, Multiple(users), since, until)| <= room
    ensures forall e: Event :: e.ts >= Cut(run, e.id.device) ==>
      multiset(results)[e] == if Newest(run, e.id) == Some(e) && since <= e.ts < until && e.user in users then 1 else 0
  {
    RunScannable(run);
    RunValid(run);
    results := QueryEvents(s, since, until, Multiple(users), room);
    forall e: Event | e.ts >= Cut(run, e.id.device)
      ensures multiset(results)[e] == if Newest(run, e.id) == Some(e) && since <= e.ts < until && e.user in users then 1 else 0
    {
      TeamReportsNewest(run, users, since, until, room, e);
    }
  }

  lemma TeamReportsNewest(run: seq<Action>, users: seq<bytes>, since: int, until: int, room: nat, e: Event)
    requires CleanRun(run) && Scannable(Run(run)) && |Hits(Run(run), Multiple(users), since, until)| <= room
    requires (forall i, j :: 0 <= i < j < |users| ==> users[i] != users[j]) && e.ts >= Cut(run, e.id.device)
    ensures multiset(TeamAnswer(Run(run), users, since, until, room))[e]
         == if Newest(run, e.id) == Some(e) && since <= e.ts < until && e.user in users then 1 else 0
  {
    RunFaithful(run);
    TeamQueryComplete(Run(run), users, since, until, room);
    QueriesReportNewest(run, Multiple(users), since, until, room, e);
  }
}
