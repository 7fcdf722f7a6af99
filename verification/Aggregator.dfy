// Summing events into time buckets: saturating 64-bit counters and a cap on the number of buckets.
module Aggregator {
  import opened Options
  import opened Sums
  import opened Tallies
  import opened Buckets

  const U64_MAX: nat := 0xFFFF_FFFF_FFFF_FFFF
  const MAX_BUCKET_ENTRIES: nat := 50_000
  const DEFAULT_PROVIDER: string := "claude_code"

  datatype UsageEvent = UsageEvent(
    ts: int, provider: string, model: string, project: string, device: string,
    input: nat, output: nat, cacheCreate: nat, cacheRead: nat, total: nat)

  datatype GroupBy = Model | Project | DeviceId

  /** `step` in seconds, `since` and `until` in milliseconds; `countOnly` for the events metric. */
  datatype Query = Query(step: int, since: int, until: int, countOnly: bool, groupBy: GroupBy, provider: Option<string>)

  datatype Key = Key(bucket: int, provider: string, group: string)

  datatype Bucket = Bucket(input: nat, output: nat, cacheCreate: nat, cacheRead: nat, total: nat, events: nat, provider: string)

  const ZERO: Bucket := Bucket(0, 0, 0, 0, 0, 0, "")

  datatype Result = Result(buckets: map<Key, Bucket>, truncated: bool)

  function GroupKey(e: UsageEvent, g: GroupBy): string {
    match g
    case Model => e.model
    case Project => e.project
    case DeviceId => e.device
  }

  function Normalized(provider: string): string { if provider == "" then DEFAULT_PROVIDER else provider }

  function KeyOf(e: UsageEvent, q: Query): Key
    requires q.step > 0
  {
    Key(EpochBucket(e.ts, q.step), Normalized(e.provider), GroupKey(e, q.groupBy))
  }

  /** The range check, the bucket overlap check and the provider matcher. */
  predicate Counted(e: UsageEvent, q: Query)
    requires q.step > 0
  {
    var start := EpochBucket(e.ts, q.step) * 1000;
    q.since <= e.ts < q.until &&
    !(start + q.step * 1000 <= q.since || start >= q.until) &&
    (q.provider.None? || q.provider.value == Normalized(e.provider))
  }

  /** What the query asks for, with no regard to buckets. */
  predicate Selected(e: UsageEvent, q: Query) {
    q.since <= e.ts < q.until && (q.provider.None? || q.provider.value == Normalized(e.provider))
  }

  /** The overlap check drops an event that was asked for exactly when its bucket starts at or
      after the end of the range, which only a negative time rounded up can do. */
  lemma SelectedIsCounted(e: UsageEvent, q: Query)
    requires q.step > 0
    ensures Counted(e, q) <==> Selected(e, q) && EpochBucket(e.ts, q.step) * 1000 < q.until
    ensures e.ts >= 0 ==> (Counted(e, q) <==> Selected(e, q))
  {
    BucketHolds(e.ts, q.step);
    if e.ts < 0 { NegativeRoundsUp(e.ts, q.step); }
  }

  // ----- the exact sums -----

  datatype Field = Input | Output | CacheCreate | CacheRead | Total | Events

  function Value(b: Bucket, f: Field): nat {
    match f
    case Input => b.input
    case Output => b.output
    case CacheCreate => b.cacheCreate
    case CacheRead => b.cacheRead
    case Total => b.total
    case Events => b.events
  }

  /** What one event adds to a field. */
  function Amount(e: UsageEvent, q: Query, f: Field): nat {
    if f == Events then 1 else if q.countOnly then 0 else
      match f
      case Input => e.input
      case Output => e.output
      case CacheCreate => e.cacheCreate
      case CacheRead => e.cacheRead
      case _ => e.total
  }

  /** The bucket an event is summed into, if it is counted at all. */
  function SlotOf(q: Query): UsageEvent -> Option<Key>
    requires q.step > 0
  {
    e => if Counted(e, q) then Some(KeyOf(e, q)) else None
  }

  function AmountOf(q: Query, f: Field): UsageEvent -> nat { e => Amount(e, q, f) }

  /** The true sum of a field over a bucket's events. */
  ghost function TrueSum(events: seq<UsageEvent>, q: Query, k: Key, f: Field): nat
    requires q.step > 0
  {
    Tally(events, SlotOf(q), AmountOf(q, f), k)
  }

  /** All buckets that some event belongs to. */
  ghost function Keys(events: seq<UsageEvent>, q: Query): set<Key>
    requires q.step > 0
  {
    Slots(events, SlotOf(q))
  }

  function Saturated(n: nat): nat { if n > U64_MAX then U64_MAX else n }

  function SaturatingAdd(a: nat, b: nat): nat { Saturated(a + b) }

  // ----- the aggregation loop -----

  function Shown(b: Bucket): string { Normalized(b.provider) }

  /** One bucket holds the saturated sums of its events and is shown under its key's provider. */
  ghost predicate BucketExact(events: seq<UsageEvent>, q: Query, k: Key, b: Bucket)
    requires q.step > 0
  {
    (forall f :: Value(b, f) == Saturated(TrueSum(events, q, k, f))) && Shown(b) == k.provider
  }

  ghost predicate BucketsExact(events: seq<UsageEvent>, q: Query, m: map<Key, Bucket>)
    requires q.step > 0
  {
    forall k :: k in m ==> BucketExact(events, q, k, m[k])
  }

  ghost predicate CapRespected(keys: set<Key>, r: Result) {
    r.buckets.Keys <= keys && |r.buckets| <= MAX_BUCKET_ENTRIES &&
    (if r.truncated then |r.buckets| == MAX_BUCKET_ENTRIES < |keys| else r.buckets.Keys == keys)
  }

  ghost predicate Aggregated(events: seq<UsageEvent>, q: Query, r: Result)
    requires q.step > 0
  {
    BucketsExact(events, q, r.buckets) && CapRespected(Keys(events, q), r)
  }

  function Accumulate(b: Bucket, e: UsageEvent, countOnly: bool): Bucket {
    var labelled := if b.provider == "" && e.provider != "" then b.(provider := e.provider) else b;
    if countOnly then labelled.(events := SaturatingAdd(b.events, 1))
    else labelled.(input := SaturatingAdd(b.input, e.input), output := SaturatingAdd(b.output, e.output),
                   cacheCreate := SaturatingAdd(b.cacheCreate, e.cacheCreate), cacheRead := SaturatingAdd(b.cacheRead, e.cacheRead),
                   total := SaturatingAdd(b.total, e.total), events := SaturatingAdd(b.events, 1))
  }

  /** Sums every counted event into its bucket; past 50,000 buckets, new ones are dropped and the
      result is marked as truncated. */
  method Aggregate(events: seq<UsageEvent>, q: Query) returns (r: Result)
    requires q.step > 0
    ensures Aggregated(events, q, r)
    ensures r.truncated <==> |Keys(events, q)| > 50_000
    ensures |r.buckets| <= 50_000
  {
    r := Result(map[], false);
    for i := 0 to |events|
      invariant Aggregated(events[..i], q, r)
    {
      var e := events[i];
      assert events[..i + 1] == events[..i] + [e];
      if !Counted(e, q) {
        Ignored(events[..i], e, q, r);
        continue;
      }
      var key := KeyOf(e, q);
      if |r.buckets| >= MAX_BUCKET_ENTRIES && key !in r.buckets {
        Dropped(events[..i], e, q, r);
        r := r.(truncated := true);
      } else {
        var entry := if key in r.buckets then r.buckets[key] else ZERO;
        Added(events[..i], e, q, r, entry, key);
        r := r.(buckets := r.buckets[key := Accumulate(entry, e, q.countOnly)]);
      }
    }
    assert events[..|events|] == events;
  }

  lemma OthersExact(events: seq<UsageEvent>, e: UsageEvent, q: Query, m: map<Key, Bucket>)
    requires q.step > 0 && BucketsExact(events, q, m)
    ensures forall k :: k in m && SlotOf(q)(e) != Some(k) ==> BucketExact(events + [e], q, k, m[k])
  {
  }

  lemma KeysGrow(events: seq<UsageEvent>, e: UsageEvent, q: Query)
    requires q.step > 0
    ensures Keys(events + [e], q) == Keys(events, q) + Singleton(SlotOf(q)(e))
  {
  }

  lemma Dropped(events: seq<UsageEvent>, e: UsageEvent, q: Query, r: Result)
    requires q.step > 0 && Aggregated(events, q, r)
    requires SlotOf(q)(e).Some? && SlotOf(q)(e).value !in r.buckets && |r.buckets| >= MAX_BUCKET_ENTRIES
    ensures Aggregated(events + [e], q, r.(truncated := true))
  {
  }

  lemma Ignored(events: seq<UsageEvent>, e: UsageEvent, q: Query, r: Result)
    requires q.step > 0 && Aggregated(events, q, r) && SlotOf(q)(e).None?
    ensures Aggregated(events + [e], q, r)
  {
  }

  lemma EntryExact(events: seq<UsageEvent>, q: Query, k: Key, b: Bucket, e: UsageEvent)
    requires q.step > 0 && SlotOf(q)(e) == Some(k)
    requires (forall f :: Value(b, f) == Saturated(TrueSum(events, q, k, f))) && (b == ZERO || Shown(b) == k.provider)
    ensures BucketExact(events + [e], q, k, Accumulate(b, e, q.countOnly))
  {
    var all := events + [e];
    forall f ensures Value(Accumulate(b, e, q.countOnly), f) == Saturated(TrueSum(all, q, k, f)) {
      assert Value(b, f) == Saturated(TrueSum(events, q, k, f));
      Snoc(events, e, SlotOf(q), AmountOf(q, f), k);
      AccumulateValue(b, e, q, f);
    }
  }

  lemma AccumulateValue(b: Bucket, e: UsageEvent, q: Query, f: Field)
    requires Value(b, f) <= U64_MAX
    ensures Value(Accumulate(b, e, q.countOnly), f) == SaturatingAdd(Value(b, f), Amount(e, q, f))
  {
  }

  lemma Added(events: seq<UsageEvent>, e: UsageEvent, q: Query, r: Result, entry: Bucket, key: Key)
    requires q.step > 0 && Aggregated(events, q, r) && SlotOf(q)(e) == Some(key)
    requires |r.buckets| < MAX_BUCKET_ENTRIES || key in r.buckets
    requires entry == if key in r.buckets then r.buckets[key] else ZERO
    ensures Aggregated(events + [e], q, r.(buckets := r.buckets[key := Accumulate(entry, e, q.countOnly)]))
  {
    var m := r.buckets[key := Accumulate(entry, e, q.countOnly)];
    AddedKeys(Keys(events, q), r, key, m);
    KeysGrow(events, e, q);
    assert BucketExact(events + [e], q, key, m[key]) by {
      EntryStarts(events, q, r, key, entry);
      EntryExact(events, q, key, entry, e);
    }
    OthersExact(events, e, q, r.buckets);
  }

  lemma EntryStarts(events: seq<UsageEvent>, q: Query, r: Result, key: Key, entry: Bucket)
    requires q.step > 0 && Aggregated(events, q, r) && (key in r.buckets || key !in Keys(events, q))
    requires entry == if key in r.buckets then r.buckets[key] else ZERO
    ensures (forall f :: Value(entry, f) == Saturated(TrueSum(events, q, key, f))) && (entry == ZERO || Shown(entry) == key.provider)
  {
    if key in r.buckets {
      assert BucketExact(events, q, key, r.buckets[key]);
    } else {
      forall f ensures Value(entry, f) == Saturated(TrueSum(events, q, key, f)) {
        NothingYet(events, SlotOf(q), AmountOf(q, f), key);
      }
    }
  }

  lemma AddedKeys(keys: set<Key>, r: Result, key: Key, m: map<Key, Bucket>)
    requires CapRespected(keys, r) && (|r.buckets| < MAX_BUCKET_ENTRIES || key in r.buckets)
    requires m.Keys == r.buckets.Keys + {key}
    ensures CapRespected(keys + {key}, r.(buckets := m))
    ensures key !in r.buckets ==> key !in keys
  {
    if key in r.buckets {
      assert keys + {key} == keys && m.Keys == r.buckets.Keys;
    }
    assert |m| == |m.Keys| && |r.buckets| == |r.buckets.Keys|;
  }

  // ----- what a reported bucket says, in terms of the events alone -----

  /** The time, the provider and the range put the event into the bucket. */
  predicate FallsInto(e: UsageEvent, q: Query, k: Key)
    requires q.step > 0
  {
    q.since <= e.ts < q.until && k.bucket == EpochBucket(e.ts, q.step) && k.bucket * 1000 < q.until &&
    k.provider == (if e.provider == "" then "claude_code" else e.provider) && (q.provider == None || q.provider == Some(k.provider))
  }

  ghost function Capped(n: nat): nat { if n < 0x1_0000_0000_0000_0000 then n else 0x1_0000_0000_0000_0000 - 1 }

  /** A bucket counts the taken events and, unless only counting was asked for, sums their tokens. */
  ghost predicate Reports(b: Bucket, events: seq<UsageEvent>, taken: UsageEvent -> bool, countOnly: bool) {
    b.events == Capped(SumOf(events, taken, (e: UsageEvent) => 1)) &&
    if countOnly then b.input == b.output == b.cacheCreate == b.cacheRead == b.total == 0 else
      b.input == Capped(SumOf(events, taken, (e: UsageEvent) => e.input)) &&
      b.output == Capped(SumOf(events, taken, (e: UsageEvent) => e.output)) &&
      b.cacheCreate == Capped(SumOf(events, taken, (e: UsageEvent) => e.cacheCreate)) &&
      b.cacheRead == Capped(SumOf(events, taken, (e: UsageEvent) => e.cacheRead)) &&
      b.total == Capped(SumOf(events, taken, (e: UsageEvent) => e.total))
  }

  lemma FallsIntoSlot(e: UsageEvent, q: Query, k: Key)
    requires q.step > 0
    ensures SlotOf(q)(e) == Some(k) <==> FallsInto(e, q, k) && k.group == GroupKey(e, q.groupBy)
  {
    SelectedIsCounted(e, q);
  }

  lemma ReportsTaken(events: seq<UsageEvent>, q: Query, k: Key, b: Bucket, taken: UsageEvent -> bool)
    requires q.step > 0 && BucketExact(events, q, k, b)
    requires forall e :: taken(e) <==> FallsInto(e, q, k) && k.group == GroupKey(e, q.groupBy)
    ensures Reports(b, events, taken, q.countOnly)
  {
    forall e ensures taken(e) <==> SlotOf(q)(e) == Some(k) { FallsIntoSlot(e, q, k); }
    TallyIsSumOf(events, SlotOf(q), AmountOf(q, Events), k, taken, (e: UsageEvent) => 1);
    assert Value(b, Events) == Saturated(TrueSum(events, q, k, Events));
    if q.countOnly {
      NothingSummed(events, q, k, b);
    } else {
      TokensTaken(events, q, k, b, taken);
    }
  }

  lemma {:induction false} NothingSummed(events: seq<UsageEvent>, q: Query, k: Key, b: Bucket)
    requires q.step > 0 && q.countOnly && BucketExact(events, q, k, b)
    ensures b.input == b.output == b.cacheCreate == b.cacheRead == b.total == 0
  {
    forall f | f != Events ensures Value(b, f) == 0 {
      TallyIsSumOf(events, SlotOf(q), AmountOf(q, f), k, e => SlotOf(q)(e) == Some(k), (e: UsageEvent) => 0);
      SumOfNothing(events, e => SlotOf(q)(e) == Some(k));
      assert Value(b, f) == Saturated(TrueSum(events, q, k, f));
    }
    assert Value(b, Input) == Value(b, Output) == Value(b, CacheCreate) == Value(b, CacheRead) == Value(b, Total) == 0;
  }

  lemma {:induction false} SumOfNothing(events: seq<UsageEvent>, taken: UsageEvent -> bool)
    ensures SumOf(events, taken, (e: UsageEvent) => 0) == 0
  {
    if events == [] {
    } else {
      SumOfNothing(events[..|events| - 1], taken);
    }
  }

  lemma TokensTaken(events: seq<UsageEvent>, q: Query, k: Key, b: Bucket, taken: UsageEvent -> bool)
    requires q.step > 0 && !q.countOnly && BucketExact(events, q, k, b)
    requires forall e :: taken(e) <==> SlotOf(q)(e) == Some(k)
    ensures b.input == Capped(SumOf(events, taken, (e: UsageEvent) => e.input))
    ensures b.output == Capped(SumOf(events, taken, (e: UsageEvent) => e.output))
    ensures b.cacheCreate == Capped(SumOf(events, taken, (e: UsageEvent) => e.cacheCreate))
    ensures b.cacheRead == Capped(SumOf(events, taken, (e: UsageEvent) => e.cacheRead))
    ensures b.total == Capped(SumOf(events, taken, (e: UsageEvent) => e.total))
  {
    TallyIsSumOf(events, SlotOf(q), AmountOf(q, Input), k, taken, (e: UsageEvent) => e.input);
    TallyIsSumOf(events, SlotOf(q), AmountOf(q, Output), k, taken, (e: UsageEvent) => e.output);
    TallyIsSumOf(events, SlotOf(q), AmountOf(q, CacheCreate), k, taken, (e: UsageEvent) => e.cacheCreate);
    TallyIsSumOf(events, SlotOf(q), AmountOf(q, CacheRead), k, taken, (e: UsageEvent) => e.cacheRead);
    TallyIsSumOf(events, SlotOf(q), AmountOf(q, Total), k, taken, (e: UsageEvent) => e.total);
    assert Value(b, Input) == Saturated(TrueSum(events, q, k, Input));
    assert Value(b, Output) == Saturated(TrueSum(events, q, k, Output));
    assert Value(b, CacheCreate) == Saturated(TrueSum(events, q, k, CacheCreate));
    assert Value(b, CacheRead) == Saturated(TrueSum(events, q, k, CacheRead));
    assert Value(b, Total) == Saturated(TrueSum(events, q, k, Total));
  }

  /** Every reported bucket counts exactly the events that fall into it and carry its group in the
      field the query groups by. */
  lemma BucketReports(events: seq<UsageEvent>, q: Query, r: Result, k: Key)
    requires q.step > 0 && Aggregated(events, q, r) && k in r.buckets
    ensures q.groupBy == Model ==> Reports(r.buckets[k], events, e => FallsInto(e, q, k) && e.model == k.group, q.countOnly)
    ensures q.groupBy == Project ==> Reports(r.buckets[k], events, e => FallsInto(e, q, k) && e.project == k.group, q.countOnly)
    ensures q.groupBy == DeviceId ==> Reports(r.buckets[k], events, e => FallsInto(e, q, k) && e.device == k.group, q.countOnly)
    ensures k.provider == if r.buckets[k].provider == "" then "claude_code" else r.buckets[k].provider
  {
    assert BucketExact(events, q, k, r.buckets[k]);
    match q.groupBy
    case Model => ReportsTaken(events, q, k, r.buckets[k], e => FallsInto(e, q, k) && e.model == k.group);
    case Project => ReportsTaken(events, q, k, r.buckets[k], e => FallsInto(e, q, k) && e.project == k.group);
    case DeviceId => ReportsTaken(events, q, k, r.buckets[k], e => FallsInto(e, q, k) && e.device == k.group);
  }

  predicate Labelled(e: UsageEvent, q: Query, k: Key) {
    (q.groupBy == Model ==> e.model == k.group) && (q.groupBy == Project ==> e.project == k.group) &&
    (q.groupBy == DeviceId ==> e.device == k.group)
  }

  /** Every reported bucket has an event, and a complete answer reports a bucket for every event
      that falls into one. */
  lemma BucketsReported(events: seq<UsageEvent>, q: Query, r: Result, k: Key)
    requires q.step > 0 && Aggregated(events, q, r)
    ensures k in r.buckets ==> exists e :: e in events && FallsInto(e, q, k) && Labelled(e, q, k)
    ensures !r.truncated ==> forall e :: e in events && FallsInto(e, q, k) && Labelled(e, q, k) ==> k in r.buckets
  {
    SlotOccurs(events, SlotOf(q), k);
    forall e ensures SlotOf(q)(e) == Some(k) <==> FallsInto(e, q, k) && k.group == GroupKey(e, q.groupBy) { FallsIntoSlot(e, q, k); }
  }

  // ----- order and grouping do not matter -----

  /** The order of the events changes neither whether the answer is complete nor, for any bucket
      both answers report, any number in it. Complete answers report the same buckets. */
  lemma OrderIrrelevant(a: seq<UsageEvent>, b: seq<UsageEvent>, q: Query, ra: Result, rb: Result)
    requires q.step > 0 && multiset(a) == multiset(b) && Aggregated(a, q, ra) && Aggregated(b, q, rb)
    ensures ra.truncated == rb.truncated && (!ra.truncated ==> ra.buckets.Keys == rb.buckets.Keys)
    ensures forall k, f :: k in ra.buckets && k in rb.buckets ==> Value(ra.buckets[k], f) == Value(rb.buckets[k], f)
  {
    Permuted(a, b, SlotOf(q), AmountOf(q, Events), Key(0, "", ""));
    forall k, f | k in ra.buckets && k in rb.buckets ensures Value(ra.buckets[k], f) == Value(rb.buckets[k], f) {
      Permuted(a, b, SlotOf(q), AmountOf(q, f), k);
      assert BucketExact(a, q, k, ra.buckets[k]) && BucketExact(b, q, k, rb.buckets[k]);
    }
  }

  function ValueIn(m: map<Key, Bucket>, f: Field): Key -> int { k => if k in m then Value(m[k], f) else 0 }

  /** A field summed over all reported buckets. */
  ghost function GrandTotal(r: Result, f: Field): int { Sum(r.buckets.Keys, ValueIn(r.buckets, f)) }

  /** A field summed over the events that are counted. */
  ghost function CountedTotal(events: seq<UsageEvent>, q: Query, f: Field): nat
    requires q.step > 0
  {
    if events == [] then 0 else
      var e := events[|events| - 1];
      CountedTotal(events[..|events| - 1], q, f) + if Counted(e, q) then Amount(e, q, f) else 0
  }

  lemma {:induction false} EverythingCounted(events: seq<UsageEvent>, q: Query, f: Field)
    requires q.step > 0
    ensures Everything(events, SlotOf(q), AmountOf(q, f)) == CountedTotal(events, q, f)
  {
    if events == [] {
    } else {
      EverythingCounted(events[..|events| - 1], q, f);
    }
  }

  ghost predicate NoSaturation(r: Result, f: Field) { forall k :: k in r.buckets ==> Value(r.buckets[k], f) < U64_MAX }

  /** In a complete answer without saturation the buckets add up to exactly what is counted. */
  lemma GrandTotalExact(events: seq<UsageEvent>, q: Query, r: Result, f: Field)
    requires q.step > 0 && Aggregated(events, q, r) && !r.truncated && NoSaturation(r, f)
    ensures GrandTotal(r, f) == CountedTotal(events, q, f)
  {
    forall k | k in r.buckets ensures ValueIn(r.buckets, f)(k) == TallyOf(events, SlotOf(q), AmountOf(q, f))(k) {
      assert BucketExact(events, q, k, r.buckets[k]) && Value(r.buckets[k], f) < U64_MAX;
    }
    SumSame(r.buckets.Keys, ValueIn(r.buckets, f), TallyOf(events, SlotOf(q), AmountOf(q, f)));
    Partition(events, SlotOf(q), AmountOf(q, f));
    EverythingCounted(events, q, f);
  }

  lemma {:induction false} CountedSame(events: seq<UsageEvent>, p: Query, q: Query, f: Field)
    requires p.step > 0 && q.step > 0
    requires p.since == q.since && p.until == q.until && p.provider == q.provider && p.countOnly == q.countOnly
    requires p.step == q.step || forall e :: e in events ==> e.ts >= 0
    ensures CountedTotal(events, p, f) == CountedTotal(events, q, f)
  {
    if events == [] {
    } else {
      var e, init := events[|events| - 1], events[..|events| - 1];
      assert e in events && forall x :: x in init ==> x in events;
      CountedSame(init, p, q, f);
      SelectedIsCounted(e, p);
      SelectedIsCounted(e, q);
    }
  }

  /** The grand totals of a question do not depend on the grouping; nor, for times that are not
      negative, on the step. */
  lemma GroupingsAgree(events: seq<UsageEvent>, p: Query, q: Query, rp: Result, rq: Result, f: Field)
    requires p.step > 0 && q.step > 0 && Aggregated(events, p, rp) && Aggregated(events, q, rq)
    requires !rp.truncated && !rq.truncated && NoSaturation(rp, f) && NoSaturation(rq, f)
    requires p.since == q.since && p.until == q.until && p.provider == q.provider && p.countOnly == q.countOnly
    requires p.step == q.step || forall e :: e in events ==> e.ts >= 0
    ensures GrandTotal(rp, f) == GrandTotal(rq, f)
  {
    GrandTotalExact(events, p, rp, f);
    GrandTotalExact(events, q, rq, f);
    CountedSame(events, p, q, f);
  }
}
