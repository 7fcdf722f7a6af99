// The ceiling on how many events one query reads, in front of the aggregator: what an aggregated
// answer then leaves out.
module QueryCeiling {
  import opened Options
  import opened Sums
  import opened Tallies
  import opened EventQueries
  import opened Aggregator

  const MAX_QUERY_EVENTS: nat := 200_000

  /** The events an answer is made of, given all that the store has for the query, in its order. */
  function Seen(hits: seq<UsageEvent>): seq<UsageEvent> {
    if |hits| > MAX_QUERY_EVENTS then hits[..MAX_QUERY_EVENTS] else hits
  }

  /** Ask for one event past the ceiling, cut it off again, and aggregate. That something was cut
      is not passed on to an aggregated answer. */
  method AnswerAggregated(hits: seq<UsageEvent>, q: Query) returns (r: Result, eventsTruncated: bool)
    requires q.step > 0
    ensures Aggregated(if |hits| > 200_000 then hits[..200_000] else hits, q, r) && (eventsTruncated <==> |hits| > 200_000)
  {
    var events := Page(hits, MAX_QUERY_EVENTS + 1);
    eventsTruncated := |events| > MAX_QUERY_EVENTS;
    if eventsTruncated {
      events := events[..MAX_QUERY_EVENTS];
    }
    assert events == Seen(hits);
    r := Aggregate(events, q);
  }

  /** Nothing behind the ceiling would have been counted. */
  ghost predicate NothingCut(hits: seq<UsageEvent>, q: Query)
    requires q.step > 0
  {
    forall i :: MAX_QUERY_EVENTS <= i < |hits| ==> !Counted(hits[i], q)
  }

  lemma {:induction false} CutTotal(hits: seq<UsageEvent>, n: nat, q: Query, f: Field)
    requires q.step > 0 && n <= |hits|
    ensures CountedTotal(hits, q, f) >= CountedTotal(hits[..n], q, f)
    ensures (forall i :: n <= i < |hits| ==> !Counted(hits[i], q)) ==> CountedTotal(hits, q, f) == CountedTotal(hits[..n], q, f)
    ensures f == Events && CountedTotal(hits, q, f) == CountedTotal(hits[..n], q, f) ==> forall i :: n <= i < |hits| ==> !Counted(hits[i], q)
  {
    if n == |hits| {
      assert hits[..n] == hits;
    } else {
      var init := hits[..|hits| - 1];
      CutTotal(init, n, q, f);
      assert init[..n] == hits[..n];
      assert forall i :: n <= i < |init| ==> init[i] == hits[i];
    }
  }

  lemma {:induction false} CountAtMost(events: seq<UsageEvent>, q: Query, k: Key)
    requires q.step > 0
    ensures Tally(events, SlotOf(q), AmountOf(q, Events), k) <= |events|
  {
    if events == [] {
    } else {
      CountAtMost(events[..|events| - 1], q, k);
    }
  }

  lemma CountsUnsaturated(hits: seq<UsageEvent>, q: Query, r: Result)
    requires q.step > 0 && Aggregated(Seen(hits), q, r)
    ensures NoSaturation(r, Events)
  {
    forall k | k in r.buckets ensures Value(r.buckets[k], Events) < U64_MAX {
      CountAtMost(Seen(hits), q, k);
      assert BucketExact(Seen(hits), q, k, r.buckets[k]);
    }
  }

  /** An answer not marked as truncated counts all events of the query if and only if nothing
      behind the ceiling would have been counted; then its other sums are complete as well. */
  lemma UnmarkedIsComplete(hits: seq<UsageEvent>, q: Query, r: Result)
    requires q.step > 0 && Aggregated(Seen(hits), q, r) && !r.truncated
    ensures GrandTotal(r, Events) == CountedTotal(hits, q, Events) <==> NothingCut(hits, q)
    ensures NothingCut(hits, q) ==> forall f :: NoSaturation(r, f) ==> GrandTotal(r, f) == CountedTotal(hits, q, f)
  {
    var n := |Seen(hits)|;
    assert hits[..n] == Seen(hits);
    CountsUnsaturated(hits, q, r);
    GrandTotalExact(Seen(hits), q, r, Events);
    CutTotal(hits, n, q, Events);
    forall f | NothingCut(hits, q) && NoSaturation(r, f) ensures GrandTotal(r, f) == CountedTotal(hits, q, f) {
      GrandTotalExact(Seen(hits), q, r, f);
      CutTotal(hits, n, q, f);
    }
  }

  /** The failing query: one event more than the ceiling, all in one bucket. The answer is short and
      not marked. */
  lemma UnmarkedShortAnswer(e: UsageEvent, q: Query, r: Result)
    requires q.step > 0 && Counted(e, q) && Aggregated(Seen(seq(MAX_QUERY_EVENTS + 1, _ => e)), q, r)
    ensures !r.truncated && GrandTotal(r, Events) < CountedTotal(seq(MAX_QUERY_EVENTS + 1, _ => e), q, Events)
  {
    var hits := seq(MAX_QUERY_EVENTS + 1, _ => e);
    OneKey(Seen(hits), e, q);
    UnmarkedIsComplete(hits, q, r);
    assert hits[MAX_QUERY_EVENTS] == e;
    CountsUnsaturated(hits, q, r);
    GrandTotalExact(Seen(hits), q, r, Events);
    assert hits[..MAX_QUERY_EVENTS] == Seen(hits);
    CutTotal(hits, MAX_QUERY_EVENTS, q, Events);
  }

  lemma {:induction false} OneKey(events: seq<UsageEvent>, e: UsageEvent, q: Query)
    requires q.step > 0 && Counted(e, q) && forall x :: x in events ==> x == e
    ensures Keys(events, q) <= {KeyOf(e, q)} && |Keys(events, q)| <= 1
  {
    if events == [] {
    } else {
      var init := events[..|events| - 1];
      assert events[|events| - 1] in events && forall x :: x in init ==> x in events;
      OneKey(init, e, q);
    }
    SubsetSize(Keys(events, q), {KeyOf(e, q)});
  }
}
