// Which time bucket an event belongs to, and how many buckets a range query can touch.
module Buckets {
  import opened Sums

  const MAX_BUCKETS: int := 2000

  /** Division as the source's integers divide, towards zero. */
  function TruncDiv(a: int, b: int): int
    requires b > 0
  {
    if a >= 0 then a / b else -((-a) / b)
  }

  // ----- epoch-aligned buckets -----

  /** The bucket's start in seconds, for a step in seconds and a time in milliseconds. */
  function EpochBucket(ts: int, step: int): int
    requires step > 0
  {
    TruncDiv(TruncDiv(ts, step * 1000) * (step * 1000), 1000)
  }

  lemma Quotient(a: int, b: int, q: int)
    requires b > 0 && q * b <= a < q * b + b
    ensures a / b == q
  {
    var d := a / b;
    assert d * b <= a < d * b + b;
    if d < q { Multiple(d + 1, q, b); }
    if d > q { Multiple(q + 1, d, b); }
  }

  lemma Multiple(a: int, b: int, c: int)
    requires a <= b && c > 0
    ensures a * c <= b * c
  {
  }

  lemma BucketValue(ts: int, step: int)
    requires step > 0
    ensures EpochBucket(ts, step) == TruncDiv(ts, step * 1000) * step
  {
  }

  /** Every bucket starts at a multiple of the step. */
  lemma BucketAligned(ts: int, step: int)
    requires step > 0
    ensures EpochBucket(ts, step) % step == 0
  {
    BucketValue(ts, step);
    AlignedMod(TruncDiv(ts, step * 1000), step);
  }

  /** A bucket holds the times from its start up to one step later — exactly for times that are
      not negative, or that fall on a boundary; other negative times are rounded up. */
  lemma BucketHolds(ts: int, step: int)
    requires step > 0
    ensures (EpochBucket(ts, step) * 1000 <= ts < EpochBucket(ts, step) * 1000 + step * 1000)
        <==> (ts >= 0 || ts % (step * 1000) == 0)
  {
    BucketValue(ts, step);
    var w := step * 1000;
    var q := TruncDiv(ts, w);
    assert EpochBucket(ts, step) * 1000 == q * w;
    if ts < 0 {
      var p := (-ts) / w;
      assert q == -p && q * w == -(p * w);
      assert p * w <= -ts < p * w + w;
      if ts % w == 0 {
        var d := ts / w;
        assert ts == d * w && -ts == (-d) * w;
        Quotient(-ts, w, -d);
      } else if -ts == p * w {
        Quotient(ts, w, -p);
      }
    }
  }

  /** A negative time is never put into a bucket that starts before it. */
  lemma NegativeRoundsUp(ts: int, step: int)
    requires step > 0 && ts < 0
    ensures ts <= EpochBucket(ts, step) * 1000 < ts + step * 1000
  {
    BucketValue(ts, step);
    var w := step * 1000;
    var p := (-ts) / w;
    assert EpochBucket(ts, step) * 1000 == TruncDiv(ts, w) * w == -(p * w);
    assert p * w <= -ts < p * w + w;
  }

  /** Later times never fall into an earlier bucket. */
  lemma BucketMonotone(a: int, b: int, step: int)
    requires step > 0 && a <= b
    ensures EpochBucket(a, step) <= EpochBucket(b, step)
  {
    BucketValue(a, step);
    BucketValue(b, step);
    TruncMonotone(a, b, step * 1000);
    Multiple(TruncDiv(a, step * 1000), TruncDiv(b, step * 1000), step);
  }

  lemma TruncMonotone(a: int, b: int, w: int)
    requires w > 0 && a <= b
    ensures TruncDiv(a, w) <= TruncDiv(b, w)
  {
    if a >= 0 {
      DivMonotone(a, b, w);
    } else if b < 0 {
      DivMonotone(-b, -a, w);
    } else {
      DivMonotone(0, -a, w);
      DivMonotone(0, b, w);
    }
  }

  lemma DivMonotone(a: int, b: int, w: int)
    requires w > 0 && 0 <= a <= b
    ensures a / w <= b / w
  {
    var p, q := a / w, b / w;
    if q < p { Multiple(q + 1, p, w); }
  }

  // ----- the bound on a range query -----

  /** The checks on `step` in a range query, for a range in milliseconds. */
  predicate StepAccepted(rangeMs: int, step: int)
    requires rangeMs >= 0
  {
    var range := if rangeMs / 1000 >= 1 then rangeMs / 1000 else 1;
    step >= (range + MAX_BUCKETS - 1) / MAX_BUCKETS && step <= range && step > 0
  }

  /** A step is accepted when it is no longer than the range and 2000 of it make up the range, both
      in whole seconds and at least one. */
  lemma StepAcceptedExactly(rangeMs: int, step: int)
    requires rangeMs >= 0
    ensures StepAccepted(rangeMs, step) <==>
      1 <= step && step * 1000 <= (if rangeMs < 1000 then 1000 else rangeMs) && (rangeMs < 1000 || rangeMs < 2000 * step * 1000 + 1000)
  {
    var range := if rangeMs < 1000 then 1 else rangeMs / 1000;
    assert (range + 1999) / 2000 <= step <==> range <= 2000 * step;
  }

  /** The buckets that the times of a range fall into. */
  ghost function Touched(since: int, until: int, step: int): set<int>
    requires step > 0
  {
    set ts | since <= ts < until :: EpochBucket(ts, step)
  }

  ghost function Multiples(from: int, n: nat, step: int): set<int> {
    if n == 0 then {} else Multiples(from, n - 1, step) + {(from + n - 1) * step}
  }

  lemma {:induction false} MultiplesHave(from: int, n: nat, step: int)
    requires step > 0
    ensures |Multiples(from, n, step)| == n
    ensures forall q :: from <= q < from + n ==> q * step in Multiples(from, n, step)
    ensures forall m :: m in Multiples(from, n, step) ==> m < (from + n) * step
  {
    if n == 0 {
    } else {
      MultiplesHave(from, n - 1, step);
      Distribute(from + n - 1, 1, step);
    }
  }

  lemma Distribute(a: int, b: int, c: int)
    ensures (a + b) * c == a * c + b * c
  {
  }

  lemma QuotientSpan(since: int, until: int, w: int)
    requires 0 <= since < until && w >= 1000 && until - since < 2000 * w + 1000
    ensures (until - 1) / w <= since / w + 2001
  {
    var a, b := since / w, (until - 1) / w;
    if b >= a + 2002 {
      assert since < a * w + w && b * w <= until - 1;
      Multiple(a + 2002, b, w);
      Distribute(a, 2002, w);
    }
  }

  /** An accepted range query over non-negative times touches at most 2002 buckets. */
  lemma FewBuckets(since: int, until: int, step: int)
    requires 0 <= since <= until && StepAccepted(until - since, step)
    ensures |Touched(since, until, step)| <= 2002
  {
    if since < until {
      var w := step * 1000;
      var a := since / w;
      StepCoversRange(until - since, step);
      QuotientSpan(since, until, w);
      MultiplesHave(a, 2002, step);
      forall ts | since <= ts < until ensures EpochBucket(ts, step) in Multiples(a, 2002, step) {
        BucketValue(ts, step);
        DivMonotone(since, ts, w);
        DivMonotone(ts, until - 1, w);
        assert (ts / w) * step in Multiples(a, 2002, step);
      }
      SubsetSize(Touched(since, until, step), Multiples(a, 2002, step));
    } else {
      assert Touched(since, until, step) == {};
    }
  }

  lemma StepCoversRange(rangeMs: int, step: int)
    requires rangeMs >= 0 && StepAccepted(rangeMs, step)
    ensures rangeMs < 2000 * (step * 1000) + 1000
  {
  }

  lemma {:induction false} FirstMultiples(n: nat, b: int)
    requires b in Multiples(0, n, 1)
    ensures 0 <= b < n
  {
    if n == 0 {
    } else if b in Multiples(0, n - 1, 1) {
      FirstMultiples(n - 1, b);
    }
  }

  /** A range that starts in second 0 and ends after second `n - 1` has begun touches `n` buckets. */
  lemma TouchedAll(n: nat, since: int, until: int)
    requires n > 0 && 0 <= since < 1000 && since < until && (n - 1) * 1000 < until
    ensures |Touched(since, until, 1)| >= n
  {
    MultiplesHave(0, n, 1);
    forall b | b in Multiples(0, n, 1) ensures b in Touched(since, until, 1) {
      FirstMultiples(n, b);
      var ts := if b == 0 then since else b * 1000;
      assert EpochBucket(ts, 1) == b;
    }
    SubsetSize(Multiples(0, n, 1), Touched(since, until, 1));
  }

  /** The bound is reached. */
  lemma BoundIsReached()
    ensures StepAccepted(2_000_999, 1) && |Touched(999, 999 + 2_000_999, 1)| == 2002
  {
    FewBuckets(999, 999 + 2_000_999, 1);
    TouchedAll(2002, 999, 999 + 2_000_999);
  }

  // ----- calendar-aligned buckets -----

  /** Dates are days since 1970-01-01, which was a Thursday. */
  function Weekday(date: int): int { (date + 3) % 7 }

  /** The first day of the bucket of `n` days that holds the date. */
  function FloorDays(date: int, n: int): int
    requires n > 0
  {
    date / n * n
  }

  /** The first day of the week that holds the date; days count from Monday. */
  function FloorWeek(date: int, startOfWeek: int): int
    requires 0 <= startOfWeek < 7
  {
    date - (Weekday(date) - startOfWeek + 7) % 7
  }

  /** Flooring by days picks the one aligned day within `n` days, before 1970 too. */
  lemma FloorDaysUnique(date: int, n: int, start: int)
    requires n > 0
    ensures start == FloorDays(date, n) <==> start % n == 0 && start <= date < start + n
  {
    var q := date / n;
    assert q * n <= date < q * n + n;
    if start % n == 0 && start <= date < start + n {
      Quotient(date, n, start / n);
    }
    AlignedMod(q, n);
  }

  lemma AlignedMod(q: int, n: int)
    requires n > 0
    ensures (q * n) % n == 0
  {
    Quotient(q * n, n, q);
    assert (q * n) == (q * n) / n * n + (q * n) % n;
  }

  /** Flooring by weeks picks the one day of the given weekday in the seven that end with the date;
      day 0 is a Thursday, day 3 of a week counted from Monday. */
  lemma FloorWeekUnique(date: int, startOfWeek: int, start: int)
    requires 0 <= startOfWeek < 7
    ensures start == FloorWeek(date, startOfWeek) <==> (start + 3) % 7 == startOfWeek && start <= date < start + 7
  {
  }
}
