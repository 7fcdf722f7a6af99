// When order, grouping and repetition of merges do not matter: the exact condition on the
// observations under which every way of merging them yields the same row.
module WindowConvergence {
  import opened Windows

  /** Some way of combining observations: pairwise merges in any shape. */
  datatype Merging = Observed(w: WireWindow) | Merged(left: Merging, right: Merging)

  function Result(m: Merging): WireWindow {
    match m
    case Observed(w) => w
    case Merged(l, r) => Merge(Result(l), Result(r))
  }

  function Observations(m: Merging): set<WireWindow> {
    match m
    case Observed(w) => {w}
    case Merged(l, r) => Observations(l) + Observations(r)
  }

  /** Observations of one window, each within its own length. */
  ghost predicate Comparable(ws: set<WireWindow>) {
    ws != {} && forall a, b :: a in ws && b in ws ==> a.key == b.key && a.firstSeen >= 0 && Capped(a)
  }

  ghost predicate Newest(ws: set<WireWindow>, n: WireWindow) {
    n in ws && forall w :: w in ws ==> w.latest.observed <= n.latest.observed
  }

  /** The newest observations agree about the fields they decide. */
  ghost predicate NewestAgree(ws: set<WireWindow>) {
    forall a, b :: Newest(ws, a) && Newest(ws, b) ==> a.latest == b.latest
  }

  /** Some observation brings this much active time, and no observation as new as it is too short
      to hold it. */
  ghost predicate Kept(ws: set<WireWindow>, t: int) { exists a :: Keeps(ws, a, t) }

  ghost predicate Keeps(ws: set<WireWindow>, a: WireWindow, t: int) {
    a in ws && a.activeMs >= t && forall b :: b in ws && b.latest.observed >= a.latest.observed ==> Cap(b.latest.minutes) >= t
  }

  /** The newest observations agree, and whatever active time fits the newest length is kept. */
  ghost predicate Settles(ws: set<WireWindow>) {
    NewestAgree(ws) && forall n, m :: Claims(ws, n, m) ==> Kept(ws, Room(n, m))
  }

  ghost predicate Claims(ws: set<WireWindow>, n: WireWindow, m: WireWindow) { Newest(ws, n) && m in ws }

  /** How much of one observation's active time the newest length holds. */
  function Room(n: WireWindow, m: WireWindow): int { Min(m.activeMs, Cap(n.latest.minutes)) }

  // ----- what every merging yields -----

  ghost predicate Largest(f: WireWindow -> int, m: int, ws: set<WireWindow>) {
    (exists w :: w in ws && f(w) == m) && forall w :: w in ws ==> f(w) <= m
  }

  ghost predicate Earliest(f: WireWindow -> int, m: int, absent: int, ws: set<WireWindow>) {
    (exists w :: w in ws && f(w) == m) &&
    forall w :: w in ws && f(w) != absent ==> m != absent && m <= f(w)
  }

  function Peak(w: WireWindow): int { w.peak }
  function Reached(w: WireWindow): int { w.limitReached }
  function Fraction(w: WireWindow): int { w.fraction }
  function Samples(w: WireWindow): int { w.samples }
  function FirstSeen(w: WireWindow): int { w.firstSeen }
  function TimeTo100(w: WireWindow): int { w.timeTo100 }

  ghost predicate NewestOf(r: WireWindow, ws: set<WireWindow>) {
    (exists w :: w in ws && w.latest == r.latest && w.key == r.key) &&
    (forall w :: w in ws ==> w.latest.observed <= r.latest.observed && w.key == r.key)
  }

  ghost predicate MaximaOf(r: WireWindow, ws: set<WireWindow>) {
    Largest(Peak, r.peak, ws) && Largest(Reached, r.limitReached, ws) &&
    Largest(Fraction, r.fraction, ws) && Largest(Samples, r.samples, ws)
  }

  ghost predicate FlagsOf(r: WireWindow, ws: set<WireWindow>) {
    (r.finalized <==> exists w :: w in ws && w.finalized) && (r.maxedOut <==> exists w :: w in ws && w.maxedOut)
  }

  /** Active time: within the row's own length, and brought by some observation at least. */
  ghost predicate ActiveWithin(r: WireWindow, ws: set<WireWindow>) {
    Capped(r) && exists w :: w in ws && r.activeMs <= w.activeMs
  }

  /** `r` says about the set exactly what each field is meant to say: maxima, minima where there
      is a value, any flag raised, and a newest observation's own fields. */
  ghost predicate Summarizes(r: WireWindow, ws: set<WireWindow>) {
    NewestOf(r, ws) && MaximaOf(r, ws) && FlagsOf(r, ws) && ActiveWithin(r, ws) &&
    Earliest(FirstSeen, r.firstSeen, 0, ws) && Earliest(TimeTo100, r.timeTo100, -1, ws)
  }

  lemma EarliestOfBoth(f: WireWindow -> int, a: int, xs: set<WireWindow>, b: int, ys: set<WireWindow>, absent: int)
    requires Earliest(f, a, absent, xs) && Earliest(f, b, absent, ys)
    ensures Earliest(f, Earlier(a, b, absent), absent, xs + ys)
  {
  }

  lemma NewestOfBoth(r: WireWindow, xs: set<WireWindow>, q: WireWindow, ys: set<WireWindow>)
    requires Comparable(xs + ys) && NewestOf(r, xs) && NewestOf(q, ys)
    ensures NewestOf(Merge(r, q), xs + ys)
  {
  }

  lemma MaximaOfBoth(r: WireWindow, xs: set<WireWindow>, q: WireWindow, ys: set<WireWindow>)
    requires MaximaOf(r, xs) && MaximaOf(q, ys)
    ensures MaximaOf(Merge(r, q), xs + ys)
  {
  }

  lemma ActiveOfBoth(r: WireWindow, xs: set<WireWindow>, q: WireWindow, ys: set<WireWindow>)
    requires ActiveWithin(r, xs) && ActiveWithin(q, ys)
    ensures ActiveWithin(Merge(r, q), xs + ys)
  {
    var x :| x in xs && r.activeMs <= x.activeMs;
    var y :| y in ys && q.activeMs <= y.activeMs;
    assert Merge(r, q).activeMs <= Max(x.activeMs, y.activeMs);
    assert x in xs + ys && y in xs + ys;
  }

  lemma FirstSeenOfBoth(r: WireWindow, xs: set<WireWindow>, q: WireWindow, ys: set<WireWindow>)
    requires Comparable(xs + ys) && Earliest(FirstSeen, r.firstSeen, 0, xs) && Earliest(FirstSeen, q.firstSeen, 0, ys)
    ensures Earliest(FirstSeen, EarlierSeen(r.firstSeen, q.firstSeen), 0, xs + ys)
  {
  }

  lemma FlagsOfBoth(r: WireWindow, xs: set<WireWindow>, q: WireWindow, ys: set<WireWindow>)
    requires FlagsOf(r, xs) && FlagsOf(q, ys)
    ensures FlagsOf(Merge(r, q), xs + ys)
  {
  }

  /** Merging the summaries of two sets summarises their union. */
  lemma MergeSummarizes(r: WireWindow, xs: set<WireWindow>, q: WireWindow, ys: set<WireWindow>)
    requires Comparable(xs + ys) && Summarizes(r, xs) && Summarizes(q, ys)
    ensures Summarizes(Merge(r, q), xs + ys)
  {
    NewestOfBoth(r, xs, q, ys);
    MaximaOfBoth(r, xs, q, ys);
    ActiveOfBoth(r, xs, q, ys);
    FirstSeenOfBoth(r, xs, q, ys);
    EarliestOfBoth(TimeTo100, r.timeTo100, xs, q.timeTo100, ys, -1);
    FlagsOfBoth(r, xs, q, ys);
  }

  lemma OneSummarizes(w: WireWindow)
    requires Capped(w)
    ensures Summarizes(w, {w})
  {
  }

  lemma PartComparable(xs: set<WireWindow>, ys: set<WireWindow>)
    requires Comparable(xs + ys)
    ensures xs != {} ==> Comparable(xs)
    ensures ys != {} ==> Comparable(ys)
  {
  }

  lemma {:induction false} ObservationsExist(m: Merging)
    ensures Observations(m) != {}
  {
    match m
    case Observed(w) => assert w in Observations(m);
    case Merged(l, r) => ObservationsExist(l);
  }

  /** Whatever its shape, a merging yields the maxima, the earliest instants, the flags and a
      newest observation's fields of its observations. */
  lemma {:induction false} ResultSummarizes(m: Merging)
    requires Comparable(Observations(m))
    ensures Summarizes(Result(m), Observations(m))
  {
    match m
    case Observed(w) => OneSummarizes(w);
    case Merged(l, r) =>
      PartComparable(Observations(l), Observations(r));
      ObservationsExist(l);
      ObservationsExist(r);
      ResultSummarizes(l);
      ResultSummarizes(r);
      MergeSummarizes(Result(l), Observations(l), Result(r), Observations(r));
  }

  /** Active time that is kept by the observations is kept by every merging of them. */
  lemma {:induction false} KeptByMerging(m: Merging, ws: set<WireWindow>, a: WireWindow, t: int)
    requires Comparable(ws) && Keeps(ws, a, t) && Observations(m) <= ws && a in Observations(m)
    ensures Result(m).activeMs >= t
  {
    match m {
      case Observed(w) =>
      case Merged(l, r) =>
        if a in Observations(l) { KeptByMerging(l, ws, a, t); } else { KeptByMerging(r, ws, a, t); }
        assert ws == Observations(m) + ws;
        PartComparable(Observations(m), ws);
        ResultSummarizes(m);
        var b :| b in Observations(m) && b.latest == Result(m).latest;
        assert b in ws && b.latest.observed >= a.latest.observed;
    }
  }

  // ----- enough: settled observations converge -----

  lemma RowKept(r: WireWindow, ws: set<WireWindow>)
    requires Settles(ws) && NewestOf(r, ws) && ActiveWithin(r, ws)
    ensures Kept(ws, r.activeMs)
  {
    var m :| m in ws && r.activeMs <= m.activeMs;
    var n :| n in ws && n.latest == r.latest;
    assert Claims(ws, n, m);
    KeptLess(ws, Room(n, m), r.activeMs);
  }

  lemma KeptLess(ws: set<WireWindow>, t: int, less: int)
    requires Kept(ws, t) && less <= t
    ensures Kept(ws, less)
  {
    var a :| Keeps(ws, a, t);
    assert Keeps(ws, a, less);
  }

  lemma ActiveAtMost(l: Merging, r: Merging)
    requires Observations(l) == Observations(r) && Comparable(Observations(l)) && Settles(Observations(l))
    ensures Result(l).activeMs <= Result(r).activeMs
  {
    var ws, t := Observations(l), Result(l).activeMs;
    ResultSummarizes(l);
    RowKept(Result(l), ws);
    var a :| Keeps(ws, a, t);
    KeptByMerging(r, ws, a, t);
  }

  lemma SettledConverge(l: Merging, r: Merging)
    requires Observations(l) == Observations(r) && Comparable(Observations(l)) && Settles(Observations(l))
    ensures Result(l) == Result(r)
  {
    ResultSummarizes(l);
    ResultSummarizes(r);
    ActiveAtMost(l, r);
    ActiveAtMost(r, l);
    SameButActive(Result(l), Result(r), Observations(l));
  }

  lemma SameButActive(p: WireWindow, q: WireWindow, ws: set<WireWindow>)
    requires NewestAgree(ws) && Summarizes(p, ws) && Summarizes(q, ws) && p.activeMs == q.activeMs
    ensures p == q
  {
    assert p.latest == q.latest && p.key == q.key by {
      var a :| a in ws && a.latest == p.latest && a.key == p.key;
      var b :| b in ws && b.latest == q.latest && b.key == q.key;
      assert Newest(ws, a) && Newest(ws, b);
    }
  }

  // ----- necessary: the orders that tell them apart -----

  /** Merging one observation after another. */
  function InTurn(q: seq<WireWindow>): (m: Merging)
    requires q != []
    ensures Observations(m) == Elements(q)
  {
    if |q| == 1 then Observed(q[0]) else
      assert q == q[..|q| - 1] + [q[|q| - 1]];
      Merged(InTurn(q[..|q| - 1]), Observed(q[|q| - 1]))
  }

  function Elements(q: seq<WireWindow>): set<WireWindow> { set w | w in q }

  lemma InTurnStep(q: seq<WireWindow>, z: WireWindow)
    requires q != []
    ensures Result(InTurn(q + [z])) == Merge(Result(InTurn(q)), z) && Elements(q + [z]) == Elements(q) + {z}
  {
    assert (q + [z])[..|q|] == q;
  }

  lemma {:induction false} Enumerated(ws: set<WireWindow>) returns (q: seq<WireWindow>)
    ensures Elements(q) == ws
  {
    q := [];
    if ws == {} {
    } else {
      var z :| z in ws;
      var rest := Enumerated(ws - {z});
      q := rest + [z];
      assert Elements(q) == Elements(rest) + {z};
    }
  }

  /** With the newest observation first, all active time its length has room for comes through. */
  lemma {:induction false} NewestFirst(ws: set<WireWindow>, n: WireWindow) returns (q: seq<WireWindow>)
    requires NewestAgree(ws) && Newest(ws, n) && Capped(n)
    ensures q != [] && Elements(q) == ws && RoomFilled(Result(InTurn(q)), ws, n)
  {
    if ws == {n} {
      q := [n];
    } else {
      var z :| z in ws && z != n;
      var rest := ws - {z};
      assert n in rest && forall a :: Newest(rest, a) ==> Newest(ws, a);
      var p := NewestFirst(rest, n);
      InTurnStep(p, z);
      q := p + [z];
      RoomStep(Result(InTurn(p)), ws, rest, n, z);
    }
  }

  ghost predicate RoomFilled(r: WireWindow, ws: set<WireWindow>, n: WireWindow) {
    r.latest == n.latest && forall m :: m in ws ==> r.activeMs >= Room(n, m)
  }

  lemma RoomStep(r: WireWindow, ws: set<WireWindow>, rest: set<WireWindow>, n: WireWindow, z: WireWindow)
    requires z in ws && rest == ws - {z} && NewestAgree(ws) && Newest(ws, n) && RoomFilled(r, rest, n)
    ensures RoomFilled(Merge(r, z), ws, n)
  {
    assert z.latest.observed < n.latest.observed || Newest(ws, z);
  }

  /** Older before newer; among equally new ones, longer before shorter. */
  predicate NotBefore(z: WireWindow, w: WireWindow) {
    w.latest.observed < z.latest.observed || (w.latest.observed == z.latest.observed && w.latest.minutes >= z.latest.minutes)
  }

  lemma {:induction false} LastExists(ws: set<WireWindow>) returns (z: WireWindow)
    requires ws != {}
    ensures z in ws && forall w :: w in ws ==> NotBefore(z, w)
  {
    var x :| x in ws;
    z := x;
    if ws != {x} {
      assert ws - {x} != {};
      var y := LastExists(ws - {x});
      z := if NotBefore(x, y) then x else y;
      forall w | w in ws ensures NotBefore(z, w) {
        assert w == x || NotBefore(y, w);
      }
    }
  }

  /** With the oldest first, active time comes through only if it is kept. */
  lemma {:induction false} OldestFirst(ws: set<WireWindow>, t: int) returns (q: seq<WireWindow>)
    requires Comparable(ws)
    ensures q != [] && Elements(q) == ws
    ensures Result(InTurn(q)).activeMs >= t ==> Kept(ws, t)
  {
    var z := LastExists(ws);
    var rest := ws - {z};
    if rest == {} {
      q := [z];
      assert ws == {z};
      assert z.activeMs >= t ==> Keeps(ws, z, t);
    } else {
      assert Comparable(rest);
      var p := OldestFirst(rest, t);
      OldestFirstStep(ws, z, p, t);
      q := p + [z];
    }
  }

  lemma OldestFirstStep(ws: set<WireWindow>, z: WireWindow, p: seq<WireWindow>, t: int)
    requires z in ws && forall w :: w in ws ==> NotBefore(z, w)
    requires p != [] && Elements(p) == ws - {z} && Comparable(ws - {z})
    requires Result(InTurn(p)).activeMs >= t ==> Kept(ws - {z}, t)
    ensures Elements(p + [z]) == ws && (Result(InTurn(p + [z])).activeMs >= t ==> Kept(ws, t))
  {
    InTurnStep(p, z);
    ResultSummarizes(InTurn(p));
    LastJoins(ws, z, Result(InTurn(p)), t);
  }

  lemma LastJoins(ws: set<WireWindow>, z: WireWindow, r: WireWindow, t: int)
    requires z in ws && forall w :: w in ws ==> NotBefore(z, w)
    requires NewestOf(r, ws - {z}) && (r.activeMs >= t ==> Kept(ws - {z}, t))
    ensures Merge(r, z).activeMs >= t ==> Kept(ws, t)
  {
    if Merge(r, z).activeMs >= t {
      assert Cap(z.latest.minutes) >= t;
      if z.activeMs >= t {
        assert Keeps(ws, z, t);
      } else {
        var a :| Keeps(ws - {z}, a, t);
        assert Keeps(ws, a, t);
      }
    }
  }

  ghost predicate AllMergingsAgree(ws: set<WireWindow>) {
    forall l, r :: Observations(l) == ws && Observations(r) == ws ==> Result(l) == Result(r)
  }

  lemma EndsWithNewest(ws: set<WireWindow>, q: seq<WireWindow>, a: WireWindow)
    requires Comparable(ws) && Newest(ws, a) && q != [] && Elements(q) == ws
    ensures Elements(q + [a]) == ws && Result(InTurn(q + [a])).latest == a.latest
  {
    InTurnStep(q, a);
    ResultSummarizes(InTurn(q));
    assert ws + {a} == ws;
  }

  lemma DisputedNewest(ws: set<WireWindow>, a: WireWindow, b: WireWindow) returns (p: seq<WireWindow>, q: seq<WireWindow>)
    requires Comparable(ws) && Newest(ws, a) && Newest(ws, b) && a.latest != b.latest
    ensures p != [] && q != [] && Elements(p) == ws == Elements(q) && Result(InTurn(p)) != Result(InTurn(q))
  {
    var all := Enumerated(ws);
    assert all != [];
    EndsWithNewest(ws, all, a);
    EndsWithNewest(ws, all, b);
    p, q := all + [a], all + [b];
  }

  /** Observations that do not settle can be merged one after another in two orders that differ. */
  lemma UnsettledDiffer(ws: set<WireWindow>) returns (p: seq<WireWindow>, q: seq<WireWindow>)
    requires Comparable(ws) && !Settles(ws)
    ensures p != [] && q != [] && Elements(p) == ws == Elements(q) && Result(InTurn(p)) != Result(InTurn(q))
  {
    if !NewestAgree(ws) {
      var a, b :| Newest(ws, a) && Newest(ws, b) && a.latest != b.latest;
      p, q := DisputedNewest(ws, a, b);
    } else {
      var n, m :| Claims(ws, n, m) && !Kept(ws, Room(n, m));
      p := NewestFirst(ws, n);
      q := OldestFirst(ws, Room(n, m));
    }
  }

  /** Any order, grouping and duplication of the same observations yields the same row if and only
      if the newest of them agree and all active time the newest length has room for is kept. */
  lemma MergingsConverge(ws: set<WireWindow>)
    requires Comparable(ws)
    ensures AllMergingsAgree(ws) <==> Settles(ws)
  {
    if Settles(ws) {
      forall l, r | Observations(l) == ws && Observations(r) == ws ensures Result(l) == Result(r) {
        SettledConverge(l, r);
      }
    } else {
      var p, q := UnsettledDiffer(ws);
      assert Observations(InTurn(p)) == ws && Observations(InTurn(q)) == ws;
    }
  }

  /** In particular: observations that share the length, and agree whenever they are equally new. */
  lemma SharedLengthSettles(ws: set<WireWindow>)
    requires forall a, b :: a in ws && b in ws ==>
      a.latest.minutes == b.latest.minutes && (a.latest.observed == b.latest.observed ==> a.latest == b.latest)
    ensures Settles(ws)
  {
    forall n, m | Claims(ws, n, m) ensures Kept(ws, Room(n, m)) {
      assert Keeps(ws, m, Room(n, m));
    }
  }
}
