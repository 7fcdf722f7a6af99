// What the server does to one uploaded batch of windows before storing it: repair, reject, cap.
module WindowSanitize {
  import opened ByteStrings
  import opened Windows

  const DAY: int := 86_400_000
  const TWO_YEARS: int := 2 * 365 * DAY
  const MAX_WINDOW_ITEMS: nat := 2_000
  const MAX_STRING: nat := 64

  /** A UTF-8 string holds a control character: below 0x20, 0x7F, or U+0080 to U+009F. */
  predicate HasControl(s: bytes) {
    exists i :: 0 <= i < |s| &&
      (s[i] < 0x20 || s[i] == 0x7F || (s[i] == 0xC2 && i + 1 < |s| && 0x80 <= s[i + 1] <= 0x9F))
  }

  predicate StringOk(s: bytes) { |s| <= MAX_STRING && !HasControl(s) }

  /** The stable checks that no clock enters. */
  predicate Timeless(w: WireWindow) {
    StringOk(w.key.limit) && StringOk(w.key.account) && StringOk(w.latest.plan) &&
    w.key.kind <= 1 && 0 < w.latest.minutes <= 60 * 24 * 31 && w.firstSeen >= 0 &&
    w.limitReached <= 2 && w.fraction <= 1000 && w.latest.sampleGap >= -DAY
  }

  predicate SeenInOrder(w: WireWindow) { w.firstSeen == 0 || w.firstSeen <= w.latest.observed }

  predicate Recent(w: WireWindow, now: int) { w.key.endMs > now - TWO_YEARS && w.latest.rawResets > now - TWO_YEARS }

  predicate StableOk(w: WireWindow, now: int) { Timeless(w) && SeenInOrder(w) && Recent(w, now) }

  predicate TransientOk(w: WireWindow, now: int) {
    w.key.endMs < now + 40 * DAY && w.latest.rawResets < now + 41 * DAY
  }

  // ----- repairs -----

  function Floored(w: WireWindow, now: int): WireWindow {
    if w.latest.observed < now - TWO_YEARS then w.(latest := w.latest.(observed := now - TWO_YEARS)) else w
  }

  function Clipped(w: WireWindow): WireWindow {
    if w.activeMs > Cap(w.latest.minutes) then w.(activeMs := Cap(w.latest.minutes)) else w
  }

  function Clamped(w: WireWindow, now: int): WireWindow {
    var v := if w.latest.observed > now + 60_000 then w.(latest := w.latest.(observed := now + 60_000)) else w;
    if v.firstSeen > v.latest.observed then v.(firstSeen := v.latest.observed) else v
  }

  /** Everything that happens to a row that is kept. */
  function Repaired(w: WireWindow, now: int): WireWindow { Clamped(Clipped(Floored(w, now)), now) }

  // ----- the batch -----

  function Floors(now: int): WireWindow -> WireWindow { w => Floored(w, now) }
  function Clips(): WireWindow -> WireWindow { w => Clipped(w) }
  function Clamps(now: int): WireWindow -> WireWindow { w => Clamped(w, now) }
  function Stables(now: int): WireWindow -> bool { w => StableOk(w, now) }
  function Transients(now: int): WireWindow -> bool { w => TransientOk(w, now) }

  function Mapped(f: WireWindow -> WireWindow, ws: seq<WireWindow>): (r: seq<WireWindow>)
    ensures |r| == |ws| && forall i :: 0 <= i < |ws| ==> r[i] == f(ws[i])
  {
    if ws == [] then [] else Mapped(f, ws[..|ws| - 1]) + [f(ws[|ws| - 1])]
  }

  function Retained(p: WireWindow -> bool, ws: seq<WireWindow>): (r: seq<WireWindow>)
    ensures forall w :: w in r <==> w in ws && p(w)
  {
    if ws == [] then [] else
      var r, last := Retained(p, ws[..|ws| - 1]), ws[|ws| - 1];
      assert ws == ws[..|ws| - 1] + [last];
      if p(last) then r + [last] else r
  }

  /** `w` behind every row that does not end before it. */
  function Inserted(r: seq<WireWindow>, w: WireWindow): (t: seq<WireWindow>)
    ensures |t| == |r| + 1
  {
    if r == [] || r[|r| - 1].key.endMs >= w.key.endMs then r + [w] else Inserted(r[..|r| - 1], w) + [r[|r| - 1]]
  }

  /** The stable sort by descending end. */
  function NewestFirst(ws: seq<WireWindow>): (r: seq<WireWindow>)
    ensures |r| == |ws|
  {
    if ws == [] then [] else Inserted(NewestFirst(ws[..|ws| - 1]), ws[|ws| - 1])
  }

  datatype Sanitized = Sanitized(items: seq<WireWindow>, stableRejects: int, transientRejects: int, overCap: int)

  function Standing(items: seq<WireWindow>, now: int): seq<WireWindow> { Retained(Stables(now), Mapped(Floors(now), items)) }

  /** The rows that pass validation, repaired up to the final clamp. */
  function Accepted(items: seq<WireWindow>, now: int): seq<WireWindow> {
    Mapped(Clips(), Retained(Transients(now), Standing(items, now)))
  }

  function Kept(ws: seq<WireWindow>): seq<WireWindow> {
    if |ws| > MAX_WINDOW_ITEMS then NewestFirst(ws)[..MAX_WINDOW_ITEMS] else ws
  }

  function Sanitize(items: seq<WireWindow>, now: int): Sanitized {
    var standing, accepted := Standing(items, now), Accepted(items, now);
    Sanitized(Mapped(Clamps(now), Kept(accepted)),
              |items| - |standing|, |standing| - |accepted|, Max(0, |accepted| - MAX_WINDOW_ITEMS))
  }

  method UpdateEach(f: WireWindow -> WireWindow, ws: seq<WireWindow>) returns (r: seq<WireWindow>)
    ensures r == Mapped(f, ws)
  {
    r := ws;
    for i := 0 to |ws|
      invariant |r| == |ws| && forall j :: 0 <= j < |ws| ==> r[j] == if j < i then f(ws[j]) else ws[j]
    {
      r := r[i := f(r[i])];
    }
  }

  method Retain(p: WireWindow -> bool, ws: seq<WireWindow>) returns (r: seq<WireWindow>)
    ensures r == Retained(p, ws)
  {
    r := [];
    for i := 0 to |ws|
      invariant r == Retained(p, ws[..i])
    {
      assert ws[..i + 1][..i] == ws[..i];
      if p(ws[i]) { r := r + [ws[i]]; }
    }
    assert ws[..|ws|] == ws;
  }

  method SortNewestFirst(ws: seq<WireWindow>) returns (r: seq<WireWindow>)
    ensures r == NewestFirst(ws)
  {
    r := [];
    for i := 0 to |ws|
      invariant r == NewestFirst(ws[..i])
    {
      assert ws[..i + 1][..i] == ws[..i];
      r := Inserted(r, ws[i]);
    }
    assert ws[..|ws|] == ws;
  }

  /** Validate, clamp and cap one uploaded batch. */
  method SanitizeWindowBatch(batch: seq<WireWindow>, now: int) returns (s: Sanitized)
    ensures s == Sanitize(batch, now)
  {
    var items := UpdateEach(Floors(now), batch);
    var before := |items|;
    items := Retain(Stables(now), items);
    var stableRejects := before - |items|;
    var afterStable := |items|;
    items := Retain(Transients(now), items);
    var transientRejects := afterStable - |items|;
    items := UpdateEach(Clips(), items);
    var overCap := 0;
    if |items| > MAX_WINDOW_ITEMS {
      overCap := |items| - MAX_WINDOW_ITEMS;
      items := SortNewestFirst(items);
      items := items[..MAX_WINDOW_ITEMS];
    }
    items := UpdateEach(Clamps(now), items);
    s := Sanitized(items, stableRejects, transientRejects, overCap);
  }

  // ----- what the sort does -----

  ghost predicate Descending(r: seq<WireWindow>) {
    forall i, j :: 0 <= i < j < |r| ==> r[i].key.endMs >= r[j].key.endMs
  }

  /** The rows with one end, in their order. */
  function OfEnd(ws: seq<WireWindow>, end: int): seq<WireWindow> {
    if ws == [] then [] else
      var r, last := OfEnd(ws[..|ws| - 1], end), ws[|ws| - 1];
      if last.key.endMs == end then r + [last] else r
  }

  lemma {:induction false} InsertedHolds(r: seq<WireWindow>, w: WireWindow)
    ensures multiset(Inserted(r, w)) == multiset(r) + multiset{w}
  {
    var n := |r| - 1;
    if r != [] && r[n].key.endMs < w.key.endMs {
      InsertedHolds(r[..n], w);
      assert r == r[..n] + [r[n]];
    }
  }

  lemma {:induction false} InsertedDescends(r: seq<WireWindow>, w: WireWindow)
    requires Descending(r)
    ensures Descending(Inserted(r, w))
  {
    var n := |r| - 1;
    if r != [] && r[n].key.endMs < w.key.endMs {
      var t := Inserted(r[..n], w);
      InsertedDescends(r[..n], w);
      InsertedHolds(r[..n], w);
      forall i | 0 <= i < |t| ensures t[i].key.endMs >= r[n].key.endMs {
        assert t[i] in multiset(t);
      }
    }
  }

  lemma {:induction false} InsertedStable(r: seq<WireWindow>, w: WireWindow, end: int)
    ensures OfEnd(Inserted(r, w), end) == OfEnd(r + [w], end)
  {
    var n := |r| - 1;
    assert (r + [w])[..|r|] == r;
    if r != [] && r[n].key.endMs < w.key.endMs {
      InsertedStable(r[..n], w, end);
      assert (r[..n] + [w])[..n] == r[..n];
      assert (Inserted(r[..n], w) + [r[n]])[..|r|] == Inserted(r[..n], w);
    }
  }

  lemma {:induction false} NewestFirstStable(ws: seq<WireWindow>, end: int)
    ensures OfEnd(NewestFirst(ws), end) == OfEnd(ws, end)
  {
    if ws == [] {
    } else {
      var init, last := ws[..|ws| - 1], ws[|ws| - 1];
      NewestFirstStable(init, end);
      InsertedStable(NewestFirst(init), last, end);
      assert (NewestFirst(init) + [last])[..|init|] == NewestFirst(init);
    }
  }

  /** A stable sort: descending, a permutation, and rows of equal end keep their order. */
  lemma {:induction false} NewestFirstSorts(ws: seq<WireWindow>)
    ensures Descending(NewestFirst(ws)) && multiset(NewestFirst(ws)) == multiset(ws)
    ensures forall end :: OfEnd(NewestFirst(ws), end) == OfEnd(ws, end)
  {
    forall end ensures OfEnd(NewestFirst(ws), end) == OfEnd(ws, end) { NewestFirstStable(ws, end); }
    if ws == [] {
    } else {
      var init, last := ws[..|ws| - 1], ws[|ws| - 1];
      NewestFirstSorts(init);
      InsertedDescends(NewestFirst(init), last);
      InsertedHolds(NewestFirst(init), last);
      assert ws == init + [last];
    }
  }

  // ----- what the batch becomes -----

  /** Every row is accounted for once, and at most 2000 are kept. */
  lemma CountsAddUp(items: seq<WireWindow>, now: int)
    ensures var s := Sanitize(items, now);
      s.stableRejects + s.transientRejects + s.overCap + |s.items| == |items| && |s.items| <= 2000 &&
      s.stableRejects >= 0 && s.transientRejects >= 0 && s.overCap >= 0
  {
    RetainedLength(Stables(now), Mapped(Floors(now), items));
    RetainedLength(Transients(now), Standing(items, now));
  }

  /** The client is told to retry (some row was premature) exactly when waiting can help a row. */
  lemma RejectsCounted(items: seq<WireWindow>, now: int)
    ensures Sanitize(items, now).transientRejects > 0 <==>
      exists w :: w in items && StableOk(Floored(w, now), now) && !TransientOk(w, now)
    ensures Sanitize(items, now).stableRejects > 0 <==> exists w :: w in items && !StableOk(Floored(w, now), now)
  {
    var floored, standing := Mapped(Floors(now), items), Standing(items, now);
    RetainedLength(Stables(now), floored);
    RetainedLength(Transients(now), standing);
    forall w | w in items ensures Floored(w, now) in floored {
      MappedHas(Floors(now), items, w);
    }
    forall v | v in floored ensures exists w :: w in items && v == Floored(w, now) {
      var w := MappedFrom(Floors(now), items, v);
    }
  }

  lemma {:induction false} RetainedLength(p: WireWindow -> bool, ws: seq<WireWindow>)
    ensures |Retained(p, ws)| <= |ws|
    ensures |Retained(p, ws)| == |ws| <==> forall w :: w in ws ==> p(w)
    ensures (forall w :: w in ws ==> p(w)) ==> Retained(p, ws) == ws
  {
    if ws == [] {
    } else {
      RetainedLength(p, ws[..|ws| - 1]);
      assert ws == ws[..|ws| - 1] + [ws[|ws| - 1]];
    }
  }

  lemma MappedHas(f: WireWindow -> WireWindow, ws: seq<WireWindow>, w: WireWindow)
    requires w in ws
    ensures f(w) in Mapped(f, ws)
  {
  }

  lemma MappedFrom(f: WireWindow -> WireWindow, ws: seq<WireWindow>, v: WireWindow) returns (w: WireWindow)
    requires v in Mapped(f, ws)
    ensures w in ws && v == f(w)
  {
    var i :| 0 <= i < |ws| && Mapped(f, ws)[i] == v;
    w := ws[i];
  }

  /** Rows over the cap end no later than any row that is kept; together they are all the rows. */
  lemma KeptIsNewest(ws: seq<WireWindow>) returns (over: seq<WireWindow>)
    ensures multiset(Kept(ws)) + multiset(over) == multiset(ws)
    ensures forall k, o :: k in Kept(ws) && o in over ==> k.key.endMs >= o.key.endMs
    ensures |Kept(ws)| < 2000 ==> over == []
  {
    over := [];
    if |ws| > MAX_WINDOW_ITEMS {
      NewestFirstSorts(ws);
      var sorted := NewestFirst(ws);
      over := sorted[MAX_WINDOW_ITEMS..];
      assert sorted == sorted[..MAX_WINDOW_ITEMS] + over;
      DescendingSplit(sorted, MAX_WINDOW_ITEMS);
    }
  }

  lemma DescendingSplit(r: seq<WireWindow>, n: nat)
    requires Descending(r) && n <= |r|
    ensures forall k, o :: k in r[..n] && o in r[n..] ==> k.key.endMs >= o.key.endMs
  {
  }

  /** A row of the batch that validation lets through. */
  predicate Passes(w: WireWindow, now: int) { StableOk(Floored(w, now), now) && TransientOk(w, now) }

  /** What is accepted are exactly the rows that pass, with their repairs. */
  lemma AcceptedFrom(items: seq<WireWindow>, now: int, v: WireWindow) returns (w: WireWindow)
    requires v in Accepted(items, now)
    ensures w in items && Passes(w, now) && v == Clipped(Floored(w, now))
  {
    var u := MappedFrom(Clips(), Retained(Transients(now), Standing(items, now)), v);
    w := MappedFrom(Floors(now), items, u);
  }

  lemma AcceptedHas(items: seq<WireWindow>, now: int, w: WireWindow)
    requires w in items && Passes(w, now)
    ensures Clipped(Floored(w, now)) in Accepted(items, now)
  {
    MappedHas(Floors(now), items, w);
    MappedHas(Clips(), Retained(Transients(now), Standing(items, now)), Floored(w, now));
  }

  /** Every stored row is the repair of a row that passed. */
  lemma KeptFrom(items: seq<WireWindow>, now: int, v: WireWindow) returns (w: WireWindow)
    requires v in Sanitize(items, now).items
    ensures w in items && Passes(w, now) && v == Repaired(w, now)
  {
    var u := MappedFrom(Clamps(now), Kept(Accepted(items, now)), v);
    KeptAreRows(Accepted(items, now), u);
    w := AcceptedFrom(items, now, u);
  }

  lemma KeptAreRows(ws: seq<WireWindow>, u: WireWindow)
    requires u in Kept(ws)
    ensures u in ws
  {
    NewestFirstSorts(ws);
    assert u in ws || u in multiset(NewestFirst(ws));
  }

  lemma KeptOrOlder(ws: seq<WireWindow>, u: WireWindow)
    requires u in ws && u !in Kept(ws)
    ensures |Kept(ws)| == MAX_WINDOW_ITEMS && forall k :: k in Kept(ws) ==> k.key.endMs >= u.key.endMs
  {
    var over := KeptIsNewest(ws);
    assert u in multiset(ws);
    assert u in over;
  }

  /** A row that passes is kept, unless the cap is reached by rows that end no earlier. */
  lemma PassingRowKept(items: seq<WireWindow>, now: int, w: WireWindow)
    requires w in items && Passes(w, now)
    ensures var kept := Sanitize(items, now).items;
      Repaired(w, now) in kept || (|kept| == MAX_WINDOW_ITEMS && forall k :: k in kept ==> k.key.endMs >= w.key.endMs)
  {
    AcceptedHas(items, now, w);
    var u, kept := Clipped(Floored(w, now)), Kept(Accepted(items, now));
    if u in kept {
      MappedHas(Clamps(now), kept, u);
    } else {
      KeptOrOlder(Accepted(items, now), u);
      forall k | k in Sanitize(items, now).items ensures k.key.endMs >= w.key.endMs {
        var k' := MappedFrom(Clamps(now), kept, k);
      }
    }
  }

  // ----- the limits in numbers -----

  /** At most 64 bytes of UTF-8 without C0, DEL or C1 control characters. */
  ghost predicate PlainText(s: bytes) {
    |s| <= 64 && (forall i :: 0 <= i < |s| ==> 0x1F < s[i] && s[i] != 0x7F) &&
    forall i :: 0 < i < |s| && s[i - 1] == 0xC2 ==> s[i] < 0x80 || s[i] > 0x9F
  }

  /** What no clock but the two-year floor can change about a row. */
  ghost predicate WellFormed(w: WireWindow, now: int) {
    PlainText(w.key.limit) && PlainText(w.key.account) && PlainText(w.latest.plan) &&
    w.key.kind in {0, 1} && 1 <= w.latest.minutes <= 44_640 && w.limitReached in {0, 1, 2} && w.fraction <= 1_000 &&
    w.latest.sampleGap >= -86_400_000 && w.firstSeen >= 0 &&
    (w.firstSeen > w.latest.observed && w.firstSeen > 0 ==> w.firstSeen <= now - 63_072_000_000) &&
    w.key.endMs > now - 63_072_000_000 && w.latest.rawResets > now - 63_072_000_000
  }

  /** The window ends within 40 days and resets within 41. */
  predicate NotPremature(w: WireWindow, now: int) {
    w.key.endMs < now + 3_456_000_000 && w.latest.rawResets < now + 3_542_400_000
  }

  /** The observation time is brought to between two years before the clock and a minute after it,
      the first-seen time to no later than that, the active time to no more than the window. */
  function Adjusted(w: WireWindow, now: int): WireWindow {
    var observed := Min(Max(w.latest.observed, now - 63_072_000_000), now + 60_000);
    w.(latest := w.latest.(observed := observed), firstSeen := Min(w.firstSeen, observed), activeMs := Min(w.activeMs, w.latest.minutes * 60_000))
  }

  lemma TextLimits(s: bytes)
    ensures StringOk(s) <==> PlainText(s)
  {
    if !PlainText(s) && |s| <= 64 {
      if i :| 0 <= i < |s| && !(0x1F < s[i] && s[i] != 0x7F) {
        assert HasControl(s);
      } else {
        var i :| 0 < i < |s| && s[i - 1] == 0xC2 && !(s[i] < 0x80 || s[i] > 0x9F);
        assert s[i - 1] == 0xC2 && i - 1 + 1 < |s|;
      }
    }
  }

  lemma LimitsExact(w: WireWindow, now: int)
    ensures StableOk(Floored(w, now), now) <==> WellFormed(w, now)
    ensures TransientOk(w, now) <==> NotPremature(w, now)
    ensures Repaired(w, now) == Adjusted(w, now)
  {
    TextLimits(w.key.limit);
    TextLimits(w.key.account);
    TextLimits(w.latest.plan);
  }

  /** Kept are, adjusted, exactly the rows within the limits, but for those past the cap, which end no
      later than any row that is kept. */
  lemma KeptExactly(items: seq<WireWindow>, now: int)
    ensures var kept := Sanitize(items, now).items;
      forall v :: v in kept ==> exists w :: w in items && WellFormed(w, now) && NotPremature(w, now) && v == Adjusted(w, now)
    ensures var kept := Sanitize(items, now).items;
      forall w :: w in items && WellFormed(w, now) && NotPremature(w, now) ==>
        Adjusted(w, now) in kept || (|kept| == 2000 && forall k :: k in kept ==> k.key.endMs >= w.key.endMs)
  {
    var kept := Sanitize(items, now).items;
    forall v | v in kept ensures exists w :: w in items && WellFormed(w, now) && NotPremature(w, now) && v == Adjusted(w, now) {
      var w := KeptFrom(items, now, v);
      LimitsExact(w, now);
    }
    forall w | w in items && WellFormed(w, now) && NotPremature(w, now)
      ensures Adjusted(w, now) in kept || (|kept| == 2000 && forall k :: k in kept ==> k.key.endMs >= w.key.endMs)
    {
      LimitsExact(w, now);
      PassingRowKept(items, now, w);
    }
  }

  ghost function Places(ws: seq<WireWindow>, p: WireWindow -> bool): set<int> { set i | 0 <= i < |ws| && p(ws[i]) }

  lemma PlacesSnoc(ws: seq<WireWindow>, w: WireWindow, p: WireWindow -> bool)
    ensures |Places(ws + [w], p)| == |Places(ws, p)| + if p(w) then 1 else 0
  {
    var all := ws + [w];
    assert forall i :: 0 <= i < |ws| ==> all[i] == ws[i];
    assert Places(all, p) == if p(w) then Places(ws, p) + {|ws|} else Places(ws, p);
  }

  /** The counters: how many rows are malformed, and how many of the others premature. */
  lemma RejectsExact(items: seq<WireWindow>, now: int)
    ensures Sanitize(items, now).stableRejects == |Places(items, w => !WellFormed(w, now))|
    ensures Sanitize(items, now).transientRejects == |Places(items, w => WellFormed(w, now) && !NotPremature(w, now))|
  {
    forall w ensures (StableOk(Floored(w, now), now) <==> WellFormed(w, now)) && (TransientOk(w, now) <==> NotPremature(w, now)) {
      LimitsExact(w, now);
    }
    RejectsPlaced(items, now, w => !WellFormed(w, now), w => WellFormed(w, now) && !NotPremature(w, now));
  }

  lemma {:induction false} RejectsPlaced(items: seq<WireWindow>, now: int, bad: WireWindow -> bool, late: WireWindow -> bool)
    requires forall w :: bad(w) <==> !StableOk(Floored(w, now), now)
    requires forall w :: late(w) <==> StableOk(Floored(w, now), now) && !TransientOk(w, now)
    ensures |items| - |Standing(items, now)| == |Places(items, bad)|
    ensures |Standing(items, now)| - |Accepted(items, now)| == |Places(items, late)|
  {
    if items == [] {
    } else {
      var init, w := items[..|items| - 1], items[|items| - 1];
      assert items == init + [w];
      RejectsPlaced(init, now, bad, late);
      StandingSnoc(init, w, now);
      AcceptedSnoc(init, w, now);
      PlacesSnoc(init, w, bad);
      PlacesSnoc(init, w, late);
    }
  }

  /** Dated within reach of the server's clock, first seen before it was last observed, and not
      active for longer than it lasts. */
  predicate InBounds(v: WireWindow, now: int) {
    now - TWO_YEARS <= v.latest.observed <= now + 60_000 && v.firstSeen <= v.latest.observed && Capped(v) &&
    (now >= TWO_YEARS ==> v.firstSeen >= 0)
  }

  lemma RepairedInBounds(w: WireWindow, now: int)
    requires Passes(w, now)
    ensures InBounds(Repaired(w, now), now)
  {
  }

  /** Every stored row is in bounds. */
  lemma KeptRowsInBounds(items: seq<WireWindow>, now: int)
    ensures forall v :: v in Sanitize(items, now).items ==> InBounds(v, now)
  {
    forall v | v in Sanitize(items, now).items ensures InBounds(v, now) {
      var w := KeptFrom(items, now, v);
      RepairedInBounds(w, now);
    }
  }

  /** A repaired row passes again at the same clock, unchanged, exactly when its observation time
      is not negative: first-seen 0 ("unknown") would otherwise be pulled below zero. */
  lemma RepairedPassesAgain(w: WireWindow, now: int)
    requires Passes(w, now)
    ensures Passes(Repaired(w, now), now) && Repaired(Repaired(w, now), now) == Repaired(w, now)
        <==> Repaired(w, now).latest.observed >= 0
  {
  }

  /** Sanitising a sanitised batch at the same clock changes nothing and rejects nothing, if and
      only if no kept row was observed before 1970 — as is the case from 1972 on. */
  lemma SanitizeTwice(items: seq<WireWindow>, now: int)
    ensures var once := Sanitize(items, now).items;
      Sanitize(once, now) == Sanitized(once, 0, 0, 0) <==> forall v :: v in once ==> v.latest.observed >= 0
    ensures now >= TWO_YEARS ==> var once := Sanitize(items, now).items; Sanitize(once, now) == Sanitized(once, 0, 0, 0)
  {
    var once := Sanitize(items, now).items;
    assert |once| <= MAX_WINDOW_ITEMS by { CountsAddUp(items, now); }
    KeptRowsInBounds(items, now);
    if forall v :: v in once ==> v.latest.observed >= 0 {
      forall v | v in once ensures Settled(v, now) {
        var w := KeptFrom(items, now, v);
        RepairedSettled(w, now);
      }
      SettledStays(once, now);
    }
    if Sanitize(once, now).stableRejects == 0 { NoneRejectedForGood(once, now); }
  }

  lemma NoneRejectedForGood(ws: seq<WireWindow>, now: int)
    requires Sanitize(ws, now).stableRejects == 0 && forall v :: v in ws ==> InBounds(v, now)
    ensures forall v :: v in ws ==> v.latest.observed >= 0
  {
    RejectsCounted(ws, now);
    forall v | v in ws ensures v.latest.observed >= 0 {
      assert StableOk(Floored(v, now), now);
    }
  }

  lemma RepairedSettled(w: WireWindow, now: int)
    requires Passes(w, now) && Repaired(w, now).latest.observed >= 0
    ensures Settled(Repaired(w, now), now)
  {
    RepairedPassesAgain(w, now);
  }

  /** Nothing is left to repair in the row, and nothing to reject. */
  predicate Settled(v: WireWindow, now: int) {
    Passes(v, now) && Floored(v, now) == v && Clipped(v) == v && Clamped(v, now) == v
  }

  lemma SettledStays(ws: seq<WireWindow>, now: int)
    requires |ws| <= MAX_WINDOW_ITEMS && forall v :: v in ws ==> Settled(v, now)
    ensures Sanitize(ws, now) == Sanitized(ws, 0, 0, 0)
  {
    MappedSame(Floors(now), ws);
    RetainedLength(Stables(now), ws);
    RetainedLength(Transients(now), ws);
    MappedSame(Clips(), ws);
    MappedSame(Clamps(now), ws);
  }

  lemma MappedSame(f: WireWindow -> WireWindow, ws: seq<WireWindow>)
    requires forall w :: w in ws ==> f(w) == w
    ensures Mapped(f, ws) == ws
  {
  }

  // ----- the same batch at a later clock -----

  /** A row is repaired alike at a later clock exactly when neither clock's bounds touch its
      observation time. */
  lemma RepairedAlike(w: WireWindow, now: int, later: int)
    requires now < later && Passes(w, now)
    ensures Repaired(w, now) == Repaired(w, later) <==> later - TWO_YEARS <= w.latest.observed <= now + 60_000
  {
  }

  /** The row gets the same verdict at both clocks and, if it passes, the same repairs. */
  predicate Steady(w: WireWindow, now: int, later: int) {
    (Passes(w, now) <==> Passes(w, later)) && (Passes(w, now) ==> later - TWO_YEARS <= w.latest.observed <= now + 60_000)
  }

  lemma MappedSnoc(f: WireWindow -> WireWindow, ws: seq<WireWindow>, w: WireWindow)
    ensures Mapped(f, ws + [w]) == Mapped(f, ws) + [f(w)]
  {
    assert (ws + [w])[..|ws|] == ws;
  }

  lemma StandingSnoc(items: seq<WireWindow>, w: WireWindow, now: int)
    ensures Standing(items + [w], now) ==
      if StableOk(Floored(w, now), now) then Standing(items, now) + [Floored(w, now)] else Standing(items, now)
  {
    MappedSnoc(Floors(now), items, w);
    RetainedSnoc(Stables(now), Mapped(Floors(now), items), Floored(w, now));
  }

  lemma AcceptedSnoc(items: seq<WireWindow>, w: WireWindow, now: int)
    ensures Accepted(items + [w], now) ==
      if Passes(w, now) then Accepted(items, now) + [Clipped(Floored(w, now))] else Accepted(items, now)
  {
    var st, u := Standing(items, now), Floored(w, now);
    StandingSnoc(items, w, now);
    if StableOk(u, now) {
      RetainedSnoc(Transients(now), st, u);
      MappedSnoc(Clips(), Retained(Transients(now), st), u);
    }
  }

  lemma RetainedSnoc(p: WireWindow -> bool, ws: seq<WireWindow>, w: WireWindow)
    ensures Retained(p, ws + [w]) == if p(w) then Retained(p, ws) + [w] else Retained(p, ws)
  {
    assert (ws + [w])[..|ws|] == ws;
  }

  lemma {:induction false} AcceptedSteady(items: seq<WireWindow>, now: int, later: int)
    requires now <= later && forall w :: w in items ==> Steady(w, now, later)
    ensures Accepted(items, now) == Accepted(items, later)
  {
    if items == [] {
    } else {
      var init, w := items[..|items| - 1], items[|items| - 1];
      assert items == init + [w] && w in items && forall x :: x in init ==> x in items;
      AcceptedSteady(init, now, later);
      AcceptedSnoc(init, w, now);
      AcceptedSnoc(init, w, later);
    }
  }

  /** A batch whose rows are steady is sanitised alike at both clocks. */
  lemma SanitizeSteady(items: seq<WireWindow>, now: int, later: int)
    requires now <= later && forall w :: w in items ==> Steady(w, now, later)
    ensures Sanitize(items, now).items == Sanitize(items, later).items
  {
    AcceptedSteady(items, now, later);
    var kept := Kept(Accepted(items, now));
    forall v | v in kept ensures Clamped(v, now) == Clamped(v, later) {
      KeptAreRows(Accepted(items, now), v);
      var w := AcceptedFrom(items, now, v);
    }
    assert forall i :: 0 <= i < |kept| ==> kept[i] in kept;
    assert Mapped(Clamps(now), kept) == Mapped(Clamps(later), kept);
  }

  // ----- what the two reject classes promise -----

  /** A row rejected as permanent is accepted by the stable check at some later clock exactly when
      its only fault was a first-seen time after its observation and it ends after that time. So
      the class is permanent but for that family, which the rising floor revives. */
  lemma StableRejectRevives(w: WireWindow, now: int)
    requires !StableOk(Floored(w, now), now)
    ensures (exists later :: later >= now && StableOk(Floored(w, later), later))
        <==> (Timeless(w) && Recent(w, now) && w.firstSeen < w.key.endMs && w.firstSeen < w.latest.rawResets)
    ensures forall later :: now <= later < w.firstSeen + TWO_YEARS ==> !StableOk(Floored(w, later), later)
    ensures forall later :: later >= now && !(Timeless(w) && Recent(w, now)) ==> !StableOk(Floored(w, later), later)
  {
    assert forall later :: TimelessKept(w, later);
    var t := w.firstSeen + TWO_YEARS;
    assert TimelessKept(w, t) && TimelessKept(w, now);
    if Timeless(w) && Recent(w, now) && w.firstSeen < w.key.endMs && w.firstSeen < w.latest.rawResets {
      assert t >= now && StableOk(Floored(w, t), t);
    }
  }

  /** The failing row: first seen five milliseconds after it was observed, it is rejected for good
      now and accepted two years on. */
  lemma RejectedForGoodRevives()
    ensures exists w, now, later :: now < later && !StableOk(Floored(w, now), now) && StableOk(Floored(w, later), later)
  {
    var w := WireWindow(WindowKey(0, [], [], 1_000), Latest(5, 1_000, 0, 0, 300, []), 0, 10, false, false, 0, -1, 0, 0, 0);
    var later := 10 + TWO_YEARS;
    assert !StableOk(Floored(w, 0), 0) && StableOk(Floored(w, later), later);
  }

  predicate TimelessKept(w: WireWindow, now: int) {
    Timeless(Floored(w, now)) == Timeless(w)
  }

  /** Once a row meets the stable check, only age can make it fail again. */
  lemma PassesLater(w: WireWindow, now: int, later: int)
    requires StableOk(Floored(w, now), now) && later >= now
    ensures StableOk(Floored(w, later), later) <==> Recent(w, later)
  {
  }

  /** A row rejected as premature is accepted at some later clock exactly when its end and its raw
      reset time are close enough for one instant to suit both; until it is accepted it is never
      rejected as permanent, so the client keeps retrying it. */
  lemma TransientRejectArrives(w: WireWindow, now: int)
    requires StableOk(Floored(w, now), now) && !TransientOk(w, now)
    ensures (exists later :: later > now && Passes(w, later))
        <==> w.latest.rawResets - w.key.endMs <= TWO_YEARS + 41 * DAY - 2 && w.key.endMs - w.latest.rawResets <= TWO_YEARS + 40 * DAY - 2
    ensures forall later, t :: now <= t <= later && Passes(w, later) ==> StableOk(Floored(w, t), t)
  {
    forall later | later >= now ensures StableOk(Floored(w, later), later) <==> Recent(w, later) {
      PassesLater(w, now, later);
    }
    var t := Max(w.key.endMs - 40 * DAY + 1, w.latest.rawResets - 41 * DAY + 1);
    assert t > now && TransientOk(w, t);
    if Recent(w, t) {
      assert Passes(w, t);
    }
  }
}
