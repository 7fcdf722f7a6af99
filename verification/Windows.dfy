// Rate-limit windows and the field-wise merge that every store applies to them.
module Windows {
  import opened ByteStrings

  /** Which window a snapshot describes, within one user and provider. */
  datatype WindowKey = WindowKey(kind: byte, limit: bytes, account: bytes, endMs: i64)

  /** The fields that travel with the newest observation. */
  datatype Latest = Latest(observed: int, rawResets: int, sampleGap: int, lastPct: nat, minutes: nat, plan: bytes)

  datatype WireWindow = WireWindow(
    key: WindowKey,
    latest: Latest,
    peak: nat,
    firstSeen: int,
    finalized: bool,
    maxedOut: bool,
    limitReached: nat,
    timeTo100: int,
    activeMs: nat,
    fraction: nat,
    samples: nat)

  /** The window's own length, which bounds its active time. */
  function Cap(minutes: nat): nat { minutes * 60_000 }

  predicate Capped(w: WireWindow) { w.activeMs <= Cap(w.latest.minutes) }

  function Max(a: int, b: int): int { if a >= b then a else b }

  function Min(a: int, b: int): int { if a <= b then a else b }

  /** The earlier of two instants where `absent` stands for none. */
  function Earlier(a: int, b: int, absent: int): int {
    if a == absent then b else if b == absent then a else Min(a, b)
  }

  function EarlierSeen(prev: int, other: int): int {
    if other > 0 then (if prev > 0 then Min(prev, other) else other) else prev
  }

  /** What `merge_wire_windows` makes of a stored row and an observation. */
  function Merge(p: WireWindow, o: WireWindow): WireWindow {
    var latest := if o.latest.observed >= p.latest.observed then o.latest else p.latest;
    WireWindow(p.key, latest, Max(p.peak, o.peak), EarlierSeen(p.firstSeen, o.firstSeen),
               p.finalized || o.finalized, p.maxedOut || o.maxedOut, Max(p.limitReached, o.limitReached),
               Earlier(p.timeTo100, o.timeTo100, -1),
               Min(Max(p.activeMs, o.activeMs), Cap(latest.minutes)),
               Max(p.fraction, o.fraction), Max(p.samples, o.samples))
  }

  /** The merge, one field after another. */
  method MergeWireWindows(prev: WireWindow, other: WireWindow) returns (w: WireWindow)
    ensures w == Merge(prev, other)
    ensures w.peak >= prev.peak && w.limitReached >= prev.limitReached
    ensures (prev.finalized ==> w.finalized) && (prev.maxedOut ==> w.maxedOut)
    ensures w.key == prev.key && w.activeMs <= w.latest.minutes * 60_000
  {
    w := prev;
    w := w.(peak := Max(w.peak, other.peak));
    if other.latest.observed >= w.latest.observed {
      w := w.(latest := other.latest);
    }
    if other.firstSeen > 0 {
      w := w.(firstSeen := if w.firstSeen > 0 then Min(w.firstSeen, other.firstSeen) else other.firstSeen);
    }
    w := w.(finalized := w.finalized || other.finalized);
    w := w.(maxedOut := w.maxedOut || other.maxedOut);
    w := w.(limitReached := Max(w.limitReached, other.limitReached));
    w := w.(timeTo100 := Earlier(w.timeTo100, other.timeTo100, -1));
    w := w.(activeMs := Max(w.activeMs, other.activeMs));
    var cap := Cap(w.latest.minutes);
    if w.activeMs > cap {
      w := w.(activeMs := cap);
    }
    w := w.(fraction := Max(w.fraction, other.fraction));
    w := w.(samples := Max(w.samples, other.samples));
  }

  // ----- laws of the merge -----

  /** Merging the same observation a second time changes nothing, whatever row is stored. */
  lemma MergeAbsorbs(p: WireWindow, o: WireWindow)
    ensures Merge(Merge(p, o), o) == Merge(p, o)
  {
  }

  /** A row absorbs itself exactly when its active time respects the window length. */
  lemma MergeSelf(w: WireWindow)
    ensures Merge(w, w) == w <==> Capped(w)
  {
  }

  /** An observation changes nothing in a row exactly when no field of it goes beyond the row's. */
  lemma MergeUnchanged(r: WireWindow, o: WireWindow)
    ensures Merge(r, o) == r <==>
      (o.latest.observed >= r.latest.observed ==> o.latest == r.latest) &&
      o.peak <= r.peak && o.limitReached <= r.limitReached && o.fraction <= r.fraction && o.samples <= r.samples &&
      (o.finalized ==> r.finalized) && (o.maxedOut ==> r.maxedOut) &&
      (o.firstSeen > 0 ==> 0 < r.firstSeen <= o.firstSeen) &&
      (o.timeTo100 != -1 ==> r.timeTo100 != -1 && r.timeTo100 <= o.timeTo100) &&
      Capped(r) && (o.activeMs > r.activeMs ==> r.activeMs == Cap(r.latest.minutes))
  {
  }

  /** Two observations of one window merge alike in either order exactly when their newest-wins
      fields agree whenever they were observed at the same instant — and, if neither knows when the
      window was first seen, they say so alike. */
  lemma MergeCommutes(a: WireWindow, b: WireWindow)
    requires a.key == b.key
    ensures Merge(a, b) == Merge(b, a) <==>
      (a.latest.observed == b.latest.observed ==> a.latest == b.latest) &&
      (a.firstSeen > 0 || b.firstSeen > 0 || a.firstSeen == b.firstSeen)
  {
  }

  /** Observations that disagree about the window's length do not converge: the cap of an
      intermediate row cuts active time that a longer window would have kept. */
  lemma LengthsMustAgree()
    ensures exists a: WireWindow, b: WireWindow, c: WireWindow ::
      a.key == b.key == c.key && Capped(a) && Capped(b) && Capped(c) &&
      a.latest.observed < b.latest.observed < c.latest.observed &&
      Merge(Merge(a, b), c) != Merge(Merge(a, c), b)
  {
    var key := WindowKey(0, [], [], 0);
    var a := WireWindow(key, Latest(1, 0, 0, 0, 300, []), 0, 0, false, false, 0, -1, 18_000_000, 0, 0);
    var b := a.(latest := Latest(2, 0, 0, 0, 10, []), activeMs := 0);
    var c := a.(latest := Latest(3, 0, 0, 0, 300, []), activeMs := 0);
    assert Merge(Merge(a, b), c).activeMs == 600_000 && Merge(Merge(a, c), b).activeMs == 18_000_000;
  }
}
