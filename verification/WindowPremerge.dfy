// Collapsing the duplicates inside one uploaded batch: sort by identity, merge neighbours.
module WindowPremerge {
  import opened ByteStrings
  import opened Windows
  import opened WindowConvergence

  /** The order the batch is sorted by: kind, limit, account, end. */
  predicate KeyLess(a: WindowKey, b: WindowKey) {
    a.kind < b.kind || (a.kind == b.kind &&
      (LexLess(a.limit, b.limit) || (a.limit == b.limit &&
        (LexLess(a.account, b.account) || (a.account == b.account && a.endMs < b.endMs)))))
  }

  lemma KeyOrder(a: WindowKey, b: WindowKey)
    ensures a == b || KeyLess(a, b) || KeyLess(b, a)
    ensures !(KeyLess(a, b) && (a == b || KeyLess(b, a)))
  {
    LexTotal(a.limit, b.limit);
    LexTotal(a.account, b.account);
  }

  lemma KeyOrderTransitive(a: WindowKey, b: WindowKey, c: WindowKey)
    requires !KeyLess(b, a) && !KeyLess(c, b)
    ensures !KeyLess(c, a)
  {
    KeyOrder(a, b);
    KeyOrder(b, c);
    KeyOrder(a, c);
    if KeyLess(a, b) && KeyLess(b, c) {
      if a.kind == b.kind == c.kind {
        if LexLess(a.limit, b.limit) && LexLess(b.limit, c.limit) { LexTransitive(a.limit, b.limit, c.limit); }
        if LexLess(a.account, b.account) && LexLess(b.account, c.account) { LexTransitive(a.account, b.account, c.account); }
      }
      assert KeyLess(a, c);
    }
  }

  ghost predicate SortedByKey(ws: seq<WireWindow>) {
    forall i, j :: 0 <= i < j < |ws| ==> !KeyLess(ws[j].key, ws[i].key)
  }

  /** The library sort: some order of the items that respects the comparison. */
  method SortByKey(items: seq<WireWindow>) returns (r: seq<WireWindow>)
    ensures SortedByKey(r) && (forall w :: w in r <==> w in items) && |r| == |items|
  {
    r := [];
    for i := 0 to |items|
      invariant SortedByKey(r) && (forall w :: w in r <==> w in items[..i]) && |r| == i
    {
      var w := items[i];
      var at: nat := |r|;
      while at > 0 && KeyLess(w.key, r[at - 1].key)
        invariant at <= |r| && forall j :: at <= j < |r| ==> KeyLess(w.key, r[j].key)
      {
        at := at - 1;
      }
      InsertKeepsSorted(r, at, w);
      assert items[..i + 1] == items[..i] + [w];
      r := r[..at] + [w] + r[at..];
    }
    assert items[..|items|] == items;
  }

  lemma InsertKeepsSorted(r: seq<WireWindow>, at: nat, w: WireWindow)
    requires SortedByKey(r) && at <= |r| && (at > 0 ==> !KeyLess(w.key, r[at - 1].key))
    requires forall j :: at <= j < |r| ==> KeyLess(w.key, r[j].key)
    ensures SortedByKey(r[..at] + [w] + r[at..])
    ensures forall x :: x in r[..at] + [w] + r[at..] <==> x in r || x == w
  {
    assert r == r[..at] + r[at..];
    forall j | 0 <= j < at ensures !KeyLess(w.key, r[j].key) {
      KeyOrder(r[at - 1].key, r[at - 1].key);
      KeyOrderTransitive(r[j].key, r[at - 1].key, w.key);
    }
    forall j | at <= j < |r| ensures !KeyLess(r[j].key, w.key) {
      KeyOrder(r[j].key, w.key);
    }
  }

  function OfKey(ws: seq<WireWindow>, key: WindowKey): set<WireWindow> { set w | w in ws && w.key == key }

  /** `w` is some merging of exactly these observations. */
  ghost predicate MergesAll(w: WireWindow, ws: set<WireWindow>) {
    exists m :: Result(m) == w && Observations(m) == ws
  }

  /** One row per identity in the batch, each a merging of all of its duplicates. */
  ghost predicate Premerged(items: seq<WireWindow>, out: seq<WireWindow>) {
    (forall i, j :: 0 <= i < j < |out| ==> out[i].key != out[j].key) &&
    (forall i :: 0 <= i < |out| ==> MergesAll(out[i], OfKey(items, out[i].key))) &&
    (forall w :: w in items ==> exists i :: 0 <= i < |out| && out[i].key == w.key)
  }

  method PremergeWindows(items: seq<WireWindow>) returns (merged: seq<WireWindow>)
    ensures Premerged(items, merged)
  {
    var sorted := SortByKey(items);
    merged := [];
    for i := 0 to |sorted|
      invariant Premerged(sorted[..i], merged) && (merged == [] <==> i == 0)
      invariant i > 0 ==> merged[|merged| - 1].key == sorted[i - 1].key
    {
      var w := sorted[i];
      assert sorted[..i + 1] == sorted[..i] + [w];
      if |merged| > 0 && merged[|merged| - 1].key == w.key {
        var last := MergeWireWindows(merged[|merged| - 1], w);
        PremergeDuplicate(sorted[..i], merged, w);
        merged := merged[..|merged| - 1] + [last];
      } else {
        NewIdentity(sorted, i, merged);
        PremergeFresh(sorted[..i], merged, w);
        merged := merged + [w];
      }
    }
    assert sorted[..|sorted|] == sorted;
    assert forall key :: OfKey(sorted, key) == OfKey(items, key);
  }

  /** In a sorted batch, an item whose neighbour has another identity is the first of its own. */
  lemma NewIdentity(sorted: seq<WireWindow>, i: nat, merged: seq<WireWindow>)
    requires SortedByKey(sorted) && i < |sorted| && (i > 0 ==> sorted[i - 1].key != sorted[i].key)
    requires Premerged(sorted[..i], merged)
    ensures OfKey(sorted[..i], sorted[i].key) == {}
  {
    forall j | 0 <= j < i ensures sorted[j].key != sorted[i].key {
      KeyOrder(sorted[i - 1].key, sorted[i].key);
      if j < i - 1 {
        KeyOrder(sorted[j].key, sorted[i - 1].key);
      }
    }
  }

  lemma PremergeFresh(items: seq<WireWindow>, out: seq<WireWindow>, w: WireWindow)
    requires Premerged(items, out) && OfKey(items, w.key) == {}
    ensures Premerged(items + [w], out + [w])
  {
    var all, r := items + [w], out + [w];
    forall i | 0 <= i < |r| ensures MergesAll(r[i], OfKey(all, r[i].key)) && (i < |out| ==> r[i].key != w.key) {
      if i < |out| {
        assert MergesAll(out[i], OfKey(items, out[i].key));
        MergesSome(out[i], OfKey(items, out[i].key));
        assert OfKey(all, r[i].key) == OfKey(items, r[i].key);
      } else {
        assert OfKey(all, w.key) == {w};
        assert Result(Observed(w)) == w && Observations(Observed(w)) == {w};
      }
    }
    forall x | x in all ensures exists i :: 0 <= i < |r| && r[i].key == x.key {
      if x in items {
        var i :| 0 <= i < |out| && out[i].key == x.key;
        assert r[i].key == x.key;
      } else {
        assert r[|out|].key == x.key;
      }
    }
  }

  lemma MergesSome(w: WireWindow, ws: set<WireWindow>)
    requires MergesAll(w, ws)
    ensures ws != {}
  {
    var m :| Result(m) == w && Observations(m) == ws;
    ObservationsExist(m);
  }

  lemma PremergeDuplicate(items: seq<WireWindow>, out: seq<WireWindow>, w: WireWindow)
    requires Premerged(items, out) && out != [] && out[|out| - 1].key == w.key
    ensures Premerged(items + [w], out[..|out| - 1] + [Merge(out[|out| - 1], w)])
  {
    var n := |out| - 1;
    var all, r := items + [w], out[..n] + [Merge(out[n], w)];
    forall i | 0 <= i < |r| ensures MergesAll(r[i], OfKey(all, r[i].key)) {
      assert MergesAll(out[i], OfKey(items, out[i].key));
      if i < n {
        OtherKey(items, w, out[i].key);
      } else {
        OneMoreMerged(items, out[n], w);
      }
    }
    SameKeysCovered(items, out, r, w);
  }

  lemma OtherKey(items: seq<WireWindow>, w: WireWindow, key: WindowKey)
    requires w.key != key
    ensures OfKey(items + [w], key) == OfKey(items, key)
  {
  }

  lemma OneMoreMerged(items: seq<WireWindow>, last: WireWindow, w: WireWindow)
    requires last.key == w.key && MergesAll(last, OfKey(items, w.key))
    ensures MergesAll(Merge(last, w), OfKey(items + [w], w.key))
  {
    var m :| Result(m) == last && Observations(m) == OfKey(items, w.key);
    var m' := Merged(m, Observed(w));
    assert OfKey(items + [w], w.key) == OfKey(items, w.key) + {w};
    assert Result(m') == Merge(last, w);
    assert Observations(m') == Observations(m) + Observations(Observed(w)) == OfKey(items, w.key) + {w};
  }

  lemma SameKeysCovered(items: seq<WireWindow>, out: seq<WireWindow>, r: seq<WireWindow>, w: WireWindow)
    requires forall x :: x in items ==> exists i :: 0 <= i < |out| && out[i].key == x.key
    requires |r| == |out| > 0 && (forall i :: 0 <= i < |r| ==> r[i].key == out[i].key) && r[|r| - 1].key == w.key
    ensures forall x :: x in items + [w] ==> exists i :: 0 <= i < |r| && r[i].key == x.key
  {
    forall x | x in items + [w] ensures exists i :: 0 <= i < |r| && r[i].key == x.key {
      if x in items {
        var i :| 0 <= i < |out| && out[i].key == x.key;
        assert r[i].key == x.key;
      } else {
        assert r[|r| - 1].key == x.key;
      }
    }
  }
}
