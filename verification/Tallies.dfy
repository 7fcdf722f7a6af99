// Exact per-key sums of a sequence of items, of which each belongs to at most one key.
module Tallies {
  import opened Options
  import opened Sums

  /** The amounts of the items that belong to `k`. */
  ghost function Tally<E(!new), K(!new)>(items: seq<E>, slot: E -> Option<K>, amount: E -> nat, k: K): nat {
    if items == [] then 0 else
      var e := items[|items| - 1];
      Tally(items[..|items| - 1], slot, amount, k) + if slot(e) == Some(k) then amount(e) else 0
  }

  function Singleton<K>(o: Option<K>): set<K> { if o.Some? then {o.value} else {} }

  /** The keys that occur. */
  ghost function Slots<E(!new), K(!new)>(items: seq<E>, slot: E -> Option<K>): set<K> {
    if items == [] then {} else
      Slots(items[..|items| - 1], slot) + Singleton(slot(items[|items| - 1]))
  }

  /** The amounts of all items that belong to some key. */
  ghost function Everything<E(!new), K(!new)>(items: seq<E>, slot: E -> Option<K>, amount: E -> nat): nat {
    if items == [] then 0 else
      var e := items[|items| - 1];
      Everything(items[..|items| - 1], slot, amount) + if slot(e).Some? then amount(e) else 0
  }

  lemma Snoc<E(!new), K(!new)>(items: seq<E>, e: E, slot: E -> Option<K>, amount: E -> nat, k: K)
    ensures Tally(items + [e], slot, amount, k) == Tally(items, slot, amount, k) + if slot(e) == Some(k) then amount(e) else 0
    ensures Slots(items + [e], slot) == Slots(items, slot) + Singleton(slot(e))
  {
  }

  lemma {:induction false} NothingYet<E(!new), K(!new)>(items: seq<E>, slot: E -> Option<K>, amount: E -> nat, k: K)
    requires k !in Slots(items, slot)
    ensures Tally(items, slot, amount, k) == 0
  {
    if items == [] {
    } else {
      NothingYet(items[..|items| - 1], slot, amount, k);
    }
  }

  lemma {:induction false} Without<E(!new), K(!new)>(items: seq<E>, i: nat, slot: E -> Option<K>, amount: E -> nat, k: K)
    requires i < |items|
    ensures var rest := items[..i] + items[i + 1..];
      Tally(items, slot, amount, k) == Tally(rest, slot, amount, k) + (if slot(items[i]) == Some(k) then amount(items[i]) else 0) &&
      Slots(items, slot) == Slots(rest, slot) + Singleton(slot(items[i]))
  {
    var n := |items| - 1;
    var init, last := items[..n], items[n];
    if i < n {
      var fewer := init[..i] + init[i + 1..];
      Without(init, i, slot, amount, k);
      assert items[..i] + items[i + 1..] == fewer + [last];
      Snoc(fewer, last, slot, amount, k);
    } else {
      assert items[..i] + items[i + 1..] == init;
    }
  }

  lemma MultisetWithout<E>(s: seq<E>, i: nat)
    requires i < |s|
    ensures multiset(s[..i] + s[i + 1..]) == multiset(s) - multiset{s[i]}
  {
    assert s == s[..i] + [s[i]] + s[i + 1..];
  }

  /** Tallies and keys do not depend on the order of the items. */
  lemma {:induction false} Permuted<E(!new), K(!new)>(a: seq<E>, b: seq<E>, slot: E -> Option<K>, amount: E -> nat, k: K)
    requires multiset(a) == multiset(b)
    ensures Tally(a, slot, amount, k) == Tally(b, slot, amount, k) && Slots(a, slot) == Slots(b, slot)
    decreases |a|
  {
    assert |a| == |multiset(a)| == |multiset(b)| == |b|;
    if a == [] {
    } else {
      var n := |a| - 1;
      assert a[n] in multiset(b);
      var i :| 0 <= i < |b| && b[i] == a[n];
      MultisetWithout(a, n);
      MultisetWithout(b, i);
      assert a[..n] + a[n + 1..] == a[..n];
      Permuted(a[..n], b[..i] + b[i + 1..], slot, amount, k);
      Without(b, i, slot, amount, k);
    }
  }

  /** The amounts of the items that are taken. */
  ghost function SumOf<E(!new)>(items: seq<E>, taken: E -> bool, amount: E -> nat): nat {
    if items == [] then 0 else
      var e := items[|items| - 1];
      SumOf(items[..|items| - 1], taken, amount) + if taken(e) then amount(e) else 0
  }

  lemma {:induction false} TallyIsSumOf<E(!new), K(!new)>(items: seq<E>, slot: E -> Option<K>, amount: E -> nat, k: K, taken: E -> bool, value: E -> nat)
    requires forall e :: (taken(e) <==> slot(e) == Some(k)) && amount(e) == value(e)
    ensures Tally(items, slot, amount, k) == SumOf(items, taken, value)
  {
    if items == [] {
    } else {
      TallyIsSumOf(items[..|items| - 1], slot, amount, k, taken, value);
    }
  }

  /** A key occurs exactly when some item belongs to it. */
  lemma {:induction false} SlotOccurs<E(!new), K(!new)>(items: seq<E>, slot: E -> Option<K>, k: K)
    ensures k in Slots(items, slot) <==> exists e :: e in items && slot(e) == Some(k)
  {
    if items == [] {
    } else {
      var init, last := items[..|items| - 1], items[|items| - 1];
      SlotOccurs(init, slot, k);
      assert forall e :: e in items <==> e in init || e == last;
    }
  }

  ghost function TallyOf<E(!new), K(!new)>(items: seq<E>, slot: E -> Option<K>, amount: E -> nat): K -> int {
    k => Tally(items, slot, amount, k)
  }

  /** The keys split everything between them. */
  lemma {:induction false} Partition<E(!new), K(!new)>(items: seq<E>, slot: E -> Option<K>, amount: E -> nat)
    ensures Sum(Slots(items, slot), TallyOf(items, slot, amount)) == Everything(items, slot, amount)
  {
    if items == [] {
    } else {
      var init, e := items[..|items| - 1], items[|items| - 1];
      Partition(init, slot, amount);
      var ks, was, now := Slots(init, slot), TallyOf(init, slot, amount), TallyOf(items, slot, amount);
      if slot(e).None? {
        assert ks + Singleton(slot(e)) == ks;
        SumSame(ks, was, now);
      } else if slot(e).value in ks {
        assert ks + {slot(e).value} == ks;
        SumRaised(ks, was, now, slot(e).value);
      } else {
        var k := slot(e).value;
        NothingYet(init, slot, amount, k);
        SumWithout(ks + {k}, now, k);
        assert ks + {k} - {k} == ks;
        SumSame(ks, was, now);
      }
    }
  }
}
