// Sums over finite sets, independent of any order of their elements.
module Sums {
  ghost function Pick<K>(ks: set<K>): (k: K)
    requires ks != {}
    ensures k in ks
  {
    var k :| k in ks;
    k
  }

  ghost function Sum<K(!new)>(ks: set<K>, f: K -> int): int {
    if ks == {} then 0 else f(Pick(ks)) + Sum(ks - {Pick(ks)}, f)
  }

  /** Any element may be taken out first. */
  lemma {:induction false} SumWithout<K(!new)>(ks: set<K>, f: K -> int, k: K)
    requires k in ks
    ensures Sum(ks, f) == f(k) + Sum(ks - {k}, f)
  {
    var p := Pick(ks);
    if p != k {
      SumWithout(ks - {p}, f, k);
      SumWithout(ks - {k}, f, p);
      assert ks - {k} - {p} == ks - {p} - {k};
    }
  }

  lemma {:induction false} SumSame<K(!new)>(ks: set<K>, f: K -> int, g: K -> int)
    requires forall k :: k in ks ==> f(k) == g(k)
    ensures Sum(ks, f) == Sum(ks, g)
  {
    if ks == {} {
    } else {
      SumSame(ks - {Pick(ks)}, f, g);
    }
  }

  lemma {:induction false} SumPositive<K(!new)>(ks: set<K>, f: K -> int)
    requires forall k :: k in ks ==> f(k) >= 0
    ensures Sum(ks, f) >= 0
  {
    if ks == {} {
    } else {
      SumPositive(ks - {Pick(ks)}, f);
    }
  }

  /** Raising one element's value raises the sum by as much. */
  lemma SumRaised<K(!new)>(ks: set<K>, f: K -> int, g: K -> int, k: K)
    requires k in ks && forall j :: j in ks && j != k ==> f(j) == g(j)
    ensures Sum(ks, g) == Sum(ks, f) + g(k) - f(k)
  {
    SumWithout(ks, f, k);
    SumWithout(ks, g, k);
    SumSame(ks - {k}, f, g);
  }

  lemma {:induction false} SubsetSize<K>(a: set<K>, b: set<K>)
    requires a <= b
    ensures |a| <= |b|
  {
    if a == {} {
    } else {
      var k :| k in a;
      SubsetSize(a - {k}, b - {k});
    }
  }
}
