// Byte strings as the key-value engine orders them: lexicographically by unsigned byte,
// with the big-endian fixed-width integers that the key builders put in front.
module ByteStrings {
  type byte = b: int | 0 <= b < 256
  type bytes = seq<byte>

  const I64_LIMIT: int := 0x8000_0000_0000_0000
  const U64_LIMIT: int := 0x1_0000_0000_0000_0000

  /** The range of Rust's `i64`. */
  type i64 = x: int | -0x8000_0000_0000_0000 <= x < 0x8000_0000_0000_0000

  predicate NulFree(s: bytes) { 0 !in s }

  predicate HasPrefix(s: bytes, p: bytes) { |p| <= |s| && s[..|p|] == p }

  // ----- order -----

  /** The engine's key order. */
  predicate LexLess(a: bytes, b: bytes) {
    b != [] && (a == [] || a[0] < b[0] || (a[0] == b[0] && LexLess(a[1..], b[1..])))
  }

  lemma {:induction false} LexTotal(a: bytes, b: bytes)
    ensures a == b || LexLess(a, b) || LexLess(b, a)
    ensures !(LexLess(a, b) && (a == b || LexLess(b, a)))
  {
    if a != [] && b != [] {
      LexTotal(a[1..], b[1..]);
      assert a == [a[0]] + a[1..] && b == [b[0]] + b[1..];
    }
  }

  lemma {:induction false} LexTransitive(a: bytes, b: bytes, c: bytes)
    requires LexLess(a, b) && LexLess(b, c)
    ensures LexLess(a, c)
  {
    if a != [] && a[0] == b[0] == c[0] {
      LexTransitive(a[1..], b[1..], c[1..]);
    }
  }

  /** Comparing two keys with a common prefix compares what follows it. */
  lemma {:induction false} LexCommonPrefix(p: bytes, a: bytes, b: bytes)
    ensures LexLess(p + a, p + b) == LexLess(a, b)
  {
    if p == [] {
      assert p + a == a && p + b == b;
    } else {
      LexCommonPrefix(p[1..], a, b);
      assert (p + a)[1..] == p[1..] + a && (p + b)[1..] == p[1..] + b;
    }
  }

  /** Between heads of the same width that differ, the heads alone decide. */
  lemma {:induction false} LexByHead(x: bytes, y: bytes, a: bytes, b: bytes)
    requires |x| == |y| && x != y
    ensures LexLess(x + a, y + b) == LexLess(x, y)
  {
    assert (x + a)[0] == x[0] && (y + b)[0] == y[0];
    assert (x + a)[1..] == x[1..] + a && (y + b)[1..] == y[1..] + b;
    if x[0] == y[0] {
      assert x == [x[0]] + x[1..] && y == [y[0]] + y[1..];
      LexByHead(x[1..], y[1..], a, b);
    }
  }

  // ----- delimiters -----

  /** A NUL-free component is recovered from what it precedes: `x NUL a` reads back in one way only. */
  lemma {:induction false} SplitAtNul(x: bytes, y: bytes, a: bytes, b: bytes)
    requires NulFree(x) && NulFree(y)
    requires x + [0] + a == y + [0] + b
    ensures x == y && a == b
  {
    var l := x + [0] + a;
    assert l[|x|] == 0 && l[..|x|] == x && l[|x| + 1..] == a;
    var r := y + [0] + b;
    assert r[|y|] == 0 && r[..|y|] == y && r[|y| + 1..] == b;
    if |x| < |y| {
      assert false;
    } else if |y| < |x| {
      assert false;
    }
  }

  /** The prefix scan for `x NUL` meets `y NUL a` only when `x` is `y`. */
  lemma PrefixAtNul(x: bytes, y: bytes, a: bytes)
    requires NulFree(x) && NulFree(y)
    ensures HasPrefix(y + [0] + a, x + [0]) <==> x == y
  {
    var s := y + [0] + a;
    if HasPrefix(s, x + [0]) {
      assert s == x + [0] + s[|x| + 1..];
      SplitAtNul(x, y, s[|x| + 1..], a);
    }
    assert s[..|y| + 1] == y + [0];
  }

  // ----- big-endian integers -----

  function Pow256(n: nat): (p: nat)
    ensures p > 0
  {
    if n == 0 then 1 else 256 * Pow256(n - 1)
  }

  /** The `n` big-endian bytes of `v`. */
  function BigEndian(v: nat, n: nat): (s: bytes)
    ensures |s| == n
  {
    if n == 0 then [] else BigEndian(v / 256, n - 1) + [v % 256]
  }

  function FromBigEndian(s: bytes): nat {
    if s == [] then 0 else FromBigEndian(s[..|s| - 1]) * 256 + s[|s| - 1]
  }

  lemma {:induction false} BigEndianReads(v: nat, n: nat)
    requires v < Pow256(n)
    ensures FromBigEndian(BigEndian(v, n)) == v
  {
    if n == 0 {
    } else {
      BigEndianReads(v / 256, n - 1);
      var s := BigEndian(v, n);
      assert s[..n - 1] == BigEndian(v / 256, n - 1);
    }
  }

  /** Big-endian byte order is numeric order. */
  lemma {:induction false} BigEndianOrder(v: nat, w: nat, n: nat)
    requires v < Pow256(n) && w < Pow256(n)
    ensures LexLess(BigEndian(v, n), BigEndian(w, n)) <==> v < w
  {
    if n == 0 {
    } else {
      var x, y := BigEndian(v / 256, n - 1), BigEndian(w / 256, n - 1);
      BigEndianOrder(v / 256, w / 256, n - 1);
      if x != y {
        LexByHead(x, y, [v % 256], [w % 256]);
        if v / 256 == w / 256 { assert false; }
      } else {
        BigEndianReads(v / 256, n - 1);
        BigEndianReads(w / 256, n - 1);
        LexCommonPrefix(x, [v % 256], [w % 256]);
      }
    }
  }

  /** `i64::to_be_bytes`: two's complement, most significant byte first. */
  function I64Bytes(x: i64): (s: bytes)
    ensures |s| == 8
  {
    BigEndian(if x < 0 then x + U64_LIMIT else x, 8)
  }

  /** `i64::from_be_bytes`. */
  function I64FromBytes(s: bytes): (x: int)
    requires |s| == 8
  {
    var v := FromBigEndian(s);
    if v >= I64_LIMIT then v - U64_LIMIT else v
  }

  lemma Pow256Of8()
    ensures Pow256(8) == U64_LIMIT
  {
  }

  lemma I64RoundTrip(x: i64)
    ensures I64FromBytes(I64Bytes(x)) == x
  {
    Pow256Of8();
    BigEndianReads(if x < 0 then x + U64_LIMIT else x, 8);
  }

  lemma I64BytesInjective(x: i64, y: i64)
    requires I64Bytes(x) == I64Bytes(y)
    ensures x == y
  {
    I64RoundTrip(x);
    I64RoundTrip(y);
  }

  /** Two's complement puts every negative number after every non-negative one,
      and keeps numeric order within each sign. */
  lemma I64BytesOrder(x: i64, y: i64)
    ensures LexLess(I64Bytes(x), I64Bytes(y)) <==> if (x < 0) == (y < 0) then x < y else y < 0
  {
    Pow256Of8();
    BigEndianOrder(if x < 0 then x + U64_LIMIT else x, if y < 0 then y + U64_LIMIT else y, 8);
  }

  // ----- keys in order -----

  /** `enc` gives the keys of `ks` distinct byte strings. */
  ghost predicate Encodes<K(!new)>(enc: K -> bytes, ks: set<K>) {
    forall k, l :: k in ks && l in ks && enc(k) == enc(l) ==> k == l
  }

  ghost predicate Ascending<K>(enc: K -> bytes, ks: seq<K>) {
    forall i, j :: 0 <= i < j < |ks| ==> LexLess(enc(ks[i]), enc(ks[j]))
  }

  ghost predicate IsLeast<K(!new)>(enc: K -> bytes, k: K, ks: set<K>) {
    k in ks && forall o :: o in ks ==> o == k || LexLess(enc(k), enc(o))
  }

  lemma {:induction false} LeastExists<K(!new)>(enc: K -> bytes, ks: set<K>)
    requires ks != {} && Encodes(enc, ks)
    ensures exists k :: IsLeast(enc, k, ks)
    decreases |ks|
  {
    var k :| k in ks;
    var rest := ks - {k};
    if rest == {} {
      assert ks == {k};
      assert IsLeast(enc, k, ks);
    } else {
      LeastExists(enc, rest);
      var l :| IsLeast(enc, l, rest);
      LexTotal(enc(k), enc(l));
      if LexLess(enc(k), enc(l)) {
        forall o | o in ks ensures o == k || LexLess(enc(k), enc(o)) {
          if o != k && o != l { LexTransitive(enc(k), enc(l), enc(o)); }
        }
        assert IsLeast(enc, k, ks);
      } else {
        assert IsLeast(enc, l, ks);
      }
    }
  }

  ghost predicate Enumerates<K(!new)>(enc: K -> bytes, r: seq<K>, ks: set<K>) {
    Ascending(enc, r) && forall k :: k in r <==> k in ks
  }

  lemma {:induction false} OrderExists<K(!new)>(enc: K -> bytes, ks: set<K>) returns (r: seq<K>)
    requires Encodes(enc, ks)
    ensures Enumerates(enc, r, ks)
    decreases |ks|
  {
    r := [];
    if ks == {} {
    } else {
      LeastExists(enc, ks);
      var k :| IsLeast(enc, k, ks);
      var rest := OrderExists(enc, ks - {k});
      forall i | 0 <= i < |rest| ensures rest[i] in ks && LexLess(enc(k), enc(rest[i])) {
        assert rest[i] in rest;
      }
      r := [k] + rest;
    }
  }

  /** The order in which an iterator over a keyspace delivers a set of keys. */
  ghost function InOrder<K(!new)>(enc: K -> bytes, ks: set<K>): (r: seq<K>)
    requires Encodes(enc, ks)
    ensures Ascending(enc, r)
    ensures forall k :: k in r <==> k in ks
    ensures r == [] <==> ks == {}
  {
    assert exists r :: Enumerates(enc, r, ks) by {
      var r := OrderExists(enc, ks);
    }
    var r :| Enumerates(enc, r, ks);
    assert r != [] ==> r[0] in r;
    r
  }

  /** A set of keys has one ascending enumeration. */
  lemma {:induction false} AscendingUnique<K(!new)>(enc: K -> bytes, a: seq<K>, b: seq<K>)
    requires Ascending(enc, a) && Ascending(enc, b)
    requires forall k :: k in a <==> k in b
    ensures a == b
  {
    assert |b| > 0 ==> b[0] in b;
    if a == [] {
    } else {
      assert a[0] in b && b[0] in a;
      LexTotal(enc(a[0]), enc(b[0]));
      assert a[0] == b[0];
      assert a == [a[0]] + a[1..] && b == [b[0]] + b[1..];
      AfterHead(enc, a);
      AfterHead(enc, b);
      assert forall k :: k in a[1..] <==> k in a && k != a[0];
      assert forall k :: k in b[1..] <==> k in b && k != b[0];
      AscendingUnique(enc, a[1..], b[1..]);
    }
  }

  lemma AfterHead<K(!new)>(enc: K -> bytes, a: seq<K>)
    requires Ascending(enc, a) && a != []
    ensures forall k :: k in a[1..] ==> LexLess(enc(a[0]), enc(k)) && k != a[0]
  {
    forall k | k in a[1..] ensures LexLess(enc(a[0]), enc(k)) && k != a[0] {
      var i :| 0 <= i < |a| - 1 && a[1..][i] == k;
      assert a[i + 1] == k;
      LexTotal(enc(a[0]), enc(a[0]));
    }
  }
}
