// Durations as query steps spell them: "86400", "86400s", "24h", "1h30m".
module Durations {
  import opened Options

  const I64_MAX: int := 0x7FFF_FFFF_FFFF_FFFF

  predicate Digit(c: char) { '0' <= c <= '9' }

  predicate AllDigits(s: string) { forall i :: 0 <= i < |s| ==> Digit(s[i]) }

  /** The number a run of digits spells, however long. */
  function Decimal(s: string): nat
    requires AllDigits(s)
  {
    if s == "" then 0 else 10 * Decimal(s[..|s| - 1]) + (s[|s| - 1] as int - '0' as int)
  }

  /** A number in decimal digits. */
  function Digits(n: nat): (s: string)
    ensures s != "" && AllDigits(s)
  {
    var last := [(n % 10) as char + '0'];
    if n < 10 then last else Digits(n / 10) + last
  }

  /** The digits of a number spell it, with any zeros in front. */
  lemma {:induction false} DigitsReadBack(zeros: nat, n: nat)
    ensures AllDigits(seq(zeros, _ => '0') + Digits(n)) && Decimal(seq(zeros, _ => '0') + Digits(n)) == n
  {
    var front := seq(zeros, _ => '0');
    var s := front + Digits(n);
    assert s[|s| - 1] as int - '0' as int == n % 10;
    if n >= 10 {
      assert s[..|s| - 1] == front + Digits(n / 10);
      DigitsReadBack(zeros, n / 10);
    } else {
      assert s[..|s| - 1] == front;
      ZerosAreZero(zeros);
    }
  }

  lemma {:induction false} ZerosAreZero(zeros: nat)
    ensures Decimal(seq(zeros, _ => '0')) == 0
  {
    var s := seq(zeros, _ => '0');
    if zeros > 0 {
      assert s[..|s| - 1] == seq(zeros - 1, _ => '0');
      ZerosAreZero(zeros - 1);
    }
  }

  predicate Unit(c: char) { c == 'd' || c == 'h' || c == 'm' || c == 's' || c == 'w' || c == 'y' }

  /** `n` units in seconds; a year has 365 days. */
  function Worth(n: nat, unit: char): nat {
    match unit
    case 'd' => 86_400 * n
    case 'h' => 3_600 * n
    case 'm' => 60 * n
    case 's' => n
    case 'w' => 604_800 * n
    case 'y' => 31_536_000 * n
    case _ => 0
  }

  // ----- the language of durations -----

  datatype Part = Part(digits: string, unit: char)

  predicate PartOk(p: Part) { p.digits != "" && AllDigits(p.digits) && Unit(p.unit) }

  ghost predicate PartsOk(parts: seq<Part>) { forall i :: 0 <= i < |parts| ==> PartOk(parts[i]) }

  function Spelled(parts: seq<Part>): string {
    if parts == [] then "" else
      var p := parts[|parts| - 1];
      Spelled(parts[..|parts| - 1]) + p.digits + [p.unit]
  }

  ghost function Seconds(parts: seq<Part>): nat
    requires PartsOk(parts)
  {
    if parts == [] then 0 else
      var p := parts[|parts| - 1];
      Seconds(parts[..|parts| - 1]) + Worth(Decimal(p.digits), p.unit)
  }

  /** `s` is a compound of at least one part, worth `n` seconds. */
  ghost predicate IsCompound(s: string, n: int) {
    exists parts :: parts != [] && PartsOk(parts) && Spelled(parts) == s && Seconds(parts) == n
  }

  /** `s` is a plain number of seconds; the integer parser takes one sign. */
  predicate IsPlain(s: string, n: int) {
    (s != "" && AllDigits(s) && Decimal(s) == n) ||
    (|s| > 1 && AllDigits(s[1..]) && ((s[0] == '+' && Decimal(s[1..]) == n) || (s[0] == '-' && Decimal(s[1..]) == -n)))
  }

  // ----- scanning -----

  /** The exact total of the parts seen so far, and the digits of the next one. */
  datatype Scan = Scan(total: nat, buf: string) | Malformed

  function ScanChar(st: Scan, c: char): (r: Scan)
    requires st.Scan? ==> AllDigits(st.buf)
    ensures r.Scan? ==> AllDigits(r.buf)
  {
    if st.Malformed? then Malformed
    else if Digit(c) then Scan(st.total, st.buf + [c])
    else if st.buf == "" || !Unit(c) then Malformed
    else Scan(st.total + Worth(Decimal(st.buf), c), "")
  }

  function Scanned(s: string): (r: Scan)
    ensures r.Scan? ==> AllDigits(r.buf)
  {
    if s == "" then Scan(0, "") else ScanChar(Scanned(s[..|s| - 1]), s[|s| - 1])
  }

  lemma ScanSnoc(s: string, c: char)
    ensures Scanned(s + [c]) == ScanChar(Scanned(s), c)
  {
  }

  lemma {:induction false} DigitsScanned(s: string, d: string)
    requires Scanned(s).Scan? && Scanned(s).buf == "" && AllDigits(d)
    ensures Scanned(s + d) == Scan(Scanned(s).total, d)
  {
    if d == "" {
      assert s + d == s;
    } else {
      var init, c := d[..|d| - 1], d[|d| - 1];
      assert Digit(c) && AllDigits(init);
      DigitsScanned(s, init);
      ScanSnoc(s + init, c);
      assert init + [c] == d && s + init + [c] == s + d;
    }
  }

  lemma {:induction false} PartsScanned(parts: seq<Part>)
    requires PartsOk(parts)
    ensures Scanned(Spelled(parts)) == Scan(Seconds(parts), "")
  {
    if parts == [] {
    } else {
      var init, p := parts[..|parts| - 1], parts[|parts| - 1];
      PartsScanned(init);
      DigitsScanned(Spelled(init), p.digits);
      ScanSnoc(Spelled(init) + p.digits, p.unit);
    }
  }

  lemma PartsSnoc(parts: seq<Part>, p: Part)
    requires PartsOk(parts) && PartOk(p)
    ensures PartsOk(parts + [p]) && Spelled(parts + [p]) == Spelled(parts) + p.digits + [p.unit]
    ensures Seconds(parts + [p]) == Seconds(parts) + Worth(Decimal(p.digits), p.unit)
  {
    assert (parts + [p])[..|parts|] == parts;
  }

  /** One more character completes a part or joins the digits of the next. */
  lemma PartsNext(before: seq<Part>, st: Scan, c: char) returns (parts: seq<Part>)
    requires st.Scan? && AllDigits(st.buf) && ScanChar(st, c).Scan? && PartsOk(before) && Seconds(before) == st.total
    ensures PartsOk(parts) && Seconds(parts) == ScanChar(st, c).total
    ensures Spelled(parts) + ScanChar(st, c).buf == Spelled(before) + st.buf + [c]
  {
    if Digit(c) {
      parts := before;
    } else {
      parts := before + [Part(st.buf, c)];
      PartsSnoc(before, Part(st.buf, c));
    }
  }

  lemma {:induction false} ScannedParts(s: string) returns (parts: seq<Part>)
    requires Scanned(s).Scan?
    ensures PartsOk(parts) && s == Spelled(parts) + Scanned(s).buf && Seconds(parts) == Scanned(s).total
  {
    if s == "" {
      parts := [];
    } else {
      var init, c := s[..|s| - 1], s[|s| - 1];
      assert s == init + [c];
      ScanSnoc(init, c);
      var before := ScannedParts(init);
      parts := PartsNext(before, Scanned(init), c);
    }
  }

  /** Scanning ends with no digits left over exactly on compounds, with their exact length. */
  lemma CompoundIsScanned(s: string, n: nat)
    ensures IsCompound(s, n) <==> s != "" && Scanned(s) == Scan(n, "")
  {
    if IsCompound(s, n) {
      var parts :| parts != [] && PartsOk(parts) && Spelled(parts) == s && Seconds(parts) == n;
      PartsScanned(parts);
    }
    if s != "" && Scanned(s) == Scan(n, "") {
      var parts := ScannedParts(s);
      assert s == Spelled(parts);
    }
  }

  /** The total never falls again. */
  lemma {:induction false} TotalGrows(s: string, i: nat)
    requires i <= |s| && Scanned(s).Scan?
    ensures Scanned(s[..i]).Scan? && Scanned(s[..i]).total <= Scanned(s).total
  {
    if i < |s| {
      TotalGrows(s[..|s| - 1], i);
      assert s[..|s| - 1][..i] == s[..i];
    } else {
      assert s[..i] == s;
    }
  }

  // ----- the parser -----

  /** `str::parse::<i64>`. */
  method ParseI64(s: string) returns (r: Option<int>)
    ensures r.Some? <==> exists n :: IsPlain(s, n) && -I64_MAX - 1 <= n <= I64_MAX
    ensures r.Some? ==> IsPlain(s, r.value)
  {
    var signed := s != "" && (s[0] == '+' || s[0] == '-');
    var digits := if signed then s[1..] else s;
    if digits == "" || !AllDigits(digits) {
      return None;
    }
    var n: int := Decimal(digits);
    if s[0] == '-' { n := -n; }
    assert IsPlain(s, n);
    if -I64_MAX - 1 <= n <= I64_MAX {
      return Some(n);
    }
    return None;
  }

  function Positive(n: int): Option<int> { if n > 0 then Some(n) else None }

  /** The one accepted reading of a string, if any. */
  ghost predicate Means(s: string, n: int) { 1 <= n <= I64_MAX && (IsPlain(s, n) || IsCompound(s, n)) }

  /** Accepts exactly the durations whose exact length is between 1 and 2^63 - 1 seconds, and
      returns that length, although it adds up in 64 bits. */
  method ParseDurationSecs(s: string) returns (r: Option<int>)
    ensures r.Some? ==> Means(s, r.value)
    ensures r.None? ==> forall n :: !Means(s, n)
  {
    var plain := ParseI64(s);
    if plain.Some? {
      PlainOnly(s, plain.value);
      return Positive(plain.value);
    }
    if s != "" && s[|s| - 1] == 's' {
      var num := s[..|s| - 1];
      if num != "" && AllDigits(num) {
        assert s == num + ['s'];
        UnitEnds(num, 's');
        OneUnit(num, 's');
        var n := ParseI64(num);
        assert IsPlain(num, Decimal(num));
        PlainOnly(num, Decimal(num));
        r := if n.Some? then Positive(n.value) else None;
        return;
      }
    }
    r := ParseCompound(s);
    if r.None? { Undecided(s); }
  }

  lemma PlainOnly(s: string, n: int)
    requires IsPlain(s, n)
    ensures forall m :: IsPlain(s, m) ==> m == n
    ensures forall m :: !IsCompound(s, m)
  {
  }

  lemma UnitEnds(num: string, u: char)
    requires num != "" && Unit(u)
    ensures forall m :: !IsPlain(num + [u], m)
  {
    var s := num + [u];
    assert !Digit(s[|s| - 1]) && s[1..][|s| - 2] == u;
  }

  lemma CompoundOnly(s: string, n: nat)
    requires s != "" && Scanned(s) == Scan(n, "")
    ensures forall m :: IsCompound(s, m) <==> m == n
  {
    forall m ensures IsCompound(s, m) <==> m == n {
      if m >= 0 { CompoundIsScanned(s, m); }
    }
  }

  lemma OneUnit(num: string, u: char)
    requires num != "" && AllDigits(num) && Unit(u)
    ensures forall m :: IsCompound(num + [u], m) <==> m == Worth(Decimal(num), u)
  {
    assert Scanned(num) == Scan(0, num) by {
      DigitsScanned("", num);
      assert "" + num == num;
    }
    ScanSnoc(num, u);
    UnitScanned(num, u);
    CompoundOnly(num + [u], Worth(Decimal(num), u));
  }

  lemma UnitScanned(num: string, u: char)
    requires num != "" && AllDigits(num) && Unit(u)
    ensures ScanChar(Scan(0, num), u) == Scan(Worth(Decimal(num), u), "")
  {
  }

  /** A number with one unit: 60 seconds make a minute, 60 minutes an hour, 24 hours a day, 7 days a
      week and 365 days a year; lengths are accepted from one second to below 2^63. */
  lemma OnePart(num: string, n: int)
    requires num != "" && AllDigits(num)
    ensures var inRange := 1 <= n < 0x8000_0000_0000_0000;
      (Means(num + "s", n) <==> inRange && n == Decimal(num)) &&
      (Means(num + "m", n) <==> inRange && n == Decimal(num) * 60) &&
      (Means(num + "h", n) <==> inRange && n == Decimal(num) * 60 * 60) &&
      (Means(num + "d", n) <==> inRange && n == Decimal(num) * 60 * 60 * 24) &&
      (Means(num + "w", n) <==> inRange && n == Decimal(num) * 60 * 60 * 24 * 7) &&
      (Means(num + "y", n) <==> inRange && n == Decimal(num) * 60 * 60 * 24 * 365)
  {
    UnitMeans(num, 's', n);
    UnitMeans(num, 'm', n);
    UnitMeans(num, 'h', n);
    UnitMeans(num, 'd', n);
    UnitMeans(num, 'w', n);
    UnitMeans(num, 'y', n);
  }

  lemma UnitMeans(num: string, u: char, n: int)
    requires num != "" && AllDigits(num) && Unit(u)
    ensures Means(num + [u], n) <==> 1 <= n <= I64_MAX && n == Worth(Decimal(num), u)
  {
    UnitEnds(num, u);
    OneUnit(num, u);
  }

  /** Not the length of any compound in range: malformed, empty, or too long. */
  ghost predicate OutOfRange(s: string) {
    Scanned(s).Malformed? || Scanned(s).buf != "" || Scanned(s).total == 0 || Scanned(s).total > I64_MAX
  }

  lemma EarlyRefusal(s: string, i: nat)
    requires i <= |s| && (Scanned(s[..i]).Malformed? || Scanned(s[..i]).total > I64_MAX)
    ensures OutOfRange(s)
  {
    if Scanned(s).Scan? { TotalGrows(s, i); }
  }

  lemma WorthAtLeast(n: nat, u: char)
    requires Unit(u)
    ensures Worth(n, u) >= n
  {
  }

  method ParseCompound(s: string) returns (r: Option<int>)
    ensures r.Some? ==> 1 <= r.value <= I64_MAX && IsCompound(s, r.value)
    ensures r.None? ==> OutOfRange(s)
  {
    var total: nat := 0;
    var numBuf := "";
    var sawUnit := false;
    for i := 0 to |s|
      invariant Scanned(s[..i]) == Scan(total, numBuf) && total <= I64_MAX && (!sawUnit ==> total == 0)
    {
      var c := s[i];
      assert s[..i + 1] == s[..i] + [c];
      ScanSnoc(s[..i], c);
      if Digit(c) {
        numBuf := numBuf + [c];
      } else {
        var sum := AddPart(total, numBuf, c);
        if sum.None? {
          EarlyRefusal(s, i + 1);
          return None;
        }
        total := sum.value;
        numBuf := "";
        sawUnit := true;
      }
    }
    assert s[..|s|] == s;
    if numBuf != "" || !sawUnit || total == 0 {
      return None;
    }
    CompoundIsScanned(s, total);
    r := Some(total);
  }

  /** One unit character: the checked arithmetic of the part that ends here. */
  method AddPart(total: nat, numBuf: string, unit: char) returns (sum: Option<nat>)
    requires AllDigits(numBuf) && !Digit(unit) && total <= I64_MAX
    ensures var st := ScanChar(Scan(total, numBuf), unit);
      if st.Scan? && st.total <= I64_MAX then sum == Some(st.total) else sum == None
  {
    if numBuf == "" {
      return None;
    }
    var n := Decimal(numBuf);
    if n > I64_MAX || !Unit(unit) {
      if Unit(unit) { WorthAtLeast(n, unit); }
      return None;
    }
    var product := Worth(n, unit);
    if product > I64_MAX || total + product > I64_MAX {
      return None;
    }
    return Some(total + product);
  }

  lemma Undecided(s: string)
    requires forall n :: IsPlain(s, n) ==> !(1 <= n <= I64_MAX)
    requires OutOfRange(s)
    ensures forall n :: !Means(s, n)
  {
    forall n ensures !Means(s, n) {
      if n >= 0 { CompoundIsScanned(s, n); }
    }
  }

  /** A string has at most one reading. */
  lemma MeaningUnique(s: string, n: int, m: int)
    requires Means(s, n) && Means(s, m)
    ensures n == m
  {
    if IsPlain(s, n) {
      PlainOnly(s, n);
    } else if IsPlain(s, m) {
      PlainOnly(s, m);
    } else {
      CompoundIsScanned(s, n);
      CompoundIsScanned(s, m);
    }
  }
}
