// The query language: its grammar as trees and the tokens they render to, and the reading of
// tokens that inverts it.
module QueryGrammar {
  import opened Options
  import opened QueryLexer
  import opened Durations

  const SUM: string := "sum"
  const INCREASE: string := "increase"
  const BY: string := "by"

  // ----- trees -----

  /** A comma-separated list; the parser also takes a comma after the last item. */
  datatype Listing<T> = Listing(items: seq<T>, trailing: bool)

  datatype Filter = Filter(key: string, value: string)

  datatype Query = Query(
    wrapped: bool,
    front: Option<Listing<string>>,
    ranged: bool,
    metric: string,
    filters: Option<Listing<Filter>>,
    bucket: Option<string>,
    back: Option<Listing<string>>)

  predicate TrimmedChar(c: char) {
    '\U{0009}' <= c <= '\U{000D}' || c == ' ' || c == '\U{0085}' || c == '\U{00A0}' || c == '\U{1680}' ||
    '\U{2000}' <= c <= '\U{200A}' || c == '\U{2028}' || c == '\U{2029}' || c == '\U{202F}' || c == '\U{205F}' || c == '\U{3000}'
  }

  /** The text without white space at either end. */
  function Trim(s: string): string {
    if s == "" then s
    else if TrimmedChar(s[0]) then Trim(s[1..])
    else if TrimmedChar(s[|s| - 1]) then Trim(s[..|s| - 1])
    else s
  }

  /** Whatever white space surrounds a text that neither begins nor ends with it is cut off. */
  lemma {:induction false} TrimPadded(front: string, core: string, back: string)
    requires forall c :: c in front || c in back ==> TrimmedChar(c)
    requires core != "" ==> !TrimmedChar(core[0]) && !TrimmedChar(core[|core| - 1])
    ensures Trim(front + core + back) == core
    decreases |front| + |back|
  {
    var s := front + core + back;
    if front != "" {
      assert s[1..] == front[1..] + core + back;
      TrimPadded(front[1..], core, back);
    } else if back != "" && core == "" {
      assert s == back && s[1..] == "" + core + back[1..];
      TrimPadded("", core, back[1..]);
    } else if back != "" {
      assert s[0] == core[0] && s[..|s| - 1] == "" + core + back[..|back| - 1];
      TrimPadded("", core, back[..|back| - 1]);
    } else {
      assert s == core;
    }
  }

  /** A bucket holds a duration, which is checked and otherwise ignored. */
  ghost predicate RangeOk(raw: string) { exists n :: Means(Trim(raw), n) }

  predicate ListingOk<T(==)>(l: Listing<T>) { l.trailing ==> l.items != [] }

  /** The grammar's own conditions: a group-by stands once, and in front only behind `sum`. */
  ghost predicate Grammatical(q: Query) {
    (q.front.Some? ==> q.wrapped && q.front.value.items != []) &&
    (q.back.Some? ==> q.front.None? && q.back.value.items != []) &&
    (q.filters.Some? ==> ListingOk(q.filters.value)) &&
    (q.bucket.Some? ==> RangeOk(q.bucket.value))
  }

  // ----- rendering, from the back -----

  function Labels(items: seq<string>, trailing: bool): seq<Token> {
    if items == [] then [Mark(')')]
    else if |items| > 1 then [Ident(items[0]), Mark(',')] + Labels(items[1..], trailing)
    else if trailing then [Ident(items[0]), Mark(','), Mark(')')]
    else [Ident(items[0]), Mark(')')]
  }

  function FilterTokens(f: Filter): seq<Token> { [Ident(f.key), Mark('='), Quoted(f.value)] }

  function FilterList(items: seq<Filter>, trailing: bool): seq<Token> {
    if items == [] then [Mark('}')]
    else if |items| > 1 then FilterTokens(items[0]) + [Mark(',')] + FilterList(items[1..], trailing)
    else if trailing then FilterTokens(items[0]) + [Mark(','), Mark('}')]
    else FilterTokens(items[0]) + [Mark('}')]
  }

  function ByClause(l: Option<Listing<string>>): seq<Token> {
    if l.None? then [] else [Ident(BY), Mark('(')] + Labels(l.value.items, l.value.trailing)
  }

  function Close(n: nat): seq<Token> { if n == 0 then [] else [Mark(')')] + Close(n - 1) }

  function Opens(wrapped: bool, ranged: bool): nat { (if wrapped then 1 else 0) + if ranged then 1 else 0 }

  function Ending(q: Query): seq<Token> { Close(Opens(q.wrapped, q.ranged)) + ByClause(q.back) }

  function FromBucket(q: Query): seq<Token> {
    (if q.bucket.Some? then [Bracketed(q.bucket.value)] else []) + Ending(q)
  }

  function FromFilters(q: Query): seq<Token> {
    (if q.filters.Some? then [Mark('{')] + FilterList(q.filters.value.items, q.filters.value.trailing) else []) + FromBucket(q)
  }

  function FromMetric(q: Query): seq<Token> { [Ident(q.metric)] + FromFilters(q) }

  function FromRange(q: Query): seq<Token> {
    (if q.ranged then [Ident(INCREASE), Mark('(')] else []) + FromMetric(q)
  }

  function Render(q: Query): seq<Token> {
    (if q.wrapped then [Ident(SUM)] + ByClause(q.front) + [Mark('(')] else []) + FromRange(q)
  }

  // ----- reading -----

  datatype Parsed<T> = Parsed(value: T, rest: seq<Token>)

  predicate Starts(ts: seq<Token>, t: Token) { ts != [] && ts[0] == t }

  /** What follows `by (`: labels up to the closing parenthesis. */
  function ReadLabels(ts: seq<Token>): Option<Parsed<seq<string>>>
    decreases |ts|
  {
    if Starts(ts, Mark(')')) then Some(Parsed([], ts[1..]))
    else if ts == [] || !ts[0].Ident? then None
    else if Starts(ts[1..], Mark(')')) then Some(Parsed([ts[0].name], ts[2..]))
    else if Starts(ts[1..], Mark(',')) then Prepend(ts[0].name, ReadLabels(ts[2..]))
    else None
  }

  function Prepend<T>(x: T, p: Option<Parsed<seq<T>>>): Option<Parsed<seq<T>>> {
    if p.None? then None else Some(Parsed([x] + p.value.value, p.value.rest))
  }

  function ReadBy(ts: seq<Token>): Option<Parsed<seq<string>>> {
    if !Starts(ts, Mark('(')) then None else
      var p := ReadLabels(ts[1..]);
      if p.Some? && p.value.value == [] then None else p
  }

  function ReadFilters(ts: seq<Token>): Option<Parsed<seq<Filter>>>
    decreases |ts|
  {
    if Starts(ts, Mark('}')) then Some(Parsed([], ts[1..]))
    else if |ts| < 4 || !ts[0].Ident? || ts[1] != Mark('=') || !ts[2].Quoted? then None
    else if ts[3] == Mark('}') then Some(Parsed([Filter(ts[0].name, ts[2].value)], ts[4..]))
    else if ts[3] == Mark(',') then Prepend(Filter(ts[0].name, ts[2].value), ReadFilters(ts[4..]))
    else None
  }

  /** The labels of a `sum` wrapper ([] without a group-by), if there is a wrapper. */
  function ReadWrapper(ts: seq<Token>): Option<Parsed<Option<seq<string>>>> {
    if ts == [] || !ts[0].Ident? then Some(Parsed(None, ts)) else
      var id := ts[0].name;
      if Starts(ts[1..], Mark('(')) && id != INCREASE then
        if id == SUM then Some(Parsed(Some([]), ts[2..])) else None
      else if Starts(ts[1..], Ident(BY)) then
        var p := ReadBy(ts[2..]);
        if p.None? then None
        else if !Starts(p.value.rest, Mark('(')) then Some(Parsed(None, ts))
        else if id == SUM then Some(Parsed(Some(p.value.value), p.value.rest[1..])) else None
      else Some(Parsed(None, ts))
  }

  function ReadRange(ts: seq<Token>): Option<Parsed<bool>> {
    if |ts| > 1 && ts[0].Ident? && ts[1] == Mark('(') then
      if ts[0].name == INCREASE then Some(Parsed(true, ts[2..])) else None
    else Some(Parsed(false, ts))
  }

  function ReadMatchers(ts: seq<Token>): Option<Parsed<seq<Filter>>> {
    if Starts(ts, Mark('{')) then ReadFilters(ts[1..]) else Some(Parsed([], ts))
  }

  ghost function ReadBucket(ts: seq<Token>): Option<Parsed<bool>> {
    if Starts(ts, Bad('[')) then None
    else if ts != [] && ts[0].Bracketed? then
      if RangeOk(ts[0].raw) then Some(Parsed(true, ts[1..])) else None
    else Some(Parsed(false, ts))
  }

  function ReadClose(ts: seq<Token>, n: nat): Option<seq<Token>>
    decreases n
  {
    if n == 0 then Some(ts) else if Starts(ts, Mark(')')) then ReadClose(ts[1..], n - 1) else None
  }

  /** The trailing group-by, which must end the query. */
  function ReadBack(ts: seq<Token>): Option<seq<string>> {
    if ts == [] then Some([])
    else if !Starts(ts, Ident(BY)) then None else
      var p := ReadBy(ts[1..]);
      if p.Some? && p.value.rest == [] then Some(p.value.value) else None
  }

  /** A query as the parser knows it once it has read all of it. */
  datatype Shape = Shape(wrapped: bool, ranged: bool, metric: string, filters: seq<Filter>, bucketed: bool, labels: seq<string>)

  ghost function ReadEnding(ts: seq<Token>, wrapped: Option<seq<string>>, ranged: bool, metric: string,
                            filters: seq<Filter>, bucketed: bool): Option<Shape>
  {
    var c := ReadClose(ts, Opens(wrapped.Some?, ranged));
    if c.None? then None else
      var front := if wrapped.Some? then wrapped.value else [];
      var back := ReadBack(c.value);
      if back.None? || (front != [] && back.value != []) then None
      else Some(Shape(wrapped.Some?, ranged, metric, filters, bucketed, if front != [] then front else back.value))
  }

  ghost function ReadSelector(ts: seq<Token>, wrapped: Option<seq<string>>, ranged: bool): Option<Shape> {
    if ts == [] || !ts[0].Ident? then None else
      var f := ReadMatchers(ts[1..]);
      if f.None? then None else
        var b := ReadBucket(f.value.rest);
        if b.None? then None else ReadEnding(b.value.rest, wrapped, ranged, ts[0].name, f.value.value, b.value.value)
  }

  ghost function ReadShape(ts: seq<Token>): Option<Shape> {
    var w := ReadWrapper(ts);
    if w.None? then None else
      var r := ReadRange(w.value.rest);
      if r.None? then None else ReadSelector(r.value.rest, w.value.value, r.value.value)
  }

  // ----- the two are inverse: rendered queries are read -----

  function ItemsOf<T>(l: Option<Listing<T>>): seq<T> { if l.Some? then l.value.items else [] }

  function ShapeOf(q: Query): Shape {
    Shape(q.wrapped, q.ranged, q.metric, ItemsOf(q.filters), q.bucket.Some?, if q.front.Some? then q.front.value.items else ItemsOf(q.back))
  }

  lemma {:induction false} LabelsRead(items: seq<string>, trailing: bool, rest: seq<Token>)
    requires trailing ==> items != []
    ensures ReadLabels(Labels(items, trailing) + rest) == Some(Parsed(items, rest))
  {
    var ts := Labels(items, trailing) + rest;
    if |items| > 1 {
      LabelsRead(items[1..], trailing, rest);
      assert ts[2..] == Labels(items[1..], trailing) + rest;
      assert items == [items[0]] + items[1..];
    } else if trailing {
      assert ts[2..] == [Mark(')')] + rest;
      assert ts[2..][1..] == rest;
      assert ReadLabels(ts[2..]) == Some(Parsed([], rest)) && [items[0]] + [] == items;
    } else if items == [] {
      assert ts[1..] == rest;
    } else {
      assert items == [items[0]] && ts[2..] == rest;
    }
  }

  lemma {:induction false} FiltersRead(items: seq<Filter>, trailing: bool, rest: seq<Token>)
    requires trailing ==> items != []
    ensures ReadFilters(FilterList(items, trailing) + rest) == Some(Parsed(items, rest))
  {
    var ts := FilterList(items, trailing) + rest;
    if |items| > 1 {
      FiltersRead(items[1..], trailing, rest);
      assert ts[4..] == FilterList(items[1..], trailing) + rest;
      assert items == [items[0]] + items[1..];
    } else if trailing {
      assert ts[4..] == [Mark('}')] + rest;
      assert ts[4..][1..] == rest;
      assert ReadFilters(ts[4..]) == Some(Parsed([], rest)) && [items[0]] + [] == items;
    } else if items == [] {
      assert ts[1..] == rest;
    } else {
      assert items == [items[0]] && ts[4..] == rest;
    }
  }

  lemma ByRead(l: Listing<string>, rest: seq<Token>)
    requires l.items != []
    ensures var ts := ByClause(Some(l)) + rest; ts[0] == Ident(BY) && ReadBy(ts[1..]) == Some(Parsed(l.items, rest))
  {
    var ts := ByClause(Some(l)) + rest;
    assert ts[2..] == Labels(l.items, l.trailing) + rest;
    LabelsRead(l.items, l.trailing, rest);
  }

  lemma {:induction false} CloseRead(n: nat, rest: seq<Token>)
    ensures ReadClose(Close(n) + rest, n) == Some(rest)
  {
    if n > 0 {
      assert (Close(n) + rest)[1..] == Close(n - 1) + rest;
      CloseRead(n - 1, rest);
    } else {
      assert Close(n) + rest == rest;
    }
  }

  lemma EndingRead(q: Query, wrapped: Option<seq<string>>, filters: seq<Filter>)
    requires Grammatical(q) && wrapped == (if q.wrapped then Some(ItemsOf(q.front)) else None) && filters == ItemsOf(q.filters)
    ensures ReadEnding(Ending(q), wrapped, q.ranged, q.metric, filters, q.bucket.Some?) == Some(ShapeOf(q))
  {
    CloseRead(Opens(q.wrapped, q.ranged), ByClause(q.back));
    BackRead(q.back);
  }

  lemma BackRead(back: Option<Listing<string>>)
    requires back.Some? ==> back.value.items != []
    ensures ReadBack(ByClause(back)) == Some(ItemsOf(back))
  {
    if back.Some? {
      ByRead(back.value, []);
      assert ByClause(back) + [] == ByClause(back);
    }
  }

  lemma EndingStart(q: Query)
    ensures Ending(q) != [] ==> Ending(q)[0] == Mark(')') || Ending(q)[0] == Ident(BY)
  {
  }

  lemma BucketRead(q: Query)
    requires Grammatical(q)
    ensures ReadBucket(FromBucket(q)) == Some(Parsed(q.bucket.Some?, Ending(q)))
    ensures !Starts(FromBucket(q), Mark('{'))
  {
    EndingStart(q);
    if q.bucket.Some? {
      assert FromBucket(q)[1..] == Ending(q);
    } else {
      assert FromBucket(q) == Ending(q);
    }
  }

  lemma MatchersRead(l: Option<Listing<Filter>>, rest: seq<Token>)
    requires (l.Some? ==> ListingOk(l.value)) && !Starts(rest, Mark('{'))
    ensures var ts := (if l.Some? then [Mark('{')] + FilterList(l.value.items, l.value.trailing) else []) + rest;
      ReadMatchers(ts) == Some(Parsed(ItemsOf(l), rest))
  {
    var ts := (if l.Some? then [Mark('{')] + FilterList(l.value.items, l.value.trailing) else []) + rest;
    if l.Some? {
      FiltersRead(l.value.items, l.value.trailing, rest);
      assert ts[1..] == FilterList(l.value.items, l.value.trailing) + rest;
    } else {
      assert ts == rest;
    }
  }

  lemma SelectorRead(q: Query, wrapped: Option<seq<string>>)
    requires Grammatical(q) && wrapped == (if q.wrapped then Some(ItemsOf(q.front)) else None)
    ensures ReadSelector(FromMetric(q), wrapped, q.ranged) == Some(ShapeOf(q))
  {
    BucketRead(q);
    MatchersRead(q.filters, FromBucket(q));
    EndingRead(q, wrapped, ItemsOf(q.filters));
    assert FromMetric(q)[1..] == FromFilters(q);
  }

  /** What can follow a metric: anything but an opening parenthesis. */
  lemma AfterMetric(q: Query)
    ensures !Starts(FromFilters(q), Mark('('))
    ensures Starts(FromFilters(q), Ident(BY)) ==> FromFilters(q) == ByClause(q.back) && q.back.Some? && !q.wrapped && !q.ranged
  {
  }

  lemma RangeRead(q: Query)
    ensures ReadRange(FromRange(q)) == Some(Parsed(q.ranged, FromMetric(q)))
  {
    AfterMetric(q);
    if q.ranged {
      assert FromRange(q)[2..] == FromMetric(q);
    } else {
      assert FromRange(q) == FromMetric(q);
      assert FromMetric(q)[1..] == FromFilters(q);
    }
  }

  lemma FrontRead(l: Listing<string>, rest: seq<Token>)
    requires l.items != []
    ensures ReadWrapper([Ident(SUM)] + ByClause(Some(l)) + [Mark('(')] + rest) == Some(Parsed(Some(l.items), rest))
  {
    var tail := [Mark('(')] + rest;
    var ts := [Ident(SUM)] + (ByClause(Some(l)) + tail);
    ByRead(l, tail);
    assert ts[1..] == ByClause(Some(l)) + tail && ts[1..][1..] == ts[2..] && tail[1..] == rest;
    assert [Ident(SUM)] + ByClause(Some(l)) + [Mark('(')] + rest == ts;
  }

  lemma WrapperRead(q: Query)
    requires Grammatical(q)
    ensures ReadWrapper(Render(q)) == Some(Parsed(if q.wrapped then Some(ItemsOf(q.front)) else None, FromRange(q)))
  {
    if q.wrapped && q.front.Some? {
      FrontRead(q.front.value, FromRange(q));
    } else if q.wrapped {
      SumRead(FromRange(q));
    } else {
      BareRead(q);
    }
  }

  lemma SumRead(rest: seq<Token>)
    ensures ReadWrapper([Ident(SUM)] + ByClause(None) + [Mark('(')] + rest) == Some(Parsed(Some([]), rest))
  {
  }

  lemma BareRead(q: Query)
    requires Grammatical(q) && !q.wrapped
    ensures ReadWrapper(Render(q)) == Some(Parsed(None, FromRange(q)))
  {
    var ts := Render(q);
    assert ts == FromRange(q);
    AfterMetric(q);
    if q.ranged {
      assert ts[1] == Mark('(');
    } else {
      assert ts[1..] == FromFilters(q);
      if Starts(ts[1..], Ident(BY)) {
        ByRead(q.back.value, []);
        assert ByClause(q.back) + [] == ByClause(q.back);
        assert ts[2..] == ByClause(q.back)[1..];
      }
    }
  }

  lemma RenderedIsRead(q: Query)
    requires Grammatical(q)
    ensures ReadShape(Render(q)) == Some(ShapeOf(q))
  {
    WrapperRead(q);
    RangeRead(q);
    SelectorRead(q, if q.wrapped then Some(ItemsOf(q.front)) else None);
  }

  // ----- and whatever is read is a rendering -----

  lemma LabelsCons(name: string, items: seq<string>, trailing: bool)
    requires trailing ==> items != []
    ensures Labels([name] + items, trailing || items == []) == [Ident(name), Mark(',')] + Labels(items, trailing)
  {
  }

  lemma {:induction false} LabelsRendered(ts: seq<Token>) returns (trailing: bool)
    requires ReadLabels(ts).Some?
    ensures var p := ReadLabels(ts).value; ts == Labels(p.value, trailing) + p.rest && (trailing ==> p.value != [])
    decreases |ts|
  {
    trailing := false;
    if Starts(ts, Mark(')')) {
      assert ts == [Mark(')')] + ts[1..];
    } else if Starts(ts[1..], Mark(')')) {
      assert ts == [ts[0], Mark(')')] + ts[2..];
    } else {
      var more := LabelsRendered(ts[2..]);
      var items := ReadLabels(ts[2..]).value.value;
      LabelsCons(ts[0].name, items, more);
      trailing := more || items == [];
      assert ts == [ts[0], Mark(',')] + ts[2..];
    }
  }

  lemma FiltersCons(f: Filter, items: seq<Filter>, trailing: bool)
    requires trailing ==> items != []
    ensures FilterList([f] + items, trailing || items == []) == FilterTokens(f) + [Mark(',')] + FilterList(items, trailing)
  {
  }

  lemma {:induction false} FiltersRendered(ts: seq<Token>) returns (trailing: bool)
    requires ReadFilters(ts).Some?
    ensures var p := ReadFilters(ts).value; ts == FilterList(p.value, trailing) + p.rest && (trailing ==> p.value != [])
    decreases |ts|
  {
    trailing := false;
    if Starts(ts, Mark('}')) {
      assert ts == [Mark('}')] + ts[1..];
    } else {
      var f := Filter(ts[0].name, ts[2].value);
      assert ts == FilterTokens(f) + [ts[3]] + ts[4..];
      if ts[3] == Mark(',') {
        var more := FiltersRendered(ts[4..]);
        var items := ReadFilters(ts[4..]).value.value;
        FiltersCons(f, items, more);
        trailing := more || items == [];
      }
    }
  }

  lemma ByRendered(ts: seq<Token>) returns (l: Listing<string>)
    requires Starts(ts, Ident(BY)) && ReadBy(ts[1..]).Some?
    ensures var p := ReadBy(ts[1..]).value; l.items == p.value != [] && ts == ByClause(Some(l)) + p.rest
  {
    var t := LabelsRendered(ts[2..]);
    var p := ReadBy(ts[1..]).value;
    l := Listing(p.value, t);
    assert ts[1..][1..] == ts[2..];
    assert ts == [ts[0], ts[1]] + ts[2..];
  }

  lemma {:induction false} CloseRendered(ts: seq<Token>, n: nat)
    requires ReadClose(ts, n).Some?
    ensures ts == Close(n) + ReadClose(ts, n).value
  {
    if n == 0 {
    } else {
      CloseRendered(ts[1..], n - 1);
      assert ts == [ts[0]] + ts[1..];
    }
  }

  /** The end of a query: its closing parentheses and possibly a group-by. */
  lemma EndingRendered(ts: seq<Token>, n: nat) returns (back: Option<Listing<string>>)
    requires ReadClose(ts, n).Some? && ReadBack(ReadClose(ts, n).value).Some?
    ensures ts == Close(n) + ByClause(back) && ItemsOf(back) == ReadBack(ReadClose(ts, n).value).value
    ensures back.Some? ==> back.value.items != []
  {
    CloseRendered(ts, n);
    var c := ReadClose(ts, n).value;
    back := None;
    if c != [] {
      var l := ByRendered(c);
      back := Some(l);
      assert ByClause(back) + [] == ByClause(back);
    }
  }

  lemma MatchersRendered(ts: seq<Token>) returns (filters: Option<Listing<Filter>>)
    requires ReadMatchers(ts).Some?
    ensures ItemsOf(filters) == ReadMatchers(ts).value.value && (filters.Some? ==> ListingOk(filters.value))
    ensures ts == (if filters.Some? then [Mark('{')] + FilterList(filters.value.items, filters.value.trailing) else []) + ReadMatchers(ts).value.rest
  {
    filters := None;
    if Starts(ts, Mark('{')) {
      var t := FiltersRendered(ts[1..]);
      filters := Some(Listing(ReadMatchers(ts).value.value, t));
      assert ts == [Mark('{')] + ts[1..];
    }
  }

  lemma BucketRendered(ts: seq<Token>) returns (bucket: Option<string>)
    requires ReadBucket(ts).Some?
    ensures bucket.Some? == ReadBucket(ts).value.value && (bucket.Some? ==> RangeOk(bucket.value))
    ensures ts == (if bucket.Some? then [Bracketed(bucket.value)] else []) + ReadBucket(ts).value.rest
  {
    bucket := None;
    if ts != [] && ts[0].Bracketed? {
      bucket := Some(ts[0].raw);
      assert ts == [ts[0]] + ts[1..];
    }
  }

  lemma SelectorRendered(ts: seq<Token>, front: Option<Listing<string>>, wrapped: Option<seq<string>>, ranged: bool) returns (q: Query)
    requires wrapped == None ==> front == None
    requires wrapped.Some? ==> wrapped.value == ItemsOf(front) && (front.Some? ==> wrapped.value != [])
    requires ReadSelector(ts, wrapped, ranged).Some?
    ensures Grammatical(q) && FromMetric(q) == ts && Some(ShapeOf(q)) == ReadSelector(ts, wrapped, ranged)
    ensures q.wrapped == wrapped.Some? && q.front == front && q.ranged == ranged
  {
    var m := ReadMatchers(ts[1..]).value;
    var filters := MatchersRendered(ts[1..]);
    var bucket := BucketRendered(m.rest);
    var b := ReadBucket(m.rest).value;
    var back := EndingRendered(b.rest, Opens(wrapped.Some?, ranged));
    q := Query(wrapped.Some?, front, ranged, ts[0].name, filters, bucket, back);
    assert b.rest == Ending(q);
    assert m.rest == FromBucket(q);
    assert ts[1..] == FromFilters(q);
    assert ts == [ts[0]] + ts[1..];
  }

  lemma WrapperRendered(ts: seq<Token>) returns (front: Option<Listing<string>>)
    requires ReadWrapper(ts).Some?
    ensures var p := ReadWrapper(ts).value;
      if p.value.None? then front == None && ts == p.rest
      else p.value.value == ItemsOf(front) && (front.Some? ==> p.value.value != []) &&
           ts == [Ident(SUM)] + ByClause(front) + [Mark('(')] + p.rest
  {
    front := None;
    if ReadWrapper(ts).value.value.Some? {
      if Starts(ts[1..], Mark('(')) {
        assert ts == [ts[0], ts[1]] + ts[2..];
      } else {
        assert ts[1..][1..] == ts[2..];
        var l := FrontRendered(ts);
        front := Some(l);
      }
    }
  }

  lemma FrontRendered(ts: seq<Token>) returns (l: Listing<string>)
    requires ts != [] && Starts(ts[1..], Ident(BY)) && ReadBy(ts[1..][1..]).Some?
    requires Starts(ReadBy(ts[1..][1..]).value.rest, Mark('('))
    ensures var p := ReadBy(ts[1..][1..]).value;
      l.items == p.value != [] && ts == [ts[0]] + ByClause(Some(l)) + [Mark('(')] + p.rest[1..]
  {
    l := ByRendered(ts[1..]);
    var r := ReadBy(ts[1..][1..]).value.rest;
    assert r == [r[0]] + r[1..];
    assert ts == [ts[0]] + ts[1..];
  }

  /** Tokens are read as a query of some shape exactly when they render one. */
  lemma ReadIffRendered(ts: seq<Token>, s: Shape)
    ensures ReadShape(ts) == Some(s) <==> exists q :: Grammatical(q) && Render(q) == ts && ShapeOf(q) == s
  {
    if ReadShape(ts) == Some(s) {
      var q := ShapeRendered(ts);
      assert Grammatical(q) && Render(q) == ts && ShapeOf(q) == s;
    }
    if q :| Grammatical(q) && Render(q) == ts && ShapeOf(q) == s {
      RenderedIsRead(q);
    }
  }

  lemma ShapeRendered(ts: seq<Token>) returns (q: Query)
    requires ReadShape(ts).Some?
    ensures Grammatical(q) && Render(q) == ts && Some(ShapeOf(q)) == ReadShape(ts)
  {
    var front := WrapperRendered(ts);
    var w := ReadWrapper(ts).value;
    var r := ReadRange(w.rest).value;
    q := SelectorRendered(r.rest, front, w.value, r.value);
    RangeRendered(w.rest);
    assert FromRange(q) == w.rest;
  }

  lemma RangeRendered(ts: seq<Token>)
    requires ReadRange(ts).Some?
    ensures ts == (if ReadRange(ts).value.value then [Ident(INCREASE), Mark('(')] else []) + ReadRange(ts).value.rest
  {
  }
}
