// The parser itself: a cursor that moves over the query text, backs up, and refuses whatever this
// server cannot answer.
module QueryParser {
  import opened Options
  import opened QueryLexer
  import opened QueryGrammar
  import opened Durations

  // ----- what a query asks for -----

  datatype ParsedQuery = ParsedQuery(isCost: bool, isEvents: bool, rawEvents: bool, groupBy: string, provider: Option<string>)

  predicate MetricOk(m: string) { m == "usage" || m == "toki_tokens_total" || m == "cost" || m == "events" }

  predicate Dimension(l: string) { l == "model" || l == "project" || l == "device_id" }

  /** Known labels, of which at most one is a dimension to group by; `type` needs no grouping. */
  ghost predicate LabelsOk(ls: seq<string>) {
    (forall i :: 0 <= i < |ls| ==> ls[i] == "type" || Dimension(ls[i])) &&
    forall i, j :: 0 <= i < |ls| && 0 <= j < |ls| && ls[i] != "type" && ls[j] != "type" ==> ls[i] == ls[j]
  }

  /** The first dimension named, `model` when there is none. */
  function Selected(ls: seq<string>): string {
    if ls == [] then "model" else if ls[0] != "type" then ls[0] else Selected(ls[1..])
  }

  /** Only `provider` filters, not empty, that agree. */
  ghost predicate FiltersOk(fs: seq<Filter>) {
    forall i :: 0 <= i < |fs| ==> fs[i].key == "provider" && fs[i].value != "" && fs[i].value == fs[0].value
  }

  function ProviderOf(fs: seq<Filter>): Option<string> { if fs == [] then None else Some(fs[0].value) }

  /** What the server will compute for a query of this shape, if it can. */
  ghost function Interpret(s: Shape): Option<ParsedQuery> {
    if !MetricOk(s.metric) || !LabelsOk(s.labels) || !FiltersOk(s.filters) then None else
      Some(ParsedQuery(s.metric == "cost", s.metric == "events",
                       s.metric == "events" && !s.wrapped && !s.ranged && !s.bucketed && s.labels == [],
                       Selected(s.labels), ProviderOf(s.filters)))
  }

  ghost function Understood(text: string): Option<ParsedQuery> {
    var s := ReadShape(Lex(text));
    if s.Some? then Interpret(s.value) else None
  }

  // ----- the cursor -----

  lemma LexSkips(s: string)
    ensures Lex(SkipSpace(s)) == Lex(s) && SkipSpace(SkipSpace(s)) == SkipSpace(s)
  {
  }

  lemma LexFirst(t: string)
    requires t != "" && !Space(t[0])
    ensures Lex(t) != [] && Lex(t)[0] == First(t).0 && Lex(t)[1..] == Lex(First(t).1)
  {
  }

  /** The marks the grammar uses, but for quotes and brackets. */
  predicate PlainMark(c: char) { c == '(' || c == ')' || c == '{' || c == '}' || c == '=' || c == ',' }

  class QueryCursor {
    const src: string
    var pos: nat

    ghost predicate Valid()
      reads this
    {
      pos <= |src|
    }

    /** What is left of the text. */
    function Rest(): string
      reads this
      requires Valid()
    {
      src[pos..]
    }

    ghost function Left(): seq<Token>
      reads this
      requires Valid()
    {
      Lex(Rest())
    }

    constructor (src: string)
      ensures Valid() && this.src == src && pos == 0
    {
      this.src, pos := src, 0;
    }

    function Peek(): Option<char>
      reads this
    {
      if pos < |src| then Some(src[pos]) else None
    }

    method SkipWs()
      requires Valid()
      modifies this
      ensures Valid() && Rest() == SkipSpace(old(Rest())) && Left() == old(Left())
    {
      ghost var start := pos;
      while pos < |src| && Space(src[pos])
        invariant pos <= |src| && SkipSpace(src[pos..]) == SkipSpace(src[start..])
      {
        assert src[pos..][1..] == src[pos + 1..];
        pos := pos + 1;
      }
      assert pos < |src| ==> src[pos..][0] == src[pos];
      LexSkips(src[start..]);
    }

    /** Is this mark next? */
    method NextIs(c: char) returns (b: bool)
      requires Valid() && PlainMark(c)
      modifies this
      ensures Valid() && Left() == old(Left()) && (b <==> Starts(Left(), Mark(c)))
      ensures Rest() == SkipSpace(Rest()) && (b ==> pos < |src| && src[pos] == c)
    {
      SkipWs();
      LexSkips(old(Rest()));
      if pos < |src| { LexFirst(src[pos..]); }
      b := Peek() == Some(c);
    }

    method Eat(c: char) returns (b: bool)
      requires Valid() && PlainMark(c)
      modifies this
      ensures Valid() && (b <==> Starts(old(Left()), Mark(c)))
      ensures Left() == if b then old(Left())[1..] else old(Left())
    {
      b := NextIs(c);
      if b {
        LexFirst(src[pos..]);
        assert src[pos..][1..] == src[pos + 1..];
        pos := pos + 1;
      }
    }

    method ScanIdent()
      requires Valid()
      modifies this
      ensures Valid() && pos == old(pos) + IdentRun(old(Rest()))
    {
      ghost var start := pos;
      while pos < |src| && IdentChar(src[pos])
        invariant start <= pos <= |src| && IdentRun(src[start..]) == pos - start + IdentRun(src[pos..])
      {
        assert src[pos..][1..] == src[pos + 1..];
        pos := pos + 1;
      }
    }

    method ScanQuote()
      requires Valid()
      modifies this
      ensures Valid() && pos == old(pos) + QuoteRun(old(Rest()))
    {
      ghost var start := pos;
      while pos < |src| && !EndsQuote(src[pos])
        invariant start <= pos <= |src| && QuoteRun(src[start..]) == pos - start + QuoteRun(src[pos..])
      {
        assert src[pos..][1..] == src[pos + 1..];
        pos := pos + 1;
      }
    }

    method ScanBracket()
      requires Valid()
      modifies this
      ensures Valid() && pos == old(pos) + BracketRun(old(Rest()))
    {
      ghost var start := pos;
      while pos < |src| && src[pos] != ']'
        invariant start <= pos <= |src| && BracketRun(src[start..]) == pos - start + BracketRun(src[pos..])
      {
        assert src[pos..][1..] == src[pos + 1..];
        pos := pos + 1;
      }
    }

    method Identifier() returns (r: Option<string>)
      requires Valid()
      modifies this
      ensures Valid() && (r.Some? <==> old(Left()) != [] && old(Left())[0].Ident?)
      ensures r.Some? ==> r.value == old(Left())[0].name && Left() == old(Left())[1..]
      ensures r.None? ==> Left() == old(Left())
    {
      SkipWs();
      ghost var t := Rest();
      LexHead(t);
      var start := pos;
      ScanIdent();
      assert t[..pos - start] == src[start..pos] && t[pos - start..] == src[pos..];
      r := if pos > start then Some(src[start..pos]) else None;
    }

    /** The opening character must be next. */
    method Open(c: char) returns (b: bool)
      requires Valid()
      modifies this
      ensures Valid() && (b <==> SkipSpace(old(Rest())) != "" && SkipSpace(old(Rest()))[0] == c)
      ensures if b then pos > 0 && SkipSpace(old(Rest())) == src[pos - 1..] else Left() == old(Left())
    {
      SkipWs();
      b := Peek() == Some(c);
      if b {
        pos := pos + 1;
      }
    }

    /** Up to the closing quote; escapes are refused. */
    method QuoteBody() returns (r: Option<string>)
      requires Valid() && pos > 0 && src[pos - 1] == '"'
      modifies this
      ensures Valid() && First(src[old(pos) - 1..]) == if r.Some? then (Quoted(r.value), Rest()) else (Bad('"'), "")
    {
      var start := pos;
      ScanQuote();
      Slices(src, start, pos - start);
      if pos == |src| || src[pos] == '\\' {
        return None;
      }
      r := Some(src[start..pos]);
      pos := pos + 1;
    }

    method BracketBody() returns (r: Option<string>)
      requires Valid() && pos > 0 && src[pos - 1] == '['
      modifies this
      ensures Valid() && First(src[old(pos) - 1..]) == if r.Some? then (Bracketed(r.value), Rest()) else (Bad('['), "")
    {
      var start := pos;
      ScanBracket();
      Slices(src, start, pos - start);
      if pos == |src| {
        return None;
      }
      r := Some(src[start..pos]);
      pos := pos + 1;
    }

    method QuotedValue() returns (r: Option<string>)
      requires Valid()
      modifies this
      ensures Valid() && (r.Some? <==> old(Left()) != [] && old(Left())[0].Quoted?)
      ensures r.Some? ==> r.value == old(Left())[0].value && Left() == old(Left())[1..]
    {
      LexHead(Rest());
      var b := Open('"');
      if !b {
        return None;
      }
      r := QuoteBody();
    }

    /** What `[` opens: the text up to `]`. */
    method BracketValue() returns (found: bool, r: Option<string>)
      requires Valid()
      modifies this
      ensures Valid() && (found <==> old(Left()) != [] && (old(Left())[0].Bracketed? || old(Left())[0] == Bad('[')))
      ensures !found ==> Left() == old(Left())
      ensures found ==> (r.Some? <==> old(Left())[0].Bracketed?)
      ensures found && r.Some? ==> r.value == old(Left())[0].raw && Left() == old(Left())[1..]
    {
      LexHead(Rest());
      found := Open('[');
      if !found {
        return false, None;
      }
      r := BracketBody();
    }
  }

  /** Positions in the text and in the part that starts one character before `start`. */
  lemma Slices(src: string, start: nat, n: nat)
    requires 0 < start && start + n <= |src|
    ensures var t := src[start - 1..];
      t[1..] == src[start..] && t[1..n + 1] == src[start..start + n] &&
      (start + n < |src| ==> t[n + 1] == src[start + n] && t[n + 2..] == src[start + n + 1..])
  {
  }

  // ----- the parts of a query -----

  function Outcome<T>(r: Option<T>, rest: seq<Token>): Option<Parsed<T>> {
    if r.Some? then Some(Parsed(r.value, rest)) else None
  }

  function PrependAll<T>(xs: seq<T>, p: Option<Parsed<seq<T>>>): Option<Parsed<seq<T>>> {
    if p.None? then None else Some(Parsed(xs + p.value.value, p.value.rest))
  }

  lemma PrependNone<T>(p: Option<Parsed<seq<T>>>)
    ensures PrependAll([], p) == p
  {
    if p.Some? { assert [] + p.value.value == p.value.value; }
  }

  lemma PrependEnd<T>(xs: seq<T>, rest: seq<Token>)
    ensures PrependAll(xs, Some(Parsed([], rest))) == Some(Parsed(xs, rest))
  {
    assert xs + [] == xs;
  }

  lemma PrependOneMore<T>(xs: seq<T>, x: T, p: Option<Parsed<seq<T>>>)
    ensures PrependAll(xs, Prepend(x, p)) == PrependAll(xs + [x], p)
  {
    if p.Some? { assert xs + ([x] + p.value.value) == xs + [x] + p.value.value; }
  }

  /** The labels after `by`. */
  method ByLabels(c: QueryCursor) returns (r: Option<seq<string>>)
    requires c.Valid()
    modifies c
    ensures c.Valid() && Outcome(r, c.Left()) == ReadBy(old(c.Left()))
  {
    var b := c.Eat('(');
    if !b { return None; }
    ghost var all := ReadLabels(c.Left());
    var labels: seq<string> := [];
    PrependNone(all);
    while true
      invariant c.Valid() && all == PrependAll(labels, ReadLabels(c.Left()))
      decreases |c.Left()|
    {
      b := c.Eat(')');
      if b {
        PrependEnd(labels, c.Left());
        break;
      }
      ghost var ts := c.Left();
      var name := c.Identifier();
      if name.None? { return None; }
      LabelNext(ts, labels, name.value);
      b := c.Eat(',');
      if b {
        labels := labels + [name.value];
        continue;
      }
      b := c.Eat(')');
      if !b { return None; }
      labels := labels + [name.value];
      break;
    }
    r := if labels == [] then None else Some(labels);
  }

  /** After a label, the list goes on with a comma or ends. */
  lemma LabelNext(ts: seq<Token>, labels: seq<string>, name: string)
    requires ts != [] && ts[0] == Ident(name)
    ensures var p := PrependAll(labels, ReadLabels(ts));
      (Starts(ts[1..], Mark(',')) ==> p == PrependAll(labels + [name], ReadLabels(ts[1..][1..]))) &&
      (Starts(ts[1..], Mark(')')) ==> p == Some(Parsed(labels + [name], ts[1..][1..]))) &&
      (!Starts(ts[1..], Mark(',')) && !Starts(ts[1..], Mark(')')) ==> p == None)
  {
    if |ts| > 1 {
      assert ts[1..][1..] == ts[2..];
      if ts[1] == Mark(',') { PrependOneMore(labels, name, ReadLabels(ts[2..])); }
    }
  }

  /** The optional aggregation: `sum (` or `sum by (…) (`; backs up when there is none. */
  method ParseWrapper(c: QueryCursor) returns (r: Option<Option<seq<string>>>)
    requires c.Valid()
    modifies c
    ensures c.Valid() && Outcome(r, c.Left()) == ReadWrapper(old(c.Left()))
  {
    var mark := c.pos;
    var id := c.Identifier();
    if id.None? { return Some(None); }
    var call := c.NextIs('(');
    var wrapper := call && id.value != INCREASE;
    var labels: seq<string> := [];
    if !wrapper {
      var next := c.Identifier();
      if next == Some(BY) {
        var parsed := ByLabels(c);
        if parsed.None? { return None; }
        wrapper := c.NextIs('(');
        labels := parsed.value;
      }
    }
    if !wrapper {
      c.pos := mark;
      return Some(None);
    }
    if id.value != SUM { return None; }
    var b := c.Eat('(');
    r := Some(Some(labels));
  }

  /** The optional `increase (`. */
  method ParseRange(c: QueryCursor) returns (r: Option<bool>)
    requires c.Valid()
    modifies c
    ensures c.Valid() && Outcome(r, c.Left()) == ReadRange(old(c.Left()))
  {
    var mark := c.pos;
    var id := c.Identifier();
    if id.None? { return Some(false); }
    var call := c.Eat('(');
    if !call {
      c.pos := mark;
      return Some(false);
    }
    r := if id.value == INCREASE then Some(true) else None;
  }

  /** One label matcher: a key, `=` and nothing else, and a quoted value. */
  method ParseFilter(c: QueryCursor) returns (r: Option<Filter>)
    requires c.Valid()
    modifies c
    ensures var ts := old(c.Left());
      c.Valid() && (r.Some? <==> |ts| > 2 && ts[0].Ident? && ts[1] == Mark('=') && ts[2].Quoted?) &&
      (r.Some? ==> r.value == Filter(ts[0].name, ts[2].value) && c.Left() == ts[3..])
  {
    ghost var ts := c.Left();
    var key := c.Identifier();
    if key.None? { return None; }
    var b := c.Eat('=');
    if !b { return None; }
    assert c.Left() == ts[2..];
    var value := c.QuotedValue();
    if value.None? { return None; }
    r := Some(Filter(key.value, value.value));
  }

  ghost predicate Acceptable(p: Option<Parsed<seq<Filter>>>) { p.Some? && FiltersOk(p.value.value) }

  /** The list of matchers after those seen so far, given what follows the last of them. */
  ghost predicate Follows(all: Option<Parsed<seq<Filter>>>, seen: seq<Filter>, rest: seq<Token>) {
    if Starts(rest, Mark(',')) then all == PrependAll(seen, ReadFilters(rest[1..]))
    else if Starts(rest, Mark('}')) then all == Some(Parsed(seen, rest[1..]))
    else all == None
  }

  /** One more matcher, checked against the provider known so far. */
  method ParseMatcher(c: QueryCursor, provider: Option<string>, ghost seen: seq<Filter>, ghost all: Option<Parsed<seq<Filter>>>)
    returns (r: Option<string>, ghost now: seq<Filter>)
    requires c.Valid() && FiltersOk(seen) && provider == ProviderOf(seen)
    requires all == PrependAll(seen, ReadFilters(c.Left())) && !Starts(c.Left(), Mark('}'))
    modifies c
    ensures c.Valid() && (r.None? ==> !Acceptable(all))
    ensures r.Some? ==> FiltersOk(now) && r == ProviderOf(now) && Follows(all, now, c.Left()) && |c.Left()| < |old(c.Left())|
  {
    ghost var ts := c.Left();
    now := seen;
    var f := ParseFilter(c);
    if f.None? { return None, now; }
    FilterNext(ts, seen, f.value);
    now := seen + [f.value];
    if f.value.key != "provider" || f.value.value == "" || (provider.Some? && provider.value != f.value.value) {
      BadFilter(seen, f.value, all);
      return None, now;
    }
    r := Some(f.value.value);
  }

  lemma BadFilter(seen: seq<Filter>, f: Filter, all: Option<Parsed<seq<Filter>>>)
    requires FiltersOk(seen) && (all.Some? ==> seen + [f] <= all.value.value)
    requires f.key != "provider" || f.value == "" || (ProviderOf(seen).Some? && ProviderOf(seen).value != f.value)
    ensures !Acceptable(all)
  {
    if all.Some? {
      var fs := all.value.value;
      assert fs[|seen|] == (seen + [f])[|seen|] == f;
      if seen != [] { assert fs[0] == (seen + [f])[0] == seen[0]; }
    }
  }

  /** The optional label matchers, checked one by one as they are seen. */
  method ParseMatchers(c: QueryCursor) returns (r: Option<Option<string>>, ghost seen: seq<Filter>)
    requires c.Valid()
    modifies c
    ensures c.Valid() && (r.Some? <==> Acceptable(ReadMatchers(old(c.Left()))))
    ensures r.Some? ==> ReadMatchers(old(c.Left())) == Some(Parsed(seen, c.Left())) && r.value == ProviderOf(seen)
  {
    seen := [];
    var b := c.Eat('{');
    if !b { return Some(None), seen; }
    ghost var all := ReadFilters(c.Left());
    PrependNone(all);
    var provider: Option<string> := None;
    while true
      invariant c.Valid() && all == PrependAll(seen, ReadFilters(c.Left()))
      invariant FiltersOk(seen) && provider == ProviderOf(seen)
      decreases |c.Left()|
    {
      b := c.Eat('}');
      if b {
        PrependEnd(seen, c.Left());
        break;
      }
      provider, seen := ParseMatcher(c, provider, seen, all);
      if provider.None? { return None, seen; }
      b := c.Eat(',');
      if b { continue; }
      b := c.Eat('}');
      if !b { return None, seen; }
      break;
    }
    r := Some(provider);
  }

  /** After a matcher, the list goes on with a comma or ends; a bad matcher spoils all of it. */
  lemma FilterNext(ts: seq<Token>, seen: seq<Filter>, f: Filter)
    requires |ts| > 2 && ts[0] == Ident(f.key) && ts[1] == Mark('=') && ts[2] == Quoted(f.value)
    ensures var p := PrependAll(seen, ReadFilters(ts)); Follows(p, seen + [f], ts[3..]) && (p.Some? ==> seen + [f] <= p.value.value)
  {
    if |ts| > 3 {
      assert ts[3..][1..] == ts[4..];
      if ts[3] == Mark(',') { PrependOneMore(seen, f, ReadFilters(ts[4..])); }
    }
  }

  /** The optional range selector, checked for syntax only. */
  method ParseBucket(c: QueryCursor) returns (r: Option<bool>)
    requires c.Valid()
    modifies c
    ensures c.Valid() && Outcome(r, c.Left()) == ReadBucket(old(c.Left()))
  {
    var found, raw := c.BracketValue();
    if !found { return Some(false); }
    if raw.None? { return None; }
    var secs := ParseDurationSecs(Trim(raw.value));
    r := if secs.Some? then Some(true) else None;
  }

  method ParseClose(c: QueryCursor, n: nat) returns (ok: bool)
    requires c.Valid()
    modifies c
    ensures c.Valid() && (if ok then Some(c.Left()) else None) == ReadClose(old(c.Left()), n)
  {
    for i := 0 to n
      invariant c.Valid() && ReadClose(old(c.Left()), n) == ReadClose(c.Left(), n - i)
    {
      var b := c.Eat(')');
      if !b { return false; }
    }
    return true;
  }

  /** The optional trailing group-by and the end of the text. */
  method ParseBack(c: QueryCursor) returns (r: Option<seq<string>>)
    requires c.Valid()
    modifies c
    ensures c.Valid() && r == ReadBack(old(c.Left()))
  {
    var mark := c.pos;
    var labels: seq<string> := [];
    var id := c.Identifier();
    if id == Some(BY) {
      r := ByLabels(c);
      if r.None? { return None; }
      labels := r.value;
    } else {
      c.pos := mark;
    }
    c.SkipWs();
    LexHead(c.Rest());
    r := if c.pos == |c.src| then Some(labels) else None;
  }

  /** The grouping dimension the labels select, if the server supports them. */
  method Resolve(labels: seq<string>) returns (r: Option<string>)
    ensures r == if LabelsOk(labels) then Some(Selected(labels)) else None
  {
    var selected: Option<string> := None;
    for i := 0 to |labels|
      invariant LabelsOk(labels[..i])
      invariant forall j :: 0 <= j < i && labels[j] != "type" ==> selected == Some(labels[j])
      invariant selected.Some? ==> exists j :: 0 <= j < i && labels[j] != "type"
    {
      if labels[i] != "type" {
        if !Dimension(labels[i]) || (selected.Some? && selected.value != labels[i]) {
          return None;
        }
        selected := Some(labels[i]);
      }
    }
    assert labels[..|labels|] == labels;
    SelectedIs(labels, selected);
    r := Some(if selected.Some? then selected.value else "model");
  }

  lemma {:induction false} SelectedIs(labels: seq<string>, selected: Option<string>)
    requires forall j :: 0 <= j < |labels| && labels[j] != "type" ==> selected == Some(labels[j])
    ensures Selected(labels) == if exists j :: 0 <= j < |labels| && labels[j] != "type" then selected.value else "model"
  {
    if labels != [] && labels[0] == "type" {
      SelectedIs(labels[1..], selected);
      if j :| 0 <= j < |labels| && labels[j] != "type" { assert labels[1..][j - 1] == labels[j]; }
    }
  }

  // ----- the parser -----

  /** Parses a query, or refuses it. */
  method ParseTokiVirtualQuery(text: string) returns (r: Option<ParsedQuery>)
    ensures r == Understood(text)
  {
    var c := new QueryCursor(text);
    assert text[0..] == text;
    var w := ParseWrapper(c);
    if w.None? { return None; }
    var g := ParseRange(c);
    if g.None? { return None; }
    r := ParseSelector(c, w.value, g.value);
  }

  method ParseSelector(c: QueryCursor, wrapped: Option<seq<string>>, ranged: bool) returns (r: Option<ParsedQuery>)
    requires c.Valid()
    modifies c
    ensures r == Interpreted(ReadSelector(old(c.Left()), wrapped, ranged))
  {
    var metric := c.Identifier();
    if metric.None? || !MetricOk(metric.value) { return None; }
    var provider, filters := ParseMatchers(c);
    if provider.None? { return None; }
    var bucketed := ParseBucket(c);
    if bucketed.None? { return None; }
    r := ParseEnding(c, wrapped, ranged, metric.value, filters, provider.value, bucketed.value);
  }

  ghost function Interpreted(s: Option<Shape>): Option<ParsedQuery> { if s.Some? then Interpret(s.value) else None }

  method ParseEnding(c: QueryCursor, wrapped: Option<seq<string>>, ranged: bool, metric: string, ghost filters: seq<Filter>,
                     provider: Option<string>, bucketed: bool) returns (r: Option<ParsedQuery>)
    requires c.Valid() && MetricOk(metric) && FiltersOk(filters) && provider == ProviderOf(filters)
    modifies c
    ensures r == Interpreted(ReadEnding(old(c.Left()), wrapped, ranged, metric, filters, bucketed))
  {
    var closed := ParseClosing(c, Opens(wrapped.Some?, ranged));
    if !closed { return None; }
    var front := if wrapped.Some? then wrapped.value else [];
    var grouping := ParseGrouping(c, front);
    if grouping.None? { return None; }
    var labels := grouping.value;
    var groupBy := Resolve(labels);
    AnswerFor(Shape(wrapped.Some?, ranged, metric, filters, bucketed, labels), provider);
    if groupBy.None? { return None; }
    var events := metric == "events";
    r := Some(ParsedQuery(metric == "cost", events, events && wrapped.None? && !ranged && !bucketed && labels == [], groupBy.value, provider));
  }

  /** No `offset`, and the parentheses that are open. */
  method ParseClosing(c: QueryCursor, n: nat) returns (ok: bool)
    requires c.Valid()
    modifies c
    ensures c.Valid() && (ok ==> ReadClose(old(c.Left()), n) == Some(c.Left()))
    ensures !ok ==> var rest := ReadClose(old(c.Left()), n); rest.None? || ReadBack(rest.value).None?
  {
    var mark := c.pos;
    var id := c.Identifier();
    if id == Some("offset") { return false; }
    c.pos := mark;
    ok := ParseClose(c, n);
  }

  /** The labels to group by, which stand in front or behind but not in both places. */
  method ParseGrouping(c: QueryCursor, front: seq<string>) returns (r: Option<seq<string>>)
    requires c.Valid()
    modifies c
    ensures r == var back := ReadBack(old(c.Left()));
      if back.None? || (front != [] && back.value != []) then None else Some(if front != [] then front else back.value)
  {
    var back := ParseBack(c);
    if back.None? || (front != [] && back.value != []) { return None; }
    r := Some(if front != [] then front else back.value);
  }

  /** With the metric and the filters checked, the labels decide. */
  lemma AnswerFor(s: Shape, provider: Option<string>)
    requires MetricOk(s.metric) && FiltersOk(s.filters) && provider == ProviderOf(s.filters)
    ensures Interpret(s) == if !LabelsOk(s.labels) then None else
      Some(ParsedQuery(s.metric == "cost", s.metric == "events",
                       s.metric == "events" && !s.wrapped && !s.ranged && !s.bucketed && s.labels == [], Selected(s.labels), provider))
  {
  }

  // ----- what is accepted -----

  lemma {:induction false} LabelsClean(items: seq<string>, trailing: bool)
    ensures Clean(Labels(items, trailing))
  {
    if |items| > 1 {
      LabelsClean(items[1..], trailing);
    }
  }

  lemma {:induction false} FiltersClean(items: seq<Filter>, trailing: bool)
    ensures Clean(FilterList(items, trailing))
  {
    if |items| > 1 {
      FiltersClean(items[1..], trailing);
    }
  }

  lemma {:induction false} CloseClean(n: nat)
    ensures Clean(Close(n))
  {
    if n == 0 {
    } else {
      CloseClean(n - 1);
    }
  }

  lemma RenderClean(q: Query)
    ensures Clean(Render(q))
  {
    ByClauseClean(q.front);
    ByClauseClean(q.back);
    if q.filters.Some? { FiltersClean(q.filters.value.items, q.filters.value.trailing); }
    CloseClean(Opens(q.wrapped, q.ranged));
    assert Clean(FromBucket(q));
    assert Clean(FromFilters(q));
    assert Clean(FromRange(q));
  }

  lemma ByClauseClean(l: Option<Listing<string>>)
    ensures Clean(ByClause(l))
  {
    if l.Some? { LabelsClean(l.value.items, l.value.trailing); }
  }

  /** A text is accepted with a meaning exactly when it spells some query of the grammar, with any
      white space between its tokens, and that is the query's meaning. */
  lemma AcceptedIffGrammatical(text: string, m: ParsedQuery)
    ensures Understood(text) == Some(m)
        <==> exists q :: Grammatical(q) && Spells(text, Render(q)) && Interpret(ShapeOf(q)) == Some(m)
  {
    var ts := Lex(text);
    if Understood(text) == Some(m) {
      var q := ShapeRendered(ts);
      RenderClean(q);
      LexIffSpells(text, Render(q));
      assert Grammatical(q) && Spells(text, Render(q)) && Interpret(ShapeOf(q)) == Some(m);
    }
    if q :| Grammatical(q) && Spells(text, Render(q)) && Interpret(ShapeOf(q)) == Some(m) {
      LexIffSpells(text, Render(q));
      RenderedIsRead(q);
    }
  }

  function Joined(pieces: seq<string>): string { if pieces == [] then "" else pieces[0] + Joined(pieces[1..]) }

  /** The piece is this token, perhaps after a blank, and the next piece does not run into it. */
  predicate Fits(piece: string, t: Token, next: seq<string>) {
    TokenOk(t) && (piece == Text(t) || piece == " " + Text(t)) &&
    (t.Ident? && next != [] ==> next[0] != "" && !IdentChar(next[0][0]))
  }

  lemma {:induction false} JoinedSpells(pieces: seq<string>, ts: seq<Token>)
    requires |pieces| == |ts| && forall i :: 0 <= i < |ts| ==> Fits(pieces[i], ts[i], pieces[i + 1..])
    ensures Spells(Joined(pieces), ts)
    decreases |pieces|
  {
    if pieces != [] {
      forall i | 0 <= i < |ts[1..]| ensures Fits(pieces[1..][i], ts[1..][i], pieces[1..][i + 1..]) {
        assert pieces[1..][i + 1..] == pieces[i + 2..] && Fits(pieces[i + 1], ts[i + 1], pieces[i + 2..]);
      }
      JoinedSpells(pieces[1..], ts[1..]);
      assert Fits(pieces[0], ts[0], pieces[1..]);
      PieceBegins(pieces[0], ts[0], pieces[1..]);
    }
  }

  lemma PieceBegins(piece: string, t: Token, next: seq<string>)
    requires Fits(piece, t, next)
    ensures Begins(piece + Joined(next), if piece == Text(t) then "" else " ", t, Joined(next))
  {
    if next != [] && next[0] != "" { assert Joined(next)[0] == next[0][0]; }
  }

  predicate Names(q: Query, name: string) {
    (q.front.Some? && name in q.front.value.items) || (q.back.Some? && name in q.back.value.items)
  }

  predicate Filters(q: Query, f: Filter) { q.filters.Some? && f in q.filters.value.items }

  /** What this server can answer: four metrics, grouped by at most one of three dimensions, for at
      most one provider. */
  ghost predicate Supported(q: Query) {
    q.metric in {"usage", "toki_tokens_total", "cost", "events"} &&
    (forall l :: Names(q, l) ==> l in {"type", "model", "project", "device_id"}) &&
    (forall l, k :: Names(q, l) && Names(q, k) ==> l == k || l == "type" || k == "type") &&
    forall f, g :: Filters(q, f) && Filters(q, g) ==> f.key == "provider" && f.value != "" && f.value == g.value
  }

  /** Each part of the answer, read off the query. */
  ghost predicate Asks(q: Query, m: ParsedQuery) {
    (m.isCost <==> q.metric == "cost") && (m.isEvents <==> q.metric == "events") &&
    (m.rawEvents <==> q.metric == "events" && !q.wrapped && !q.ranged && q.bucket.None? && q.front.None? && q.back.None?) &&
    (if forall l :: Names(q, l) ==> l == "type" then m.groupBy == "model" else m.groupBy != "type" && Names(q, m.groupBy)) &&
    (if forall f :: !Filters(q, f) then m.provider == None else m.provider.Some? && Filters(q, Filter("provider", m.provider.value)))
  }

  /** A query of the grammar has a meaning exactly when it is supported, and then the one it asks for. */
  lemma MeaningExact(q: Query, m: ParsedQuery)
    requires Grammatical(q)
    ensures Interpret(ShapeOf(q)) == Some(m) <==> Supported(q) && Asks(q, m)
  {
    var s := ShapeOf(q);
    LabelsNamed(q);
    FiltersNamed(q);
    LabelsOkNamed(s.labels);
    SupportedExact(q);
    if Supported(q) {
      SelectedNamed(s.labels);
      GroupNamed(q, m);
      ProviderNamed(q, m);
    }
  }

  lemma SupportedExact(q: Query)
    requires Grammatical(q)
    ensures Interpret(ShapeOf(q)).Some? <==> Supported(q)
  {
    LabelsNamed(q);
    FiltersNamed(q);
    LabelsOkNamed(ShapeOf(q).labels);
  }

  lemma GroupNamed(q: Query, m: ParsedQuery)
    requires Grammatical(q) && Supported(q)
    ensures m.groupBy == Selected(ShapeOf(q).labels) <==>
      if forall l :: Names(q, l) ==> l == "type" then m.groupBy == "model" else m.groupBy != "type" && Names(q, m.groupBy)
  {
    LabelsNamed(q);
    SelectedNamed(ShapeOf(q).labels);
  }

  lemma ProviderNamed(q: Query, m: ParsedQuery)
    requires Grammatical(q) && Supported(q)
    ensures m.provider == ProviderOf(ShapeOf(q).filters) <==>
      if forall f :: !Filters(q, f) then m.provider == None else m.provider.Some? && Filters(q, Filter("provider", m.provider.value))
  {
    FiltersNamed(q);
    var fs := ShapeOf(q).filters;
    if fs != [] { assert Filters(q, fs[0]); }
  }

  lemma LabelsNamed(q: Query)
    requires Grammatical(q)
    ensures forall l :: Names(q, l) <==> l in ShapeOf(q).labels
    ensures ShapeOf(q).labels == [] <==> q.front.None? && q.back.None?
  {
  }

  lemma LabelsOkNamed(ls: seq<string>)
    ensures LabelsOk(ls) <==>
      (forall l :: l in ls ==> l in {"type", "model", "project", "device_id"}) &&
      (forall l, k :: l in ls && k in ls ==> l == k || l == "type" || k == "type")
  {
    if LabelsOk(ls) {
      forall l, k | l in ls && k in ls ensures l == k || l == "type" || k == "type" {
        var i, j :| 0 <= i < |ls| && 0 <= j < |ls| && ls[i] == l && ls[j] == k;
      }
    }
    assert forall i :: 0 <= i < |ls| ==> ls[i] in ls;
  }

  lemma FiltersNamed(q: Query)
    requires Grammatical(q)
    ensures forall f :: Filters(q, f) <==> f in ShapeOf(q).filters
    ensures FiltersOk(ShapeOf(q).filters) <==>
      forall f, g :: Filters(q, f) && Filters(q, g) ==> f.key == "provider" && f.value != "" && f.value == g.value
  {
  }

  lemma {:induction false} SelectedNamed(ls: seq<string>)
    ensures if forall l :: l in ls ==> l == "type" then Selected(ls) == "model" else Selected(ls) != "type" && Selected(ls) in ls
  {
    if ls != [] && ls[0] == "type" {
      SelectedNamed(ls[1..]);
      assert forall l :: l in ls <==> l == "type" || l in ls[1..];
    } else if ls != [] {
      assert ls[0] in ls;
    }
  }

  /** The raw listing is meant exactly by the bare metric `events`, filtered or not: no wrapper, no
      range function, no bucket and no group-by (even one by `type`). */
  lemma RawEventsAreBare(q: Query, m: ParsedQuery)
    requires Grammatical(q) && Interpret(ShapeOf(q)) == Some(m)
    ensures m.rawEvents <==> q.metric == "events" && !q.wrapped && !q.ranged && q.bucket.None? && q.front.None? && q.back.None?
  {
  }

  /** `sum by (name) (increase(metric{provider="p"}[d]))`, as tokens and as text. */
  function FullTokens(name: string, metric: string, provider: string, d: string): seq<Token> {
    [Ident("sum"), Ident("by"), Mark('('), Ident(name), Mark(')'), Mark('('), Ident("increase"), Mark('('), Ident(metric), Mark('{'),
     Ident("provider"), Mark('='), Quoted(provider), Mark('}'), Bracketed(d), Mark(')'), Mark(')')]
  }

  function FullPieces(name: string, metric: string, provider: string, d: string): seq<string> {
    ["sum", " by", " (", name, ")", " (", "increase", "(", metric, "{", "provider", "=", "\"" + provider + "\"", "}", "[" + d + "]", ")", ")"]
  }

  function FullQuery(name: string, metric: string, provider: string, d: string): Query {
    Query(true, Some(Listing([name], false)), true, metric, Some(Listing([Filter("provider", provider)], false)), Some(d), None)
  }

  lemma FullFrontFits(name: string, metric: string, provider: string, d: string, i: nat)
    requires TokenOk(Ident(name)) && i < 8
    ensures Fits(FullPieces(name, metric, provider, d)[i], FullTokens(name, metric, provider, d)[i], FullPieces(name, metric, provider, d)[i + 1..])
  {
    var ps := FullPieces(name, metric, provider, d);
    assert ps[i + 1..][0] == ps[i + 1];
  }

  lemma FullBackFits(name: string, metric: string, provider: string, d: string, i: nat)
    requires TokenOk(Ident(metric)) && TokenOk(Quoted(provider)) && TokenOk(Bracketed(d)) && 8 <= i < 17
    ensures Fits(FullPieces(name, metric, provider, d)[i], FullTokens(name, metric, provider, d)[i], FullPieces(name, metric, provider, d)[i + 1..])
  {
    var ps := FullPieces(name, metric, provider, d);
    assert i < 16 ==> ps[i + 1..][0] == ps[i + 1];
  }

  lemma FullSpells(name: string, metric: string, provider: string, d: string)
    requires TokenOk(Ident(name)) && TokenOk(Ident(metric)) && TokenOk(Quoted(provider)) && TokenOk(Bracketed(d))
    ensures Spells(Joined(FullPieces(name, metric, provider, d)), FullTokens(name, metric, provider, d))
  {
    var ps, ts := FullPieces(name, metric, provider, d), FullTokens(name, metric, provider, d);
    forall i | 0 <= i < |ts| ensures Fits(ps[i], ts[i], ps[i + 1..]) {
      if i < 8 { FullFrontFits(name, metric, provider, d, i); } else { FullBackFits(name, metric, provider, d, i); }
    }
    JoinedSpells(ps, ts);
  }

  lemma FullRendered(name: string, metric: string, provider: string, d: string)
    ensures Render(FullQuery(name, metric, provider, d)) == FullTokens(name, metric, provider, d)
  {
    var q := FullQuery(name, metric, provider, d);
    assert ByClause(q.front) == [Ident("by"), Mark('('), Ident(name), Mark(')')];
    assert Close(Opens(true, true)) == [Mark(')'), Mark(')')];
    assert FromFilters(q) == [Mark('{'), Ident("provider"), Mark('='), Quoted(provider), Mark('}'), Bracketed(d), Mark(')'), Mark(')')];
  }

  lemma FullMeaning(name: string, metric: string, provider: string, d: string)
    requires metric in {"usage", "toki_tokens_total", "cost", "events"} && name in {"model", "project", "device_id"}
    requires provider != "" && RangeOk(d)
    ensures var q := FullQuery(name, metric, provider, d);
      Grammatical(q) && Interpret(ShapeOf(q)) == Some(ParsedQuery(metric == "cost", metric == "events", false, name, Some(provider)))
  {
    var q := FullQuery(name, metric, provider, d);
    var m := ParsedQuery(metric == "cost", metric == "events", false, name, Some(provider));
    assert Names(q, name) && Filters(q, Filter("provider", provider));
    MeaningExact(q, m);
  }

  lemma FullWords(name: string, metric: string)
    requires metric in {"usage", "toki_tokens_total", "cost", "events"} && name in {"model", "project", "device_id"}
    ensures TokenOk(Ident(metric)) && TokenOk(Ident(name))
  {
  }

  /** The full form of a query is understood as it reads. */
  lemma FullQueryUnderstood(name: string, metric: string, provider: string, d: string)
    requires metric in {"usage", "toki_tokens_total", "cost", "events"} && name in {"model", "project", "device_id"}
    requires provider != "" && (forall i :: 0 <= i < |provider| ==> provider[i] != '"' && provider[i] != '\\') && ']' !in d && RangeOk(d)
    ensures Understood(Joined(["sum", " by", " (", name, ")", " (", "increase", "(", metric, "{", "provider", "=", "\"" + provider + "\"", "}", "[" + d + "]", ")", ")"]))
      == Some(ParsedQuery(metric == "cost", metric == "events", false, name, Some(provider)))
  {
    FullWords(name, metric);
    FullSpells(name, metric, provider, d);
    FullRendered(name, metric, provider, d);
    FullMeaning(name, metric, provider, d);
    AcceptedIffGrammatical(Joined(FullPieces(name, metric, provider, d)), ParsedQuery(metric == "cost", metric == "events", false, name, Some(provider)));
  }

  /** `sum(increase(metric)) by (type, name,)`, as tokens and as text. */
  function TrailingTokens(name: string, metric: string): seq<Token> {
    [Ident("sum"), Mark('('), Ident("increase"), Mark('('), Ident(metric), Mark(')'), Mark(')'), Ident("by"), Mark('('), Ident("type"),
     Mark(','), Ident(name), Mark(','), Mark(')')]
  }

  function TrailingPieces(name: string, metric: string): seq<string> {
    ["sum", "(", "increase", "(", metric, ")", ")", " by", " (", "type", ",", " " + name, ",", ")"]
  }

  function TrailingQuery(name: string, metric: string): Query {
    Query(true, None, true, metric, None, None, Some(Listing(["type", name], true)))
  }

  lemma TrailingFits(name: string, metric: string, i: nat)
    requires TokenOk(Ident(name)) && TokenOk(Ident(metric)) && i < 14
    ensures Fits(TrailingPieces(name, metric)[i], TrailingTokens(name, metric)[i], TrailingPieces(name, metric)[i + 1..])
  {
    var ps := TrailingPieces(name, metric);
    assert i < 13 ==> ps[i + 1..][0] == ps[i + 1];
  }

  lemma TrailingSpells(name: string, metric: string)
    requires TokenOk(Ident(name)) && TokenOk(Ident(metric))
    ensures Spells(Joined(TrailingPieces(name, metric)), TrailingTokens(name, metric))
  {
    var ps, ts := TrailingPieces(name, metric), TrailingTokens(name, metric);
    forall i | 0 <= i < |ts| ensures Fits(ps[i], ts[i], ps[i + 1..]) { TrailingFits(name, metric, i); }
    JoinedSpells(ps, ts);
  }

  lemma TrailingRendered(name: string, metric: string)
    ensures Render(TrailingQuery(name, metric)) == TrailingTokens(name, metric)
  {
    var q := TrailingQuery(name, metric);
    assert ["type", name][1..] == [name];
    assert Labels(["type", name], true) == [Ident("type"), Mark(','), Ident(name), Mark(','), Mark(')')];
    assert Close(Opens(true, true)) == [Mark(')'), Mark(')')];
    assert FromFilters(q) == Ending(q);
  }

  lemma TrailingMeaning(name: string, metric: string)
    requires metric in {"usage", "toki_tokens_total", "cost", "events"} && name in {"model", "project", "device_id"}
    ensures var q := TrailingQuery(name, metric);
      Grammatical(q) && Interpret(ShapeOf(q)) == Some(ParsedQuery(metric == "cost", metric == "events", false, name, None))
  {
    var q := TrailingQuery(name, metric);
    assert forall l :: l in ["type", name] <==> l == "type" || l == name;
    MeaningExact(q, ParsedQuery(metric == "cost", metric == "events", false, name, None));
    assert Names(q, name);
  }

  /** So is the form with the grouping behind, of several labels. */
  lemma TrailingQueryUnderstood(name: string, metric: string)
    requires metric in {"usage", "toki_tokens_total", "cost", "events"} && name in {"model", "project", "device_id"}
    ensures Understood(Joined(["sum", "(", "increase", "(", metric, ")", ")", " by", " (", "type", ",", " " + name, ",", ")"]))
      == Some(ParsedQuery(metric == "cost", metric == "events", false, name, None))
  {
    FullWords(name, metric);
    TrailingSpells(name, metric);
    TrailingRendered(name, metric);
    TrailingMeaning(name, metric);
    AcceptedIffGrammatical(Joined(TrailingPieces(name, metric)), ParsedQuery(metric == "cost", metric == "events", false, name, None));
  }
}
