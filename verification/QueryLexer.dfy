// The words and marks of a query text, as the cursor of the query parser sees them.
module QueryLexer {
  /** `Bad` is a quote or bracket that is not closed properly. */
  datatype Token = Ident(name: string) | Mark(c: char) | Quoted(value: string) | Bracketed(raw: string) | Bad(open: char)

  predicate Space(c: char) { c == ' ' || c == '\t' || c == '\n' || c == '\r' || c == '\U{000C}' }

  predicate IdentChar(c: char) { 'a' <= c <= 'z' || 'A' <= c <= 'Z' || '0' <= c <= '9' || c == '_' }

  // ----- scanning -----

  function SkipSpace(s: string): (r: string)
    ensures |r| <= |s| && (r != "" ==> !Space(r[0]))
  {
    if s == "" || !Space(s[0]) then s else SkipSpace(s[1..])
  }

  function IdentRun(s: string): (n: nat)
    ensures n <= |s| && (forall i :: 0 <= i < n ==> IdentChar(s[i])) && (n < |s| ==> !IdentChar(s[n]))
  {
    if s == "" || !IdentChar(s[0]) then 0 else 1 + IdentRun(s[1..])
  }

  predicate EndsQuote(c: char) { c == '"' || c == '\\' }

  /** How far a quoted value reaches: up to the next quote or backslash. */
  function QuoteRun(s: string): (n: nat)
    ensures n <= |s| && (forall i :: 0 <= i < n ==> !EndsQuote(s[i])) && (n < |s| ==> EndsQuote(s[n]))
  {
    if s == "" || EndsQuote(s[0]) then 0 else 1 + QuoteRun(s[1..])
  }

  function BracketRun(s: string): (n: nat)
    ensures n <= |s| && (forall i :: 0 <= i < n ==> s[i] != ']') && (n < |s| ==> s[n] == ']')
  {
    if s == "" || s[0] == ']' then 0 else 1 + BracketRun(s[1..])
  }

  /** The token at the front of a text that starts with no space, and what follows it. */
  function First(t: string): (r: (Token, string))
    requires t != "" && !Space(t[0])
    ensures |r.1| < |t|
  {
    if IdentChar(t[0]) then
      var n := IdentRun(t);
      (Ident(t[..n]), t[n..])
    else if t[0] == '"' then
      var n := QuoteRun(t[1..]);
      if n < |t| - 1 && t[n + 1] == '"' then (Quoted(t[1..n + 1]), t[n + 2..]) else (Bad('"'), "")
    else if t[0] == '[' then
      var n := BracketRun(t[1..]);
      if n < |t| - 1 then (Bracketed(t[1..n + 1]), t[n + 2..]) else (Bad('['), "")
    else (Mark(t[0]), t[1..])
  }

  function Lex(s: string): seq<Token>
    decreases |s|
  {
    var t := SkipSpace(s);
    if t == "" then [] else
      var (tok, rest) := First(t);
      [tok] + Lex(rest)
  }

  // ----- what is spelled -----

  predicate TokenOk(t: Token) {
    match t
    case Ident(n) =>
      n != "" && forall i :: 0 <= i < |n| ==> 'a' <= n[i] <= 'z' || 'A' <= n[i] <= 'Z' || '0' <= n[i] <= '9' || n[i] == '_'
    case Mark(c) => !IdentChar(c) && !Space(c) && c != '"' && c != '['
    case Quoted(v) => forall i :: 0 <= i < |v| ==> v[i] != '"' && v[i] != '\\'
    case Bracketed(raw) => forall i :: 0 <= i < |raw| ==> raw[i] != ']'
    case Bad(_) => false
  }

  function Text(t: Token): string {
    match t
    case Ident(n) => n
    case Mark(c) => [c]
    case Quoted(v) => "\"" + v + "\""
    case Bracketed(raw) => "[" + raw + "]"
    case Bad(c) => [c]
  }

  ghost predicate AllSpace(s: string) { forall i :: 0 <= i < |s| ==> Space(s[i]) }

  /** Words do not run into what follows. */
  predicate Separated(t: Token, rest: string) { t.Ident? && rest != "" ==> !IdentChar(rest[0]) }

  ghost predicate Begins(s: string, gap: string, t: Token, rest: string) {
    s == gap + Text(t) + rest && AllSpace(gap) && TokenOk(t) && Separated(t, rest)
  }

  /** `s` is these tokens, with any white space before, between and after them. */
  ghost predicate Spells(s: string, ts: seq<Token>)
    decreases |ts|
  {
    if ts == [] then AllSpace(s)
    else exists gap, rest :: Begins(s, gap, ts[0], rest) && Spells(rest, ts[1..])
  }

  ghost predicate Clean(ts: seq<Token>) { forall i :: 0 <= i < |ts| ==> !ts[i].Bad? }

  lemma {:induction false} SkipGap(gap: string, t: string)
    requires AllSpace(gap) && (t == "" || !Space(t[0]))
    ensures SkipSpace(gap + t) == t
  {
    if gap == "" {
      assert gap + t == t;
    } else {
      assert (gap + t)[1..] == gap[1..] + t;
      SkipGap(gap[1..], t);
    }
  }

  lemma {:induction false} SkipSplits(s: string) returns (gap: string)
    ensures s == gap + SkipSpace(s) && AllSpace(gap)
  {
    if s == "" || !Space(s[0]) {
      gap := "";
    } else {
      var g := SkipSplits(s[1..]);
      gap := [s[0]] + g;
    }
  }

  lemma {:induction false} IdentRunOf(n: string, rest: string)
    requires (forall i :: 0 <= i < |n| ==> IdentChar(n[i])) && (rest == "" || !IdentChar(rest[0]))
    ensures IdentRun(n + rest) == |n|
  {
    if n == "" {
      assert n + rest == rest;
    } else {
      assert (n + rest)[1..] == n[1..] + rest;
      IdentRunOf(n[1..], rest);
    }
  }

  /** Skipped are exactly the leading ASCII white-space characters. */
  lemma {:induction false} SpaceSkipped(s: string)
    ensures |SkipSpace(s)| <= |s| && s[|s| - |SkipSpace(s)|..] == SkipSpace(s)
    ensures forall i :: 0 <= i < |s| - |SkipSpace(s)| ==> s[i] in {' ', '\t', '\n', '\r', '\U{000C}'}
    ensures SkipSpace(s) != "" ==> SkipSpace(s)[0] !in {' ', '\t', '\n', '\r', '\U{000C}'}
  {
    if s != "" && s[0] in {' ', '\t', '\n', '\r', '\U{000C}'} {
      SpaceSkipped(s[1..]);
      var n := |s| - |SkipSpace(s)|;
      assert n > 0 && s[n..] == s[1..][n - 1..];
      assert forall i :: 0 < i < n ==> s[i] == s[1..][i - 1];
    }
  }

  lemma {:induction false} QuoteRunOf(v: string, rest: string)
    requires (forall i :: 0 <= i < |v| ==> !EndsQuote(v[i])) && rest != "" && EndsQuote(rest[0])
    ensures QuoteRun(v + rest) == |v|
  {
    if v == "" {
      assert v + rest == rest;
    } else {
      assert (v + rest)[1..] == v[1..] + rest;
      QuoteRunOf(v[1..], rest);
    }
  }

  lemma {:induction false} BracketRunOf(raw: string, rest: string)
    requires (forall i :: 0 <= i < |raw| ==> raw[i] != ']') && rest != "" && rest[0] == ']'
    ensures BracketRun(raw + rest) == |raw|
  {
    if raw == "" {
      assert raw + rest == rest;
    } else {
      assert (raw + rest)[1..] == raw[1..] + rest;
      BracketRunOf(raw[1..], rest);
    }
  }

  lemma FindsQuoted(v: string, rest: string)
    requires TokenOk(Quoted(v))
    ensures First("\"" + v + "\"" + rest) == (Quoted(v), rest)
  {
    var s := "\"" + v + "\"" + rest;
    QuoteRunOf(v, "\"" + rest);
    assert s[1..] == v + ("\"" + rest);
    assert s[|v| + 1] == '"' && s[1..|v| + 1] == v && s[|v| + 2..] == rest;
  }

  lemma FindsBracketed(raw: string, rest: string)
    requires TokenOk(Bracketed(raw))
    ensures First("[" + raw + "]" + rest) == (Bracketed(raw), rest)
  {
    var s := "[" + raw + "]" + rest;
    BracketRunOf(raw, "]" + rest);
    assert s[1..] == raw + ("]" + rest);
    assert s[1..|raw| + 1] == raw && s[|raw| + 2..] == rest;
  }

  /** A proper token in front is the one that is found. */
  lemma FirstFinds(t: Token, rest: string)
    requires TokenOk(t) && Separated(t, rest)
    ensures var s := Text(t) + rest; s != "" && !Space(s[0]) && First(s) == (t, rest)
  {
    match t {
      case Ident(n) => IdentRunOf(n, rest);
      case Mark(c) =>
      case Quoted(v) => FindsQuoted(v, rest);
      case Bracketed(raw) => FindsBracketed(raw, rest);
    }
  }

  lemma QuotedSpelled(s: string, n: nat)
    requires n + 1 < |s| && s[0] == '"' && s[n + 1] == '"'
    ensures s == "\"" + s[1..n + 1] + "\"" + s[n + 2..]
  {
  }

  lemma BracketedSpelled(s: string, n: nat)
    requires n + 1 < |s| && s[0] == '[' && s[n + 1] == ']'
    ensures s == "[" + s[1..n + 1] + "]" + s[n + 2..]
  {
  }

  /** The token that is found is spelled in front, unless it is bad. */
  lemma FirstSpelled(s: string)
    requires s != "" && !Space(s[0]) && !First(s).0.Bad?
    ensures var (t, rest) := First(s); s == Text(t) + rest && TokenOk(t) && Separated(t, rest)
  {
    if s[0] == '"' {
      FirstQuotedSpelled(s);
    } else if s[0] == '[' {
      FirstBracketedSpelled(s);
    }
  }

  lemma FirstQuotedSpelled(s: string)
    requires s != "" && s[0] == '"' && !First(s).0.Bad?
    ensures s == Text(First(s).0) + First(s).1 && TokenOk(First(s).0) && First(s).0.Quoted?
  {
    QuotedSpelled(s, QuoteRun(s[1..]));
  }

  lemma FirstBracketedSpelled(s: string)
    requires s != "" && s[0] == '[' && !First(s).0.Bad?
    ensures s == Text(First(s).0) + First(s).1 && TokenOk(First(s).0) && First(s).0.Bracketed?
  {
    BracketedSpelled(s, BracketRun(s[1..]));
  }

  /** A text spells exactly the tokens that are found in it. */
  lemma {:induction false} LexIffSpells(s: string, ts: seq<Token>)
    ensures Spells(s, ts) <==> Lex(s) == ts && Clean(ts)
    decreases |ts|
  {
    if ts == [] {
      if AllSpace(s) { SkipGap(s, ""); assert s + "" == s; }
      var gap := SkipSplits(s);
    } else {
      if Spells(s, ts) {
        SpelledIsLexed(s, ts);
      }
      if Lex(s) == ts && Clean(ts) {
        LexedIsSpelled(s, ts);
      }
    }
  }

  /** The first token of a text and the tokens after it. */
  lemma LexHead(s: string)
    ensures var t := SkipSpace(s);
      if t == "" then Lex(s) == [] else Lex(s) == [First(t).0] + Lex(First(t).1) && Lex(s)[1..] == Lex(First(t).1)
  {
  }

  lemma GapLexed(gap: string, u: string)
    requires AllSpace(gap) && u != "" && !Space(u[0])
    ensures Lex(gap + u) == [First(u).0] + Lex(First(u).1)
  {
    SkipGap(gap, u);
    LexHead(gap + u);
  }

  lemma FrontLexed(s: string, gap: string, t: Token, rest: string)
    requires Begins(s, gap, t, rest)
    ensures Lex(s) == [t] + Lex(rest)
  {
    var u := Text(t) + rest;
    Regroup(gap, Text(t), rest);
    FirstFinds(t, rest);
    GapLexed(gap, u);
  }

  lemma CleanCons(t: Token, ts: seq<Token>)
    ensures Clean([t] + ts) <==> !t.Bad? && Clean(ts)
  {
    if Clean([t] + ts) {
      assert ([t] + ts)[0] == t;
      forall i | 0 <= i < |ts| ensures !ts[i].Bad? { assert ([t] + ts)[i + 1] == ts[i]; }
    }
  }

  lemma SpelledIsLexed(s: string, ts: seq<Token>)
    requires ts != [] && Spells(s, ts)
    ensures Lex(s) == ts && Clean(ts)
    decreases |ts|, 0
  {
    var rest := SpelledFront(s, ts);
    LexIffSpells(rest, ts[1..]);
    CleanCons(ts[0], ts[1..]);
    assert ts == [ts[0]] + ts[1..];
  }

  lemma SpelledFront(s: string, ts: seq<Token>) returns (rest: string)
    requires ts != [] && Spells(s, ts)
    ensures Spells(rest, ts[1..]) && Lex(s) == [ts[0]] + Lex(rest) && !ts[0].Bad?
  {
    var gap;
    gap, rest :| Begins(s, gap, ts[0], rest) && Spells(rest, ts[1..]);
    FrontLexed(s, gap, ts[0], rest);
  }

  lemma FrontSpelled(s: string) returns (gap: string)
    requires SkipSpace(s) != "" && !First(SkipSpace(s)).0.Bad?
    ensures var (t, rest) := First(SkipSpace(s)); Begins(s, gap, t, rest)
  {
    gap := SkipSplits(s);
    var u := SkipSpace(s);
    var t, rest := First(u).0, First(u).1;
    FirstSpelled(u);
    Regroup(gap, Text(t), rest);
  }

  lemma Regroup(a: string, b: string, c: string)
    ensures a + (b + c) == a + b + c
  {
  }

  lemma LexedIsSpelled(s: string, ts: seq<Token>)
    requires ts != [] && Lex(s) == ts && Clean(ts)
    ensures Spells(s, ts)
    decreases |ts|, 0
  {
    LexHead(s);
    var t, rest := First(SkipSpace(s)).0, First(SkipSpace(s)).1;
    assert ts == [t] + ts[1..] && t == ts[0];
    CleanCons(t, ts[1..]);
    var gap := FrontSpelled(s);
    LexIffSpells(rest, ts[1..]);
    assert Begins(s, gap, ts[0], rest);
  }
}
