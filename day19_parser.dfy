/** Day 19, `parser.rs`: the parser of one grammar line, `N: "x"` or
    `N: a b | c d`. Each combinator is a function from the remaining input to
    `None` (the combinator failed, and its caller backtracks) or the value it
    read and the input it left. `separated_list1` keeps the input from before
    a separator whenever the element after that separator fails. */
module Day19Parser {
  import opened Common
  import opened Day19Rule

  datatype Parsed<T> = Parsed(value: T, rest: string)

  predicate IsBlank(c: char) { c == ' ' || c == '\t' }

  /** The number of leading blanks (`space1` accepts spaces and tabs). */
  function BlankRun(s: string): (k: nat)
    ensures k <= |s| && forall m | 0 <= m < k :: IsBlank(s[m])
    ensures k < |s| ==> !IsBlank(s[k])
  {
    if |s| == 0 || !IsBlank(s[0]) then 0 else 1 + BlankRun(s[1..])
  }

  /** `index` (parser.rs:15-17): one or more decimal digits whose value fits
      a `usize` (`map_res` turns the failed `parse::<usize>` into a parse
      error). */
  function Index(s: string): (r: Option<Parsed<nat>>)
    ensures r.Some? <==> |s| > 0 && IsDigit(s[0]) && DigitsValue(s[..DigitRun(s)]) < UsizeLimit
    ensures r.Some? ==> r.value.value < UsizeLimit && |r.value.rest| < |s|
    ensures r.Some? ==> r.value.rest == [] || !IsDigit(r.value.rest[0])
  {
    var k := DigitRun(s);
    if k == 0 || DigitsValue(s[..k]) >= UsizeLimit then None else Some(Parsed(DigitsValue(s[..k]), s[k..]))
  }

  /** An index is the value of the digits it consumed, and the input is
      those digits followed by what is left. */
  lemma IndexParts(s: string)
    requires Index(s).Some?
    ensures var r := Index(s).value;
      && s == s[..|s| - |r.rest|] + r.rest
      && AllDigits(s[..|s| - |r.rest|]) && r.value == DigitsValue(s[..|s| - |r.rest|])
  {
    var k := DigitRun(s);
    assert s == s[..k] + s[k..];
  }

  /** `string` (parser.rs:19-22): `"`, one or more characters other than `"`,
      and `"`; the value is the text between the quotes. */
  function Quoted(s: string): (r: Option<Parsed<string>>)
    ensures r.Some? ==> |r.value.value| > 0 && '"' !in r.value.value
    ensures r.Some? ==> s == "\"" + r.value.value + "\"" + r.value.rest
  {
    if |s| == 0 || s[0] != '"' then None
    else
      var k := CountUntil(s[1..], '"');
      if k == 0 || 1 + k == |s| then None
      else
        assert s == "\"" + s[1..1 + k] + "\"" + s[k + 2..];
        Some(Parsed(s[1..1 + k], s[k + 2..]))
  }

  /** `space1`: one or more blanks. */
  function Space1(s: string): (r: Option<string>)
    ensures r.Some? ==> |r.value| < |s| && s == s[..|s| - |r.value|] + r.value
  {
    var k := BlankRun(s);
    if k == 0 then None else Some(s[k..])
  }

  /** `tag(t)`: the literal `t` itself. */
  function Tag(t: string, s: string): (r: Option<string>)
    ensures r.Some? <==> t <= s
    ensures r.Some? ==> s == t + r.value
  {
    if t <= s then Some(s[|t|..]) else None
  }

  /** The repetitions of `separated_list1(space1, index)` after its first
      element: each is a blank run and an index; when either fails, the list
      ends before the blanks. */
  function MoreIndices(s: string): (r: Parsed<seq<nat>>)
    ensures |r.rest| <= |s|
    decreases |s|
  {
    match Space1(s)
    case None => Parsed([], s)
    case Some(s1) =>
      match Index(s1)
      case None => Parsed([], s)
      case Some(p) =>
        var t := MoreIndices(p.rest);
        Parsed([p.value] + t.value, t.rest)
  }

  /** `separated_list1(space1, index)`: one alternative. */
  function Indices(s: string): (r: Option<Parsed<seq<nat>>>)
    ensures r.Some? <==> Index(s).Some?
    ensures r.Some? ==> |r.value.value| > 0 && |r.value.rest| < |s|
  {
    match Index(s)
    case None => None
    case Some(p) =>
      var t := MoreIndices(p.rest);
      Some(Parsed([p.value] + t.value, t.rest))
  }

  /** The repetitions of `separated_list1(tag(" | "), …)` after its first
      alternative. */
  function MoreAlternatives(s: string): (r: Parsed<seq<seq<nat>>>)
    ensures |r.rest| <= |s|
    decreases |s|
  {
    match Tag(" | ", s)
    case None => Parsed([], s)
    case Some(s1) =>
      match Indices(s1)
      case None => Parsed([], s)
      case Some(p) =>
        var t := MoreAlternatives(p.rest);
        Parsed([p.value] + t.value, t.rest)
  }

  /** `rule_alt` (parser.rs:24-26). */
  function Alternatives(s: string): (r: Option<Parsed<seq<seq<nat>>>>)
    ensures r.Some? <==> Index(s).Some?
    ensures r.Some? ==> |r.value.value| > 0 && forall a | a in r.value.value :: |a| > 0
  {
    match Indices(s)
    case None => None
    case Some(p) =>
      var t := MoreAlternatives(p.rest);
      AlternativesNonEmpty(p.rest);
      Some(Parsed([p.value] + t.value, t.rest))
  }

  lemma {:induction false} AlternativesNonEmpty(s: string)
    ensures forall a | a in MoreAlternatives(s).value :: |a| > 0
    decreases |s|
  {
    match Tag(" | ", s)
    case None =>
    case Some(s1) =>
      match Indices(s1)
      case None =>
      case Some(p) =>
        AlternativesNonEmpty(p.rest);
  }

  /** `rule` (parser.rs:28-33): the quoted form is tried first. */
  function RuleBody(s: string): (r: Option<Parsed<Rule>>)
    ensures Quoted(s).Some? ==> r == Some(Parsed(Match(Quoted(s).value.value), Quoted(s).value.rest))
    ensures r.Some? && r.value.value.Alt? ==> Quoted(s).None? && Index(s).Some?
    ensures r.None? <==> Quoted(s).None? && Index(s).None?
  {
    match Quoted(s)
    case Some(q) => Some(Parsed(Match(q.value), q.rest))
    case None =>
      match Alternatives(s)
      case Some(a) => Some(Parsed(Alt(a.value), a.rest))
      case None => None
  }

  /** `ruleline` (parser.rs:35-39): index, `": "`, rule body. */
  function RuleLineParser(s: string): (r: Option<Parsed<RuleLine>>)
    ensures r.Some? ==> Index(s).Some? && r.value.value.index == Index(s).value.value
  {
    match Index(s)
    case None => None
    case Some(i) =>
      match Tag(": ", i.rest)
      case None => None
      case Some(s1) =>
        match RuleBody(s1)
        case None => None
        case Some(b) => Some(Parsed(RuleLine(i.value, b.value), b.rest))
  }

  /** `parse_ruleline` (parser.rs:41-45): `None` stands for the panic of
      `unwrap` on a parse error and for the failed assertion that the whole
      line was consumed. */
  function ParseRuleLine(line: string): (r: Option<RuleLine>)
    ensures r.Some? <==> RuleLineParser(line).Some? && RuleLineParser(line).value.rest == []
    ensures r.Some? ==> r.value == RuleLineParser(line).value.value
  {
    match RuleLineParser(line)
    case Some(p) => if p.rest == [] then Some(p.value) else None
    case None => None
  }

  // ---------------------------------------------------------------------------
  // Rendering: the canonical line for a rule, the inverse of the parser

  function RenderIndexTail(ixs: seq<nat>): string
  {
    if |ixs| == 0 then "" else " " + Decimal(ixs[0]) + RenderIndexTail(ixs[1..])
  }

  function RenderIndices(ixs: seq<nat>): string
  {
    if |ixs| == 0 then "" else Decimal(ixs[0]) + RenderIndexTail(ixs[1..])
  }

  function RenderAlternativeTail(alts: seq<seq<nat>>): string
  {
    if |alts| == 0 then "" else " | " + RenderIndices(alts[0]) + RenderAlternativeTail(alts[1..])
  }

  /** A rule the grammar can express: a non-empty literal without `"`, or a
      non-empty list of non-empty alternatives of `usize` indices. */
  predicate Expressible(rule: Rule)
  {
    match rule
    case Match(t) => |t| > 0 && '"' !in t
    case Alt(alts) => |alts| > 0 && forall a | a in alts :: |a| > 0 && IndicesFit(a)
  }

  predicate IndicesFit(ixs: seq<nat>) { forall k | 0 <= k < |ixs| :: ixs[k] < UsizeLimit }

  function RenderRule(rule: Rule): string
    requires Expressible(rule)
  {
    match rule
    case Match(t) => "\"" + t + "\""
    case Alt(alts) => RenderIndices(alts[0]) + RenderAlternativeTail(alts[1..])
  }

  function RenderRuleLine(rl: RuleLine): string
    requires Expressible(rl.rule)
  {
    Decimal(rl.index) + ": " + RenderRule(rl.rule)
  }

  lemma {:induction false} IndexOfDecimal(n: nat, rest: string)
    requires n < UsizeLimit
    requires rest == [] || !IsDigit(rest[0])
    ensures Index(Decimal(n) + rest) == Some(Parsed(n, rest))
  {
    var d := Decimal(n);
    DigitRunPrefix(d, rest);
    DecimalValue(n);
    assert (d + rest)[..|d|] == d && (d + rest)[|d|..] == rest;
  }

  /** A numeral too large for a `usize` is not an index. */
  lemma {:induction false} IndexOverflow(n: nat, rest: string)
    requires UsizeLimit <= n
    requires rest == [] || !IsDigit(rest[0])
    ensures Index(Decimal(n) + rest).None?
  {
    var d := Decimal(n);
    DigitRunPrefix(d, rest);
    DecimalValue(n);
    assert (d + rest)[..|d|] == d;
  }

  /** A line whose own index does not fit a `usize` is rejected, whatever
      its body. */
  lemma {:induction false} OverflowingLineRejected(n: nat, body: string)
    requires UsizeLimit <= n
    ensures ParseRuleLine(Decimal(n) + ": " + body).None?
  {
    IndexOverflow(n, ": " + body);
    assert Decimal(n) + ": " + body == Decimal(n) + (": " + body);
  }

  lemma {:induction false} Space1OfSpace(x: string)
    requires |x| > 0 && !IsBlank(x[0])
    ensures Space1(" " + x) == Some(x)
  {
    assert (" " + x)[1..] == x;
  }

  lemma {:induction false} TagOf(t: string, x: string)
    ensures Tag(t, t + x) == Some(x)
  {
    assert t <= t + x;
    assert (t + x)[|t|..] == x;
  }

  lemma {:induction false} QuotedOf(t: string, rest: string)
    requires |t| > 0 && '"' !in t
    ensures Quoted("\"" + t + "\"" + rest) == Some(Parsed(t, rest))
  {
    var s := "\"" + t + "\"" + rest;
    assert s[1..] == t + ("\"" + rest);
    CountUntilPrefix(t, "\"" + rest, '"');
    assert s[1..1 + |t|] == t;
    assert s[|t| + 2..] == rest;
  }

  lemma {:induction false} MoreIndicesStep(s: string, x: string, v: nat, y: string)
    requires Space1(s) == Some(x) && Index(x) == Some(Parsed(v, y))
    ensures MoreIndices(s) == Parsed([v] + MoreIndices(y).value, MoreIndices(y).rest)
  {
  }

  lemma {:induction false} MoreIndicesStop(rest: string)
    requires rest == [] || (|rest| >= 2 && rest[0] == ' ' && rest[1] == '|')
    ensures MoreIndices(rest) == Parsed([], rest)
  {
    if rest != [] {
      assert rest == " " + rest[1..];
      Space1OfSpace(rest[1..]);
      assert Index(rest[1..]).None?;
    }
  }

  lemma {:induction false} RenderIndexTailCons(ixs: seq<nat>, rest: string)
    requires |ixs| > 0
    ensures RenderIndexTail(ixs) + rest == " " + (Decimal(ixs[0]) + (RenderIndexTail(ixs[1..]) + rest))
  {
    var d := Decimal(ixs[0]);
    var t := RenderIndexTail(ixs[1..]);
    assert RenderIndexTail(ixs) == " " + d + t;
    assert " " + d + t + rest == " " + (d + (t + rest));
  }

  lemma {:induction false} MoreIndicesRendered(ixs: seq<nat>, rest: string)
    requires IndicesFit(ixs)
    requires rest == [] || (|rest| >= 2 && rest[0] == ' ' && rest[1] == '|')
    ensures MoreIndices(RenderIndexTail(ixs) + rest) == Parsed(ixs, rest)
    decreases |ixs|
  {
    if |ixs| == 0 {
      assert RenderIndexTail(ixs) + rest == rest;
      MoreIndicesStop(rest);
    } else {
      var v, vs := ixs[0], ixs[1..];
      assert ixs == [v] + vs;
      FirstIndexFits(ixs);
      MoreIndicesRendered(vs, rest);
      MoreIndicesRenderedStep(v, vs, rest);
    }
  }

  /** One step of the induction above: a leading " <index>" is read back
      in front of whatever the rest of the tail reads back as. */
  lemma {:induction false} MoreIndicesRenderedStep(v: nat, vs: seq<nat>, rest: string)
    requires v < UsizeLimit
    requires rest == [] || (|rest| >= 2 && rest[0] == ' ' && rest[1] == '|')
    requires MoreIndices(RenderIndexTail(vs) + rest) == Parsed(vs, rest)
    ensures MoreIndices(RenderIndexTail([v] + vs) + rest) == Parsed([v] + vs, rest)
  {
    var d := Decimal(v);
    var tail := RenderIndexTail(vs) + rest;
    var s := RenderIndexTail([v] + vs) + rest;
    assert s == " " + (d + tail) by {
      assert ([v] + vs)[0] == v && ([v] + vs)[1..] == vs;
      RenderIndexTailCons([v] + vs, rest);
    }
    assert Index(d + tail) == Some(Parsed(v, tail)) by {
      RenderIndexTailStart(vs, rest);
      IndexOfDecimal(v, tail);
    }
    MoreIndicesCons(s, d, tail, v, vs, rest);
  }

  lemma {:induction false} MoreIndicesCons(s: string, d: string, tail: string, v: nat, vs: seq<nat>, rest: string)
    requires s == " " + (d + tail)
    requires Index(d + tail) == Some(Parsed(v, tail))
    requires MoreIndices(tail) == Parsed(vs, rest)
    ensures MoreIndices(s) == Parsed([v] + vs, rest)
  {
    Space1OfSpace(d + tail);
    MoreIndicesStep(s, d + tail, v, tail);
  }

  lemma ConcatAssoc(a: string, b: string, c: string)
    ensures a + b + c == a + (b + c)
  {
  }

  lemma {:induction false} IndicesStep(s: string, v: nat, y: string)
    requires Index(s) == Some(Parsed(v, y))
    ensures Indices(s) == Some(Parsed([v] + MoreIndices(y).value, MoreIndices(y).rest))
  {
  }

  lemma {:induction false} IndicesRendered(ixs: seq<nat>, rest: string)
    requires |ixs| > 0 && IndicesFit(ixs)
    requires rest == [] || (|rest| >= 2 && rest[0] == ' ' && rest[1] == '|')
    ensures Indices(RenderIndices(ixs) + rest) == Some(Parsed(ixs, rest))
  {
    var v, vs := ixs[0], ixs[1..];
    assert ixs == [v] + vs;
    FirstIndexFits(ixs);
    MoreIndicesRendered(vs, rest);
    IndicesRenderedStep(v, vs, rest);
  }

  /** A first index followed by a tail that reads back on its own. */
  lemma {:induction false} IndicesRenderedStep(v: nat, vs: seq<nat>, rest: string)
    requires v < UsizeLimit
    requires rest == [] || (|rest| >= 2 && rest[0] == ' ' && rest[1] == '|')
    requires MoreIndices(RenderIndexTail(vs) + rest) == Parsed(vs, rest)
    ensures Indices(RenderIndices([v] + vs) + rest) == Some(Parsed([v] + vs, rest))
  {
    var d := Decimal(v);
    var tail := RenderIndexTail(vs) + rest;
    assert Index(d + tail) == Some(Parsed(v, tail)) by {
      RenderIndexTailStart(vs, rest);
      IndexOfDecimal(v, tail);
    }
    assert RenderIndices([v] + vs) + rest == d + tail by {
      assert ([v] + vs)[0] == v && ([v] + vs)[1..] == vs;
      ConcatAssoc(d, RenderIndexTail(vs), rest);
    }
    IndicesStep(d + tail, v, tail);
  }

  lemma FirstIndexFits(ixs: seq<nat>)
    requires |ixs| > 0 && IndicesFit(ixs)
    ensures ixs[0] < UsizeLimit && IndicesFit(ixs[1..])
  {
    assert forall k | 0 <= k < |ixs[1..]| :: ixs[1..][k] == ixs[k + 1];
  }

  lemma {:induction false} RenderIndexTailStart(ixs: seq<nat>, rest: string)
    requires rest == [] || rest[0] == ' '
    ensures RenderIndexTail(ixs) + rest == [] || (RenderIndexTail(ixs) + rest)[0] == ' '
  {
  }

  lemma {:induction false} MoreAlternativesStep(s: string, x: string, a: seq<nat>, y: string)
    requires Tag(" | ", s) == Some(x) && Indices(x) == Some(Parsed(a, y))
    ensures MoreAlternatives(s) == Parsed([a] + MoreAlternatives(y).value, MoreAlternatives(y).rest)
  {
  }

  lemma {:induction false} RenderAlternativeTailStart(alts: seq<seq<nat>>)
    ensures var t := RenderAlternativeTail(alts); t == [] || (|t| >= 2 && t[0] == ' ' && t[1] == '|')
  {
  }

  lemma {:induction false} MoreAlternativesRendered(alts: seq<seq<nat>>)
    requires forall k | 0 <= k < |alts| :: |alts[k]| > 0 && IndicesFit(alts[k])
    ensures MoreAlternatives(RenderAlternativeTail(alts)) == Parsed(alts, [])
  {
    if |alts| == 0 {
      assert Tag(" | ", []).None?;
    } else {
      var a, more := alts[0], alts[1..];
      assert alts == [a] + more;
      assert forall k | 0 <= k < |more| :: more[k] == alts[k + 1];
      MoreAlternativesRendered(more);
      MoreAlternativesRenderedStep(a, more);
    }
  }

  /** One step of the induction above: `" | "` and a rendered group are
      read back in front of the alternatives that follow. */
  lemma {:induction false} MoreAlternativesRenderedStep(a: seq<nat>, more: seq<seq<nat>>)
    requires |a| > 0 && IndicesFit(a)
    requires MoreAlternatives(RenderAlternativeTail(more)) == Parsed(more, [])
    ensures MoreAlternatives(RenderAlternativeTail([a] + more)) == Parsed([a] + more, [])
  {
    var tail := RenderAlternativeTail(more);
    var g := RenderIndices(a);
    assert Indices(g + tail) == Some(Parsed(a, tail)) by {
      RenderAlternativeTailStart(more);
      IndicesRendered(a, tail);
    }
    assert RenderAlternativeTail([a] + more) == " | " + g + tail by {
      assert ([a] + more)[0] == a && ([a] + more)[1..] == more;
      RenderAlternativeTailCons([a] + more);
    }
    SeparatorThenAlternative(RenderAlternativeTail([a] + more), g, tail, a, more);
  }

  lemma RenderAlternativeTailCons(alts: seq<seq<nat>>)
    requires |alts| > 0
    ensures RenderAlternativeTail(alts)
      == " | " + RenderIndices(alts[0]) + RenderAlternativeTail(alts[1..])
  {
  }

  /** `" | "`, an alternative and the rest reads as that alternative
      followed by the rest's alternatives. */
  lemma SeparatorThenAlternative(t: string, g: string, tail: string, a: seq<nat>, more: seq<seq<nat>>)
    requires t == " | " + g + tail
    requires MoreAlternatives(tail) == Parsed(more, [])
    requires Indices(g + tail) == Some(Parsed(a, tail))
    ensures MoreAlternatives(t) == Parsed([a] + more, [])
  {
    ConcatAssoc(" | ", g, tail);
    TagOf(" | ", g + tail);
    MoreAlternativesStep(t, g + tail, a, tail);
  }

  lemma {:induction false} RuleLineOf(n: nat, body: string)
    requires n < UsizeLimit
    ensures RuleLineParser(Decimal(n) + ": " + body)
         == if RuleBody(body).Some? then Some(Parsed(RuleLine(n, RuleBody(body).value.value), RuleBody(body).value.rest)) else None
  {
    IndexOfDecimal(n, ": " + body);
    assert Decimal(n) + ": " + body == Decimal(n) + (": " + body);
    TagOf(": ", body);
  }

  /** Parsing the rendering of a line gives the line back: indices, group
      order and index order within each group all survive. */
  lemma {:induction false} ParseRenderRoundTrip(rl: RuleLine)
    requires rl.index < UsizeLimit && Expressible(rl.rule)
    ensures ParseRuleLine(RenderRuleLine(rl)) == Some(rl)
  {
    var body := RenderRule(rl.rule);
    if rl.rule.Match? {
      MatchBodyRoundTrip(rl.rule.text);
    } else {
      AltBodyRoundTrip(rl.rule.alts);
    }
    RuleLineOf(rl.index, body);
  }

  /** A quoted body reads back as its `Match`. */
  lemma MatchBodyRoundTrip(t: string)
    requires Expressible(Match(t))
    ensures RuleBody(RenderRule(Match(t))) == Some(Parsed(Match(t), []))
  {
    QuotedOf(t, []);
    assert RenderRule(Match(t)) == "\"" + t + "\"" + [];
  }

  /** An alternation body reads back as its `Alt`. */
  lemma AltBodyRoundTrip(alts: seq<seq<nat>>)
    requires Expressible(Alt(alts))
    ensures RuleBody(RenderRule(Alt(alts))) == Some(Parsed(Alt(alts), []))
  {
    var a, more := alts[0], alts[1..];
    assert alts == [a] + more;
    assert a in alts;
    assert forall k | 0 <= k < |more| :: more[k] in alts;
    MoreAlternativesRendered(more);
    AltBodyStep(a, more);
  }

  /** A first group followed by alternatives that read back on their own. */
  lemma {:induction false} AltBodyStep(a: seq<nat>, more: seq<seq<nat>>)
    requires |a| > 0 && IndicesFit(a)
    requires MoreAlternatives(RenderAlternativeTail(more)) == Parsed(more, [])
    ensures RuleBody(RenderIndices(a) + RenderAlternativeTail(more)) == Some(Parsed(Alt([a] + more), []))
  {
    var tail := RenderAlternativeTail(more);
    var g := RenderIndices(a);
    assert Indices(g + tail) == Some(Parsed(a, tail)) by {
      RenderAlternativeTailStart(more);
      IndicesRendered(a, tail);
    }
    assert Quoted(g + tail).None?;
  }

  /** An unconsumed remainder makes the line fail: a quoted body followed by
      anything at all is rejected. */
  lemma {:induction false} TrailingTextRejected(rl: RuleLine, junk: string)
    requires rl.index < UsizeLimit && Expressible(rl.rule) && rl.rule.Match? && |junk| > 0
    ensures ParseRuleLine(RenderRuleLine(rl) + junk).None?
  {
    var t := rl.rule.text;
    QuotedOf(t, junk);
    var body := "\"" + t + "\"" + junk;
    RuleLineOf(rl.index, body);
    assert RenderRuleLine(rl) + junk == Decimal(rl.index) + ": " + body;
  }
}
