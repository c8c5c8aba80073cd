/** Day 19, `main.rs`: the rule map, the anchored pattern of part one, the
    pre-seeded cache of part two, and the split of the input into rule lines
    and messages. The regular-expression engine that runs the patterns is not
    part of the model: matching is a parameter `matches`. */
module Day19Main {
  import opened Common
  import opened Day19Rule
  import opened Day19Parser

  /** `rules.iter().map(|r| (r.index, &r.rule)).collect()` (main.rs:17): later
      lines overwrite earlier ones with the same index. */
  function RuleMapOf(lines: seq<RuleLine>): (m: RuleMap)
    ensures forall k | 0 <= k < |lines| :: lines[k].index in m
    ensures forall i | i in m :: exists k | 0 <= k < |lines| :: lines[k].index == i
  {
    if |lines| == 0 then map[]
    else
      var m := RuleMapOf(lines[..|lines| - 1]);
      var last := lines[|lines| - 1];
      assert forall k | 0 <= k < |lines| - 1 :: lines[..|lines| - 1][k] == lines[k];
      m[last.index := last.rule]
  }

  /** The rule stored for an index is the one on the last line carrying it. */
  lemma {:induction false} LaterLineWins(lines: seq<RuleLine>, k: nat)
    requires k < |lines|
    requires forall m | k < m < |lines| :: lines[m].index != lines[k].index
    ensures RuleMapOf(lines)[lines[k].index] == lines[k].rule
  {
    if k < |lines| - 1 {
      var init := lines[..|lines| - 1];
      assert forall m | k < m < |init| :: init[m] == lines[m];
      LaterLineWins(init, k);
    }
  }

  /** The part-one pattern (main.rs:18-20): the fragment of rule 0, anchored
      at both ends; `None` when there is no rule 0 (`rulemap[&0]` panics). */
  function PartOnePattern(rules: RuleMap, ghost rank: map<nat, nat>): (p: Option<string>)
    requires Resolvable(rules, {}, rank)
    ensures p.Some? <==> 0 in rules
    ensures p.Some? ==> p.value == "^" + RefIndex(0, rules, map[], rank) + "$"
  {
    if 0 in rules then Some("^" + ToRegexString(rules[0], rules, rank, rank[0]) + "$") else None
  }

  /** `messages.iter().filter(…).count()` (main.rs:24, 81): the number of
      positions whose message is accepted. */
  function CountAccepted(messages: seq<string>, accepts: string -> bool): (n: nat)
    ensures n == |set k | 0 <= k < |messages| && accepts(messages[k])|
    ensures n <= |messages|
  {
    if |messages| == 0 then 0
    else
      AcceptedSplit(messages, accepts);
      CountAccepted(messages[..|messages| - 1], accepts) + if accepts(messages[|messages| - 1]) then 1 else 0
  }

  lemma AcceptedSplit(messages: seq<string>, accepts: string -> bool)
    requires |messages| > 0
    ensures var init := messages[..|messages| - 1];
      |set k | 0 <= k < |messages| && accepts(messages[k])|
      == |set k | 0 <= k < |init| && accepts(init[k])| + if accepts(messages[|messages| - 1]) then 1 else 0
  {
    var last := |messages| - 1;
    var init := messages[..last];
    var all := set k | 0 <= k < |messages| && accepts(messages[k]);
    var before := set k | 0 <= k < |init| && accepts(init[k]);
    var extra: set<int> := if accepts(messages[last]) then {last} else {};
    forall k ensures k in all <==> k in before + extra {
      if 0 <= k < last {
        assert init[k] == messages[k];
      }
    }
    SnocPositionsCard(all, before, last, accepts(messages[last]));
  }

  /** The count is zero exactly when no message is accepted, and the number of
      messages exactly when every one is. */
  lemma {:induction false} CountAcceptedExtremes(messages: seq<string>, accepts: string -> bool)
    ensures CountAccepted(messages, accepts) == 0 <==> forall k | 0 <= k < |messages| :: !accepts(messages[k])
    ensures CountAccepted(messages, accepts) == |messages| <==> forall k | 0 <= k < |messages| :: accepts(messages[k])
  {
    if |messages| > 0 {
      var last := |messages| - 1;
      var init := messages[..last];
      CountAcceptedExtremes(init, accepts);
      assert forall k | 0 <= k < |init| :: init[k] == messages[k];
      assert (forall k | 0 <= k < |messages| :: accepts(messages[k]))
          <==> (forall k | 0 <= k < |init| :: accepts(init[k])) && accepts(messages[last]);
      assert (forall k | 0 <= k < |messages| :: !accepts(messages[k]))
          <==> (forall k | 0 <= k < |init| :: !accepts(init[k])) && !accepts(messages[last]);
    }
  }

  /** `solve_part_one` (main.rs:16-27); `matches(pattern, message)` stands for
      the regular-expression engine. `None` when there is no rule 0. */
  function SolvePartOne(lines: seq<RuleLine>, messages: seq<string>, matches: (string, string) -> bool, ghost rank: map<nat, nat>): (r: Option<nat>)
    requires Resolvable(RuleMapOf(lines), {}, rank)
    ensures r.Some? <==> 0 in RuleMapOf(lines)
    ensures r.Some? ==> r.value == |set k | 0 <= k < |messages| && matches(PartOnePattern(RuleMapOf(lines), rank).value, messages[k])|
  {
    match PartOnePattern(RuleMapOf(lines), rank)
    case None => None
    case Some(pattern) =>
      var accepts := m => matches(pattern, m);
      assert (set k | 0 <= k < |messages| && accepts(messages[k])) == (set k | 0 <= k < |messages| && matches(pattern, messages[k]));
      Some(CountAccepted(messages, accepts))
  }

  // ---------------------------------------------------------------------------
  // Part two

  /** `(?:f){i}`: `f` repeated exactly `i` times. */
  function Repeat(f: string, i: nat): string
  {
    "(?:" + f + "){" + Decimal(i) + "}"
  }

  /** The branches `(?:f42){i}(?:f31){i}` for i = 1..n. */
  function Rule11Branches(f42: string, f31: string, n: nat): (bs: seq<string>)
    ensures |bs| == n
    ensures forall k | 0 <= k < n :: bs[k] == Repeat(f42, k + 1) + Repeat(f31, k + 1)
  {
    if n == 0 then [] else Rule11Branches(f42, f31, n - 1) + [Repeat(f42, n) + Repeat(f31, n)]
  }

  /** Rule 11's seeded fragment (main.rs:62-72): twenty branches in which 42
      and 31 repeat the same number of times, always wrapped. */
  function Rule11(f42: string, f31: string): string
  {
    "(?:" + Join(Rule11Branches(f42, f31, 20), "|") + ")"
  }

  /** Both repeat counts of branch k are the numeral of k + 1, and they read
      back as k + 1. */
  lemma Rule11BranchCounts(f42: string, f31: string, k: nat)
    requires k < 20
    ensures Rule11Branches(f42, f31, 20)[k]
         == "(?:" + f42 + "){" + Decimal(k + 1) + "}" + "(?:" + f31 + "){" + Decimal(k + 1) + "}"
    ensures DigitsValue(Decimal(k + 1)) == k + 1
  {
    DecimalValue(k + 1);
  }

  lemma RefsBelowGrows(rule: Rule, rules: RuleMap, fixed: set<nat>, fixed': set<nat>, rank: map<nat, nat>, bound: nat)
    requires RefsBelow(rule, rules, fixed, rank, bound) && fixed <= fixed'
    ensures RefsBelow(rule, rules, fixed', rank, bound)
  {
  }

  /** Compiling a rule from a cache whose entries are all reference fragments
      over the empty seed yields the reference fragment of that rule. */
  lemma CompileRuleFromFaithful(i: nat, rules: RuleMap, cache: Cache, rank: map<nat, nat>)
    requires Resolvable(rules, {}, rank) && i in rules
    requires Resolvable(rules, cache.Keys, rank) && Faithful(cache, rules, map[], rank)
    ensures RefsBelow(rules[i], rules, cache.Keys, rank, rank[i])
    ensures Compile(rules[i], rules, cache, rank, rank[i]).text == RefIndex(i, rules, map[], rank)
    ensures Faithful(Compile(rules[i], rules, cache, rank, rank[i]).cache, rules, map[], rank)
  {
    RefsBelowGrows(rules[i], rules, {}, cache.Keys, rank, rank[i]);
    CompileIsReference(rules[i], rules, map[], cache, rank, rank[i]);
  }

  /** The cache of part two just before rule 0 is compiled: 31 and 42 hold
      their reference fragments, 8 and 11 their seeded fragments, and every
      other entry the reference fragment of its own rule. */
  ghost predicate SeededForPartTwo(rules: RuleMap, rank: map<nat, nat>, seeded: Cache)
    requires Resolvable(rules, {}, rank)
  {
    && 0 in rules && 31 in rules && 42 in rules
    && 31 in seeded && seeded[31] == RefIndex(31, rules, map[], rank)
    && 42 in seeded && seeded[42] == RefIndex(42, rules, map[], rank)
    && 8 in seeded && seeded[8] == "(" + seeded[42] + ")+"
    && 11 in seeded && seeded[11] == Rule11(seeded[42], seeded[31])
    && (forall k | k in seeded && k != 8 && k != 11 :: k in rules && k in rank && seeded[k] == RefIndex(k, rules, map[], rank))
    && Resolvable(rules, seeded.Keys, rank) && RefsBelow(rules[0], rules, seeded.Keys, rank, rank[0])
  }

  /** Writing the fragments for 8 and 11 over a cache faithful to the rules,
      which holds 31 and 42, gives the cache part two compiles rule 0 from. */
  lemma SeededCache(rules: RuleMap, rank: map<nat, nat>, compiled: Cache, f31: string, f42: string)
    requires Resolvable(rules, {}, rank) && 0 in rules && 31 in rules && 42 in rules
    requires Faithful(compiled, rules, map[], rank)
    requires 31 in compiled && compiled[31] == f31 && 42 in compiled && compiled[42] == f42
    ensures SeededForPartTwo(rules, rank, compiled[8 := "(" + f42 + ")+"][11 := Rule11(f42, f31)])
  {
    var seeded := compiled[8 := "(" + f42 + ")+"][11 := Rule11(f42, f31)];
    ResolvableGrows(rules, {}, seeded.Keys, rank);
    RefsBelowGrows(rules[0], rules, {}, seeded.Keys, rank, rank[0]);
  }

  /** Rule `i` compiled through the shared cache and recorded under its own
      index (main.rs:33-38): its text is the reference fragment of rule `i`,
      and the cache stays faithful to the rules and only grows. */
  method CompileSeed(rules: RuleMap, ghost rank: map<nat, nat>, cache0: Cache, i: nat) returns (cache: Cache, f: string)
    requires Resolvable(rules, {}, rank) && i in rules
    requires Resolvable(rules, cache0.Keys, rank) && Faithful(cache0, rules, map[], rank)
    ensures f == RefIndex(i, rules, map[], rank)
    ensures i in cache && cache[i] == f && cache0.Keys <= cache.Keys
    ensures Resolvable(rules, cache.Keys, rank) && Faithful(cache, rules, map[], rank)
  {
    CompileRuleFromFaithful(i, rules, cache0, rank);
    var c := Compile(rules[i], rules, cache0, rank, rank[i]);
    f := c.text;
    cache := c.cache[i := f];
    ResolvableGrows(rules, {}, cache.Keys, rank);
  }

  /** `solve_part_two`'s pattern (main.rs:31-77). Rules 31 and 42 are compiled
      through one shared cache and recorded under their own indices; then the
      entries for 8 and 11 are written over whatever the cache held, and only
      then is rule 0 compiled. `None` when rule 31, 42 or 0 is missing (the
      indexing panics). The rules are required to be acyclic, as the program
      itself relies on (main.rs:59-60). */
  method PartTwoPattern(rules: RuleMap, ghost rank: map<nat, nat>) returns (pattern: Option<string>, ghost seeded: Cache)
    requires Resolvable(rules, {}, rank)
    ensures pattern.Some? <==> 0 in rules && 31 in rules && 42 in rules
    ensures pattern.Some? ==> SeededForPartTwo(rules, rank, seeded)
    ensures pattern.Some? ==> pattern.value == "^" + RefRule(rules[0], rules, seeded, rank, rank[0]) + "$"
  {
    seeded := map[];
    if 31 !in rules {
      return None, seeded;
    }
    var cache, f31 := CompileSeed(rules, rank, map[], 31);
    if 42 !in rules {
      return None, seeded;
    }
    var f42;
    cache, f42 := CompileSeed(rules, rank, cache, 42);
    ghost var compiled := cache;
    cache := cache[8 := "(" + f42 + ")+"];
    cache := cache[11 := Rule11(f42, f31)];
    if 0 !in rules {
      return None, seeded;
    }
    seeded := cache;
    SeededCache(rules, rank, compiled, f31, f42);
    ResolvableGrows(rules, {}, cache.Keys, rank);
    FaithfulStart(rules, cache, rank);
    CompileIsReference(rules[0], rules, cache, cache, rank, rank[0]);
    var root := Compile(rules[0], rules, cache, rank, rank[0]);
    pattern := Some("^" + root.text + "$");
  }

  /** `solve_part_two` (main.rs:29-84): the number of messages the seeded
      pattern accepts; `None` when rule 31, 42 or 0 is missing. */
  method SolvePartTwo(lines: seq<RuleLine>, messages: seq<string>, matches: (string, string) -> bool, ghost rank: map<nat, nat>)
    returns (r: Option<nat>, ghost pattern: string, ghost seeded: Cache)
    requires Resolvable(RuleMapOf(lines), {}, rank)
    ensures r.Some? <==> 0 in RuleMapOf(lines) && 31 in RuleMapOf(lines) && 42 in RuleMapOf(lines)
    ensures r.Some? ==> SeededForPartTwo(RuleMapOf(lines), rank, seeded)
    ensures r.Some? ==> pattern == "^" + RefRule(RuleMapOf(lines)[0], RuleMapOf(lines), seeded, rank, rank[0]) + "$"
    ensures r.Some? ==> r.value == |set k | 0 <= k < |messages| && matches(pattern, messages[k])|
  {
    var rules := RuleMapOf(lines);
    var p;
    p, seeded := PartTwoPattern(rules, rank);
    if p.None? {
      return None, "", seeded;
    }
    var text := p.value;
    pattern := text;
    var accepts := m => matches(text, m);
    assert (set k | 0 <= k < |messages| && accepts(messages[k])) == (set k | 0 <= k < |messages| && matches(text, messages[k]));
    r := Some(CountAccepted(messages, accepts));
  }

  /** Once seeded, rules 8 and 11 stand for their seeded fragments: the
      reference fragment of those indices is the seeded text, whatever the
      rule map says about them. */
  lemma SeededNeverExpanded(rules: RuleMap, seeded: Cache, rank: map<nat, nat>, k: nat)
    requires Resolvable(rules, seeded.Keys, rank) && k in seeded
    ensures RefIndex(k, rules, seeded, rank) == seeded[k]
  {
  }

  // ---------------------------------------------------------------------------
  // Input split (`read_data`, main.rs:86-100)

  /** The lines before the first empty line are rule lines, each parsed (a
      line that does not parse aborts the program: `None`); everything after
      that empty line is a message. */
  method ReadData(lines: seq<string>) returns (r: Option<(seq<RuleLine>, seq<string>)>)
    ensures r.Some? <==> ParseEach(lines[..FirstBlank(lines)], ParseRuleLine).Some?
    ensures r.Some? ==> r.value.0 == ParseEach(lines[..FirstBlank(lines)], ParseRuleLine).value
    ensures r.Some? ==> r.value.1 == if FirstBlank(lines) < |lines| then lines[FirstBlank(lines) + 1..] else []
  {
    var rules: seq<RuleLine> := [];
    var i := 0;
    while i < |lines| && lines[i] != ""
      invariant i <= FirstBlank(lines)
      invariant ParseEach(lines[..i], ParseRuleLine) == Some(rules)
    {
      var parsed := ParseRuleLine(lines[i]);
      if parsed.None? {
        ParseEachStep(lines, i, ParseRuleLine);
        ParseEachNoneStays(lines, i + 1, FirstBlank(lines), ParseRuleLine);
        return None;
      }
      ParseEachSnoc(lines, i, ParseRuleLine, rules, parsed.value);
      rules := rules + [parsed.value];
      i := i + 1;
    }
    assert i == FirstBlank(lines);
    var messages := if i < |lines| then lines[i + 1..] else [];
    return Some((rules, messages));
  }
}
