/** Day 19, `rule.rs`: the grammar rules and the memoising compiler that turns a
    rule into the text of an equivalent regular expression.

    The Rust compiler threads a `&mut HashMap<usize, String>` cache through its
    recursion; here every compiling function returns the new cache beside the
    text it produced (`Compiled`), in the order the Rust iterators run.
    Termination rests on an acyclic reference graph: a ghost `rank` map on rule
    indices that strictly decreases along every reference that is not already
    answered by the cache. */
module Day19Rule {
  import opened Common

  datatype Rule = Match(text: string) | Alt(alts: seq<seq<nat>>)

  datatype RuleLine = RuleLine(index: nat, rule: Rule)

  type RuleMap = map<nat, Rule>

  /** The memo from rule index to its compiled fragment. */
  type Cache = map<nat, string>

  datatype Compiled = Compiled(text: string, cache: Cache)

  datatype CompiledParts = CompiledParts(parts: seq<string>, cache: Cache)

  // ---------------------------------------------------------------------------
  // Well-foundedness of the reference graph

  /** Index `i` is answered without recursion (it is `fixed`), or it names a
      rule of rank below `bound`. */
  predicate Below(i: nat, rules: RuleMap, fixed: set<nat>, rank: map<nat, nat>, bound: nat)
  {
    i in fixed || (i in rules && i in rank && rank[i] < bound)
  }

  predicate RefsBelow(rule: Rule, rules: RuleMap, fixed: set<nat>, rank: map<nat, nat>, bound: nat)
  {
    rule.Alt? ==> forall a, i | a in rule.alts && i in a :: Below(i, rules, fixed, rank, bound)
  }

  /** Every rule that is not `fixed` is ranked, and each index it refers to is
      `fixed` or a rule of strictly lower rank: the reference graph outside
      `fixed` is closed and acyclic. */
  predicate Resolvable(rules: RuleMap, fixed: set<nat>, rank: map<nat, nat>)
  {
    forall j | j in rules && j !in fixed :: j in rank && RefsBelow(rules[j], rules, fixed, rank, rank[j])
  }

  lemma ResolvableGrows(rules: RuleMap, fixed: set<nat>, fixed': set<nat>, rank: map<nat, nat>)
    requires Resolvable(rules, fixed, rank) && fixed <= fixed'
    ensures Resolvable(rules, fixed', rank)
  {
  }

  /** `c1` keeps every entry of `c0` unchanged. */
  predicate Extends(c0: Cache, c1: Cache)
    ensures Extends(c0, c1) ==> c0.Keys <= c1.Keys
  {
    forall k | k in c0 :: k in c1 && c1[k] == c0[k]
  }

  /** The fragments that `cache` holds for `ixs`, in order. */
  function Lookup(cache: Cache, ixs: seq<nat>): (r: seq<string>)
    requires forall i | i in ixs :: i in cache
    ensures |r| == |ixs| && forall k | 0 <= k < |ixs| :: r[k] == cache[ixs[k]]
  {
    if |ixs| == 0 then [] else Lookup(cache, ixs[..|ixs| - 1]) + [cache[ixs[|ixs| - 1]]]
  }

  lemma BelowGrows(ixs: seq<nat>, rules: RuleMap, fixed: set<nat>, fixed': set<nat>, rank: map<nat, nat>, bound: nat)
    requires fixed <= fixed'
    requires forall i | i in ixs :: Below(i, rules, fixed, rank, bound)
    ensures forall i | i in ixs :: Below(i, rules, fixed', rank, bound)
  {
  }

  lemma LookupExtends(c0: Cache, c1: Cache, ixs: seq<nat>)
    requires Extends(c0, c1) && forall i | i in ixs :: i in c0
    ensures Lookup(c1, ixs) == Lookup(c0, ixs)
  {
  }

  lemma LookupsExtend(c0: Cache, c1: Cache, alts: seq<seq<nat>>)
    requires Extends(c0, c1) && forall a, i | a in alts && i in a :: i in c0
    ensures forall k | 0 <= k < |alts| :: Lookup(c1, alts[k]) == Lookup(c0, alts[k])
  {
    forall k | 0 <= k < |alts|
      ensures Lookup(c1, alts[k]) == Lookup(c0, alts[k])
    {
      assert alts[k] in alts;
      LookupExtends(c0, c1, alts[k]);
    }
  }

  /** The wrapping applied to a joined alternation (rule.rs:63-67): a
      non-capturing group whenever the text contains `|` anywhere. */
  function Group(s: string): string
  {
    if '|' in s then "(?:" + s + ")" else s
  }

  // ---------------------------------------------------------------------------
  // The memoising compiler (`to_regex_string_with_cache`)

  function Compile(rule: Rule, rules: RuleMap, cache: Cache, ghost rank: map<nat, nat>, ghost bound: nat): (r: Compiled)
    requires Resolvable(rules, cache.Keys, rank)
    requires RefsBelow(rule, rules, cache.Keys, rank, bound)
    ensures Extends(cache, r.cache)
    ensures rule.Match? ==> r == Compiled(rule.text, cache)
    ensures rule.Alt? ==> forall a, i | a in rule.alts && i in a :: i in r.cache
    ensures rule.Alt? ==>
      r.text == Group(Join(seq(|rule.alts|, k requires 0 <= k < |rule.alts| => Concat(Lookup(r.cache, rule.alts[k]))), "|"))
    decreases bound, 3, 0
  {
    match rule
    case Match(s) => Compiled(s, cache)
    case Alt(alts) =>
      var c := CompileAlts(alts, rules, cache, rank, bound);
      assert c.parts == seq(|alts|, k requires 0 <= k < |alts| => Concat(Lookup(c.cache, alts[k])));
      Compiled(Group(Join(c.parts, "|")), c.cache)
  }

  /** The alternatives of an `Alt` rule, each compiled to the concatenation of
      its indices' fragments, first alternative first. */
  function CompileAlts(alts: seq<seq<nat>>, rules: RuleMap, cache: Cache, ghost rank: map<nat, nat>, ghost bound: nat): (r: CompiledParts)
    requires Resolvable(rules, cache.Keys, rank)
    requires forall a, i | a in alts && i in a :: Below(i, rules, cache.Keys, rank, bound)
    ensures Extends(cache, r.cache)
    ensures forall a, i | a in alts && i in a :: i in r.cache
    ensures |r.parts| == |alts|
    ensures forall k | 0 <= k < |alts| :: r.parts[k] == Concat(Lookup(r.cache, alts[k]))
    decreases bound, 2, |alts|
  {
    if |alts| == 0 then CompiledParts([], cache)
    else
      var init := alts[..|alts| - 1];
      var front := CompileAlts(init, rules, cache, rank, bound);
      ResolvableGrows(rules, cache.Keys, front.cache.Keys, rank);
      assert alts[|alts| - 1] in alts;
      BelowGrows(alts[|alts| - 1], rules, cache.Keys, front.cache.Keys, rank, bound);
      var last := CompileSeq(alts[|alts| - 1], rules, front.cache, rank, bound);
      var r := CompiledParts(front.parts + [Concat(last.parts)], last.cache);
      LookupsExtend(front.cache, r.cache, init);
      r
  }

  /** The fragments of the indices of one alternative, left to right. */
  function CompileSeq(ixs: seq<nat>, rules: RuleMap, cache: Cache, ghost rank: map<nat, nat>, ghost bound: nat): (r: CompiledParts)
    requires Resolvable(rules, cache.Keys, rank)
    requires forall i | i in ixs :: Below(i, rules, cache.Keys, rank, bound)
    ensures Extends(cache, r.cache)
    ensures forall i | i in ixs :: i in r.cache
    ensures r.parts == Lookup(r.cache, ixs)
    decreases bound, 1, |ixs|
  {
    if |ixs| == 0 then CompiledParts([], cache)
    else
      var front := CompileSeq(ixs[..|ixs| - 1], rules, cache, rank, bound);
      ResolvableGrows(rules, cache.Keys, front.cache.Keys, rank);
      BelowGrows(ixs, rules, cache.Keys, front.cache.Keys, rank, bound);
      assert ixs[|ixs| - 1] in ixs;
      assert Below(ixs[|ixs| - 1], rules, front.cache.Keys, rank, bound);
      var f := Resolve(ixs[|ixs| - 1], rules, front.cache, rank);
      CompiledParts(front.parts + [f.text], f.cache)
  }

  /** One index inside an alternative (rule.rs:50-57): a cache hit is returned
      verbatim; a miss compiles the indexed rule and then records it. */
  function Resolve(i: nat, rules: RuleMap, cache: Cache, ghost rank: map<nat, nat>): (r: Compiled)
    requires Resolvable(rules, cache.Keys, rank)
    requires i in cache || (i in rules && i in rank)
    ensures Extends(cache, r.cache)
    ensures i in r.cache && r.text == r.cache[i]
    ensures i in cache ==> r == Compiled(cache[i], cache)
    ensures i !in cache ==> r.cache.Keys == Compile(rules[i], rules, cache, rank, rank[i]).cache.Keys + {i}
    decreases if i in cache then 0 else rank[i] + 1, 0, 0
  {
    if i in cache then Compiled(cache[i], cache)
    else
      var c := Compile(rules[i], rules, cache, rank, rank[i]);
      Compiled(c.text, c.cache[i := c.text])
  }

  /** `to_regex_string`: the compiler started from an empty cache. */
  function ToRegexString(rule: Rule, rules: RuleMap, ghost rank: map<nat, nat>, ghost bound: nat): (s: string)
    requires Resolvable(rules, {}, rank)
    requires RefsBelow(rule, rules, {}, rank, bound)
    ensures s == RefRule(rule, rules, map[], rank, bound)
  {
    CompileIsReference(rule, rules, map[], map[], rank, bound);
    Compile(rule, rules, map[], rank, bound).text
  }

  // ---------------------------------------------------------------------------
  // Reference denotation: the same fragments computed without a memo, with the
  // indices of `fixed` answered by `fixed` (the entries a caller pre-seeds).

  function RefIndex(i: nat, rules: RuleMap, fixed: Cache, ghost rank: map<nat, nat>): string
    requires Resolvable(rules, fixed.Keys, rank)
    requires i in fixed || (i in rules && i in rank)
    decreases if i in fixed then 0 else rank[i] + 1, 0, 0
  {
    if i in fixed then fixed[i] else RefRule(rules[i], rules, fixed, rank, rank[i])
  }

  function RefRule(rule: Rule, rules: RuleMap, fixed: Cache, ghost rank: map<nat, nat>, ghost bound: nat): string
    requires Resolvable(rules, fixed.Keys, rank)
    requires RefsBelow(rule, rules, fixed.Keys, rank, bound)
    decreases bound, 3, 0
  {
    match rule
    case Match(s) => s
    case Alt(alts) => Group(Join(RefAlts(alts, rules, fixed, rank, bound), "|"))
  }

  function RefAlts(alts: seq<seq<nat>>, rules: RuleMap, fixed: Cache, ghost rank: map<nat, nat>, ghost bound: nat): (r: seq<string>)
    requires Resolvable(rules, fixed.Keys, rank)
    requires forall a, i | a in alts && i in a :: Below(i, rules, fixed.Keys, rank, bound)
    ensures |r| == |alts|
    decreases bound, 2, |alts|
  {
    if |alts| == 0 then []
    else RefAlts(alts[..|alts| - 1], rules, fixed, rank, bound) + [Concat(RefSeq(alts[|alts| - 1], rules, fixed, rank, bound))]
  }

  function RefSeq(ixs: seq<nat>, rules: RuleMap, fixed: Cache, ghost rank: map<nat, nat>, ghost bound: nat): (r: seq<string>)
    requires Resolvable(rules, fixed.Keys, rank)
    requires forall i | i in ixs :: Below(i, rules, fixed.Keys, rank, bound)
    ensures |r| == |ixs|
    decreases bound, 1, |ixs|
  {
    if |ixs| == 0 then []
    else
      assert ixs[|ixs| - 1] in ixs;
      assert Below(ixs[|ixs| - 1], rules, fixed.Keys, rank, bound);
      RefSeq(ixs[..|ixs| - 1], rules, fixed, rank, bound) + [RefIndex(ixs[|ixs| - 1], rules, fixed, rank)]
  }

  /** Every entry of `c` is the reference fragment of its index, computed with
      the entries of `c0` held fixed; and `c` keeps all of `c0`. */
  predicate Faithful(c: Cache, rules: RuleMap, c0: Cache, rank: map<nat, nat>)
    requires Resolvable(rules, c0.Keys, rank)
  {
    && Extends(c0, c)
    && forall k | k in c :: (k in c0 || (k in rules && k in rank)) && c[k] == RefIndex(k, rules, c0, rank)
  }

  lemma FaithfulStart(rules: RuleMap, c0: Cache, rank: map<nat, nat>)
    requires Resolvable(rules, c0.Keys, rank)
    ensures Faithful(c0, rules, c0, rank)
  {
  }

  /** The compiler computes the reference fragment, whatever the cache it
      starts from, as long as that cache is faithful to the entries `c0` it
      started with; and the cache it returns is faithful too. So an index is
      expanded from the rule map at most once, and a pre-seeded entry always
      stands for its index. */
  lemma {:induction false} CompileIsReference(rule: Rule, rules: RuleMap, c0: Cache, c: Cache, rank: map<nat, nat>, bound: nat)
    requires Resolvable(rules, c0.Keys, rank) && Resolvable(rules, c.Keys, rank)
    requires Faithful(c, rules, c0, rank)
    requires RefsBelow(rule, rules, c.Keys, rank, bound) && RefsBelow(rule, rules, c0.Keys, rank, bound)
    ensures Compile(rule, rules, c, rank, bound).text == RefRule(rule, rules, c0, rank, bound)
    ensures Faithful(Compile(rule, rules, c, rank, bound).cache, rules, c0, rank)
    decreases bound, 3, 0
  {
    match rule
    case Match(s) =>
    case Alt(alts) =>
      AltsAreReference(alts, rules, c0, c, rank, bound);
  }

  lemma {:induction false} AltsAreReference(alts: seq<seq<nat>>, rules: RuleMap, c0: Cache, c: Cache, rank: map<nat, nat>, bound: nat)
    requires Resolvable(rules, c0.Keys, rank) && Resolvable(rules, c.Keys, rank)
    requires Faithful(c, rules, c0, rank)
    requires forall a, i | a in alts && i in a :: Below(i, rules, c.Keys, rank, bound)
    requires forall a, i | a in alts && i in a :: Below(i, rules, c0.Keys, rank, bound)
    ensures CompileAlts(alts, rules, c, rank, bound).parts == RefAlts(alts, rules, c0, rank, bound)
    ensures Faithful(CompileAlts(alts, rules, c, rank, bound).cache, rules, c0, rank)
    decreases bound, 2, |alts|
  {
    if |alts| > 0 {
      var init := alts[..|alts| - 1];
      AltsAreReference(init, rules, c0, c, rank, bound);
      var front := CompileAlts(init, rules, c, rank, bound);
      ResolvableGrows(rules, c.Keys, front.cache.Keys, rank);
      SeqIsReference(alts[|alts| - 1], rules, c0, front.cache, rank, bound);
    }
  }

  lemma {:induction false} SeqIsReference(ixs: seq<nat>, rules: RuleMap, c0: Cache, c: Cache, rank: map<nat, nat>, bound: nat)
    requires Resolvable(rules, c0.Keys, rank) && Resolvable(rules, c.Keys, rank)
    requires Faithful(c, rules, c0, rank)
    requires forall i | i in ixs :: Below(i, rules, c.Keys, rank, bound)
    requires forall i | i in ixs :: Below(i, rules, c0.Keys, rank, bound)
    ensures CompileSeq(ixs, rules, c, rank, bound).parts == RefSeq(ixs, rules, c0, rank, bound)
    ensures Faithful(CompileSeq(ixs, rules, c, rank, bound).cache, rules, c0, rank)
    decreases bound, 1, |ixs|
  {
    if |ixs| > 0 {
      SeqIsReference(ixs[..|ixs| - 1], rules, c0, c, rank, bound);
      var front := CompileSeq(ixs[..|ixs| - 1], rules, c, rank, bound);
      ResolvableGrows(rules, c.Keys, front.cache.Keys, rank);
      assert ixs[|ixs| - 1] in ixs;
      ResolveIsReference(ixs[|ixs| - 1], rules, c0, front.cache, rank);
    }
  }

  lemma {:induction false} ResolveIsReference(i: nat, rules: RuleMap, c0: Cache, c: Cache, rank: map<nat, nat>)
    requires Resolvable(rules, c0.Keys, rank) && Resolvable(rules, c.Keys, rank)
    requires Faithful(c, rules, c0, rank)
    requires i in c || (i in rules && i in rank)
    ensures (i in c0 || (i in rules && i in rank)) && Resolve(i, rules, c, rank).text == RefIndex(i, rules, c0, rank)
    ensures Faithful(Resolve(i, rules, c, rank).cache, rules, c0, rank)
    decreases if i in c then 0 else rank[i] + 1, 0, 0
  {
    if i !in c {
      assert i !in c0;
      CompileIsReference(rules[i], rules, c0, c, rank, rank[i]);
    }
  }

  // ---------------------------------------------------------------------------
  // Properties of the compiler

  /** A `Match` rule compiles to its literal text, unescaped, and the cache is
      left as it was. */
  lemma MatchIsVerbatim(s: string, rules: RuleMap, cache: Cache, rank: map<nat, nat>, bound: nat)
    requires Resolvable(rules, cache.Keys, rank)
    ensures Compile(Match(s), rules, cache, rank, bound) == Compiled(s, cache)
  {
  }

  /** A cached index is answered from the cache alone: neither the rule map
      nor the ranking is consulted, and the cache is not written. */
  lemma CachedIgnoresRuleMap(i: nat, rules1: RuleMap, rules2: RuleMap, cache: Cache, rank1: map<nat, nat>, rank2: map<nat, nat>)
    requires Resolvable(rules1, cache.Keys, rank1) && Resolvable(rules2, cache.Keys, rank2)
    requires i in cache
    ensures Resolve(i, rules1, cache, rank1) == Resolve(i, rules2, cache, rank2) == Compiled(cache[i], cache)
  {
  }

  /** A single alternative whose text contains `|` is still wrapped, even
      though it is not itself an alternation of several branches. */
  lemma {:induction false} SingleAlternativeWithBarIsGrouped(a: seq<nat>, rules: RuleMap, cache: Cache, rank: map<nat, nat>, bound: nat)
    requires Resolvable(rules, cache.Keys, rank)
    requires RefsBelow(Alt([a]), rules, cache.Keys, rank, bound)
    requires '|' in Concat(Lookup(Compile(Alt([a]), rules, cache, rank, bound).cache, a))
    ensures Compile(Alt([a]), rules, cache, rank, bound).text
         == "(?:" + Concat(Lookup(Compile(Alt([a]), rules, cache, rank, bound).cache, a)) + ")"
  {
    var r := Compile(Alt([a]), rules, cache, rank, bound);
    var parts := seq(1, k requires 0 <= k < 1 => Concat(Lookup(r.cache, [a][k])));
    assert parts == [Concat(Lookup(r.cache, a))];
  }

  // ---------------------------------------------------------------------------
  // The unit tests of rule.rs

  /** rule.rs:78-85: a lone `Match("a")` compiles to `a`. */
  lemma MatchExample()
    ensures ToRegexString(Match("a"), map[0 := Match("a")], map[0 := 0], 0) == "a"
  {
  }

  const AltRules: RuleMap := map[0 := Alt([[1], [2, 1]]), 1 := Match("a"), 2 := Match("b")]
  const AltRank: map<nat, nat> := map[0 := 1, 1 := 0, 2 := 0]

  lemma AltRulesResolvable()
    ensures Resolvable(AltRules, {}, AltRank)
    ensures RefsBelow(AltRules[0], AltRules, {}, AltRank, 1)
  {
    assert AltRules.Keys == {0, 1, 2};
  }

  lemma AltStep1()
    ensures Resolvable(AltRules, {}, AltRank)
    ensures RefIndex(1, AltRules, map[], AltRank) == "a"
  {
    AltRulesResolvable();
  }
  lemma AltStep2()
    ensures Resolvable(AltRules, {}, AltRank)
    ensures RefSeq([1], AltRules, map[], AltRank, 1) == ["a"]
  {
    AltRulesResolvable();
    AltStep1();
    assert [1][..0] == [];
  }
  lemma AltStep3()
    ensures Resolvable(AltRules, {}, AltRank)
    ensures RefSeq([2, 1], AltRules, map[], AltRank, 1) == ["b", "a"]
  {
    AltRulesResolvable();
    AltStep2();
    assert [2, 1][..1] == [2];
    assert RefSeq([2], AltRules, map[], AltRank, 1) == ["b"] by { assert [2][..0] == []; }
  }
  lemma AltStep4()
    ensures Resolvable(AltRules, {}, AltRank)
    ensures RefAlts([[1]], AltRules, map[], AltRank, 1) == ["a"]
  {
    AltRulesResolvable();
    AltStep2();
    assert Concat(["a"]) == "a" by { assert ["a"][..0] == []; }
    assert [[1]][..0] == [];
  }
  lemma AltStep5()
    ensures Resolvable(AltRules, {}, AltRank)
    ensures RefAlts([[1], [2, 1]], AltRules, map[], AltRank, 1) == ["a", "ba"]
  {
    AltRulesResolvable();
    AltStep3();
    AltStep4();
    ConcatBA();
    assert [[1], [2, 1]][..1] == [[1]];
  }

  lemma ConcatBA()
    ensures Concat(["b", "a"]) == "ba"
  {
    assert ["b", "a"][..1] == ["b"];
    assert ["b"][..0] == [];
  }

  lemma AltStep6()
    ensures Resolvable(AltRules, {}, AltRank)
    ensures RefRule(Alt([[1], [2, 1]]), AltRules, map[], AltRank, 1) == "(?:a|ba)"
  {
    AltRulesResolvable();
    AltStep5();
    GroupABa(RefAlts([[1], [2, 1]], AltRules, map[], AltRank, 1));
  }

  lemma GroupABa(parts: seq<string>)
    requires parts == ["a", "ba"]
    ensures Group(Join(parts, "|")) == "(?:a|ba)"
  {
    assert Join(parts, "|") == "a|ba" by { assert parts[..1] == ["a"]; }
    assert '|' in "a|ba" by { assert "a|ba"[1] == '|'; }
  }

  /** rule.rs:87-99: `Alt([[1],[2,1]])` with 1 = "a", 2 = "b" gives `(?:a|ba)`
      (the test compares after deleting `?:`). */
  lemma AltExample()
    ensures Resolvable(AltRules, {}, AltRank) && RefsBelow(AltRules[0], AltRules, {}, AltRank, 1)
    ensures ToRegexString(AltRules[0], AltRules, AltRank, 1) == "(?:a|ba)"
  {
    AltRulesResolvable();
    AltStep6();
    assert AltRules[0] == Alt([[1], [2, 1]]);

  }

  // Small evaluation steps for the nested example

  lemma RefSeqPair(i: nat, j: nat, rules: RuleMap, rank: map<nat, nat>, bound: nat)
    requires Resolvable(rules, {}, rank)
    requires Below(i, rules, {}, rank, bound) && Below(j, rules, {}, rank, bound)
    ensures RefSeq([i, j], rules, map[], rank, bound) == [RefIndex(i, rules, map[], rank), RefIndex(j, rules, map[], rank)]
  {
    assert [i, j][..1] == [i];
    assert [i][..0] == [];
  }

  lemma RefSeqTriple(i: nat, j: nat, k: nat, rules: RuleMap, rank: map<nat, nat>, bound: nat)
    requires Resolvable(rules, {}, rank)
    requires Below(i, rules, {}, rank, bound) && Below(j, rules, {}, rank, bound) && Below(k, rules, {}, rank, bound)
    ensures RefSeq([i, j, k], rules, map[], rank, bound)
         == [RefIndex(i, rules, map[], rank), RefIndex(j, rules, map[], rank), RefIndex(k, rules, map[], rank)]
  {
    assert [i, j, k][..2] == [i, j];
    RefSeqPair(i, j, rules, rank, bound);
  }

  lemma ConcatPair(x: string, y: string)
    ensures Concat([x, y]) == x + y
  {
    assert Concat([x]) == x by {
      var e: seq<string> := [x][..0];
      assert e == [] && Concat(e) == "";
    }
    assert [x, y][..1] == [x];
  }

  lemma ConcatTriple(x: string, y: string, z: string)
    ensures Concat([x, y, z]) == x + y + z
  {
    assert [x, y, z][..2] == [x, y];
    ConcatPair(x, y);
  }

  /** A text holding a wrapped alternation is wrapped in turn. */
  lemma GroupWrapped(a: string, x: string, y: string, b: string)
    ensures Group(a + ("(?:" + (x + "|" + y) + ")") + b) == "(?:" + (a + ("(?:" + (x + "|" + y) + ")") + b) + ")"
  {
    assert (a + ("(?:" + (x + "|" + y) + ")") + b)[|a| + 3 + |x|] == '|';
  }

  /** A single alternative is its concatenation, wrapped when it holds a `|`. */
  lemma SingleAltRule(ixs: seq<nat>, rules: RuleMap, rank: map<nat, nat>, bound: nat, t: string)
    requires Resolvable(rules, {}, rank) && RefsBelow(Alt([ixs]), rules, {}, rank, bound)
    requires RefAlts([ixs], rules, map[], rank, bound) == [t]
    ensures RefRule(Alt([ixs]), rules, map[], rank, bound) == Group(t)
  {
  }

  lemma RefAltsPair(a: seq<nat>, b: seq<nat>, rules: RuleMap, fixed: Cache, rank: map<nat, nat>, bound: nat)
    requires Resolvable(rules, fixed.Keys, rank)
    requires forall i | i in a :: Below(i, rules, fixed.Keys, rank, bound)
    requires forall i | i in b :: Below(i, rules, fixed.Keys, rank, bound)
    ensures forall g, i | g in [a, b] && i in g :: Below(i, rules, fixed.Keys, rank, bound)
    ensures RefAlts([a, b], rules, fixed, rank, bound)
         == [Concat(RefSeq(a, rules, fixed, rank, bound)), Concat(RefSeq(b, rules, fixed, rank, bound))]
  {
    var alts: seq<seq<nat>> := [a, b];
    assert alts[..1] == [a] && |alts[..1][..0]| == 0;
  }

  lemma JoinPair(x: string, y: string)
    ensures Join([x, y], "|") == x + "|" + y
  {
    assert [x, y][..1] == [x];
  }

  /** An alternation of two alternatives is their texts around a `|`, wrapped. */
  lemma AltOfTwo(alts: seq<seq<nat>>, rules: RuleMap, rank: map<nat, nat>, bound: nat, x: string, y: string)
    requires Resolvable(rules, {}, rank) && RefsBelow(Alt(alts), rules, {}, rank, bound)
    requires RefAlts(alts, rules, map[], rank, bound) == [x, y]
    ensures RefRule(Alt(alts), rules, map[], rank, bound) == "(?:" + (x + "|" + y) + ")"
  {
    JoinPair(x, y);
    assert (x + "|" + y)[|x|] == '|';
  }

  /** An alternation of two pairs of indices, as a reference fragment. */
  lemma RefTwoPairs(i: nat, j: nat, k: nat, l: nat, rules: RuleMap, rank: map<nat, nat>, bound: nat)
    requires Resolvable(rules, {}, rank)
    requires Below(i, rules, {}, rank, bound) && Below(j, rules, {}, rank, bound)
    requires Below(k, rules, {}, rank, bound) && Below(l, rules, {}, rank, bound)
    ensures RefsBelow(Alt([[i, j], [k, l]]), rules, {}, rank, bound)
    ensures RefRule(Alt([[i, j], [k, l]]), rules, map[], rank, bound)
         == "(?:" + ((RefIndex(i, rules, map[], rank) + RefIndex(j, rules, map[], rank)) + "|"
                     + (RefIndex(k, rules, map[], rank) + RefIndex(l, rules, map[], rank))) + ")"
  {
    var x := RefIndex(i, rules, map[], rank) + RefIndex(j, rules, map[], rank);
    var y := RefIndex(k, rules, map[], rank) + RefIndex(l, rules, map[], rank);
    RefSeqPair(i, j, rules, rank, bound);
    RefSeqPair(k, l, rules, rank, bound);
    ConcatPair(RefIndex(i, rules, map[], rank), RefIndex(j, rules, map[], rank));
    ConcatPair(RefIndex(k, rules, map[], rank), RefIndex(l, rules, map[], rank));
    RefAltsPair([i, j], [k, l], rules, map[], rank, bound);
    AltOfTwo([[i, j], [k, l]], rules, rank, bound, x, y);
  }

  const NestRules: RuleMap := map[0 := Alt([[4, 1, 5]]), 1 := Alt([[2, 3], [3, 2]]), 2 := Alt([[4, 4], [5, 5]]),
                                  3 := Alt([[4, 5], [5, 4]]), 4 := Match("a"), 5 := Match("b")]
  const NestRank: map<nat, nat> := map[0 := 3, 1 := 2, 2 := 1, 3 := 1, 4 := 0, 5 := 0]

  lemma NestRulesResolvable()
    ensures Resolvable(NestRules, {}, NestRank)
  {
    assert NestRules.Keys == {0, 1, 2, 3, 4, 5};
    forall j | j in NestRules
      ensures j in NestRank && RefsBelow(NestRules[j], NestRules, {}, NestRank, NestRank[j])
    {
      if j == 0 {
        assert forall a, i | a in [[4, 1, 5]] && i in a :: i == 4 || i == 1 || i == 5;
      } else if j == 1 {
        assert forall a, i | a in [[2, 3], [3, 2]] && i in a :: i == 2 || i == 3;
      } else if j == 2 {
        assert forall a, i | a in [[4, 4], [5, 5]] && i in a :: i == 4 || i == 5;
      } else if j == 3 {
        assert forall a, i | a in [[4, 5], [5, 4]] && i in a :: i == 4 || i == 5;
      }
    }
  }

  lemma NestLeaves()
    ensures Resolvable(NestRules, {}, NestRank)
    ensures RefIndex(4, NestRules, map[], NestRank) == "a" && RefIndex(5, NestRules, map[], NestRank) == "b"
  {
    NestRulesResolvable();
  }

  /** The entries of the nested example's maps that the steps below use. */
  lemma NestEntries()
    ensures NestRules[1] == Alt([[2, 3], [3, 2]]) && NestRank[1] == 2
    ensures NestRules[2] == Alt([[4, 4], [5, 5]]) && NestRank[2] == 1
    ensures NestRules[3] == Alt([[4, 5], [5, 4]]) && NestRank[3] == 1
    ensures forall i | i in {2, 3} :: Below(i, NestRules, {}, NestRank, 2)
    ensures forall i | i in {4, 5} :: Below(i, NestRules, {}, NestRank, 1)
  {
  }

  /** An index's reference regex is that of its rule at its rank. */
  lemma RefIndexOf(i: nat, rules: RuleMap, rank: map<nat, nat>, rule: Rule, b: nat)
    requires Resolvable(rules, {}, rank) && i in rules && i in rank && rules[i] == rule && rank[i] == b
    ensures RefsBelow(rule, rules, {}, rank, b)
    ensures RefIndex(i, rules, map[], rank) == RefRule(rule, rules, map[], rank, b)
  {
  }

  lemma NestPairs()
    ensures Resolvable(NestRules, {}, NestRank)
    ensures RefIndex(2, NestRules, map[], NestRank) == "(?:aa|bb)"
    ensures RefIndex(3, NestRules, map[], NestRank) == "(?:ab|ba)"
  {
    NestLeaves();
    NestEntries();
    RefTwoPairs(4, 4, 5, 5, NestRules, NestRank, 1);
    RefTwoPairs(4, 5, 5, 4, NestRules, NestRank, 1);
    RefIndexOf(2, NestRules, NestRank, Alt([[4, 4], [5, 5]]), 1);
    RefIndexOf(3, NestRules, NestRank, Alt([[4, 5], [5, 4]]), 1);
    PairTexts(RefIndex(4, NestRules, map[], NestRank), RefIndex(5, NestRules, map[], NestRank));
  }

  lemma PairTexts(a: string, b: string)
    requires a == "a" && b == "b"
    ensures "(?:" + ((a + a) + "|" + (b + b)) + ")" == "(?:aa|bb)"
    ensures "(?:" + ((a + b) + "|" + (b + a)) + ")" == "(?:ab|ba)"
  {
  }

  lemma NestMiddle()
    ensures Resolvable(NestRules, {}, NestRank)
    ensures RefIndex(1, NestRules, map[], NestRank)
         == "(?:" + (("(?:aa|bb)" + "(?:ab|ba)") + "|" + ("(?:ab|ba)" + "(?:aa|bb)")) + ")"
  {
    NestPairs();
    NestEntries();
    RefTwoPairs(2, 3, 3, 2, NestRules, NestRank, 2);
    RefIndexOf(1, NestRules, NestRank, Alt([[2, 3], [3, 2]]), 2);
  }

  lemma NestRoot()
    ensures Resolvable(NestRules, {}, NestRank) && RefsBelow(Alt([[4, 1, 5]]), NestRules, {}, NestRank, 3)
    ensures RefAlts([[4, 1, 5]], NestRules, map[], NestRank, 3)
         == ["a" + ("(?:" + (("(?:aa|bb)" + "(?:ab|ba)") + "|" + ("(?:ab|ba)" + "(?:aa|bb)")) + ")") + "b"]
  {
    NestLeaves();
    NestMiddle();
    assert NestRules[0] == Alt([[4, 1, 5]]);
    var m := "(?:" + (("(?:aa|bb)" + "(?:ab|ba)") + "|" + ("(?:ab|ba)" + "(?:aa|bb)")) + ")";
    var alts: seq<seq<nat>> := [[4, 1, 5]];
    RefSeqTriple(4, 1, 5, NestRules, NestRank, 3);
    ConcatTriple("a", m, "b");
    assert |alts[..0]| == 0;
  }

  lemma NestRootRule()
    ensures Resolvable(NestRules, {}, NestRank) && RefsBelow(Alt([[4, 1, 5]]), NestRules, {}, NestRank, 3)
    ensures RefRule(Alt([[4, 1, 5]]), NestRules, map[], NestRank, 3)
         == "(?:" + ("a" + ("(?:" + (("(?:aa|bb)" + "(?:ab|ba)") + "|" + ("(?:ab|ba)" + "(?:aa|bb)")) + ")") + "b") + ")"
  {
    NestRoot();
    var x := "(?:aa|bb)" + "(?:ab|ba)";
    var y := "(?:ab|ba)" + "(?:aa|bb)";
    SingleAltRule([4, 1, 5], NestRules, NestRank, 3, "a" + ("(?:" + (x + "|" + y) + ")") + "b");
    GroupWrapped("a", x, y, "b");
  }

  /** rule.rs:101-122: the nested rule `4 1 5` over two levels of
      alternations gives `(?:a(?:(?:aa|bb)(?:ab|ba)|(?:ab|ba)(?:aa|bb))b)`,
      written below group by group (the test compares after deleting `?:`). */
  lemma NestedExample()
    ensures Resolvable(NestRules, {}, NestRank) && RefsBelow(NestRules[0], NestRules, {}, NestRank, 3)
    ensures ToRegexString(NestRules[0], NestRules, NestRank, 3)
         == "(?:" + ("a" + ("(?:" + (("(?:aa|bb)" + "(?:ab|ba)") + "|" + ("(?:ab|ba)" + "(?:aa|bb)")) + ")") + "b") + ")"
  {
    NestRootRule();
    assert NestRules[0] == Alt([[4, 1, 5]]);
  }
}
