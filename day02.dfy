/** Day 2: password policies. Each line gives two numbers, a letter and a
    password; the first policy bounds how often the letter occurs, the
    second asks that exactly one of two 1-based positions holds it. */
module Day02 {
  import opened Common

  /** `Policy` (main.rs:15-20). */
  datatype Policy = Policy(letter: char, min: nat, max: nat)

  /** `Item` (main.rs:9-13). */
  datatype Item = Item(policy: Policy, password: string)

  // ---------------------------------------------------------------------------
  // The pattern `(\d+)-(\d+)\s+(\w):\s+(\w+)` (main.rs:27)

  /** The number of leading whitespace characters. */
  function SpaceRun(s: string): (k: nat)
    ensures k <= |s| && (forall m | 0 <= m < k :: IsSpace(s[m]))
    ensures k < |s| ==> !IsSpace(s[k])
  {
    if |s| == 0 || !IsSpace(s[0]) then 0 else 1 + SpaceRun(s[1..])
  }

  /** The number of leading word characters. */
  function WordRun(s: string): (k: nat)
    ensures k <= |s| && (forall m | 0 <= m < k :: IsWordChar(s[m]))
    ensures k < |s| ==> !IsWordChar(s[k])
  {
    if |s| == 0 || !IsWordChar(s[0]) then 0 else 1 + WordRun(s[1..])
  }

  lemma {:induction false} SpaceRunPrefix(w: string, rest: string)
    requires forall m | 0 <= m < |w| :: IsSpace(w[m])
    requires rest == [] || !IsSpace(rest[0])
    ensures SpaceRun(w + rest) == |w|
  {
    if |w| > 0 {
      assert (w + rest)[1..] == w[1..] + rest;
      SpaceRunPrefix(w[1..], rest);
    }
  }

  lemma {:induction false} WordRunPrefix(w: string, rest: string)
    requires forall m | 0 <= m < |w| :: IsWordChar(w[m])
    requires rest == [] || !IsWordChar(rest[0])
    ensures WordRun(w + rest) == |w|
  {
    if |w| > 0 {
      assert (w + rest)[1..] == w[1..] + rest;
      WordRunPrefix(w[1..], rest);
    }
  }

  /** What the four groups of the pattern capture. */
  datatype Captures = Captures(min: string, max: string, letter: char, password: string)

  predicate AllWordChars(s: string)
  {
    forall m | 0 <= m < |s| :: IsWordChar(s[m])
  }

  /** The pattern matched at the very start of `s`: digits and `-`, then
      the rest. The repetitions are greedy, and no shorter repetition could
      let the rest match, so a match here is unique. */
  function MatchHere(s: string): (r: Option<Captures>)
    ensures r.Some? ==> |s| > 0 && IsDigit(s[0])
  {
    match DigitsThen(s, "-")
    case None => None
    case Some((min, t)) => MatchMax(min, t)
  }

  /** `(\d+)\s+` after the `-`. */
  function MatchMax(min: string, t: string): Option<Captures>
  {
    var k := DigitRun(t);
    if k == 0 then None else MatchLetter(min, t[..k], t[k..])
  }

  /** `\s+(\w):` after the second number. */
  function MatchLetter(min: string, max: string, u: string): Option<Captures>
  {
    var k := SpaceRun(u);
    if k == 0 || k + 2 > |u| || !IsWordChar(u[k]) || u[k + 1] != ':' then None
    else MatchPassword(min, max, u[k], u[k + 2..])
  }

  /** `\s+(\w+)` after the colon; the word is as long as it can be. */
  function MatchPassword(min: string, max: string, letter: char, v: string): Option<Captures>
  {
    var k := SpaceRun(v);
    if k == 0 then None
    else
      var w := v[k..];
      var n := WordRun(w);
      if n == 0 then None else Some(Captures(min, max, letter, w[..n]))
  }

  /** What a match captures has the shape of the pattern's groups. */
  lemma MatchShape(s: string)
    requires MatchHere(s).Some?
    ensures var c := MatchHere(s).value;
      && |c.min| > 0 && AllDigits(c.min) && |c.max| > 0 && AllDigits(c.max)
      && IsWordChar(c.letter) && |c.password| > 0 && AllWordChars(c.password)
  {
  }

  /** The pattern matched from position `j` of `s`. */
  function MatchAt(s: string, j: nat): Option<Captures>
    requires j <= |s|
  {
    MatchHere(s[j..])
  }

  /** The outcome of trying the pattern at each position of `s`, the end
      included. */
  function Matches(s: string): (ms: seq<Option<Captures>>)
    ensures |ms| == |s| + 1
  {
    seq(|s| + 1, j requires 0 <= j <= |s| => MatchAt(s, j))
  }

  /** `Regex::captures` searching from position `i` of the outcomes at each
      position: the leftmost position where the pattern matches, and what
      it captures there. */
  function Search(ms: seq<Option<Captures>>, i: nat): (r: Option<(nat, Captures)>)
    requires i <= |ms|
    ensures r.Some? ==> i <= r.value.0 < |ms| && ms[r.value.0] == Some(r.value.1)
    ensures r.Some? ==> forall j | i <= j < r.value.0 :: ms[j].None?
    ensures r.None? <==> forall j | i <= j < |ms| :: ms[j].None?
    decreases |ms| - i
  {
    if i == |ms| then None
    else if ms[i].Some? then Some((i, ms[i].value))
    else Search(ms, i + 1)
  }

  /** `Item::from_str` (main.rs:25-38): the captures of the leftmost match,
      with both numbers read as `usize`. A line the pattern does not match,
      or a number too large for a `usize`, panics (the `unwrap`s), modelled
      as `None`. */
  function ParseItem(s: string): (r: Option<Item>)
    ensures r.Some? ==> r.value.policy.min < UsizeLimit && r.value.policy.max < UsizeLimit
    ensures r.None? ==>
      || Search(Matches(s), 0).None?
      || ParseUnsigned(Search(Matches(s), 0).value.1.min, UsizeLimit).None?
      || ParseUnsigned(Search(Matches(s), 0).value.1.max, UsizeLimit).None?
  {
    match Search(Matches(s), 0)
    case None => None
    case Some((_, c)) =>
      match (ParseUnsigned(c.min, UsizeLimit), ParseUnsigned(c.max, UsizeLimit))
      case (Some(min), Some(max)) => Some(Item(Policy(c.letter, min, max), c.password))
      case _ => None
  }

  /** A line in the puzzle's format. */
  function Render(item: Item): string
  {
    Decimal(item.policy.min) + "-" + Decimal(item.policy.max) + " " + [item.policy.letter] + ": " + item.password
  }

  /** The items a line can describe: numbers that fit a `usize`, a word
      character and a non-empty word. */
  predicate WellFormed(item: Item)
  {
    && item.policy.min < UsizeLimit && item.policy.max < UsizeLimit
    && IsWordChar(item.policy.letter)
    && |item.password| > 0 && AllWordChars(item.password)
  }

  /** The pattern matches a rendered line at its start. */
  lemma MatchRender(item: Item)
    requires WellFormed(item)
    ensures MatchHere(Render(item)) == Some(RenderCaptures(item))
  {
    var a, b := Decimal(item.policy.min), Decimal(item.policy.max);
    var c, p := item.policy.letter, item.password;
    var t := b + " " + [c] + ": " + p;
    assert Render(item) == a + "-" + t;
    DigitsThenOf(a, "-", t);
    MatchMaxRender(a, b, c, p);
  }

  lemma MatchMaxRender(a: string, b: string, c: char, p: string)
    requires |b| > 0 && AllDigits(b) && IsWordChar(c) && |p| > 0 && AllWordChars(p)
    ensures MatchMax(a, b + " " + [c] + ": " + p) == Some(Captures(a, b, c, p))
  {
    var t := b + " " + [c] + ": " + p;
    var u := " " + [c] + ": " + p;
    assert t == b + u;
    DigitRunPrefix(b, u);
    assert t[..|b|] == b && t[|b|..] == u;
    MatchLetterRender(a, b, c, p);
  }

  lemma MatchLetterRender(a: string, b: string, c: char, p: string)
    requires IsWordChar(c) && |p| > 0 && AllWordChars(p)
    ensures MatchLetter(a, b, " " + [c] + ": " + p) == Some(Captures(a, b, c, p))
  {
    var u := " " + [c] + ": " + p;
    assert u == " " + ([c] + ": " + p);
    SpaceRunPrefix(" ", [c] + ": " + p);
    assert u[1] == c && u[2] == ':';
    assert u[3..] == " " + p;
    MatchPasswordRender(a, b, c, p);
  }

  lemma MatchPasswordRender(a: string, b: string, c: char, p: string)
    requires |p| > 0 && AllWordChars(p)
    ensures MatchPassword(a, b, c, " " + p) == Some(Captures(a, b, c, p))
  {
    SpaceRunPrefix(" ", p);
    assert (" " + p)[1..] == p;
    WordRunPrefix(p, []);
    assert p + [] == p;
    assert p[..|p|] == p;
  }

  /** The captures of a rendered line. */
  function RenderCaptures(item: Item): Captures
  {
    Captures(Decimal(item.policy.min), Decimal(item.policy.max), item.policy.letter, item.password)
  }

  /** The leftmost position where the pattern matches is the first one that
      is not `None`. */
  lemma {:induction false} SearchFinds(ms: seq<Option<Captures>>, i: nat, p: nat, c: Captures)
    requires i <= p < |ms| && ms[p] == Some(c)
    requires forall j | i <= j < p :: ms[j].None?
    ensures Search(ms, i) == Some((p, c))
    decreases p - i
  {
    if i < p {
      SearchFinds(ms, i + 1, p, c);
    }
  }

  /** A line whose leftmost match captures a rendered item reads as that
      item. */
  lemma ParseOfCaptures(s: string, p: nat, item: Item)
    requires item.policy.min < UsizeLimit && item.policy.max < UsizeLimit
    requires p <= |s| && Matches(s)[p] == Some(RenderCaptures(item))
    requires forall j | 0 <= j < p :: Matches(s)[j].None?
    ensures ParseItem(s) == Some(item)
  {
    SearchFinds(Matches(s), 0, p, RenderCaptures(item));
    ParseUnsignedDecimal(item.policy.min, UsizeLimit);
    ParseUnsignedDecimal(item.policy.max, UsizeLimit);
  }

  /** Reading a rendered line gives the item back. */
  lemma ParseRender(item: Item)
    requires WellFormed(item)
    ensures ParseItem(Render(item)) == Some(item)
  {
    var s := Render(item);
    MatchRender(item);
    assert s[0..] == s;
    ParseOfCaptures(s, 0, item);
  }

  /** The pattern is not anchored: text without digits before a line is
      skipped. */
  lemma ParseAfterText(prefix: string, item: Item)
    requires WellFormed(item) && forall m | 0 <= m < |prefix| :: !IsDigit(prefix[m])
    ensures ParseItem(prefix + Render(item)) == Some(item)
  {
    var s := prefix + Render(item);
    var ms := Matches(s);
    forall j | 0 <= j < |prefix|
      ensures ms[j].None?
    {
      assert ms[j] == MatchHere(s[j..]);
      assert s[j..][0] == prefix[j];
    }
    assert s[|prefix|..] == Render(item);
    MatchRender(item);
    ParseOfCaptures(s, |prefix|, item);
  }

  // ---------------------------------------------------------------------------
  // The two policies

  /** How many times `c` occurs in `s` (`chars().filter(…).count()`). */
  function Count(s: string, c: char): nat
  {
    if |s| == 0 then 0 else Count(s[..|s| - 1], c) + (if s[|s| - 1] == c then 1 else 0)
  }

  /** The count is the letter's multiplicity in the password. */
  lemma {:induction false} CountIsMultiplicity(s: string, c: char)
    ensures Count(s, c) == multiset(s)[c]
  {
    if |s| > 0 {
      CountIsMultiplicity(s[..|s| - 1], c);
      assert s == s[..|s| - 1] + [s[|s| - 1]];
    }
  }

  /** `is_valid_first` (main.rs:42-46). */
  function IsValidFirst(item: Item): bool
  {
    item.policy.min <= Count(item.password, item.policy.letter) <= item.policy.max
  }

  /** The first policy holds exactly when the letter occurs between `min`
      and `max` times. */
  lemma ValidFirstIff(item: Item)
    ensures IsValidFirst(item) <==>
      item.policy.min <= multiset(item.password)[item.policy.letter] <= item.policy.max
  {
    CountIsMultiplicity(item.password, item.policy.letter);
  }

  /** `is_valid_second` (main.rs:48-61): `false` when a position is past the
      end; otherwise whether exactly one of the 1-based positions holds the
      letter. A position 0 makes `i - 1` underflow, which panics, modelled as
      `None`. */
  function IsValidSecond(item: Item): (r: Option<bool>)
    ensures r.None? <==>
      item.policy.min <= |item.password| && item.policy.max <= |item.password| &&
      (item.policy.min == 0 || item.policy.max == 0)
  {
    var (i, j, pw) := (item.policy.min, item.policy.max, item.password);
    if i > |pw| || j > |pw| then Some(false)
    else if i == 0 || j == 0 then None
    else Some((pw[i - 1] == item.policy.letter) != (pw[j - 1] == item.policy.letter))
  }

  /** The letter is at 1-based position `p`. */
  predicate Holds(item: Item, p: nat)
    requires 1 <= p <= |item.password|
  {
    item.password[p - 1] == item.policy.letter
  }

  /** The 1-based positions among the two that hold the letter. */
  function Holding(item: Item): set<nat>
  {
    set p | p in {item.policy.min, item.policy.max} && 1 <= p <= |item.password| && Holds(item, p)
  }

  /** The second policy holds exactly when both positions are in the
      password, they differ, and exactly one of them holds the letter. */
  lemma ValidSecondIff(item: Item)
    ensures IsValidSecond(item) == Some(true) <==>
      1 <= item.policy.min <= |item.password| && 1 <= item.policy.max <= |item.password| &&
      item.policy.min != item.policy.max && |Holding(item)| == 1
  {
    var (i, j, pw, c) := (item.policy.min, item.policy.max, item.password, item.policy.letter);
    if 1 <= i <= |pw| && 1 <= j <= |pw| && i != j {
      var h := Holding(item);
      if pw[i - 1] == c && pw[j - 1] == c {
        assert h == {i, j};
      } else if pw[i - 1] == c {
        assert h == {i};
      } else if pw[j - 1] == c {
        assert h == {j};
      } else {
        assert h == {};
      }
    }
  }

  /** With the same position twice the second policy never holds, even
      when that position holds the letter. */
  lemma SamePositionNeverValid(item: Item)
    requires item.policy.min == item.policy.max
    ensures IsValidSecond(item) != Some(true)
  {
  }

  // ---------------------------------------------------------------------------
  // The answers (main.rs:64-81)

  /** How many items `valid` accepts (`filter(…).count()`). */
  function CountValid(items: seq<Item>, valid: Item -> bool): nat
  {
    if |items| == 0 then 0
    else CountValid(items[..|items| - 1], valid) + (if valid(items[|items| - 1]) then 1 else 0)
  }

  /** The positions whose item `valid` accepts. */
  function Accepted(items: seq<Item>, valid: Item -> bool): set<nat>
  {
    set k | 0 <= k < |items| && valid(items[k])
  }

  /** The count is the number of positions whose item is accepted. */
  lemma {:induction false} CountValidIndices(items: seq<Item>, valid: Item -> bool)
    ensures CountValid(items, valid) == |Accepted(items, valid)|
  {
    if |items| > 0 {
      var n := |items| - 1;
      var init := items[..n];
      CountValidIndices(init, valid);
      var before := Accepted(init, valid);
      var after := Accepted(items, valid);
      if valid(items[n]) {
        assert after == before + {n};
      } else {
        assert after == before;
      }
    }
  }

  /** The first answer: how many lines satisfy the first policy; a line
      that does not parse panics. */
  function SolvePartOne(lines: seq<string>): (r: Option<nat>)
    ensures r.None? <==> exists k | 0 <= k < |lines| :: ParseItem(lines[k]).None?
  {
    match ParseEach(lines, ParseItem)
    case None => None
    case Some(items) => Some(CountValid(items, IsValidFirst))
  }

  /** The second policy as a filter; a panic counts as not accepted here, and
      `SolvePartTwo` reports it. */
  function ValidSecond(item: Item): bool
  {
    IsValidSecond(item) == Some(true)
  }

  /** The second answer: how many lines satisfy the second policy; a line
      that does not parse, or a position 0 the check reaches, panics. */
  function SolvePartTwo(lines: seq<string>): (r: Option<nat>)
    ensures r.Some? ==> forall k | 0 <= k < |lines| :: ParseItem(lines[k]).Some? && IsValidSecond(ParseItem(lines[k]).value).Some?
  {
    match ParseEach(lines, ParseItem)
    case None => None
    case Some(items) =>
      if exists k | 0 <= k < |items| :: IsValidSecond(items[k]).None? then None
      else Some(CountValid(items, ValidSecond))
  }

  /** Items written one per line. */
  function Lines(items: seq<Item>): (lines: seq<string>)
    ensures |lines| == |items|
  {
    seq(|items|, k requires 0 <= k < |items| => Render(items[k]))
  }

  /** The first answer counts the lines whose items satisfy the first
      policy. */
  lemma SolvePartOneCounts(items: seq<Item>)
    requires forall k | 0 <= k < |items| :: WellFormed(items[k])
    ensures SolvePartOne(Lines(items)) == Some(|set k | 0 <= k < |items| && IsValidFirst(items[k])|)
  {
    ParseLines(items);
    SolvePartOneOf(Lines(items), items);
    assert Accepted(items, IsValidFirst) == set k | 0 <= k < |items| && IsValidFirst(items[k]);
  }

  /** The second answer counts the lines whose items satisfy the second
      policy, when no position is 0. */
  lemma SolvePartTwoCounts(items: seq<Item>)
    requires forall k | 0 <= k < |items| :: WellFormed(items[k]) && items[k].policy.min > 0 && items[k].policy.max > 0
    ensures SolvePartTwo(Lines(items)) == Some(|set k | 0 <= k < |items| && ValidSecond(items[k])|)
  {
    ParseLines(items);
    SolvePartTwoOf(Lines(items), items);
    assert Accepted(items, ValidSecond) == set k | 0 <= k < |items| && ValidSecond(items[k]);
  }

  /** Each line of the items reads as its item. */
  lemma ParseLines(items: seq<Item>)
    requires forall k | 0 <= k < |items| :: WellFormed(items[k])
    ensures forall k | 0 <= k < |items| :: ParseItem(Lines(items)[k]) == Some(items[k])
  {
    forall k | 0 <= k < |items|
      ensures ParseItem(Lines(items)[k]) == Some(items[k])
    {
      ParseRender(items[k]);
    }
  }

  lemma SolvePartOneOf(lines: seq<string>, items: seq<Item>)
    requires |lines| == |items| && forall k | 0 <= k < |lines| :: ParseItem(lines[k]) == Some(items[k])
    ensures SolvePartOne(lines) == Some(|Accepted(items, IsValidFirst)|)
  {
    ParseEachOf(lines, ParseItem, items);
    CountValidIndices(items, IsValidFirst);
  }

  lemma SolvePartTwoOf(lines: seq<string>, items: seq<Item>)
    requires |lines| == |items| && forall k | 0 <= k < |lines| :: ParseItem(lines[k]) == Some(items[k])
    requires forall k | 0 <= k < |items| :: IsValidSecond(items[k]).Some?
    ensures SolvePartTwo(lines) == Some(|Accepted(items, ValidSecond)|)
  {
    ParseEachOf(lines, ParseItem, items);
    CountValidIndices(items, ValidSecond);
  }
}
