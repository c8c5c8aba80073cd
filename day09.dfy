/** Day 9: an XMAS-encoded stream of numbers. The first number after the
    preamble that is not the sum of two different numbers among the 25
    before it is invalid; the answer to part two is the smallest plus the
    largest number of the first contiguous run of at least two numbers that
    adds up to it. */
module Day09 {
  import opened Common

  /** The numbers are `u64`. */
  const U64Limit: nat := 0x1_0000_0000_0000_0000

  /** How many numbers each number is checked against. */
  const Preamble: nat := 25

  // ---------------------------------------------------------------------------
  // `check_first` (main.rs:10-17)

  /** `check_first`: whether some pair of positions `a < b` of `w`, in the
      order `combinations(2)` tries them, holds different numbers adding up
      to `x`. */
  function CheckFirst(x: int, w: seq<nat>): bool
  {
    AnyPair(x, w, 0)
  }

  /** A pair whose first position is `a` or later. */
  function AnyPair(x: int, w: seq<nat>, a: nat): bool
    decreases |w| - a
  {
    a < |w| && (AnyPartner(x, w, a, a + 1) || AnyPair(x, w, a + 1))
  }

  /** A pair whose first position is `a` and second `b` or later. */
  function AnyPartner(x: int, w: seq<nat>, a: nat, b: nat): bool
    requires a < |w|
    decreases |w| - b
  {
    b < |w| && ((w[a] != w[b] && w[a] + w[b] == x) || AnyPartner(x, w, a, b + 1))
  }

  /** Two positions of `w` hold different numbers adding up to `x`. */
  predicate IsPairSum(x: int, w: seq<nat>, a: nat, b: nat)
  {
    a < b < |w| && w[a] != w[b] && w[a] + w[b] == x
  }

  /** `check_first` holds exactly when two positions hold different
      numbers adding up to `x`. */
  lemma CheckFirstIff(x: int, w: seq<nat>)
    ensures CheckFirst(x, w) <==> exists a, b :: IsPairSum(x, w, a, b)
  {
    AnyPairIff(x, w, 0);
  }

  lemma {:induction false} AnyPairIff(x: int, w: seq<nat>, a: nat)
    ensures AnyPair(x, w, a) <==> exists a', b :: a <= a' && IsPairSum(x, w, a', b)
    decreases |w| - a
  {
    if a < |w| {
      AnyPairIff(x, w, a + 1);
      AnyPartnerIff(x, w, a, a + 1);
      if exists a', b :: a <= a' && IsPairSum(x, w, a', b) {
        var a', b :| a <= a' && IsPairSum(x, w, a', b);
        if a' == a {
          assert a + 1 <= b;
        } else {
          assert a + 1 <= a';
        }
      }
    }
  }

  lemma {:induction false} AnyPartnerIff(x: int, w: seq<nat>, a: nat, b: nat)
    requires a < b && a < |w|
    ensures AnyPartner(x, w, a, b) <==> exists b' :: b <= b' && IsPairSum(x, w, a, b')
    decreases |w| - b
  {
    if b < |w| {
      AnyPartnerIff(x, w, a, b + 1);
      if w[a] != w[b] && w[a] + w[b] == x {
        assert IsPairSum(x, w, a, b);
      }
      if exists b' :: b <= b' && IsPairSum(x, w, a, b') {
        var b' :| b <= b' && IsPairSum(x, w, a, b');
        if b' != b {
          assert b + 1 <= b';
        }
      }
    }
  }

  /** Two equal numbers never count: a window of copies of one number has no
      pair. */
  lemma CopiesHaveNoPair(x: int, w: seq<nat>)
    requires forall k | 0 <= k < |w| :: w[k] == w[0]
    ensures !CheckFirst(x, w)
  {
    CheckFirstIff(x, w);
  }

  // ---------------------------------------------------------------------------
  // `find_invalid_number_first` (main.rs:19-27)

  /** The number at `i` is the sum of two different numbers among the
      `Preamble` before it. */
  predicate Valid(data: seq<nat>, i: nat)
    requires Preamble <= i < |data|
  {
    CheckFirst(data[i], data[i - Preamble..i])
  }

  /** `find_invalid_number_first`: the first position from `Preamble` on
      whose number is not valid, with that number. When there is none it
      panics, modelled as `None`. */
  method FindInvalid(data: seq<nat>) returns (r: Option<(nat, nat)>)
    ensures r.Some? ==>
      && Preamble <= r.value.0 < |data| && r.value.1 == data[r.value.0]
      && !Valid(data, r.value.0)
      && forall m | Preamble <= m < r.value.0 :: Valid(data, m)
    ensures r.None? <==> forall m | Preamble <= m < |data| :: Valid(data, m)
  {
    var i := Preamble;
    while i < |data|
      invariant Preamble <= i
      invariant forall m | Preamble <= m < i && m < |data| :: Valid(data, m)
    {
      var x := data[i];
      if !CheckFirst(x, data[i - Preamble..i]) {
        return Some((i, x));
      }
      i := i + 1;
    }
    return None;
  }

  // ---------------------------------------------------------------------------
  // The contiguous range (main.rs:40-64)

  /** The sum of the run `data[i..=j]`. */
  function RunSum(data: seq<nat>, i: nat, j: nat): nat
    requires i <= j < |data|
    decreases j
  {
    if j == i then data[i] else RunSum(data, i, j - 1) + data[j]
  }

  /** Longer runs from the same start add up to no less. */
  lemma {:induction false} RunSumGrows(data: seq<nat>, i: nat, j: nat, k: nat)
    requires i <= j <= k < |data|
    ensures RunSum(data, i, j) <= RunSum(data, i, k)
    decreases k - j
  {
    if j < k {
      RunSumGrows(data, i, j, k - 1);
    }
  }

  /** The inner `while` (main.rs:41-46): from the end `j`, the run from `i`
      grows one number at a time until its sum is at least `value`; the end
      is the last position of the run. Going past the end of the data
      panics at the index, modelled as `None`. */
  function GrowFrom(data: seq<nat>, value: nat, i: nat, j: nat): (r: Option<nat>)
    requires i < j
    ensures r.Some? ==> j <= r.value < |data|
    decreases |data| - j
  {
    if j >= |data| then None
    else if RunSum(data, i, j) >= value then Some(j)
    else GrowFrom(data, value, i, j + 1)
  }

  /** The outcome of the range search: a run `data[i..=j]` with its
      smallest plus largest number; the end of the loop without a run; or
      an index past the end of the data. */
  datatype Outcome = Found(i: nat, j: nat, answer: int) | NotFound | OutOfBounds

  /** The smallest plus the largest number of the run `data[i..=j]`. */
  function MinPlusMax(data: seq<nat>, i: nat, j: nat): int
    requires i <= j < |data|
  {
    Min(data[i..j + 1]) + Max(data[i..j + 1])
  }

  /** The outer `for` (main.rs:40-64) from the start `i`: the first start
      whose grown run adds up to exactly `value`. */
  function SearchFrom(data: seq<nat>, value: nat, i: nat): Outcome
    decreases |data| - i
  {
    if i >= |data| then NotFound
    else
      match GrowFrom(data, value, i, i + 1)
      case None => OutOfBounds
      case Some(j) =>
        if RunSum(data, i, j) == value then
          Found(i, j, MinPlusMax(data, i, j))
        else SearchFrom(data, value, i + 1)
  }

  /** The range search of `main`. */
  method FindRange(data: seq<nat>, value: nat) returns (r: Outcome)
    ensures r == SearchFrom(data, value, 0)
  {
    var i := 0;
    while i < |data|
      invariant i <= |data|
      invariant SearchFrom(data, value, 0) == SearchFrom(data, value, i)
    {
      var j := i + 1;
      if j >= |data| {
        return OutOfBounds;
      }
      var s := data[i] + data[j];
      while s < value
        invariant i < j < |data| && s == RunSum(data, i, j)
        invariant GrowFrom(data, value, i, i + 1) == GrowFrom(data, value, i, j)
        decreases |data| - j
      {
        j := j + 1;
        if j >= |data| {
          return OutOfBounds;
        }
        s := s + data[j];
      }
      if s == value {
        var range := data[i..j + 1];
        var min := Min(range);
        var max := Max(range);
        assert min + max == MinPlusMax(data, i, j);
        return Found(i, j, min + max);
      }
      i := i + 1;
    }
    return NotFound;
  }

  /** The grown run ends at the first position where the sum reaches
      `value`. */
  lemma {:induction false} GrowFromStops(data: seq<nat>, value: nat, i: nat, j: nat)
    requires i < j && GrowFrom(data, value, i, j).Some?
    ensures var e := GrowFrom(data, value, i, j).value;
      && j <= e < |data| && RunSum(data, i, e) >= value
      && forall k | j <= k < e :: RunSum(data, i, k) < value
    decreases |data| - j
  {
    if RunSum(data, i, j) < value {
      GrowFromStops(data, value, i, j + 1);
    }
  }

  /** When the grown run overshoots, no run of at least two numbers from
      that start adds up to `value`. */
  lemma NoRunFrom(data: seq<nat>, value: nat, i: nat)
    requires GrowFrom(data, value, i, i + 1).Some?
    requires RunSum(data, i, GrowFrom(data, value, i, i + 1).value) != value
    ensures forall k | i + 1 <= k < |data| :: RunSum(data, i, k) != value
  {
    var e := GrowFrom(data, value, i, i + 1).value;
    GrowFromStops(data, value, i, i + 1);
    forall k | e < k < |data|
      ensures RunSum(data, i, k) != value
    {
      RunSumGrows(data, i, e, k);
    }
  }

  /** No run of at least two numbers from start `i` adds up to `value`. */
  predicate NoRun(data: seq<nat>, value: nat, i: nat)
  {
    forall k | i + 1 <= k < |data| :: RunSum(data, i, k) != value
  }

  /** One start of the search: either it finds its run, or it has none and
      the search goes on from the next start. */
  lemma SearchStep(data: seq<nat>, value: nat, s: nat)
    requires SearchFrom(data, value, s).Found?
    ensures var r := SearchFrom(data, value, s);
      || (r == Found(s, GrowFrom(data, value, s, s + 1).value, r.answer) && RunSum(data, s, r.j) == value)
      || (NoRun(data, value, s) && r == SearchFrom(data, value, s + 1))
  {
    var e := GrowFrom(data, value, s, s + 1).value;
    if RunSum(data, s, e) != value {
      NoRunFrom(data, value, s);
    }
  }

  /** The run found is the first: it has at least two numbers and adds up
      to `value`, no earlier start has such a run, and no shorter run from
      its start adds up to `value`. Its answer is its smallest plus its
      largest number. */
  lemma {:induction false} FoundIsFirst(data: seq<nat>, value: nat, s: nat)
    requires SearchFrom(data, value, s).Found?
    ensures var r := SearchFrom(data, value, s);
      && s <= r.i < r.j < |data| && RunSum(data, r.i, r.j) == value
      && r.answer == MinPlusMax(data, r.i, r.j)
      && (forall i | s <= i < r.i :: NoRun(data, value, i))
      && (forall k | r.i + 1 <= k < r.j :: RunSum(data, r.i, k) != value)
    decreases |data| - s
  {
    var r := SearchFrom(data, value, s);
    SearchStep(data, value, s);
    if r == Found(s, GrowFrom(data, value, s, s + 1).value, r.answer) && RunSum(data, s, r.j) == value {
      GrowFromStops(data, value, s, s + 1);
    } else {
      FoundIsFirst(data, value, s + 1);
    }
  }

  // ---------------------------------------------------------------------------
  // `main` (main.rs:29-67)

  /** The outcome of `main` on the lines of the input: a line that is not a
      `u64`, or a stream without an invalid number, panics, modelled as
      `None`. */
  method Solve(lines: seq<string>) returns (r: Option<(nat, nat, Outcome)>)
    ensures r.Some? ==> ParseEach(lines, ParseU64).Some?
    ensures r.Some? ==> var data := ParseEach(lines, ParseU64).value;
      && Preamble <= r.value.0 < |data| && r.value.1 == data[r.value.0] && !Valid(data, r.value.0)
      && (forall m | Preamble <= m < r.value.0 :: Valid(data, m))
      && r.value.2 == SearchFrom(data, r.value.1, 0)
    ensures r.None? ==> (ParseEach(lines, ParseU64).None? ||
      forall m | Preamble <= m < |ParseEach(lines, ParseU64).value| :: Valid(ParseEach(lines, ParseU64).value, m))
  {
    var parsed := ParseEach(lines, ParseU64);
    if parsed.None? {
      return None;
    }
    var data := parsed.value;
    var invalid := FindInvalid(data);
    if invalid.None? {
      return None;
    }
    var (index, value) := invalid.value;
    var outcome := FindRange(data, value);
    return Some((index, value, outcome));
  }

  /** `line.parse::<u64>().unwrap()` (main.rs:34). */
  function ParseU64(line: string): Option<nat>
  {
    ParseUnsigned(line, U64Limit)
  }
}
