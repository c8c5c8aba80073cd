/** Day 1: report repair. Find the two entries, then the three entries, of
    the expense report that add up to 2020; the answer is their product. */
module Day01 {
  import opened Common

  /** The sum the entries must reach. */
  const Target: int := 2020

  /** `line.parse::<i32>().unwrap()` (main.rs:11): an optional sign, then
      one or more digits, in the range of an `i32`; anything else panics,
      modelled as `None`. */
  function ParseI32(s: string): (r: Option<int>)
    ensures r.Some? ==> -0x8000_0000 <= r.value < 0x8000_0000
  {
    var negative := |s| > 0 && s[0] == '-';
    var d := if |s| > 0 && (s[0] == '-' || s[0] == '+') then s[1..] else s;
    match ParseNat(d)
    case None => None
    case Some(n) =>
      var m: int := n;
      var v := if negative then -m else m;
      if -0x8000_0000 <= v < 0x8000_0000 then Some(v) else None
  }

  /** The decimal text of an `i32`, as Rust's `{}` prints it. */
  function Render(v: int): string
  {
    if v < 0 then "-" + Decimal(-v) else Decimal(v)
  }

  /** Every `i32` reads back from its text. */
  lemma ParseRender(v: int)
    requires -0x8000_0000 <= v < 0x8000_0000
    ensures ParseI32(Render(v)) == Some(v)
  {
    if v < 0 {
      DecimalValue(-v);
      assert Render(v)[1..] == Decimal(-v);
    } else {
      DecimalValue(v);
    }
  }

  // ---------------------------------------------------------------------------
  // Part one (main.rs:15-26)

  /** Two distinct positions, in increasing order, whose entries add up to
      2020. Equal entries at distinct positions count. */
  predicate IsPair(data: seq<int>, i: int, j: int)
  {
    0 <= i < j < |data| && data[i] + data[j] == Target
  }

  /** Whether `(i', j')` comes before `(i, j)` in the order the two loops
      visit pairs. */
  predicate PairBefore(i': int, j': int, i: int, j: int)
  {
    i' < i || (i' == i && j' < j)
  }

  /** What part one prints: the first pair of positions, in the order the
      loops visit them, whose entries add up to 2020, with the product of
      the two entries. */
  ghost predicate FirstPair(data: seq<int>, p: (nat, nat, int))
  {
    && IsPair(data, p.0, p.1)
    && p.2 == data[p.0] * data[p.1]
    && forall i', j' | PairBefore(i', j', p.0, p.1) :: !IsPair(data, i', j')
  }

  /** The two nested loops of part one. */
  method FindPair(data: seq<int>) returns (r: Option<(nat, nat, int)>)
    ensures r.Some? ==> FirstPair(data, r.value)
    ensures r.None? <==> forall i', j' :: !IsPair(data, i', j')
  {
    r := None;
    var i := 0;
    label outer:
    while i < |data|
      invariant i <= |data|
      invariant r.None?
      invariant forall i', j' | i' < i :: !IsPair(data, i', j')
    {
      var j := i + 1;
      while j < |data|
        invariant i < j
        invariant forall i', j' | i' < i || (i' == i && j' < j) :: !IsPair(data, i', j')
      {
        var a := data[i];
        var b := data[j];
        if a + b == Target {
          r := Some((i, j, a * b));
          break outer;
        }
        j := j + 1;
      }
      i := i + 1;
    }
  }

  // ---------------------------------------------------------------------------
  // Part two (main.rs:30-44)

  /** Three distinct positions, in increasing order, whose entries add up to
      2020. */
  predicate IsTriple(data: seq<int>, i: int, j: int, k: int)
  {
    0 <= i < j < k < |data| && data[i] + data[j] + data[k] == Target
  }

  /** Whether `(i', j', k')` comes before `(i, j, k)` in the order the
      three loops visit triples. */
  predicate TripleBefore(i': int, j': int, k': int, i: int, j: int, k: int)
  {
    i' < i || (i' == i && (j' < j || (j' == j && k' < k)))
  }

  /** What part two prints: the first triple of positions, in the order
      the loops visit them, whose entries add up to 2020, with the product
      of the three entries. */
  ghost predicate FirstTriple(data: seq<int>, t: (nat, nat, nat, int))
  {
    && IsTriple(data, t.0, t.1, t.2)
    && t.3 == data[t.0] * data[t.1] * data[t.2]
    && forall i', j', k' | TripleBefore(i', j', k', t.0, t.1, t.2) :: !IsTriple(data, i', j', k')
  }

  /** The three nested loops of part two. */
  method FindTriple(data: seq<int>) returns (r: Option<(nat, nat, nat, int)>)
    ensures r.Some? ==> FirstTriple(data, r.value)
    ensures r.None? <==> forall i', j', k' :: !IsTriple(data, i', j', k')
  {
    r := None;
    var i := 0;
    label outer:
    while i < |data|
      invariant i <= |data|
      invariant r.None?
      invariant forall i', j', k' | i' < i :: !IsTriple(data, i', j', k')
    {
      var j := i + 1;
      while j < |data|
        invariant i < j
        invariant forall i', j', k' | i' < i || (i' == i && j' < j) :: !IsTriple(data, i', j', k')
      {
        var k := j + 1;
        while k < |data|
          invariant j < k
          invariant forall i', j', k' | TripleBefore(i', j', k', i, j, k) :: !IsTriple(data, i', j', k')
        {
          var a := data[i];
          var b := data[j];
          var c := data[k];
          if a + b + c == Target {
            r := Some((i, j, k, a * b * c));
            break outer;
          }
          k := k + 1;
        }
        j := j + 1;
      }
      i := i + 1;
    }
  }

  // ---------------------------------------------------------------------------
  // `main` (main.rs:6-47)

  /** `main` on the lines of the input: both searches over the parsed
      entries, or `None` when a line is not an `i32` and panics. */
  method Solve(lines: seq<string>) returns (r: Option<(Option<(nat, nat, int)>, Option<(nat, nat, nat, int)>)>)
    ensures r.None? <==> ParseEach(lines, ParseI32).None?
    ensures r.Some? ==> var data := ParseEach(lines, ParseI32).value;
      && (r.value.0.None? <==> forall i, j :: !IsPair(data, i, j))
      && (r.value.0.Some? ==> FirstPair(data, r.value.0.value))
      && (r.value.1.None? <==> forall i, j, k :: !IsTriple(data, i, j, k))
      && (r.value.1.Some? ==> FirstTriple(data, r.value.1.value))
  {
    var parsed := ParseEach(lines, ParseI32);
    if parsed.None? {
      return None;
    }
    var data := parsed.value;
    var pair := FindPair(data);
    var triple := FindTriple(data);
    return Some((pair, triple));
  }
}
