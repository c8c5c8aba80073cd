/** Day 10: a chain of joltage adapters. Part one counts the gaps of 1 and
    of 3 along the sorted chain; part two counts the ways to go from the
    outlet (0) to the device (the largest adapter plus 3) in steps of at
    most 3. */
module Day10 {
  import opened Common

  // ---------------------------------------------------------------------------
  // Sorting (`sort_unstable`)

  /** Each element is at least the one before it. */
  predicate Sorted(s: seq<int>)
  {
    forall k | 0 < k < |s| :: Step(s, k)
  }

  /** The element at `k` is at least the one before it. */
  predicate Step(s: seq<int>, k: nat)
    requires 0 < k < |s|
  {
    s[k - 1] <= s[k]
  }

  /** `x` put into the sorted `s` before its first element not below `x`. */
  function Insert(x: int, s: seq<int>): (r: seq<int>)
    requires Sorted(s)
    ensures |r| == |s| + 1 && (r[0] == x || (|s| > 0 && r[0] == s[0]))
    ensures Sorted(r) && multiset(r) == multiset(s) + multiset{x}
  {
    if |s| == 0 || x <= s[0] then
      var r := [x] + s;
      assert forall k | 1 < k < |r| :: Step(r, k) == Step(s, k - 1);
      assert |r| > 1 ==> Step(r, 1);
      r
    else
      assert s == [s[0]] + s[1..];
      assert forall j | 0 < j < |s| - 1 :: Step(s[1..], j) == Step(s, j + 1);
      var t := Insert(x, s[1..]);
      var r := [s[0]] + t;
      assert forall k | 1 < k < |r| :: Step(r, k) == Step(t, k - 1);
      assert |s| > 1 ==> Step(s, 1);
      assert Step(r, 1);
      r
  }

  /** `s` in increasing order. */
  function Sort(s: seq<int>): (r: seq<int>)
    ensures |r| == |s|
    ensures Sorted(r) && multiset(r) == multiset(s)
  {
    if |s| == 0 then []
    else
      assert s == [s[0]] + s[1..];
      Insert(s[0], Sort(s[1..]))
  }

  /** In a sorted sequence every element is at most every later one. */
  lemma {:induction false} SortedPair(s: seq<int>, i: nat, j: nat)
    requires Sorted(s) && i <= j < |s|
    ensures s[i] <= s[j]
    decreases j - i
  {
    if i < j {
      SortedPair(s, i, j - 1);
      assert Step(s, j);
    }
  }

  /** A sorted sequence has its maximum last. */
  lemma SortedLast(s: seq<int>, x: int)
    requires Sorted(s) && x in multiset(s)
    ensures |s| > 0 && x <= s[|s| - 1]
  {
    assert x in s;
    var i :| 0 <= i < |s| && s[i] == x;
    SortedPair(s, i, |s| - 1);
  }

  // ---------------------------------------------------------------------------
  // Part one (main.rs:12-27)

  /** The chain of part one: the adapters and the outlet in increasing
      order, then the device at 3 above the last of them. */
  function Chain(data: seq<int>): (v: seq<int>)
    ensures |v| == |data| + 2
  {
    Device(Sort(data + [0]))
  }

  /** `s` followed by the device, 3 above its last element. */
  function Device(s: seq<int>): (v: seq<int>)
    requires |s| > 0
    ensures |v| == |s| + 1
  {
    s + [s[|s| - 1] + 3]
  }

  /** The differences of consecutive elements (`windows(2)`). */
  function Diffs(v: seq<int>): (d: seq<int>)
    ensures |v| > 0 ==> |d| == |v| - 1
    ensures |v| == 0 ==> d == []
  {
    if |v| == 0 then [] else seq(|v| - 1, k requires 0 <= k < |v| - 1 => v[k + 1] - v[k])
  }

  /** `solve_part_one`: the local vector gets the outlet, is sorted, and
      gets the device; the answer is the number of differences of 1 times
      the number of differences of 3. */
  method SolvePartOne(data: seq<int>) returns (diffs: seq<int>, answer: int)
    ensures diffs == Diffs(Chain(data))
    ensures answer == multiset(diffs)[1] * multiset(diffs)[3]
  {
    var v := data + [0];
    v := Sort(v);
    var max := v[|v| - 1];
    v := v + [max + 3];
    diffs := Diffs(v);
    var ones: int := multiset(diffs)[1];
    var threes: int := multiset(diffs)[3];
    answer := ones * threes;
  }

  /** The chain is sorted and holds exactly the adapters, the outlet and the
      device, which is 3 above the largest of the others. */
  lemma ChainContents(data: seq<int>)
    ensures var v := Chain(data);
      && Sorted(v)
      && multiset(v) == multiset(data) + multiset{0, v[|v| - 1]}
      && v[|v| - 1] - 3 in multiset(data) + multiset{0}
      && forall k | 0 <= k < |data| :: data[k] + 3 <= v[|v| - 1]
  {
    var sorted := Sort(data + [0]);
    var v := Chain(data);
    assert v == Device(sorted);
    var top := v[|v| - 1];
    DeviceContents(sorted);
    assert multiset(sorted) == multiset(data) + multiset{0} by {
      assert multiset(data + [0]) == multiset(data) + multiset{0};
    }
    assert multiset(v) == multiset(data) + multiset{0, top};
    forall k | 0 <= k < |data|
      ensures data[k] + 3 <= top
    {
      assert data[k] in multiset(sorted);
    }
  }

  /** The device goes above every element of a sorted sequence, which stays
      sorted. */
  lemma DeviceContents(s: seq<int>)
    requires |s| > 0 && Sorted(s)
    ensures var v := Device(s);
      && Sorted(v)
      && multiset(v) == multiset(s) + multiset{v[|v| - 1]}
      && v[|v| - 1] - 3 in multiset(s)
      && forall x | x in multiset(s) :: x + 3 <= v[|v| - 1]
  {
    var v := Device(s);
    assert s[|s| - 1] in multiset(s);
    assert forall k | 0 < k < |s| :: Step(v, k) == Step(s, k);
    assert Step(v, |s|);
    forall x | x in multiset(s)
      ensures x + 3 <= v[|v| - 1]
    {
      SortedLast(s, x);
    }
  }

  /** There is one difference per adapter and one more; the last is 3; none
      is negative; and together they climb from the lowest value to the
      device. */
  lemma ChainDiffs(data: seq<int>)
    ensures var v := Chain(data); var d := Diffs(v);
      && |d| == |data| + 1
      && d[|d| - 1] == 3
      && (forall k | 0 <= k < |d| :: d[k] >= 0)
      && Sum(d) == v[|v| - 1] - v[0]
  {
    var v := Chain(data);
    ChainContents(data);
    Telescope(v);
    forall k | 0 <= k < |data| + 1
      ensures Diffs(v)[k] >= 0
    {
      assert Step(v, k + 1);
    }
  }

  /** The differences of a sequence add up to its last element minus its
      first. */
  lemma {:induction false} Telescope(v: seq<int>)
    requires |v| > 0
    ensures Sum(Diffs(v)) == v[|v| - 1] - v[0]
  {
    if |v| > 1 {
      var init := v[..|v| - 1];
      Telescope(init);
      assert Diffs(v)[..|v| - 2] == Diffs(init);
    }
  }

  /** When every gap is 1 or 3, the two counts weigh the whole climb. */
  lemma OnesAndThrees(d: seq<int>)
    requires forall k | 0 <= k < |d| :: d[k] == 1 || d[k] == 3
    ensures multiset(d)[1] + 3 * multiset(d)[3] == Sum(d)
    ensures multiset(d)[1] + multiset(d)[3] == |d|
  {
    if |d| > 0 {
      var init := d[..|d| - 1];
      OnesAndThrees(init);
      assert d == init + [d[|d| - 1]];
    }
  }

  // ---------------------------------------------------------------------------
  // Part two (main.rs:29-57)

  /** No value occurs twice. */
  predicate Distinct(v: seq<int>)
  {
    forall i, j | 0 <= i < j < |v| :: v[i] != v[j]
  }

  /** The vertices of part two: the adapters, the outlet and the device at 3
      above the largest adapter, in increasing order. */
  function Adapters(data: seq<int>): (v: seq<int>)
    requires |data| > 0
    ensures Sorted(v) && multiset(v) == multiset(data) + multiset{0, Max(data) + 3}
  {
    Sort(data + [0, Max(data) + 3])
  }

  /** An edge goes from `v[a]` to `v[b]` for a pair in sorted order whose
      values differ by at most 3 (main.rs:40-46). */
  predicate Edge(v: seq<int>, a: nat, b: nat)
    requires a < |v| && b < |v|
  {
    a < b && 0 <= v[b] - v[a] <= 3
  }

  /** The number of ways from `v[k]` to the last vertex along edges. */
  function Ways(v: seq<int>, k: nat): nat
    requires k < |v|
    decreases |v| - k, |v|
  {
    if k == |v| - 1 then 1 else WaysFrom(v, k, k + 1)
  }

  /** The ways from `v[k]` whose first step goes to `v[m]` or later. */
  function WaysFrom(v: seq<int>, k: nat, m: nat): nat
    requires k < m <= |v|
    decreases |v| - k, |v| - m
  {
    if m == |v| then 0
    else (if Edge(v, k, m) then Ways(v, m) else 0) + WaysFrom(v, k, m + 1)
  }

  /** The position of `x` in `v`. */
  function IndexOf(v: seq<int>, x: int): (k: nat)
    requires x in v
    ensures k < |v| && v[k] == x
  {
    if v[0] == x then 0 else 1 + IndexOf(v[1..], x)
  }

  /** The position of the outlet among the vertices. */
  function Outlet(data: seq<int>): (k: nat)
    requires |data| > 0
    ensures k < |Adapters(data)| && Adapters(data)[k] == 0
  {
    assert 0 in multiset(Adapters(data));
    IndexOf(Adapters(data), 0)
  }

  /** The vertex at `k` has no edge in either direction, so the graph, which
      only holds the ends of edges, does not hold it. */
  predicate Isolated(v: seq<int>, k: nat)
    requires k < |v|
  {
    forall m | 0 <= m < |v| && m != k :: !(m < k && Edge(v, m, k)) && !(k < m && Edge(v, k, m))
  }

  /** `solve_part_two`, with the sorted order as the topological order: the
      device weighs 1, every other vertex, from the top down, the sum of the
      weights of the vertices its edges reach, and the answer is the weight
      of the outlet. An empty input (`max().unwrap()`), a repeated value
      (`assert_eq!`), a device below 0, which leaves the outlet last and
      never weighed, and an outlet outside the graph all panic, modelled as
      `None`. */
  method SolvePartTwo(data: seq<int>) returns (r: Option<nat>)
    ensures r.Some? <==>
      && |data| > 0 && Distinct(Adapters(data)) && Max(data) + 3 > 0
      && !Isolated(Adapters(data), Outlet(data))
    ensures r.Some? ==> r.value == Ways(Adapters(data), Outlet(data))
  {
    if |data| == 0 {
      return None;
    }
    var max := Max(data);
    var end := max + 3;
    var v := data + [0, end];
    v := Sort(v);
    assert v == Adapters(data);
    if !Distinct(v) {
      return None;
    }
    if end <= 0 {
      return None;
    }
    var zero := Outlet(data);
    if Isolated(v, zero) {
      return None;
    }
    AdaptersLast(data);
    var weights := Weigh(v);
    return Some(weights[v[zero]]);
  }

  /** The weights loop (main.rs:49-55): the last vertex weighs 1, and the
      others, from the top down, the sum of the weights of the vertices
      their edges reach. */
  method Weigh(v: seq<int>) returns (weights: map<int, nat>)
    requires |v| > 0 && Distinct(v)
    ensures forall m | 0 <= m < |v| :: v[m] in weights && weights[v[m]] == Ways(v, m)
  {
    var n := |v|;
    weights := map[v[n - 1] := 1];
    var k := n - 1;
    while k > 0
      invariant 0 <= k < n
      invariant forall m | k <= m < n :: v[m] in weights && weights[v[m]] == Ways(v, m)
    {
      k := k - 1;
      var w := Successors(v, k, weights);
      DistinctAbove(v, k);
      weights := weights[v[k] := w];
    }
  }

  /** The inner sum: the weights of the vertices `v[k]` has an edge to,
      from the top down. */
  method Successors(v: seq<int>, k: nat, weights: map<int, nat>) returns (w: nat)
    requires forall m | k < m < |v| :: v[m] in weights && weights[v[m]] == Ways(v, m)
    requires k < |v| - 1
    ensures w == Ways(v, k)
  {
    var m := |v|;
    w := 0;
    while m > k + 1
      invariant k + 1 <= m <= |v|
      invariant w == WaysFrom(v, k, m)
    {
      m := m - 1;
      if 0 <= v[m] - v[k] <= 3 {
        w := w + weights[v[m]];
      }
    }
  }

  /** When the device is above 0 it is the largest vertex, so it is last. */
  lemma AdaptersLast(data: seq<int>)
    requires |data| > 0 && Max(data) + 3 > 0
    ensures var v := Adapters(data); v[|v| - 1] == Max(data) + 3
  {
    var v := Adapters(data);
    var end := Max(data) + 3;
    forall x | x in multiset(v)
      ensures x <= end
    {
      if x in multiset(data) {
        assert x in data;
      }
    }
    assert v[|v| - 1] in multiset(v);
    assert end in multiset(v);
    SortedLast(v, end);
  }

  /** The gap after `v[g]` is at most 3. */
  predicate SmallGap(v: seq<int>, g: nat)
    requires g + 1 < |v|
  {
    v[g + 1] - v[g] <= 3
  }

  /** There is a way from `v[k]` to the device exactly when no gap from
      `v[k]` on is wider than 3. */
  lemma WaysPositiveIff(v: seq<int>, k: nat)
    requires Sorted(v) && k < |v|
    ensures Ways(v, k) > 0 <==> forall g | k <= g < |v| - 1 :: SmallGap(v, g)
  {
    if forall g | k <= g < |v| - 1 :: SmallGap(v, g) {
      WaysPositive(v, k);
    } else {
      var g :| k <= g < |v| - 1 && !SmallGap(v, g);
      WaysZero(v, k, g);
    }
  }

  lemma {:induction false} WaysPositive(v: seq<int>, k: nat)
    requires Sorted(v) && k < |v|
    requires forall g | k <= g < |v| - 1 :: SmallGap(v, g)
    ensures Ways(v, k) > 0
    decreases |v| - k
  {
    if k < |v| - 1 {
      WaysPositive(v, k + 1);
      assert SmallGap(v, k) && Step(v, k + 1);
      assert Edge(v, k, k + 1);
    }
  }

  /** A gap wider than 3 at or after `v[k]` leaves no way from it. */
  lemma {:induction false} WaysZero(v: seq<int>, k: nat, g: nat)
    requires Sorted(v) && k <= g < |v| - 1 && !SmallGap(v, g)
    ensures Ways(v, k) == 0
    decreases |v| - k, |v|
  {
    WaysFromZero(v, k, k + 1, g);
  }

  lemma {:induction false} WaysFromZero(v: seq<int>, k: nat, m: nat, g: nat)
    requires Sorted(v) && k <= g < |v| - 1 && !SmallGap(v, g) && k < m <= |v|
    ensures WaysFrom(v, k, m) == 0
    decreases |v| - k, |v| - m
  {
    if m < |v| {
      if m <= g {
        WaysZero(v, m, g);
      } else {
        SortedPair(v, k, g);
        SortedPair(v, g + 1, m);
        assert !Edge(v, k, m);
      }
      WaysFromZero(v, k, m + 1, g);
    }
  }

  /** Weighing `v[k]` leaves the weights of the vertices above it: their
      values differ from `v[k]`. */
  lemma DistinctAbove(v: seq<int>, k: nat)
    requires Distinct(v) && k < |v|
    ensures forall m | k < m < |v| :: v[m] != v[k]
  {
  }
}
