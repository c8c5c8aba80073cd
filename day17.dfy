/** Day 17: Conway cubes in four dimensions. The active cubes form a set of
    points; every step applies the rules of the automaton to all points at
    once. */
module Day17 {
  import opened Common

  datatype State = Empty | Active

  datatype Point = Point(x: int, y: int, z: int, w: int)

  type Offset = (int, int, int, int)

  /** `&Point + (i32, i32, i32, i32)` (main.rs:53-64). */
  function Add(p: Point, d: Offset): Point
  {
    Point(p.x + d.0, p.y + d.1, p.z + d.2, p.w + d.3)
  }

  predicate Unit(c: int) { -1 <= c <= 1 }

  /** A non-zero offset in {-1,0,1}^4. */
  predicate IsOffset(d: Offset)
  {
    Unit(d.0) && Unit(d.1) && Unit(d.2) && Unit(d.3) && d != (0, 0, 0, 0)
  }

  /** The position of a tuple of {-1,0,1}^4 in the order of the four nested
      loops. */
  function Rank(d: Offset): int
  {
    27 * (d.0 + 1) + 9 * (d.1 + 1) + 3 * (d.2 + 1) + (d.3 + 1)
  }

  /** What `DS` holds: the 80 non-zero offsets, each once, in loop order. */
  ghost predicate Offsets(ds: seq<Offset>)
  {
    && |ds| == 80
    && (forall k | 0 <= k < |ds| :: IsOffset(ds[k]))
    && (forall d | IsOffset(d) :: d in ds)
    && Increasing(ds)
  }

  /** The entries of `ds` are non-zero offsets of rank below `r`. */
  ghost predicate RankedBelow(ds: seq<Offset>, r: int)
  {
    forall k | 0 <= k < |ds| :: IsOffset(ds[k]) && Rank(ds[k]) < r
  }

  /** Every non-zero offset of rank below `r` is in `ds`. */
  ghost predicate Covers(ds: seq<Offset>, r: int)
  {
    forall d | IsOffset(d) && Rank(d) < r :: d in ds
  }

  /** The entries of `ds` are in strictly increasing rank. */
  ghost predicate Increasing(ds: seq<Offset>)
  {
    forall k, m | 0 <= k < m < |ds| :: Rank(ds[k]) < Rank(ds[m])
  }

  /** After the loops have passed every tuple of rank below `r`, `ds` holds
      the non-zero ones among them, in order. */
  ghost predicate BuiltBelow(ds: seq<Offset>, r: int)
  {
    && RankedBelow(ds, r)
    && Covers(ds, r)
    && Increasing(ds)
    && |ds| == r - if r > Rank((0, 0, 0, 0)) then 1 else 0
  }

  /** A tuple of {-1,0,1}^4 is determined by its rank. */
  lemma RankDetermines(d: Offset, t: Offset)
    requires Unit(d.0) && Unit(d.1) && Unit(d.2) && Unit(d.3)
    requires Unit(t.0) && Unit(t.1) && Unit(t.2) && Unit(t.3)
    requires Rank(d) == Rank(t)
    ensures d == t
  {
    var (d1, d2, d3) := (9 * (d.1 + 1) + 3 * (d.2 + 1) + (d.3 + 1), 3 * (d.2 + 1) + (d.3 + 1), d.3 + 1);
    var (t1, t2, t3) := (9 * (t.1 + 1) + 3 * (t.2 + 1) + (t.3 + 1), 3 * (t.2 + 1) + (t.3 + 1), t.3 + 1);
    assert 0 <= d1 < 27 && 0 <= t1 < 27 && 27 * (d.0 + 1) + d1 == 27 * (t.0 + 1) + t1;
    assert d.0 == t.0;
    assert 0 <= d2 < 9 && 0 <= t2 < 9 && 9 * (d.1 + 1) + d2 == 9 * (t.1 + 1) + t2;
    assert d.1 == t.1;
    assert 0 <= d3 < 3 && 0 <= t3 < 3 && 3 * (d.2 + 1) + d3 == 3 * (t.2 + 1) + t3;
  }

  /** Passing the zero tuple adds nothing. */
  lemma SkipZero(ds: seq<Offset>, r: int)
    requires r == Rank((0, 0, 0, 0)) && BuiltBelow(ds, r)
    ensures BuiltBelow(ds, r + 1)
  {
    forall d | IsOffset(d) && Rank(d) < Rank((0, 0, 0, 0)) + 1
      ensures d in ds
    {
      if Rank(d) == Rank((0, 0, 0, 0)) {
        RankDetermines(d, (0, 0, 0, 0));
      }
    }
  }

  lemma AppendCovers(ds: seq<Offset>, t: Offset)
    requires Unit(t.0) && Unit(t.1) && Unit(t.2) && Unit(t.3)
    requires Covers(ds, Rank(t))
    ensures Covers(ds + [t], Rank(t) + 1)
  {
    forall d | IsOffset(d) && Rank(d) < Rank(t) + 1
      ensures d in ds + [t]
    {
      if Rank(d) < Rank(t) {
        assert d in ds;
      } else {
        RankDetermines(d, t);
      }
    }
  }

  lemma AppendIncreasing(ds: seq<Offset>, t: Offset)
    requires RankedBelow(ds, Rank(t)) && Increasing(ds)
    ensures Increasing(ds + [t])
  {
  }

  /** Passing a non-zero tuple appends it. */
  lemma AppendOffset(ds: seq<Offset>, t: Offset, r: int)
    requires IsOffset(t) && r == Rank(t) && BuiltBelow(ds, r)
    ensures BuiltBelow(ds + [t], r + 1)
  {
    AppendCovers(ds, t);
    AppendIncreasing(ds, t);
  }

  /** Once every tuple is passed, `ds` is the table of offsets. */
  lemma BuiltAll(ds: seq<Offset>)
    requires BuiltBelow(ds, 81)
    ensures Offsets(ds)
  {
    forall d | IsOffset(d)
      ensures d in ds
    {
      assert Rank(d) < 81;
    }
  }

  /** `DS` (main.rs:66-84): four nested loops over -1..=1 that skip the zero
      offset. */
  method BuildOffsets() returns (ds: seq<Offset>)
    ensures Offsets(ds)
  {
    ds := [];
    ghost var r := 0;  // the rank of the next tuple the loops visit
    for x := -1 to 2
      invariant r == 27 * (x + 1) && BuiltBelow(ds, r)
    {
      for y := -1 to 2
        invariant r == 27 * (x + 1) + 9 * (y + 1) && BuiltBelow(ds, r)
      {
        for z := -1 to 2
          invariant r == 27 * (x + 1) + 9 * (y + 1) + 3 * (z + 1) && BuiltBelow(ds, r)
        {
          for w := -1 to 2
            invariant r == 27 * (x + 1) + 9 * (y + 1) + 3 * (z + 1) + (w + 1) && BuiltBelow(ds, r)
          {
            if x == 0 && y == 0 && z == 0 && w == 0 {
              SkipZero(ds, r);
            } else {
              AppendOffset(ds, (x, y, z, w), r);
              ds := ds + [(x, y, z, w)];
            }
            r := r + 1;
          }
        }
      }
    }
    BuiltAll(ds);
  }

  /** The neighbours of `p` (main.rs:48-51) never include `p` itself. */
  lemma NeighboursExcludeSelf(ds: seq<Offset>, p: Point)
    requires Offsets(ds)
    ensures forall k | 0 <= k < |ds| :: Add(p, ds[k]) != p
  {
  }

  /** `p.neighbors().filter(is_active).count()`. */
  function ActiveNeighbours(active: set<Point>, p: Point, ds: seq<Offset>): (n: nat)
    ensures n <= |ds|
    ensures n > 0 <==> exists k | 0 <= k < |ds| :: Add(p, ds[k]) in active
  {
    if |ds| == 0 then 0
    else
      var init := ds[..|ds| - 1];
      assert forall k | 0 <= k < |init| :: init[k] == ds[k];
      ActiveNeighbours(active, p, init) + if Add(p, ds[|ds| - 1]) in active then 1 else 0
  }

  /** The rule of the automaton for one point. */
  predicate Survives(active: set<Point>, p: Point, ds: seq<Offset>)
  {
    var n := ActiveNeighbours(active, p, ds);
    if p in active then n == 2 || n == 3 else n == 3
  }

  /** The points `conway_cubes_step` looks at: the active points and all
      their neighbours (main.rs:92). */
  function Candidates(active: set<Point>, ds: seq<Offset>): set<Point>
  {
    active + set p, k | p in active && 0 <= k < |ds| :: Add(p, ds[k])
  }

  /** `conway_cubes_step` (main.rs:86-103). */
  function Step(active: set<Point>, ds: seq<Offset>): set<Point>
  {
    set p | p in Candidates(active, ds) && Survives(active, p, ds)
  }

  function Negate(d: Offset): Offset { (-d.0, -d.1, -d.2, -d.3) }

  /** A point with an active neighbour is a candidate: looking only at the
      active points and their neighbours loses no point that could be active
      after the step. */
  lemma NeighbourOfActiveIsCandidate(active: set<Point>, ds: seq<Offset>, q: Point)
    requires Offsets(ds)
    requires ActiveNeighbours(active, q, ds) > 0
    ensures q in Candidates(active, ds)
  {
    var k :| 0 <= k < |ds| && Add(q, ds[k]) in active;
    var p := Add(q, ds[k]);
    assert IsOffset(Negate(ds[k]));
    var m :| 0 <= m < |ds| && ds[m] == Negate(ds[k]);
    assert Add(p, ds[m]) == q;
  }

  /** The rule of a step, for every point of the space: a point is active
      afterwards iff it was active with 2 or 3 active neighbours, or inactive
      with exactly 3. */
  lemma StepRule(active: set<Point>, ds: seq<Offset>, q: Point)
    requires Offsets(ds)
    ensures q in Step(active, ds) <==> Survives(active, q, ds)
  {
    if Survives(active, q, ds) && q !in active {
      NeighbourOfActiveIsCandidate(active, ds, q);
    }
  }

  /** The active points after `n` steps. */
  function Iterate(active: set<Point>, ds: seq<Offset>, n: nat): set<Point>
  {
    if n == 0 then active else Step(Iterate(active, ds, n - 1), ds)
  }

  /** The points seeded by the first `x` rows, plus the first `y` cells of
      row `x`. */
  function Seeded(data: seq<seq<State>>, x: nat, y: nat): set<Point>
    requires x <= |data| && (x < |data| ==> y <= |data[x]|)
  {
    set i, j | 0 <= i < |data| && 0 <= j < |data[i]| && (i < x || (i == x && j < y)) && data[i][j] == Active :: Point(i, j, 0, 0)
  }

  /** `solve` (main.rs:146-173): activate (row, col, 0, 0) for each `#` cell,
      run six steps, count the active cubes. */
  method Solve(data: seq<seq<State>>) returns (count: nat)
    ensures forall ds | Offsets(ds) :: count == |Iterate(Seeded(data, |data|, 0), ds, 6)|
  {
    var active: set<Point> := {};
    for x := 0 to |data|
      invariant active == Seeded(data, x, 0)
    {
      for y := 0 to |data[x]|
        invariant active == Seeded(data, x, y)
      {
        if data[x][y] == Active {
          active := active + {Point(x, y, 0, 0)};
        }
      }
      assert Seeded(data, x, |data[x]|) == Seeded(data, x + 1, 0);
    }
    var ds := BuildOffsets();
    var start := active;
    for i := 0 to 6
      invariant active == Iterate(start, ds, i)
    {
      active := Step(active, ds);
    }
    count := |active|;
    forall ds' | Offsets(ds')
      ensures count == |Iterate(Seeded(data, |data|, 0), ds', 6)|
    {
      OffsetsUnique(ds, ds');
    }
  }

  lemma SameElementsBothEmpty(a: seq<Offset>, b: seq<Offset>)
    requires forall d :: d in a <==> d in b
    ensures |a| == 0 <==> |b| == 0
  {
    if |a| > 0 {
      assert a[0] in a;
    }
    if |b| > 0 {
      assert b[0] in b;
    }
  }

  /** Two non-empty lists, each strictly increasing by rank, with the same
      elements start with the same offset. */
  lemma HeadsEqual(a: seq<Offset>, b: seq<Offset>)
    requires |a| > 0 && |b| > 0 && Increasing(a) && Increasing(b)
    requires forall d :: d in a <==> d in b
    ensures a[0] == b[0]
  {
    assert a[0] in b && b[0] in a;
    var i :| 0 <= i < |a| && a[i] == b[0];
    var j :| 0 <= j < |b| && b[j] == a[0];
    if i > 0 {
      assert Rank(a[0]) < Rank(a[i]);
    }
  }

  /** An element of the tail of an increasing list is in the tail of any list
      with the same head that holds it. */
  lemma TailInTail(a: seq<Offset>, b: seq<Offset>, d: Offset)
    requires |a| > 0 && |b| > 0 && a[0] == b[0] && Increasing(a)
    requires d in a[1..] && d in b
    ensures d in b[1..]
  {
    var k :| 0 <= k < |a[1..]| && a[1..][k] == d;
    assert Rank(a[0]) < Rank(a[k + 1]);
    var l :| 0 <= l < |b| && b[l] == d;
    assert b[1..][l - 1] == d;
  }

  /** Two lists, each strictly increasing by rank, with the same elements are
      the same list. */
  lemma {:induction false} RankSortedUnique(a: seq<Offset>, b: seq<Offset>)
    requires Increasing(a) && Increasing(b)
    requires forall d :: d in a <==> d in b
    ensures a == b
    decreases |a| + |b|
  {
    SameElementsBothEmpty(a, b);
    if |a| > 0 {
      HeadsEqual(a, b);
      forall d
        ensures d in a[1..] <==> d in b[1..]
      {
        if d in a[1..] {
          TailInTail(a, b, d);
        }
        if d in b[1..] {
          TailInTail(b, a, d);
        }
      }
      RankSortedUnique(a[1..], b[1..]);
      assert a == [a[0]] + a[1..];
      assert b == [b[0]] + b[1..];
    }
  }

  /** There is only one list with the properties of `DS`, so the answer of
      `solve` does not depend on how the list was built. */
  lemma OffsetsUnique(a: seq<Offset>, b: seq<Offset>)
    requires Offsets(a) && Offsets(b)
    ensures a == b
  {
    RankSortedUnique(a, b);
  }

  /** `State::from` (main.rs:28-37): any character other than `.` and `#`
      is a panic, modelled as `None`. */
  function StateOf(c: char): (r: Option<State>)
    ensures r.Some? <==> c == '.' || c == '#'
    ensures r == Some(Active) <==> c == '#'
  {
    match c
    case '.' => Some(Empty)
    case '#' => Some(Active)
    case _ => None
  }

  /** The character a state is written with. */
  function StateChar(s: State): char
  {
    match s
    case Empty => '.'
    case Active => '#'
  }

  /** One line of the input (main.rs:182): `None` for the panic on any
      other character. */
  function ParseRow(line: string): (r: Option<seq<State>>)
    ensures r.Some? <==> forall k | 0 <= k < |line| :: line[k] == '.' || line[k] == '#'
    ensures r.Some? ==> |r.value| == |line| && forall k | 0 <= k < |line| :: (r.value[k] == Active <==> line[k] == '#')
  {
    if |line| == 0 then Some([])
    else
      var init := line[..|line| - 1];
      assert forall k | 0 <= k < |init| :: init[k] == line[k];
      match StateOf(line[|line| - 1])
      case None => None
      case Some(s) =>
        match ParseRow(init)
        case None => None
        case Some(row) => Some(row + [s])
  }

  function RenderRow(row: seq<State>): (line: string)
    ensures |line| == |row|
  {
    seq(|row|, k requires 0 <= k < |row| => StateChar(row[k]))
  }

  /** Reading a rendered row gives the row back. */
  lemma {:induction false} ParseRenderRow(row: seq<State>)
    ensures ParseRow(RenderRow(row)) == Some(row)
  {
    if |row| > 0 {
      ParseRenderRow(row[..|row| - 1]);
      ParseRenderRowStep(row);
    }
  }

  lemma ParseRenderRowStep(row: seq<State>)
    requires |row| > 0 && ParseRow(RenderRow(row[..|row| - 1])) == Some(row[..|row| - 1])
    ensures ParseRow(RenderRow(row)) == Some(row)
  {
    var init, last := row[..|row| - 1], row[|row| - 1];
    assert row == init + [last];
    RenderRowSnoc(init, last);
    StateOfChar(last);
    ParseRowSnoc(RenderRow(init), StateChar(last), init, last);
  }

  lemma StateOfChar(s: State)
    ensures StateOf(StateChar(s)) == Some(s)
  {
  }

  lemma RenderRowSnoc(init: seq<State>, last: State)
    ensures RenderRow(init + [last]) == RenderRow(init) + [StateChar(last)]
  {
  }

  /** A row read from a line, and one more character that reads as a state,
      make the row one longer. */
  lemma ParseRowSnoc(line: string, c: char, init: seq<State>, last: State)
    requires ParseRow(line) == Some(init) && StateOf(c) == Some(last)
    ensures ParseRow(line + [c]) == Some(init + [last])
  {
    assert (line + [c])[..|line|] == line;
  }

  /** The grid of the input file (main.rs:178-183). */
  function ParseGrid(lines: seq<string>): (r: Option<seq<seq<State>>>)
    ensures r.None? <==> exists k | 0 <= k < |lines| :: ParseRow(lines[k]).None?
    ensures r.Some? ==> |r.value| == |lines| && forall k | 0 <= k < |lines| :: ParseRow(lines[k]) == Some(r.value[k])
  {
    ParseEach(lines, ParseRow)
  }
}
