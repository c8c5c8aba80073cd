/** Day 11: the seating system, a synchronous cellular automaton on a grid of
    floor, empty and occupied cells. Part one looks at the eight adjacent
    cells, part two at the first seat visible in each of the eight
    directions. */
module Day11 {
  import opened Common

  datatype Seat = Floor | Empty | Occupied

  datatype Grid = Grid(data: seq<seq<Seat>>, height: nat, width: nat)

  /** `2^64`: the modulus of the `as usize` cast of a negative `i32`. */
  const UsizeModulus: int := 0x1_0000_0000_0000_0000

  /** `2^31`: coordinates are converted with `as i32`. */
  const I32Bound: int := 0x8000_0000

  /** The eight offsets `DF` (main.rs:10-19). */
  const DF: seq<(int, int)> := [(-1, -1), (-1, 0), (-1, 1), (0, -1), (0, 1), (1, -1), (1, 0), (1, 1)]

  /** A rectangular grid whose coordinates survive the `as i32` conversion. */
  predicate WellFormed(g: Grid)
  {
    && |g.data| == g.height && g.height < I32Bound - 1 && g.width < I32Bound - 1
    && forall i | 0 <= i < |g.data| :: |g.data[i]| == g.width
  }

  /** `Grid::new_with` (main.rs:53-65). */
  function NewWith(height: nat, width: nat, f: (nat, nat) -> Seat): (g: Grid)
    requires height < I32Bound - 1 && width < I32Bound - 1
    ensures WellFormed(g) && g.height == height && g.width == width
    ensures forall i, j | 0 <= i < height && 0 <= j < width :: g.data[i][j] == f(i, j)
  {
    Grid(seq(height, i requires 0 <= i < height => seq(width, j requires 0 <= j < width => f(i, j))), height, width)
  }

  /** `(x as i32 + d) as usize` for an in-range `x`: a negative sum wraps. */
  function AsUsize(v: int): nat
    requires -I32Bound <= v < I32Bound
  {
    if v < 0 then v + UsizeModulus else v
  }

  /** `Grid::get` (main.rs:67-73): `None` past the last row or past the end of
      the row. */
  function Get(g: Grid, a: nat, b: nat): (r: Option<Seat>)
    ensures r.None? <==> a >= |g.data| || b >= |g.data[a]|
    ensures r.Some? ==> r.value == g.data[a][b]
  {
    if a < |g.data| && b < |g.data[a]| then Some(g.data[a][b]) else None
  }

  /** The cell at integer coordinates, `None` off the grid: the reference for
      the wrapped unsigned lookups. */
  function Cell(g: Grid, x: int, y: int): Option<Seat>
    requires WellFormed(g)
  {
    if 0 <= x < g.height && 0 <= y < g.width then Some(g.data[x][y]) else None
  }

  /** A step off the top or left edge wraps to an index beyond any row, so the
      lookup through `as usize` is the plain lookup at integer coordinates. */
  lemma GetWrapped(g: Grid, x: int, y: int)
    requires WellFormed(g) && -I32Bound <= x < I32Bound && -I32Bound <= y < I32Bound
    ensures Get(g, AsUsize(x), AsUsize(y)) == Cell(g, x, y)
  {
  }

  /** `neighbors_adjacent` (main.rs:75-81): one lookup per offset of `DF`. */
  function NeighborsAdjacent(g: Grid, i: nat, j: nat): (ns: seq<Option<Seat>>)
    requires WellFormed(g) && i < g.height && j < g.width
    ensures |ns| == 8
    ensures forall k | 0 <= k < 8 :: ns[k] == Cell(g, i + DF[k].0, j + DF[k].1)
  {
    seq(8, k requires 0 <= k < 8 => Get(g, AsUsize(i + DF[k].0), AsUsize(j + DF[k].1)))
  }

  /** `DF` holds the eight non-zero offsets in {-1,0,1}², each once, so the
      neighbours never include the cell itself. */
  lemma DirectionsAreTheEightOffsets()
    ensures forall k | 0 <= k < 8 :: DF[k] != (0, 0) && -1 <= DF[k].0 <= 1 && -1 <= DF[k].1 <= 1
    ensures forall k, m | 0 <= k < m < 8 :: DF[k] != DF[m]
    ensures forall dx, dy | -1 <= dx <= 1 && -1 <= dy <= 1 && (dx, dy) != (0, 0) :: (dx, dy) in DF
  {
  }

  /** The number of lookups that found an occupied seat. */
  function CountOccupied(ns: seq<Option<Seat>>): (n: nat)
    ensures n <= |ns|
    ensures n == 0 <==> forall k | 0 <= k < |ns| :: ns[k] != Some(Occupied)
  {
    if |ns| == 0 then 0
    else
      assert forall k | 0 <= k < |ns| - 1 :: ns[..|ns| - 1][k] == ns[k];
      CountOccupied(ns[..|ns| - 1]) + if ns[|ns| - 1] == Some(Occupied) then 1 else 0
  }

  /** The rule shared by both parts: a floor stays floor, an empty seat fills
      when no watched seat is occupied, an occupied seat empties when at least
      `tolerance` watched seats are occupied. */
  function Next(seat: Seat, watched: seq<Option<Seat>>, tolerance: nat): Seat
  {
    match seat
    case Floor => Floor
    case Empty => if exists k | 0 <= k < |watched| :: watched[k] == Some(Occupied) then Empty else Occupied
    case Occupied => if CountOccupied(watched) >= tolerance then Empty else Occupied
  }

  /** `round_part_one` (main.rs:147-180). */
  function RoundOne(g: Grid): (r: Grid)
    requires WellFormed(g)
    ensures WellFormed(r) && r.height == g.height && r.width == g.width
    ensures forall i, j | 0 <= i < g.height && 0 <= j < g.width ::
      r.data[i][j] == Next(g.data[i][j], NeighborsAdjacent(g, i, j), 4)
  {
    NewWith(g.height, g.width, (i: nat, j: nat) => if i < |g.data| && j < |g.data[i]| then Next(g.data[i][j], NeighborsAdjacent(g, i, j), 4) else Floor)
  }

  // ---------------------------------------------------------------------------
  // Part two: the first seat visible in a direction

  predicate IsDirection(d: (int, int)) { -1 <= d.0 <= 1 && -1 <= d.1 <= 1 && d != (0, 0) }

  function Remaining(g: Grid, i: nat, j: nat, d: (int, int)): nat
    requires i <= g.height && j <= g.width
  {
    if d.0 > 0 then g.height - i else if d.0 < 0 then i else if d.1 > 0 then g.width - j else j
  }

  /** `first_nonfloor_neighbor_in_direction` (main.rs:99-107) over
      `neighbors_in_direction` (main.rs:83-95): step until the lookup fails or
      finds a seat that is not floor. */
  function FirstSeen(g: Grid, i: nat, j: nat, d: (int, int)): (r: Option<Seat>)
    requires WellFormed(g) && IsDirection(d) && i < g.height && j < g.width
    ensures r != Some(Floor)
    decreases Remaining(g, i, j, d)
  {
    var a := AsUsize(i + d.0);
    var b := AsUsize(j + d.1);
    match Get(g, a, b)
    case None => None
    case Some(s) => if s != Floor then Some(s) else FirstSeen(g, a, b, d)
  }

  /** The `n`-th cell along the ray from (i, j) in direction `d`. */
  function Ray(g: Grid, i: int, j: int, d: (int, int), n: nat): Option<Seat>
    requires WellFormed(g)
  {
    Cell(g, i + n * d.0, j + n * d.1)
  }

  /** The ray reading of `FirstSeen`: it returns the first cell along the ray
      that is off the grid (`None`) or not floor, all cells before it being
      floor. */
  lemma {:induction false} FirstSeenOnRay(g: Grid, i: nat, j: nat, d: (int, int))
    requires WellFormed(g) && IsDirection(d) && i < g.height && j < g.width
    ensures exists n: nat | n >= 1 ::
      && Ray(g, i, j, d, n) == FirstSeen(g, i, j, d)
      && forall m: nat | 1 <= m < n :: Ray(g, i, j, d, m) == Some(Floor)
    decreases Remaining(g, i, j, d)
  {
    var a := AsUsize(i + d.0);
    var b := AsUsize(j + d.1);
    GetWrapped(g, i + d.0, j + d.1);
    assert Ray(g, i, j, d, 1) == Cell(g, i + d.0, j + d.1);
    match Get(g, a, b)
    case None =>
    case Some(s) =>
      if s == Floor {
        FirstSeenOnRay(g, a, b, d);
        var n: nat :| n >= 1 && Ray(g, a, b, d, n) == FirstSeen(g, a, b, d)
          && forall m: nat | 1 <= m < n :: Ray(g, a, b, d, m) == Some(Floor);
        assert FirstSeen(g, i, j, d) == FirstSeen(g, a, b, d);
        RayExtend(g, i, j, d, a, b, n, FirstSeen(g, a, b, d));
      }
  }

  /** A floor cell one step along the ray puts the ray from the next cell
      one step behind the ray from (i, j). */
  lemma RayExtend(g: Grid, i: int, j: int, d: (int, int), a: int, b: int, n: nat, first: Option<Seat>)
    requires WellFormed(g) && a == i + d.0 && b == j + d.1
    requires Ray(g, i, j, d, 1) == Some(Floor)
    requires n >= 1 && Ray(g, a, b, d, n) == first
    requires forall m: nat | 1 <= m < n :: Ray(g, a, b, d, m) == Some(Floor)
    ensures Ray(g, i, j, d, n + 1) == first
    ensures forall m: nat | 1 <= m < n + 1 :: Ray(g, i, j, d, m) == Some(Floor)
  {
    forall m: nat | 1 <= m <= n
      ensures Ray(g, i, j, d, m + 1) == Ray(g, a, b, d, m)
    {
      assert i + (m + 1) * d.0 == a + m * d.0 && j + (m + 1) * d.1 == b + m * d.1;
    }
    forall m: nat | 1 <= m < n + 1
      ensures Ray(g, i, j, d, m) == Some(Floor)
    {
      if m > 1 {
        assert Ray(g, i, j, d, (m - 1) + 1) == Ray(g, a, b, d, m - 1);
      }
    }
  }

  /** What the seat at (i, j) watches in part two: the first seat visible in
      each of the eight directions. */
  function VisibleSeats(g: Grid, i: nat, j: nat): (vs: seq<Option<Seat>>)
    requires WellFormed(g) && i < g.height && j < g.width
    ensures |vs| == 8
  {
    seq(8, k requires 0 <= k < 8 => FirstSeen(g, i, j, DF[k]))
  }

  /** `round_part_two` (main.rs:182-216): `filter_map` drops the directions
      that see nothing, which does not change the number of occupied seats. */
  function RoundTwo(g: Grid): (r: Grid)
    requires WellFormed(g)
    ensures WellFormed(r) && r.height == g.height && r.width == g.width
    ensures forall i, j | 0 <= i < g.height && 0 <= j < g.width ::
      r.data[i][j] == Next(g.data[i][j], VisibleSeats(g, i, j), 5)
  {
    NewWith(g.height, g.width, (i: nat, j: nat) => if i < |g.data| && j < |g.data[i]| then Next(g.data[i][j], VisibleSeats(g, i, j), 5) else Floor)
  }

  /** The rule of a round, stated per cell: floors stay floors; an empty seat
      becomes occupied iff none of the watched cells is occupied; an occupied
      seat becomes empty iff at least `tolerance` of them are. */
  lemma NextRule(seat: Seat, watched: seq<Option<Seat>>, tolerance: nat)
    ensures (Next(seat, watched, tolerance) == Floor) <==> (seat == Floor)
    ensures seat == Empty ==>
      (Next(seat, watched, tolerance) == Occupied <==> forall k | 0 <= k < |watched| :: watched[k] != Some(Occupied))
    ensures seat == Occupied ==>
      (Next(seat, watched, tolerance) == Empty <==> CountOccupied(watched) >= tolerance)
  {
  }

  /** Part one, per cell, in terms of the eight cells around it on the grid
      (off-grid cells count as unoccupied). */
  lemma RoundOneRule(g: Grid, i: nat, j: nat)
    requires WellFormed(g) && i < g.height && j < g.width
    ensures (RoundOne(g).data[i][j] == Floor) <==> (g.data[i][j] == Floor)
    ensures g.data[i][j] == Empty ==>
      (RoundOne(g).data[i][j] == Occupied <==> forall k | 0 <= k < 8 :: Cell(g, i + DF[k].0, j + DF[k].1) != Some(Occupied))
    ensures g.data[i][j] == Occupied ==>
      (RoundOne(g).data[i][j] == Empty <==> CountOccupied(NeighborsAdjacent(g, i, j)) >= 4)
  {
    NextRule(g.data[i][j], NeighborsAdjacent(g, i, j), 4);
  }

  /** Part two, per cell, in terms of the first seat seen along each of the
      eight directions. */
  lemma RoundTwoRule(g: Grid, i: nat, j: nat)
    requires WellFormed(g) && i < g.height && j < g.width
    ensures (RoundTwo(g).data[i][j] == Floor) <==> (g.data[i][j] == Floor)
    ensures g.data[i][j] == Empty ==>
      (RoundTwo(g).data[i][j] == Occupied <==> forall k | 0 <= k < 8 :: VisibleSeats(g, i, j)[k] != Some(Occupied))
    ensures g.data[i][j] == Occupied ==>
      (RoundTwo(g).data[i][j] == Empty <==> CountOccupied(VisibleSeats(g, i, j)) >= 5)
  {
    NextRule(g.data[i][j], VisibleSeats(g, i, j), 5);
  }

  // ---------------------------------------------------------------------------
  // Running to the steady state (`solve`, main.rs:223-269)

  datatype Part = PartOne | PartTwo

  function Round(part: Part, g: Grid): (r: Grid)
    requires WellFormed(g)
    ensures WellFormed(r) && r.height == g.height && r.width == g.width
  {
    match part
    case PartOne => RoundOne(g)
    case PartTwo => RoundTwo(g)
  }

  /** The grid after `k` rounds. */
  function Iterate(part: Part, g: Grid, k: nat): (r: Grid)
    requires WellFormed(g)
    ensures WellFormed(r) && r.height == g.height && r.width == g.width
  {
    if k == 0 then g else Round(part, Iterate(part, g, k - 1))
  }

  /** The stabilisation test of `solve`: every cell of the new grid equals
      the cell of the old one. */
  predicate SameCells(a: Grid, b: Grid)
    requires WellFormed(a) && WellFormed(b) && a.height == b.height && a.width == b.width
  {
    forall i, j | 0 <= i < a.height && 0 <= j < a.width :: a.data[i][j] == b.data[i][j]
  }

  lemma SameCellsIsEquality(a: Grid, b: Grid)
    requires WellFormed(a) && WellFormed(b) && a.height == b.height && a.width == b.width
    ensures SameCells(a, b) <==> a == b
  {
    if SameCells(a, b) {
      assert forall i | 0 <= i < a.height :: a.data[i] == b.data[i];
    }
  }

  function RowOccupied(row: seq<Seat>): nat
  {
    if |row| == 0 then 0 else RowOccupied(row[..|row| - 1]) + if row[|row| - 1] == Occupied then 1 else 0
  }

  /** The number of occupied cells of the grid. */
  function OccupiedSeats(rows: seq<seq<Seat>>): nat
  {
    if |rows| == 0 then 0 else OccupiedSeats(rows[..|rows| - 1]) + RowOccupied(rows[|rows| - 1])
  }

  datatype Solution = Solution(steadyStateRound: nat, occupiedSeats: nat)

  /** `solve`: run rounds until one leaves every cell as it was. The loop of
      the program has no bound; here it is cut after `maxRounds` rounds. */
  method Solve(g: Grid, part: Part, maxRounds: nat) returns (r: Option<Solution>)
    requires WellFormed(g)
    ensures r.Some? ==>
      && 1 <= r.value.steadyStateRound <= maxRounds
      && Iterate(part, g, r.value.steadyStateRound) == Iterate(part, g, r.value.steadyStateRound - 1)
      && (forall k | 1 <= k < r.value.steadyStateRound :: Iterate(part, g, k) != Iterate(part, g, k - 1))
      && r.value.occupiedSeats == OccupiedSeats(Iterate(part, g, r.value.steadyStateRound).data)
    ensures r.None? ==> forall k | 1 <= k <= maxRounds :: Iterate(part, g, k) != Iterate(part, g, k - 1)
  {
    var grid := g;
    var iteration := 0;
    while iteration < maxRounds
      invariant iteration <= maxRounds
      invariant grid == Iterate(part, g, iteration)
      invariant forall k | 1 <= k <= iteration :: Iterate(part, g, k) != Iterate(part, g, k - 1)
    {
      iteration := iteration + 1;
      var newGrid := Round(part, grid);
      SameCellsIsEquality(newGrid, grid);
      if SameCells(newGrid, grid) {
        return Some(Solution(iteration, OccupiedSeats(newGrid.data)));
      }
      grid := newGrid;
    }
    return None;
  }

  // ---------------------------------------------------------------------------
  // Reading the grid (main.rs:274-288)

  function ParseSeat(c: char): Option<Seat>
  {
    match c
    case '.' => Some(Floor)
    case 'L' => Some(Empty)
    case _ => None
  }

  function ParseRow(line: string): (r: Option<seq<Seat>>)
    ensures r.Some? ==> |r.value| == |line| && forall k | 0 <= k < |line| :: Some(r.value[k]) == ParseSeat(line[k])
    ensures r.None? <==> exists k | 0 <= k < |line| :: ParseSeat(line[k]).None?
  {
    if |line| == 0 then Some([])
    else
      var init := line[..|line| - 1];
      assert forall k | 0 <= k < |init| :: init[k] == line[k];
      match ParseRow(init)
      case None => None
      case Some(row) =>
        match ParseSeat(line[|line| - 1])
        case None => None
        case Some(s) => Some(row + [s])
  }

  function ParseRows(lines: seq<string>): (r: Option<seq<seq<Seat>>>)
    ensures r.Some? ==> |r.value| == |lines| && forall k | 0 <= k < |lines| :: Some(r.value[k]) == ParseRow(lines[k])
    ensures r.None? <==> exists k | 0 <= k < |lines| :: ParseRow(lines[k]).None?
  {
    if |lines| == 0 then Some([])
    else
      assert forall k | 0 <= k < |lines| - 1 :: lines[..|lines| - 1][k] == lines[k];
      match ParseRows(lines[..|lines| - 1])
      case None => None
      case Some(rows) =>
        match ParseRow(lines[|lines| - 1])
        case None => None
        case Some(row) => Some(rows + [row])
  }

  /** The grid of `main`: `'.'` is floor, `'L'` an empty seat; any other
      character (`'#'` included) and an empty input abort (`None`). The width
      is the length of the first row. */
  function ParseGrid(lines: seq<string>): (r: Option<Grid>)
    ensures r.None? <==> |lines| == 0 || exists k | 0 <= k < |lines| :: ParseRow(lines[k]).None?
    ensures r.Some? ==> |lines| > 0 && r.value.height == |lines| && r.value.width == |lines[0]|
    ensures r.Some? ==> |r.value.data| == |lines| && forall i | 0 <= i < |lines| :: Some(r.value.data[i]) == ParseRow(lines[i])
    ensures r.Some? ==> forall i, j | 0 <= i < |r.value.data| && 0 <= j < |r.value.data[i]| :: r.value.data[i][j] != Occupied
  {
    match ParseRows(lines)
    case None => None
    case Some(rows) =>
      if |rows| == 0 then None
      else
        assert forall i, j | 0 <= i < |rows| && 0 <= j < |rows[i]| :: Some(rows[i][j]) == ParseSeat(lines[i][j]);
        Some(Grid(rows, |rows|, |rows[0]|))
  }
}
