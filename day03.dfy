/** Day 3: sledding down a map of open squares and trees that repeats to
    the right. For each slope the trees hit are counted; the answer is the
    product of the counts. */
module Day03 {
  import opened Common

  /** `Location` (main.rs:15-19). */
  datatype Location = Empty | Occupied

  /** `Location::new` (main.rs:21-29): `.` and `#`; any other character is
      an error that names it. */
  function NewLocation(c: char): (r: Result<Location, char>)
    ensures r.Ok? <==> c == '.' || c == '#'
    ensures r.Ok? ==> (r.value == Occupied <==> c == '#')
    ensures r.Err? ==> r.error == c
  {
    match c
    case '.' => Ok(Empty)
    case '#' => Ok(Occupied)
    case _ => Err(c)
  }

  /** The character a location is written as. */
  function LocationChar(l: Location): char
  {
    if l == Occupied then '#' else '.'
  }

  /** `Line::from_str` (main.rs:31-38): every character read as a location;
      the first one that is not `.` or `#` is the error. */
  function ParseLine(s: string): (r: Result<seq<Location>, char>)
    ensures r.Ok? ==> |r.value| == |s| && forall k | 0 <= k < |s| :: NewLocation(s[k]) == Ok(r.value[k])
    ensures r.Err? ==> exists k | 0 <= k < |s| ::
      && NewLocation(s[k]) == Err(r.error)
      && forall m | 0 <= m < k :: NewLocation(s[m]).Ok?
  {
    if |s| == 0 then Ok([])
    else
      match NewLocation(s[0])
      case Err(c) => Err(c)
      case Ok(l) =>
        match ParseLine(s[1..])
        case Err(c) =>
          assert forall m | 1 <= m < |s| :: s[m] == s[1..][m - 1];
          Err(c)
        case Ok(ls) => Ok([l] + ls)
  }

  /** A line is the text of its locations. */
  function RenderLine(line: seq<Location>): (s: string)
    ensures |s| == |line|
  {
    seq(|line|, k requires 0 <= k < |line| => LocationChar(line[k]))
  }

  /** Reading the text of a line gives the line back. */
  lemma {:induction false} ParseRenderLine(line: seq<Location>)
    ensures ParseLine(RenderLine(line)) == Ok(line)
  {
    if |line| > 0 {
      ParseRenderLine(line[1..]);
      assert RenderLine(line)[1..] == RenderLine(line[1..]);
      assert line == [line[0]] + line[1..];
    }
  }

  /** A line that does not parse panics at the `unwrap` (main.rs:45),
      modelled as `None`. */
  function ParseLineOption(s: string): Option<seq<Location>>
  {
    match ParseLine(s)
    case Ok(line) => Some(line)
    case Err(_) => None
  }

  function ParseMap(lines: seq<string>): (r: Option<seq<seq<Location>>>)
    ensures r.None? <==> exists k | 0 <= k < |lines| :: ParseLine(lines[k]).Err?
  {
    ParseEach(lines, ParseLineOption)
  }

  // ---------------------------------------------------------------------------
  // One slope (main.rs:55-72)

  /** The visit of row `i` at horizontal position `j`: whether the square,
      with the row repeated to the right, is a tree. An empty row makes
      `j % line.len()` divide by zero, which panics, modelled as `None`. */
  function Hit(grid: seq<seq<Location>>, i: nat, j: nat): Option<bool>
    requires i < |grid|
  {
    if |grid[i]| == 0 then None else Some(grid[i][j % |grid[i]|] == Occupied)
  }

  /** A count plus one more visit. */
  function Add(count: Option<nat>, hit: Option<bool>): Option<nat>
  {
    if count.None? || hit.None? then None else Some(count.value + (if hit.value then 1 else 0))
  }

  /** The trees hit from row `i` and horizontal position `j` on. */
  function TreesFrom(grid: seq<seq<Location>>, sj: nat, si: nat, i: nat, j: nat): Option<nat>
    requires si > 0
    decreases |grid| - i
  {
    if i >= |grid| then Some(0)
    else
      var rest := TreesFrom(grid, sj, si, i + si, j + sj);
      if rest.None? then None else Add(rest, Hit(grid, i, j))
  }

  /** The trees hit at the `k`-th visit and after it: the `k`-th visit is to
      row `k * si`, at horizontal position `k * sj`. */
  function TreesOfVisits(grid: seq<seq<Location>>, sj: nat, si: nat, k: nat): Option<nat>
    requires si > 0
    decreases |grid| - k * si
  {
    if k * si >= |grid| then Some(0)
    else
      assert (k + 1) * si == k * si + si;
      var rest := TreesOfVisits(grid, sj, si, k + 1);
      if rest.None? then None else Add(rest, Hit(grid, k * si, k * sj))
  }

  /** The walk visits row `k * si` at position `k * sj`, for each `k` while
      the row is inside the map. */
  lemma {:induction false} WalkVisits(grid: seq<seq<Location>>, sj: nat, si: nat, k: nat)
    requires si > 0
    ensures TreesFrom(grid, sj, si, k * si, k * sj) == TreesOfVisits(grid, sj, si, k)
    decreases |grid| - k * si
  {
    if k * si < |grid| {
      assert (k + 1) * si == k * si + si;
      assert (k + 1) * sj == k * sj + sj;
      WalkVisits(grid, sj, si, k + 1);
    }
  }

  /** The count of a slope is that of its visits. */
  lemma CountTreesVisits(grid: seq<seq<Location>>, sj: nat, si: nat)
    requires si > 0
    ensures TreesFrom(grid, sj, si, 0, 0) == TreesOfVisits(grid, sj, si, 0)
  {
    WalkVisits(grid, sj, si, 0);
  }

  /** How many rows the walk visits from row `i` of a map of `n` rows. */
  function Visits(n: nat, si: nat, i: nat): nat
    requires si > 0
    decreases n - i
  {
    if i >= n then 0 else 1 + Visits(n, si, i + si)
  }

  /** The visits are the fewest steps of `si` that leave the map: the last
      one is still inside it. */
  lemma {:induction false} VisitsLeave(n: nat, si: nat, i: nat)
    requires si > 0
    ensures var v := Visits(n, si, i);
      i + v * si >= n && (v == 0 || i + (v - 1) * si < n)
    decreases n - i
  {
    if i < n {
      var w := Visits(n, si, i + si);
      VisitsLeave(n, si, i + si);
      assert (w + 1) * si == w * si + si;
      if w > 0 {
        assert w * si == (w - 1) * si + si;
      }
    }
  }

  /** The count is at most the number of rows visited. */
  lemma {:induction false} TreesBound(grid: seq<seq<Location>>, sj: nat, si: nat, i: nat, j: nat)
    requires si > 0
    ensures var r := TreesFrom(grid, sj, si, i, j);
      r.Some? ==> r.value <= Visits(|grid|, si, i)
    decreases |grid| - i
  {
    if i < |grid| {
      TreesBound(grid, sj, si, i + si, j + sj);
    }
  }

  /** The per-slope loop (main.rs:56-66): every `si`-th row from the first,
      with the horizontal position advancing by `sj` per visit. */
  method CountTrees(grid: seq<seq<Location>>, sj: nat, si: nat) returns (r: Option<nat>)
    requires si > 0
    ensures r == TreesFrom(grid, sj, si, 0, 0)
  {
    var counter: nat := 0;
    var j: nat := 0;
    var i: nat := 0;
    while i < |grid|
      invariant TreesFrom(grid, sj, si, 0, 0) == Shift(counter, TreesFrom(grid, sj, si, i, j))
      decreases |grid| - i
    {
      var line := grid[i];
      if |line| == 0 {
        return None;
      }
      var loc := line[j % |line|];
      if loc == Occupied {
        counter := counter + 1;
      }
      j := j + sj;
      i := i + si;
    }
    return Some(counter);
  }

  /** A count made `counter` larger. */
  function Shift(counter: nat, rest: Option<nat>): Option<nat>
  {
    if rest.None? then None else Some(counter + rest.value)
  }

  // ---------------------------------------------------------------------------
  // The answer (main.rs:52-73)

  /** The slopes, as (right, down). */
  const Slopes: seq<(nat, nat)> := [(1, 1), (3, 1), (5, 1), (7, 1), (1, 2)]

  /** The product of the counts of the first `n` slopes, `None` when one of
      them panics. */
  function ProductOfSlopes(grid: seq<seq<Location>>, n: nat): Option<nat>
    requires n <= |Slopes|
  {
    if n == 0 then Some(1)
    else
      var init := ProductOfSlopes(grid, n - 1);
      var last := TreesFrom(grid, Slopes[n - 1].0, Slopes[n - 1].1, 0, 0);
      if init.None? || last.None? then None else Some(init.value * last.value)
  }

  /** Once a slope has panicked, the product stays a panic. */
  lemma {:induction false} ProductNoneStays(grid: seq<seq<Location>>, n: nat, m: nat)
    requires n <= m <= |Slopes| && ProductOfSlopes(grid, n).None?
    ensures ProductOfSlopes(grid, m).None?
    decreases m - n
  {
    if n < m {
      ProductNoneStays(grid, n, m - 1);
    }
  }

  /** The answer: the product over the five slopes of the trees hit, or
      `None` when a line does not parse or a visited row is empty. */
  function Answer(lines: seq<string>): Option<nat>
  {
    match ParseMap(lines)
    case None => None
    case Some(grid) => ProductOfSlopes(grid, |Slopes|)
  }

  /** `main`'s product loop over the slopes. */
  method Solve(lines: seq<string>) returns (r: Option<nat>)
    ensures r == Answer(lines)
  {
    var parsed := ParseMap(lines);
    if parsed.None? {
      return None;
    }
    var grid := parsed.value;
    var product: nat := 1;
    var n := 0;
    while n < |Slopes|
      invariant n <= |Slopes|
      invariant ProductOfSlopes(grid, n) == Some(product)
    {
      var count := CountTrees(grid, Slopes[n].0, Slopes[n].1);
      if count.None? {
        ProductNoneStays(grid, n + 1, |Slopes|);
        return None;
      }
      product := product * count.value;
      n := n + 1;
    }
    return Some(product);
  }
}
