/** Day 20, part one: find which tile borders match, and multiply the ids of
    the tiles that match exactly two other tiles (the corners). */
module Day20 {
  import opened Common
  import opened Day20Tile

  /** The order of `sides` in `solve_part_one` (main.rs:20-23). */
  const Sides: seq<Side> := [Top, Bot, Left, Right]

  /** An entry of `compatible`: (tile id, side) of the earlier tile, then of
      the later one. */
  type Key = ((nat, Side), (nat, Side))

  /** Whether the inner side `a` of tile `i` equals side `b` of tile `j`, read
      outer (`compatible`) or inner (`compatible_flipped`). */
  predicate Hit(tiles: seq<Tile>, flipped: bool, i: int, a: int, j: int, b: int)
    requires 0 <= i < |tiles| && 0 <= j < |tiles| && 0 <= a < 4 && 0 <= b < 4
  {
    DataOnSide(tiles[i], Sides[a], Inner) == DataOnSide(tiles[j], Sides[b], if flipped then Inner else Outer)
  }

  function KeyOf(tiles: seq<Tile>, i: int, a: int, j: int, b: int): Key
    requires 0 <= i < |tiles| && 0 <= j < |tiles| && 0 <= a < 4 && 0 <= b < 4
  {
    ((tiles[i].id, Sides[a]), (tiles[j].id, Sides[b]))
  }

  predicate InRange(n: int, i: int, a: int, j: int, b: int)
  {
    0 <= i < j < n && 0 <= a < 4 && 0 <= b < 4
  }

  /** Every match between an earlier and a later tile: what `compatible`
      (`flipped` false) and `compatible_flipped` (`flipped` true) hold after
      the loops of main.rs:27-45. */
  ghost function Matches(tiles: seq<Tile>, flipped: bool): set<Key>
  {
    set i, a, j, b | 0 <= i < |tiles| && 0 <= j < |tiles| && i < j && 0 <= a < 4 && 0 <= b < 4 && Hit(tiles, flipped, i, a, j, b) :: KeyOf(tiles, i, a, j, b)
  }

  /** The loops have visited (i, a, j, b) before reaching (ci, ca, cj, cb). */
  predicate Before(i: int, a: int, j: int, b: int, ci: int, ca: int, cj: int, cb: int)
  {
    i < ci || (i == ci && (a < ca || (a == ca && (j < cj || (j == cj && b < cb)))))
  }

  /** `s` holds only matches, and every match visited before the cursor. */
  ghost predicate Covered(tiles: seq<Tile>, flipped: bool, s: set<Key>, ci: int, ca: int, cj: int, cb: int)
  {
    && s <= Matches(tiles, flipped)
    && forall i, a, j, b | InRange(|tiles|, i, a, j, b) && Before(i, a, j, b, ci, ca, cj, cb) && Hit(tiles, flipped, i, a, j, b) ::
         KeyOf(tiles, i, a, j, b) in s
  }

  /** Moving the cursor to an equivalent position. */
  lemma CoveredMoves(tiles: seq<Tile>, flipped: bool, s: set<Key>, c: (int, int, int, int), d: (int, int, int, int))
    requires Covered(tiles, flipped, s, c.0, c.1, c.2, c.3)
    requires forall i, a, j, b | InRange(|tiles|, i, a, j, b) && Before(i, a, j, b, d.0, d.1, d.2, d.3) :: Before(i, a, j, b, c.0, c.1, c.2, c.3)
    ensures Covered(tiles, flipped, s, d.0, d.1, d.2, d.3)
  {
  }

  /** One pass of the innermost loop body (main.rs:34-41). */
  lemma CoveredStep(tiles: seq<Tile>, flipped: bool, s: set<Key>, i: int, a: int, j: int, b: int)
    requires InRange(|tiles|, i, a, j, b)
    requires Covered(tiles, flipped, s, i, a, j, b)
    ensures Covered(tiles, flipped, if Hit(tiles, flipped, i, a, j, b) then s + {KeyOf(tiles, i, a, j, b)} else s, i, a, j, b + 1)
  {
  }

  /** The comparison loops of `solve_part_one` (main.rs:24-45): each inner
      side of a tile against each side of every later tile. */
  method FindMatches(tiles: seq<Tile>) returns (compatible: set<Key>, compatibleFlipped: set<Key>)
    ensures compatible == Matches(tiles, false)
    ensures compatibleFlipped == Matches(tiles, true)
  {
    var n := |tiles|;
    compatible := {};
    compatibleFlipped := {};
    for i := 0 to n
      invariant Covered(tiles, false, compatible, i, 0, 0, 0)
      invariant Covered(tiles, true, compatibleFlipped, i, 0, 0, 0)
    {
      for a := 0 to 4
        invariant Covered(tiles, false, compatible, i, a, 0, 0)
        invariant Covered(tiles, true, compatibleFlipped, i, a, 0, 0)
      {
        var s1 := DataOnSide(tiles[i], Sides[a], Inner);
        for j := i + 1 to n
          invariant Covered(tiles, false, compatible, i, a, j, 0)
          invariant Covered(tiles, true, compatibleFlipped, i, a, j, 0)
        {
          for b := 0 to 4
            invariant Covered(tiles, false, compatible, i, a, j, b)
            invariant Covered(tiles, true, compatibleFlipped, i, a, j, b)
          {
            CoveredStep(tiles, false, compatible, i, a, j, b);
            CoveredStep(tiles, true, compatibleFlipped, i, a, j, b);
            var s2 := DataOnSide(tiles[j], Sides[b], Outer);
            if s1 == s2 {
              compatible := compatible + {KeyOf(tiles, i, a, j, b)};
            }
            var s2Rev := DataOnSide(tiles[j], Sides[b], Inner);
            if s1 == s2Rev {
              compatibleFlipped := compatibleFlipped + {KeyOf(tiles, i, a, j, b)};
            }
          }
          CoveredMoves(tiles, false, compatible, (i, a, j, 4), (i, a, j + 1, 0));
          CoveredMoves(tiles, true, compatibleFlipped, (i, a, j, 4), (i, a, j + 1, 0));
        }
        CoveredMoves(tiles, false, compatible, (i, a, n, 0), (i, a + 1, 0, 0));
        CoveredMoves(tiles, true, compatibleFlipped, (i, a, n, 0), (i, a + 1, 0, 0));
      }
      CoveredMoves(tiles, false, compatible, (i, 4, 0, 0), (i + 1, 0, 0, 0));
      CoveredMoves(tiles, true, compatibleFlipped, (i, 4, 0, 0), (i + 1, 0, 0, 0));
    }
    CoveredAll(tiles, false, compatible);
    CoveredAll(tiles, true, compatibleFlipped);
  }

  lemma CoveredAll(tiles: seq<Tile>, flipped: bool, s: set<Key>)
    requires Covered(tiles, flipped, s, |tiles|, 0, 0, 0)
    ensures s == Matches(tiles, flipped)
  {
    forall key | key in Matches(tiles, flipped)
      ensures key in s
    {
      var i, a, j, b :| InRange(|tiles|, i, a, j, b) && Hit(tiles, flipped, i, a, j, b) && key == KeyOf(tiles, i, a, j, b);
    }
  }

  /** Only tiles at different positions are compared, so when the ids are
      distinct no entry pairs a tile with itself (main.rs:27-31). */
  lemma NoTilePairedWithItself(tiles: seq<Tile>, flipped: bool)
    requires forall k, m | 0 <= k < m < |tiles| :: tiles[k].id != tiles[m].id
    ensures forall key | key in Matches(tiles, flipped) :: key.0.0 != key.1.0
  {
    forall key | key in Matches(tiles, flipped)
      ensures key.0.0 != key.1.0
    {
      var i, a, j, b :| InRange(|tiles|, i, a, j, b) && Hit(tiles, flipped, i, a, j, b) && key == KeyOf(tiles, i, a, j, b);
    }
  }

  /** Whether some entry of `pairs` joins the ids `x` and `y`, in either
      order (main.rs:61-63). */
  predicate Joined(pairs: set<Key>, x: nat, y: nat)
  {
    exists key | key in pairs :: (key.0.0 == x && key.1.0 == y) || (key.1.0 == x && key.0.0 == y)
  }

  /** The number of tiles of `tiles` joined to id `x` (the `filter` and
      `collect_vec` of main.rs:58-73, then `len`). */
  function Partners(tiles: seq<Tile>, pairs: set<Key>, x: nat): (n: nat)
    ensures n <= |tiles|
    ensures n == 0 <==> forall k | 0 <= k < |tiles| :: !Joined(pairs, x, tiles[k].id)
  {
    if |tiles| == 0 then 0
    else
      var init := tiles[..|tiles| - 1];
      assert forall k | 0 <= k < |init| :: init[k] == tiles[k];
      Partners(init, pairs, x) + if Joined(pairs, x, tiles[|tiles| - 1].id) then 1 else 0
  }

  /** A tile is a corner when the tiles joined to it in `compatible` and in
      `compatible_flipped` number two together (main.rs:74-76). */
  predicate IsCorner(tiles: seq<Tile>, compatible: set<Key>, flipped: set<Key>, t: Tile)
  {
    Partners(tiles, compatible, t.id) + Partners(tiles, flipped, t.id) == 2
  }

  /** The ids of the tiles of `ts` that `keep` selects, in order. */
  function SelectedIds(ts: seq<Tile>, keep: Tile -> bool): (ids: seq<nat>)
    ensures |ids| <= |ts|
    ensures forall x :: x in ids <==> exists k | 0 <= k < |ts| :: ts[k].id == x && keep(ts[k])
    ensures (forall k | 0 <= k < |ts| :: !keep(ts[k])) ==> ids == []
  {
    if |ts| == 0 then []
    else
      var init := ts[..|ts| - 1];
      var last := ts[|ts| - 1];
      var ids := SelectedIds(init, keep);
      assert forall k | 0 <= k < |init| :: init[k] == ts[k];
      if keep(last) then ids + [last.id] else ids
  }

  /** The ids of the corner tiles among `ts`, in order. */
  function CornerIds(tiles: seq<Tile>, compatible: set<Key>, flipped: set<Key>, ts: seq<Tile>): (ids: seq<nat>)
    ensures forall x :: x in ids <==> exists k | 0 <= k < |ts| :: ts[k].id == x && IsCorner(tiles, compatible, flipped, ts[k])
    ensures (forall k | 0 <= k < |ts| :: !IsCorner(tiles, compatible, flipped, ts[k])) ==> ids == []
  {
    SelectedIds(ts, t => IsCorner(tiles, compatible, flipped, t))
  }

  /** The running product of main.rs:56-87: `p` times the id of every
      corner tile. */
  method CornerProduct(tiles: seq<Tile>, compatible: set<Key>, flipped: set<Key>) returns (p: int)
    ensures p == Product(CornerIds(tiles, compatible, flipped, tiles))
  {
    p := 1;
    for k := 0 to |tiles|
      invariant p == Product(CornerIds(tiles, compatible, flipped, tiles[..k]))
    {
      var tile := tiles[k];
      assert tiles[..k + 1][..k] == tiles[..k];
      var comp := Partners(tiles, compatible, tile.id);
      var compRev := Partners(tiles, flipped, tile.id);
      if comp + compRev != 2 {
        continue;
      }
      p := p * tile.id;
    }
    assert tiles[..|tiles|] == tiles;
  }

  /** The product of the ids of the corner tiles: what `solve_part_one` is
      evidently meant to return (main.rs:88, 151-161). */
  ghost function IntendedAnswer(tiles: seq<Tile>): int
  {
    Product(CornerIds(tiles, Matches(tiles, false), Matches(tiles, true), tiles))
  }

  /** `solve_part_one` as written (main.rs:17-91): it computes the corner
      product but returns the constant 42. `tiles[0]` panics on an empty
      list, modelled as `None`. */
  method SolvePartOneAsWritten(tiles: seq<Tile>) returns (r: Option<nat>)
    ensures r == if |tiles| == 0 then None else Some(42)
  {
    if |tiles| == 0 {
      return None;
    }
    var compatible, compatibleFlipped := FindMatches(tiles);
    var p := CornerProduct(tiles, compatible, compatibleFlipped);
    r := Some(42);
  }

  /** `solve_part_one` returning the corner product it computes. */
  method SolvePartOne(tiles: seq<Tile>) returns (r: Option<int>)
    ensures r == if |tiles| == 0 then None else Some(IntendedAnswer(tiles))
  {
    if |tiles| == 0 {
      return None;
    }
    var compatible, compatibleFlipped := FindMatches(tiles);
    var p := CornerProduct(tiles, compatible, compatibleFlipped);
    r := Some(p);
  }

  /** With one tile there is nothing to compare, no tile is a corner and the
      corner product is 1, while the function as written answers 42. */
  lemma AsWrittenIgnoresTheProduct(t: Tile)
    ensures IntendedAnswer([t]) == 1
  {
    var tiles := [t];
    assert Matches(tiles, false) == {};
    assert Matches(tiles, true) == {};
    assert Partners(tiles, {}, t.id) == 0;
    assert CornerIds(tiles, {}, {}, tiles) == [];
  }

  /** With no tile joined to any other, no tile is a corner and the answer is
      the empty product. */
  lemma NoMatchesNoCorners(tiles: seq<Tile>)
    requires Matches(tiles, false) == {} && Matches(tiles, true) == {}
    ensures IntendedAnswer(tiles) == 1
  {
    forall k | 0 <= k < |tiles|
      ensures !IsCorner(tiles, {}, {}, tiles[k])
    {
      assert Partners(tiles, {}, tiles[k].id) == 0;
    }
  }

  // ---------------------------------------------------------------------------
  // Reading the input (main.rs:93-124)

  /** `Tile (\d+):` matched at position `p` of `line`: the captured number. */
  function HeaderAt(line: string, p: nat): Option<nat>
    requires p <= |line|
  {
    if "Tile " <= line[p..] then
      match DigitsThen(line[p + 5..], ":")
      case None => None
      case Some((d, _)) => Some(DigitsValue(d))
    else None
  }

  /** The leftmost match of `Tile (\d+):` at or after `p` (the regex is not
      anchored). */
  function HeaderFrom(line: string, p: nat): Option<nat>
    requires p <= |line|
    decreases |line| - p
  {
    match HeaderAt(line, p)
    case Some(n) => Some(n)
    case None => if p == |line| then None else HeaderFrom(line, p + 1)
  }

  /** No match of the header pattern starts in `[p, q)`. */
  predicate NoHeaderBetween(line: string, p: nat, q: nat)
    requires q <= |line|
  {
    forall q' | p <= q' < q :: HeaderAt(line, q').None?
  }

  /** The search finds nothing exactly when no position matches, and
      otherwise the id at the leftmost matching position. */
  lemma {:induction false} HeaderFromLeftmost(line: string, p: nat)
    requires p <= |line|
    ensures HeaderFrom(line, p).None? <==> NoHeaderBetween(line, p, |line|) && HeaderAt(line, |line|).None?
    ensures HeaderFrom(line, p).Some? ==>
      exists q | p <= q <= |line| :: HeaderAt(line, q) == HeaderFrom(line, p) && NoHeaderBetween(line, p, q)
    decreases |line| - p
  {
    if HeaderAt(line, p).None? && p < |line| {
      HeaderFromLeftmost(line, p + 1);
      if HeaderFrom(line, p).Some? {
        var q :| p + 1 <= q <= |line| && HeaderAt(line, q) == HeaderFrom(line, p) && NoHeaderBetween(line, p + 1, q);
        assert NoHeaderBetween(line, p, q);
      }
    }
  }

  /** The id of a header line; no match is an error, and a number that does
      not fit a `usize` panics in `unwrap` (both `None`). */
  function HeaderId(line: string): (r: Option<nat>)
    ensures r.Some? ==> r.value < UsizeLimit
  {
    match HeaderFrom(line, 0)
    case None => None
    case Some(n) => if n < UsizeLimit then Some(n) else None
  }

  lemma HeaderIdOf(id: nat)
    requires id < UsizeLimit
    ensures HeaderId("Tile " + Decimal(id) + ":") == Some(id)
  {
    var line := "Tile " + Decimal(id) + ":";
    assert HeaderAt(line, 0) == Some(id) by {
      assert line[0..] == line;
      assert "Tile " <= line;
      assert line[5..] == Decimal(id) + ":" + "";
      DigitsThenOf(Decimal(id), ":", "");
      DecimalValue(id);
    }
  }

  /** The tiles of `lines`: blocks of a header and the rows up to a blank
      line; a blank line where a header is expected ends the input. */
  function ReadTiles(lines: seq<string>): Option<seq<Tile>>
    decreases |lines|
  {
    if |lines| == 0 || lines[0] == "" then Some([])
    else
      match HeaderId(lines[0])
      case None => None
      case Some(id) =>
        var rest := lines[1..];
        var b := FirstBlank(rest);
        match NewTile(id, rest[..b])
        case None => None
        case Some(t) =>
          var more := if b < |rest| then rest[b + 1..] else [];
          match ReadTiles(more)
          case None => None
          case Some(ts) => Some([t] + ts)
  }

  /** The inner loop of `read_data` (main.rs:111-117): the rows from
      `start` up to a blank line, and the position after that line. */
  method ReadRows(lines: seq<string>, start: nat) returns (data: seq<seq<char>>, next: nat)
    requires start <= |lines|
    ensures data == lines[start..][..FirstBlank(lines[start..])]
    ensures next == if start + |data| < |lines| then start + |data| + 1 else |lines|
  {
    data := [];
    next := start;
    var ended := false;
    while next < |lines| && !ended
      invariant start <= next <= |lines|
      invariant ended ==> next > start && lines[next - 1] == "" && data == lines[start..next - 1]
      invariant ended ==> forall k | start <= k < next - 1 :: lines[k] != ""
      invariant !ended ==> data == lines[start..next] && forall k | start <= k < next :: lines[k] != ""
      decreases |lines| - next, !ended
    {
      var row := lines[next];
      next := next + 1;
      if row == "" {
        ended := true;
      } else {
        data := data + [row];
      }
    }
    assert forall k | 0 <= k < |lines[start..]| :: lines[start..][k] == lines[start + k];
    FirstBlankIs(lines[start..], |data|);
  }

  /** One block of the input read by `ReadTiles`. */
  lemma ReadTilesBlock(lines: seq<string>, pos: nat, id: nat, data: seq<seq<char>>, next: nat)
    requires pos < |lines| && lines[pos] != "" && HeaderId(lines[pos]) == Some(id)
    requires data == lines[pos + 1..][..FirstBlank(lines[pos + 1..])]
    requires next == if pos + 1 + |data| < |lines| then pos + 1 + |data| + 1 else |lines|
    ensures ReadTiles(lines[pos..]) ==
      match NewTile(id, data)
      case None => None
      case Some(t) => Prepend([t], ReadTiles(lines[next..]))
  {
    var l := lines[pos..];
    assert l[0] == lines[pos] && l[1..] == lines[pos + 1..];
    var b := FirstBlank(l[1..]);
    assert (if b < |l[1..]| then l[1..][b + 1..] else []) == lines[next..] by {
      if b < |l[1..]| {
        assert l[1..][b + 1..] == lines[pos + 1 + b + 1..];
      }
    }
    ReadTilesHeader(l, id, data, lines[next..]);
  }

  /** The loop's step on a header line, over the remaining input `l`. */
  lemma ReadTilesHeader(l: seq<string>, id: nat, data: seq<seq<char>>, more: seq<string>)
    requires |l| > 0 && l[0] != "" && HeaderId(l[0]) == Some(id)
    requires data == l[1..][..FirstBlank(l[1..])]
    requires more == if FirstBlank(l[1..]) < |l[1..]| then l[1..][FirstBlank(l[1..]) + 1..] else []
    ensures ReadTiles(l) ==
      match NewTile(id, data)
      case None => None
      case Some(t) => Prepend([t], ReadTiles(more))
  {
  }

  /** `tiles` in front of the tiles read by the rest of the loop, if it
      succeeds. */
  function Prepend(tiles: seq<Tile>, rest: Option<seq<Tile>>): Option<seq<Tile>>
  {
    match rest
    case None => None
    case Some(ts) => Some(tiles + ts)
  }

  lemma PrependNone(rest: Option<seq<Tile>>)
    ensures Prepend([], rest) == rest
  {
    if rest.Some? {
      assert [] + rest.value == rest.value;
    }
  }

  lemma PrependTile(tiles: seq<Tile>, t: Tile, rest: Option<seq<Tile>>)
    ensures Prepend(tiles, Prepend([t], rest)) == Prepend(tiles + [t], rest)
  {
    if rest.Some? {
      assert tiles + ([t] + rest.value) == tiles + [t] + rest.value;
    }
  }

  /** `read_data` (main.rs:93-124): the outer loop reads a header and then
      the rows of its tile, until a blank line or the end of the input. */
  method ReadData(lines: seq<string>) returns (r: Option<seq<Tile>>)
    ensures r == ReadTiles(lines)
  {
    var tiles: seq<Tile> := [];
    var pos := 0;
    assert lines[pos..] == lines;
    PrependNone(ReadTiles(lines));
    while pos < |lines|
      invariant 0 <= pos <= |lines|
      invariant ReadTiles(lines) == Prepend(tiles, ReadTiles(lines[pos..]))
      decreases |lines| - pos
    {
      var line := lines[pos];
      if line == "" {
        assert tiles + [] == tiles;
        return Some(tiles);
      }
      var header := HeaderId(line);
      if header.None? {
        return None;
      }
      var data, next := ReadRows(lines, pos + 1);
      ReadTilesBlock(lines, pos, header.value, data, next);
      var tile := NewTile(header.value, data);
      if tile.None? {
        return None;
      }
      PrependTile(tiles, tile.value, ReadTiles(lines[next..]));
      tiles := tiles + [tile.value];
      pos := next;
    }
    assert tiles + [] == tiles;
    r := Some(tiles);
  }

  lemma FirstBlankIs(lines: seq<string>, b: nat)
    requires b <= |lines|
    requires forall k | 0 <= k < b :: lines[k] != ""
    requires b < |lines| ==> lines[b] == ""
    ensures FirstBlank(lines) == b
    decreases b
  {
    if b > 0 {
      FirstBlankIs(lines[1..], b - 1);
    }
  }
}
