/** Day 20, tiles: a square of `.`/`#` characters with its four borders, each
    read in two directions. A border read clockwise around the tile is its
    inner side; read counter-clockwise it is its outer side, which is how a
    neighbour in the same orientation sees it. */
module Day20Tile {
  import opened Common

  /** `Side` and `Direction` (side.rs). */
  datatype Side = Top | Bot | Left | Right

  datatype Direction = Inner | Outer

  /** `Tile` (tile.rs:6-17): its id, its rows and the eight border vectors
      computed once by `Tile::new`. */
  datatype Tile = Tile(
    id: nat,
    data: seq<seq<char>>,
    topInner: seq<char>,
    botInner: seq<char>,
    leftInner: seq<char>,
    rightInner: seq<char>,
    topOuter: seq<char>,
    botOuter: seq<char>,
    leftOuter: seq<char>,
    rightOuter: seq<char>)

  function Reverse<T>(s: seq<T>): (r: seq<T>)
    ensures |r| == |s| && forall k | 0 <= k < |s| :: r[k] == s[|s| - 1 - k]
  {
    seq(|s|, k requires 0 <= k < |s| => s[|s| - 1 - k])
  }

  lemma ReverseReverse<T>(s: seq<T>)
    ensures Reverse(Reverse(s)) == s
  {
  }

  /** The first character of each row, top to bottom. */
  function FirstColumn(data: seq<seq<char>>): (c: seq<char>)
    requires forall k | 0 <= k < |data| :: |data[k]| > 0
    ensures |c| == |data| && forall k | 0 <= k < |data| :: c[k] == data[k][0]
  {
    seq(|data|, k requires 0 <= k < |data| => data[k][0])
  }

  /** The last character of each row, top to bottom. */
  function LastColumn(data: seq<seq<char>>): (c: seq<char>)
    requires forall k | 0 <= k < |data| :: |data[k]| > 0
    ensures |c| == |data| && forall k | 0 <= k < |data| :: c[k] == data[k][|data[k]| - 1]
  {
    seq(|data|, k requires 0 <= k < |data| => data[k][|data[k]| - 1])
  }

  /** `Tile::new` (tile.rs:20-50). The `unwrap`s on the first row and on the
      first and last character of each row panic on an empty tile or an empty
      row, modelled as `None`. */
  function NewTile(id: nat, data: seq<seq<char>>): (r: Option<Tile>)
    ensures r.Some? <==> |data| > 0 && forall k | 0 <= k < |data| :: |data[k]| > 0
    ensures r.Some? ==> r.value.id == id && r.value.data == data
  {
    if |data| == 0 || exists k | 0 <= k < |data| :: |data[k]| == 0 then None
    else
      var top := data[0];
      var bot := data[|data| - 1];
      var left := FirstColumn(data);
      var right := LastColumn(data);
      Some(Tile(id, data, top, Reverse(bot), Reverse(left), right, Reverse(top), bot, left, Reverse(right)))
  }

  /** `data_on_inner_side` (tile.rs:66-74). */
  function InnerSide(t: Tile, side: Side): seq<char>
  {
    match side
    case Top => t.topInner
    case Bot => t.botInner
    case Left => t.leftInner
    case Right => t.rightInner
  }

  /** `data_on_outer_side` (tile.rs:75-83). */
  function OuterSide(t: Tile, side: Side): seq<char>
  {
    match side
    case Top => t.topOuter
    case Bot => t.botOuter
    case Left => t.leftOuter
    case Right => t.rightOuter
  }

  /** `data_on_side` (tile.rs:58-64). */
  function DataOnSide(t: Tile, side: Side, dir: Direction): seq<char>
  {
    match dir
    case Inner => InnerSide(t, side)
    case Outer => OuterSide(t, side)
  }

  /** The border of `data` on `side`, read clockwise: the top row left to
      right, the right column top to bottom, the bottom row right to left,
      the left column bottom to top. */
  function Clockwise(data: seq<seq<char>>, side: Side): seq<char>
    requires |data| > 0 && forall k | 0 <= k < |data| :: |data[k]| > 0
  {
    match side
    case Top => data[0]
    case Right => LastColumn(data)
    case Bot => Reverse(data[|data| - 1])
    case Left => Reverse(FirstColumn(data))
  }

  /** The sides of a new tile: each inner side is the border read clockwise,
      and each outer side is that border reversed. */
  lemma NewTileSides(id: nat, data: seq<seq<char>>, side: Side)
    requires NewTile(id, data).Some?
    ensures DataOnSide(NewTile(id, data).value, side, Inner) == Clockwise(data, side)
    ensures DataOnSide(NewTile(id, data).value, side, Outer) == Reverse(Clockwise(data, side))
  {
    ReverseReverse(data[|data| - 1]);
    ReverseReverse(FirstColumn(data));
  }

  /** The tile of the unit tests (tile.rs:131-142). */
  const SampleRows: seq<string> := [
    "..##.#..#.",
    "##..#.....",
    "#...##..#.",
    "####.#...#",
    "##.##.###.",
    "##...#.###",
    ".#.#.#..##",
    "..#....#..",
    "###...#.#.",
    "..###..###"
  ]

  /** The side values checked by `test_sides` (tile.rs:143-147). */
  lemma SampleSides()
    ensures NewTile(0, SampleRows).Some?
    ensures DataOnSide(NewTile(0, SampleRows).value, Top, Inner) == "..##.#..#."
    ensures DataOnSide(NewTile(0, SampleRows).value, Bot, Outer) == "..###..###"
    ensures DataOnSide(NewTile(0, SampleRows).value, Left, Outer) == ".#####..#."
    ensures DataOnSide(NewTile(0, SampleRows).value, Right, Inner) == "...#.##..#"
  {
    var rows := SampleRows;
    assert |rows| == 10;
    assert forall k | 0 <= k < 10 :: |rows[k]| == 10;
    var left := FirstColumn(rows);
    assert left == ".#####..#.";
    var right := LastColumn(rows);
    assert right == "...#.##..#";
  }

  /** The lines `Display` writes (tile.rs:111-120): a `Tile {id}:` header,
      then the rows. */
  function DisplayLines(t: Tile): seq<string>
  {
    ["Tile " + Decimal(t.id) + ":"] + t.data
  }

  /** `Display for Tile` (tile.rs:111-120): every line followed by a
      newline. */
  function Display(t: Tile): (s: string)
  {
    Terminated(DisplayLines(t))
  }

  /** Each line followed by a newline. */
  function Terminated(lines: seq<string>): string
  {
    if |lines| == 0 then "" else Terminated(lines[..|lines| - 1]) + lines[|lines| - 1] + "\n"
  }

  lemma {:induction false} TerminatedIsJoin(lines: seq<string>)
    ensures Terminated(lines) == Join(lines + [""], "\n")
  {
    if |lines| > 0 {
      var init := lines[..|lines| - 1];
      TerminatedIsJoin(init);
      assert (lines + [""])[..|lines|] == lines;
      assert (init + [""])[..|init|] == init;
      if |init| == 0 {
        assert Terminated(init) == "";
        assert Join(init + [""], "\n") == "";
        assert Join(lines, "\n") == lines[0];
      } else {
        assert init + [lines[|lines| - 1]] == lines;
      }
    }
  }

  /** The written tile splits at its newlines into the header, the rows and
      the empty remainder after the last newline. */
  lemma DisplaySplits(t: Tile)
    requires forall k | 0 <= k < |t.data| :: '\n' !in t.data[k]
    ensures Split(Display(t), '\n') == DisplayLines(t) + [""]
  {
    var lines := DisplayLines(t);
    TerminatedIsJoin(lines);
    assert '\n' !in Decimal(t.id) by {
      assert AllDigits(Decimal(t.id));
    }
    assert forall k | 0 <= k < |lines + [""]| :: '\n' !in (lines + [""])[k] by {
      forall k | 0 <= k < |lines + [""]|
        ensures '\n' !in (lines + [""])[k]
      {
        if k == 0 {
          assert lines[0] == "Tile " + Decimal(t.id) + ":";
        } else if k < |lines| {
          assert lines[k] == t.data[k - 1];
        }
      }
    }
    SplitJoin(lines + [""], '\n');
  }
}
