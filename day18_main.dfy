/** Day 18 (main.rs): the sum of the values of the homework's lines, read
    with the same precedence for all operators (part one) or with `+` and
    `-` before `*` and `/` (part two). */
module Day18 {
  import opened Common
  import opened Day18Syntax
  import Day18Same
  import Day18Rev

  /** `solve_part_one` (main.rs:11-20): the sum of the lines' values; a
      line that panics ends the program, modelled as `None`. */
  function SolvePartOne(data: seq<string>): (r: Option<int>)
    ensures r.None? <==> exists k | 0 <= k < |data| :: Day18Same.Parse(data[k]).None?
  {
    SumOfLines(data, Day18Same.Parse)
  }

  /** `solve_part_two` (main.rs:22-31): the same with the reversed
      precedence. */
  function SolvePartTwo(data: seq<string>): (r: Option<int>)
    ensures r.None? <==> exists k | 0 <= k < |data| :: Day18Rev.Parse(data[k]).None?
  {
    SumOfLines(data, Day18Rev.Parse)
  }

  /** The sum of the values `parse` gives the lines, or `None` when one of
      them panics. */
  function SumOfLines(data: seq<string>, parse: string -> Option<int>): (r: Option<int>)
    ensures r.None? <==> exists k | 0 <= k < |data| :: parse(data[k]).None?
  {
    match ParseEach(data, parse)
    case None => None
    case Some(values) => Some(Sum(values))
  }

  /** The sum of the values of some trees, or `None` when one of them
      divides by zero. */
  function TreeSum(es: seq<Expr>): Option<int>
  {
    if |es| == 0 then Some(0)
    else
      var init := TreeSum(es[..|es| - 1]);
      var last := Eval(es[|es| - 1]);
      if init.None? || last.None? then None else Some(init.value + last.value)
  }

  /** Each tree written one per line in part one's format. */
  function SameLines(es: seq<Expr>): (lines: seq<string>)
    ensures |lines| == |es|
  {
    seq(|es|, k requires 0 <= k < |es| => Day18Same.Render(es[k]))
  }

  /** Each tree written one per line in part two's format. */
  function RevLines(es: seq<Expr>): (lines: seq<string>)
    ensures |lines| == |es|
  {
    seq(|es|, k requires 0 <= k < |es| => Day18Rev.Text(es[k]))
  }

  /** Part one sums the values of the trees its lines are the text of. */
  lemma {:induction false} SolvePartOneOfTrees(es: seq<Expr>)
    requires forall k | 0 <= k < |es| :: Literals(es[k])
    ensures SolvePartOne(SameLines(es)) == TreeSum(es)
  {
    if |es| > 0 {
      var init := es[..|es| - 1];
      var last := es[|es| - 1];
      assert SameLines(es) == SameLines(init) + [Day18Same.Render(last)];
      SolvePartOneOfTrees(init);
      Day18Same.ParseRender(last);
      SumOfLinesAppend(SameLines(init), Day18Same.Render(last), Day18Same.Parse);
    }
  }

  /** Part two sums the values of the trees its lines are the text of. */
  lemma {:induction false} SolvePartTwoOfTrees(es: seq<Expr>)
    requires forall k | 0 <= k < |es| :: Literals(es[k])
    ensures SolvePartTwo(RevLines(es)) == TreeSum(es)
  {
    if |es| > 0 {
      var init := es[..|es| - 1];
      var last := es[|es| - 1];
      assert RevLines(es) == RevLines(init) + [Day18Rev.Text(last)];
      SolvePartTwoOfTrees(init);
      Day18Rev.ParseText(last);
      SumOfLinesAppend(RevLines(init), Day18Rev.Text(last), Day18Rev.Parse);
    }
  }

  /** One more line adds its value to the sum. */
  lemma SumOfLinesAppend(lines: seq<string>, line: string, parse: string -> Option<int>)
    ensures var before := SumOfLines(lines, parse);
      SumOfLines(lines + [line], parse) ==
        if before.None? || parse(line).None? then None else Some(before.value + parse(line).value)
  {
    assert (lines + [line])[..|lines|] == lines;
    var after := ParseEach(lines + [line], parse);
    if after.Some? {
      var values := after.value;
      assert values[..|lines|] == ParseEach(lines, parse).value;
      assert values == values[..|lines|] + [values[|lines|]];
    }
  }
}
