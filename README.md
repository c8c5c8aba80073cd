# Advent of Code 2020 solutions, modelled in Dafny

This project models the solutions to the 2020 Advent of Code puzzles in a
Rust repository. It covers days 1 to 6 and 8 to 20. Each source file has one
Dafny module. The model works on lines that have already been read. Most
panics of the program become a `None` or `Err` result; the few kept as
preconditions instead are named under "Left out". One
`Common` module holds what the days share: option and result types, ASCII
character classes, decimal numerals, splitting lines into blank-separated
paragraphs, and sums and products.

- **Day 1** (`Day01`): the nested loops that look for the first pair and the
  first triple of entries summing to 2020.
- **Day 2** (`Day02`): the password-policy line pattern, a leftmost,
  unanchored regex search, and both validity rules with their counts.
- **Day 3** (`Day03`): the tree map and the per-slope walk with its
  wrapping column, plus the product over the five slopes.
- **Day 4** (`Day04`): passport records read from paragraphs of `key:value`
  items, the simple field check, and the ordered complex validation with
  its first failure.
- **Day 5** (`Day05`): boarding passes as 10-bit binary numbers, with the
  decoding proved inverse to encoding, and the scan for the missing seat.
- **Day 6** (`Day06`): the per-group union and intersection of answers, and
  their totals.
- **Day 8** (`Day08`): the handheld console's instructions, the run that
  stops at the first repeated instruction or past the end, and the repair
  that flips one `jmp`/`nop`.
- **Day 9** (`Day09`): the first number that is not a sum of two different
  numbers of the 25 before it, and the contiguous range that sums to it.
- **Day 10** (`Day10`): the adapter chain in sorted order, its joltage
  differences, and the count of arrangements by path weights.
- **Day 11** (`Day11`): the seat grid, both round rules (adjacent and
  first-visible seats), and the loop that runs rounds until nothing changes.
- **Day 12** (`Day12`): the navigation actions, quarter-turn rotations and
  both ship evaluations.
- **Day 13** (`Day13`): the bus schedule, the remainder fix-up, the modular
  inverse from an extended gcd, and the Chinese-remainder construction of
  part two.
- **Day 14** (`Day14`): the bit masks on 36-bit values, and both memory
  writers, including the floating-address powerset of part two.
- **Day 15** (`Day15`): the memory game as a class whose map of last turns
  is updated in place, proved against a reference game sequence.
- **Day 16** (`Day16`): the ticket notes, the scanning error rate, and the
  loop that assigns fields to positions.
- **Day 17** (`Day17`): the 80 neighbour offsets in four dimensions, one
  step of the cube automaton, and six steps from the starting slice.
- **Day 18** (`Day18`, `Day18Syntax`, `Day18Same`, `Day18Rev`): the two
  expression parsers. One gives all operators one precedence. The other
  makes `+`/`-` bind tighter than `*`/`/`. Both are proved to read back the
  value of any expression tree written in their syntax.
- **Day 19** (`Day19Rule`, `Day19Parser`, `Day19Main`): the grammar-to-regex
  compiler with its shared cache, proved equal to a cache-free reference
  translation, together with the rule-line parser and its round trip, and
  the cache seeding of part two.
- **Day 20** (`Day20Tile`, `Day20`): tile sides in both reading directions,
  the search for matching sides, the corner product and the reading of the
  tiles.

## Model

| member | source | states |
|---|---|---|
| Day01.ParseI32 | day01/src/main.rs:11 | a line that parses as an `i32` yields a value within -2^31 .. 2^31-1; anything else is the panic, `None` |
| Day01.ParseRender | day01/src/main.rs:11 | every `i32` reads back from its decimal text |
| Day01.FindPair | day01/src/main.rs:15-26 | the result is the first pair of positions i < j, in loop order, whose entries sum to 2020, with the product of those entries; no earlier pair sums to 2020; `None` exactly when no pair does |
| Day01.FindTriple | day01/src/main.rs:30-44 | the first triple of positions i < j < k, in loop order, whose entries sum to 2020, with their product; no earlier triple sums to 2020; `None` exactly when no triple does |
| Day01.Solve | day01/src/main.rs:6-47 | the program panics exactly when some line is not an `i32`; otherwise each part reports nothing exactly when no pair (triple) sums to 2020, and a reported pair (triple) is the first in loop order that sums to 2020, with the product of its entries |
| Day02.SpaceRun | day02/src/main.rs:27 | the length of the longest leading run of whitespace (`\s+`): every character before it is whitespace and the next is not |
| Day02.WordRun | day02/src/main.rs:27 | the length of the longest leading run of word characters (`\w+`), maximal in the same sense |
| Day02.MatchHere | day02/src/main.rs:27 | a match of `(\d+)-(\d+)\s+(\w):\s+(\w+)` at a position starts with a digit |
| Day02.MatchShape | day02/src/main.rs:27 | every match captures two non-empty digit runs, one word character and a non-empty word |
| Day02.Matches | day02/src/main.rs:27-29 | the regex is tried at every position of the line, end included |
| Day02.Search | day02/src/main.rs:29 | `captures` returns the leftmost position that matches, nothing before it matches, and there is no match exactly when no position matches |
| Day02.MatchRender | day02/src/main.rs:27 | the regex matches the text of a well-formed item at its start and captures its four parts |
| Day02.ParseItem | day02/src/main.rs:25-38 | a parsed item has both bounds below the `usize` limit; a line fails (the `unwrap` panics) only when the regex finds no match or a bound overflows `usize` |
| Day02.ParseRender | day02/src/main.rs:25-38 | every well-formed item reads back from its `min-max letter: password` text |
| Day02.ParseAfterText | day02/src/main.rs:27-29 | the regex is not anchored: text without digits before an item is skipped |
| Day02.CountIsMultiplicity | day02/src/main.rs:44 | counting the letter in the password is its multiplicity in the password's multiset |
| Day02.ValidFirstIff | day02/src/main.rs:42-46 | the first policy holds exactly when min <= occurrences of the letter <= max |
| Day02.IsValidSecond | day02/src/main.rs:48-61 | the second policy panics (`i - 1` underflows) exactly when both positions are within the password and one of them is 0 |
| Day02.ValidSecondIff | day02/src/main.rs:48-61 | the second policy holds exactly when both 1-based positions lie in the password, differ, and exactly one of them holds the letter |
| Day02.SamePositionNeverValid | day02/src/main.rs:60 | with equal positions the exclusive or is never true |
| Day02.CountValidIndices | day02/src/main.rs:72 | `filter(..).count()` is the number of items that pass the policy |
| Day02.SolvePartOne | day02/src/main.rs:64-74 | part one panics exactly when some line does not parse |
| Day02.SolvePartTwo | day02/src/main.rs:76-78 | part two answers only when every line parses and no item makes the second policy panic |
| Day02.ParseLines | day02/src/main.rs:66-70 | every line of a rendered list of items reads back to its item |
| Day02.SolvePartOneOf | day02/src/main.rs:72 | on lines that parse to a list of items, part one is the number of items valid under the first policy |
| Day02.SolvePartTwoOf | day02/src/main.rs:76 | on lines that parse and never panic, part two is the number of items valid under the second policy |
| Day02.SolvePartOneCounts | day02/src/main.rs:64-74 | on the rendered text of well-formed items, part one counts the positions whose item satisfies the first policy |
| Day02.SolvePartTwoCounts | day02/src/main.rs:76-78 | on the rendered text of well-formed items with positive positions, part two counts the positions whose item satisfies the second policy |
| Day03.NewLocation | day03/src/main.rs:22-28 | exactly `.` and `#` are accepted, `#` is the tree, and any other character is the error, carrying that character |
| Day03.ParseLine | day03/src/main.rs:34-37 | a parsed line has one square per character, each as `Location::new` reads it; a failure carries the first bad character, all characters before it being good |
| Day03.ParseRenderLine | day03/src/main.rs:34-37 | every row of squares reads back from its text |
| Day03.ParseMap | day03/src/main.rs:42-46 | the map is rejected (the `unwrap` panics) exactly when some line holds a bad character |
| Day03.CountTreesVisits | day03/src/main.rs:56-66 | the count of the slope loop equals the count over its visits, the k-th visit being to row k * down at column k * right (wrapping around the row) |
| Day03.VisitsLeave | day03/src/main.rs:58 | `step_by(down)` visits exactly the rows below the map's height: the next visit would be past the last row |
| Day03.TreesBound | day03/src/main.rs:56-66 | a slope never counts more trees than it makes visits |
| Day03.CountTrees | day03/src/main.rs:56-66 | the loop's count is the trees met walking the slope from the top-left square; an empty row visited is the division by zero, `None` |
| Day03.ProductNoneStays | day03/src/main.rs:53-73 | once one slope has panicked, the product over the slopes panics |
| Day03.Solve | day03/src/main.rs:40-77 | the result is the product over the five slopes (1,1), (3,1), (5,1), (7,1), (1,2) of the trees each meets, or `None` when parsing or a visit panics |
| Day04.CheckYear | day04/src/main.rs:71-82 | a year field passes exactly when it is present, is four digits (`^(\d{4})$`) and its value lies in the inclusive range; the same check serves `byr`, `iyr` and `eyr` (lines 85-110) |
| Day04.CheckHeight | day04/src/main.rs:115-137 | the height passes exactly when it is present, is digits followed by `cm` or `in`, and the number lies in 150..=193 for `cm` or 59..=76 for `in` |
| Day04.CheckPattern | day04/src/main.rs:140-164 | `hcl`, `ecl` and `pid` pass exactly when present and matching their pattern |
| Day04.FirstFailure | day04/src/main.rs:69-170 | the early returns: `Valid` exactly when every check passes, otherwise the error of the first failing check, all earlier ones passing |
| Day04.ValidateComplex | day04/src/main.rs:69-170 | `Valid` exactly when every required field is present and well formed; otherwise the error of the first failing check in the order byr, iyr, eyr, hgt, hcl, ecl, pid |
| Day04.ComplexImpliesSimple | day04/src/main.rs:58-67 | a passport valid under the complex check is valid under the simple one |
| Day04.MissingFieldReported | day04/src/main.rs:94-96 | a good birth year and a missing issue year are reported as `FieldIsNone("iyr")` |
| Day04.BirthYearFirst | day04/src/main.rs:71-82 | a failing birth year is the reported error whatever the other fields hold |
| Day04.HeightCmOutOfRange | day04/src/main.rs:120-124 | with the years good, `149cm` is `HeightCmIsNotInRange` |
| Day04.CountSimple | day04/src/main.rs:250 | the simple count is the number of positions whose passport has every required field, and so at most the number of passports |
| Day04.CountComplex | day04/src/main.rs:258 | the complex count is at most the number of passports |
| Day04.CountComplexPositions | day04/src/main.rs:258 | the complex count is the number of positions whose passport passes every field check |
| Day04.ComplexCountBounded | day04/src/main.rs:250-263 | the complex count never exceeds the simple count |
| Day04.SetField | day04/src/main.rs:197-207 | a key is stored exactly when it is one of the eight field names; any other key is `Bad key` |
| Day04.ApplyItem | day04/src/main.rs:194-207 | an item fails exactly when it has no `:` or its key is unknown |
| Day04.ApplyItemsFails | day04/src/main.rs:193-208 | reading a line fails exactly when one of its items is bad |
| Day04.ApplyItemsFirstBad | day04/src/main.rs:193-208 | a failure reports the first bad item's error |
| Day04.RepeatedKeyOverwrites | day04/src/main.rs:198 | a key given twice keeps the later value |
| Day04.ApplyLine | day04/src/main.rs:192-208 | the item loop applies the whitespace-separated items of the line left to right, stopping at the first bad one |
| Day04.ReadLine | day04/src/main.rs:185-209 | one turn of the record loop is the line step: a blank line pushes the open passport, any other line fills in the open passport (a blank one when none is open) or fails with the first bad item |
| Day04.ReadPassports | day04/src/main.rs:181-216 | the record loop yields the passports of the input, the last one included, or the first format error |
| Day04.ReadLinesStops | day04/src/main.rs:196-206 | after the first error (`?`) reading stops: the whole input yields that error |
| Day04.ApplyItemsAppend | day04/src/main.rs:193-208 | applying two runs of items is applying the first, then the second to its result |
| Day04.ReadLinesParagraphs | day04/src/main.rs:184-216 | the loop keeps the passports done so far and the open one in step with the blank-line separated paragraphs of the lines read |
| Day04.PassportsAreParagraphs | day04/src/main.rs:181-216 | there is one passport per paragraph, each the result of applying that paragraph's items to a blank passport |
| Day04.ReadFailsOnBadItem | day04/src/main.rs:181-216 | reading fails exactly when some line holds a bad item |
| Day05.Bit | day05/src/main.rs:16-19 | a character is a bit exactly when it is one of the two letters of its half, and it is 1 exactly for `B` (`R`) |
| Day05.BitsOf | day05/src/main.rs:14-29 | the bits of a code are its characters read one by one; the code is rejected exactly when some character is not one of the two letters |
| Day05.WeightedBound | day05/src/main.rs:14-29 | a code of n bits is worth less than 2^n |
| Day05.Encode | day05/src/main.rs:14-29 | the code of a number has the requested width |
| Day05.DecodeEncode | day05/src/main.rs:14-29 | every number below 2^width reads back from its code: the `1 << i` sum is binary notation, most significant letter first |
| Day05.EncodeDecode | day05/src/main.rs:14-29 | every readable code is the code of its value: the code and the number determine each other |
| Day05.ParseSeat | day05/src/main.rs:11-31 | a line is accepted exactly when it has 10 characters, the first seven `B`/`F` and the last three `R`/`L`; anything else panics, `None` |
| Day05.SeatBounds | day05/src/main.rs:14-33 | the row is below 128, the column below 8, the id below 1024 |
| Day05.SeatIdIsBinary | day05/src/main.rs:33 | `row * 8 + col` is the ten letters read as one binary number |
| Day05.Pass | day05/src/main.rs:11-31 | the boarding pass of an id is a 10-character line |
| Day05.ParsePass | day05/src/main.rs:11-33 | every id below 1024 is the id of its pass, with row id / 8 and column id % 8 |
| Day05.PassOfSeatId | day05/src/main.rs:11-33 | every valid line is the pass of its own id: passes and ids correspond one to one |
| Day05.FindMissing | day05/src/main.rs:39-44 | the reported id lies in min..max, is absent, and every id before it in that range is present; nothing is reported exactly when no id in min..max is missing |
| Day05.Solve | day05/src/main.rs:6-47 | the program panics exactly when the input is empty (`min().unwrap()`) or a line is not a pass; otherwise it reports the least and greatest id and the first missing id between them |
| Day06.Chars | day06/src/main.rs:28 | the set of a line's characters holds exactly the characters that occur in it |
| Day06.ReadGroups | day06/src/main.rs:17-50 | the line loop, with the final push, yields the groups of the input |
| Day06.GroupsAreParagraphs | day06/src/main.rs:17-50 | there is one group per paragraph of non-empty lines (blank lines separate paragraphs, and runs of them make no empty group); each group is built from its paragraph |
| Day06.ReadLinesParagraphs | day06/src/main.rs:20-44 | after any prefix of the lines, the pushed groups and the open group are those of the paragraphs read so far |
| Day06.GroupOfMeaning | day06/src/main.rs:28-41 | a group's union holds exactly the questions someone in the group answered, its intersection exactly those everyone answered, and the intersection lies inside the union |
| Day06.TotalsOrdered | day06/src/main.rs:56-57 | the intersection total never exceeds the union total |
| Day06.TotalsOrderedOf | day06/src/main.rs:56-57 | summing per-group sizes keeps each group's ordering |
| Day08.ParseSigned | day08/src/main.rs:27 | a parsed argument is within the `i32` range; out-of-range text is the `?` error |
| Day08.ParseInstruction | day08/src/main.rs:21-34 | an accepted line is `acc`, `jmp` or `nop`, a space, a sign and digits, the opcode decides the variant and the argument is an `i32` |
| Day08.ParseSignedSigned | day08/src/main.rs:27 | every `i32` reads back from its signed text |
| Day08.ParseRenderInstruction | day08/src/main.rs:21-34 | every instruction reads back from its text |
| Day08.AsI32 | day08/src/main.rs:58 | `pointer as i32` lands in the `i32` range and keeps every pointer below 2^31 |
| Day08.AsUsize | day08/src/main.rs:58 | `as usize` keeps a non-negative target and sends a negative one past 2^64 - 2^31, far outside any program |
| Day08.Eval | day08/src/main.rs:51-64 | `acc` adds its argument and advances (an `i32` overflow panics); `nop` advances; `jmp` leaves the accumulator and moves the instruction pointer by its argument, a negative target wrapping to a huge index |
| Day08.Explore | day08/src/main.rs:72-87 | a `Terminates` outcome has its pointer past the program, a `Loops` outcome inside it |
| Day08.ExploreIsExecution | day08/src/main.rs:72-87 | the reported state is reached by running the program step by step, and for `Loops` its instruction was already run: the run really repeats |
| Day08.RunWithinLength | day08/src/main.rs:67-88 | from the start state the outcome is reached within as many steps as the program has instructions |
| Day08.NegativeJumpTerminates | day08/src/main.rs:58-81 | a first instruction `jmp -n` wraps the instruction pointer to 2^64 - n and the run terminates there |
| Day08.FindInfiniteLoop | day08/src/main.rs:67-88 | the flag-array loop gives the outcome of the reference run from pointer 0 and accumulator 0; an empty program panics (`visited[0]`) |
| Day08.Flip | day08/src/main.rs:119-125 | `jmp` and `nop` swap, keeping their argument, `acc` is not mutated, and every other instruction stays |
| Day08.SearchFrom | day08/src/main.rs:117-135 | a found index is the first from which flipping a `jmp`/`nop` makes the program terminate, every earlier flip looping; `NotFound` means every flip loops |
| Day08.Repair | day08/src/main.rs:103-135 | `main` panics unless the original program loops; then it reports the first flip that terminates |
| Day08.ParseProgram | day08/src/main.rs:92-96 | the program panics exactly when some line is not an instruction; otherwise there is one instruction per line, in order |
| Day09.CheckFirstIff | day09/src/main.rs:10-17 | `check_first` holds exactly when two positions of the window hold different numbers adding up to x |
| Day09.AnyPairIff | day09/src/main.rs:12-16 | the scan over the pairs from a first position on finds a pair exactly when one exists there |
| Day09.AnyPartnerIff | day09/src/main.rs:12-16 | the scan over the partners of one position finds a partner exactly when one exists |
| Day09.CopiesHaveNoPair | day09/src/main.rs:15 | a window of equal numbers never validates: `a != b` rules out a number paired with its copy |
| Day09.FindInvalid | day09/src/main.rs:19-27 | the result is the first position from 25 on whose number is not the sum of two different numbers among the 25 before it, with that number; every earlier position is valid; `None` (the `Not found` panic) exactly when every position is valid |
| Day09.RunSumGrows | day09/src/main.rs:43-46 | over natural numbers a run's sum only grows as the run is extended |
| Day09.GrowFrom | day09/src/main.rs:41-46 | the inner loop stops inside the data, or runs past its end (the index panics) |
| Day09.GrowFromStops | day09/src/main.rs:41-46 | the inner loop stops at the first end j whose run sum reaches the target; every shorter run falls short |
| Day09.NoRunFrom | day09/src/main.rs:43-47 | when the stopping run overshoots, no run from that start adds up to the target |
| Day09.FindRange | day09/src/main.rs:40-64 | the nested loops give the outcome of the reference search over the starts |
| Day09.FoundIsFirst | day09/src/main.rs:40-64 | a found run of at least two numbers adds up to the target, the answer is its smallest plus largest number, no earlier start has such a run, and no shorter run from its start does |
| Day09.Solve | day09/src/main.rs:29-67 | on parsed input, the first invalid number from position 25 on is reported with its position, and the range search runs for it; `None` means a line is not a `u64` or no number is invalid |
| Day10.Insert | day10/src/main.rs:15 | inserting into a sorted sequence keeps it sorted and adds exactly the one element |
| Day10.Sort | day10/src/main.rs:15-35 | `sort_unstable` yields a sorted permutation of its input |
| Day10.SortedPair | day10/src/main.rs:15 | in a sorted sequence every element is at most every later one |
| Day10.SortedLast | day10/src/main.rs:16 | the last element of a sorted sequence is its largest |
| Day10.Chain | day10/src/main.rs:13-17 | the chain is the adapters plus the outlet and the device |
| Day10.Diffs | day10/src/main.rs:19 | `windows(2)` yields one difference fewer than there are elements |
| Day10.ChainContents | day10/src/main.rs:13-17 | the chain is sorted, holds exactly the adapters, the outlet 0 and the device, and the device is 3 above the largest of the adapters and the outlet |
| Day10.ChainDiffs | day10/src/main.rs:19 | the chain has one difference per adapter plus one, none negative, the last one 3, and they add up to the device's joltage |
| Day10.Telescope | day10/src/main.rs:19 | the differences of consecutive elements add up to the last element minus the first |
| Day10.OnesAndThrees | day10/src/main.rs:22-23 | when every difference is 1 or 3, the 1s and 3s account for all of them and for their sum |
| Day10.SolvePartOne | day10/src/main.rs:12-27 | the differences are those of the chain, and the answer is the count of 1-differences times the count of 3-differences |
| Day10.Adapters | day10/src/main.rs:30-35 | the vertices of part two are a sorted permutation of the adapters, the outlet 0 and the device at the largest adapter plus 3 |
| Day10.SolvePartTwo | day10/src/main.rs:29-57 | the answer exists exactly when the input is non-empty, no joltage repeats, the device is above 0 and the outlet has an edge; it is the number of paths from the outlet to the device along steps of at most 3 |
| Day10.Weigh | day10/src/main.rs:49-55 | after the weights loop every vertex weighs the number of paths from it to the device |
| Day10.Successors | day10/src/main.rs:52 | a vertex's weight is the sum of the weights of the vertices its edges reach |
| Day10.AdaptersLast | day10/src/main.rs:32-35 | when it is above 0, the device is the last vertex |
| Day10.WaysPositiveIff | day10/src/main.rs:40-56 | there is a path from a vertex to the device exactly when no gap from it on is wider than 3 |
| Day11.NewWith | day11/src/main.rs:53-65 | `Grid::new_with` builds a rectangular grid of the given size whose cell (i, j) is f(i, j) |
| Day11.Get | day11/src/main.rs:67-73 | `get` fails exactly past the last row or past the end of the row, and otherwise returns that cell |
| Day11.GetWrapped | day11/src/main.rs:75-81 | a step off the top or left edge wraps through `as usize` to an index the lookup rejects, so the wrapped lookup is the lookup at integer coordinates |
| Day11.NeighborsAdjacent | day11/src/main.rs:75-81 | the eight neighbours, in the order of `DF`, are the cells at the eight offsets, `None` off the grid |
| Day11.DirectionsAreTheEightOffsets | day11/src/main.rs:10-19 | `DF` lists each of the eight non-zero unit offsets exactly once |
| Day11.CountOccupied | day11/src/main.rs:154-170 | the count of occupied neighbours is at most their number, and 0 exactly when none is occupied (the `any` of line 156) |
| Day11.NextRule | day11/src/main.rs:147-216 | floor stays floor and only floor is floor; an empty seat fills exactly when it sees no occupied seat; an occupied seat empties exactly when it sees at least the tolerance of occupied seats |
| Day11.RoundOne | day11/src/main.rs:147-180 | part one's round keeps the grid's shape and updates each cell from its eight adjacent cells with tolerance 4 |
| Day11.RoundOneRule | day11/src/main.rs:147-180 | part one's rule per cell: an empty seat fills exactly when no adjacent cell is occupied, an occupied one empties exactly when four or more are |
| Day11.FirstSeen | day11/src/main.rs:99-107 | the first non-floor cell in a direction is never floor |
| Day11.FirstSeenOnRay | day11/src/main.rs:83-107 | the search returns the cell at some distance n >= 1 along the ray (`None` off the grid), every cell before it being floor |
| Day11.VisibleSeats | day11/src/main.rs:188-205 | a seat looks in eight directions |
| Day11.RoundTwo | day11/src/main.rs:182-216 | part two's round keeps the grid's shape and updates each cell from the first seat visible in each direction with tolerance 5 |
| Day11.RoundTwoRule | day11/src/main.rs:182-216 | part two's rule per cell: an empty seat fills exactly when it sees no occupied seat, an occupied one empties exactly when it sees five or more |
| Day11.Round | day11/src/main.rs:223-226 | each round keeps the grid rectangular and its size |
| Day11.Iterate | day11/src/main.rs:241-267 | any number of rounds keeps the grid rectangular and its size |
| Day11.SameCellsIsEquality | day11/src/main.rs:245-249 | the cell-by-cell stabilisation test is equality of the grids |
| Day11.Solve | day11/src/main.rs:223-269 | the reported round is the first whose grid equals the one before it, and the reported count is the occupied seats of that grid; `None` means no round up to the bound stabilises |
| Day11.ParseRow | day11/src/main.rs:278-285 | a row has one cell per character, `.` floor and `L` empty; any other character is the panic |
| Day11.ParseRows | day11/src/main.rs:277-287 | every line is parsed as a row, in order, and the rows fail exactly when some line fails |
| Day11.ParseGrid | day11/src/main.rs:274-288 | the grid is None exactly when there are no lines or some line holds a character other than `.` and `L`; otherwise row i is line i parsed, the height is the number of lines, the width is the first row's length, and no cell starts occupied |
| Day12.ParseAction | day12/src/main.rs:24-42 | a line is accepted exactly when it is one of `NSEWLRF` followed by digits whose value fits an `i32`; the letter picks the action and the digits give its value |
| Day12.ParseRenderAction | day12/src/main.rs:24-42 | every action with an `i32` value reads back from its text |
| Day12.RotateLeft | day12/src/main.rs:73-80 | a left turn succeeds exactly for 90, 180 and 270 degrees; any other angle panics |
| Day12.RotateRight | day12/src/main.rs:82-89 | a right turn succeeds exactly for 90, 180 and 270 degrees; any other angle panics |
| Day12.RotationsAreQuarterTurns | day12/src/main.rs:73-104 | turning left by a degrees is a/90 counter-clockwise quarter turns, and turning right is 4 - a/90 of them |
| Day12.RotateLeftRight | day12/src/main.rs:73-104 | a right turn undoes a left turn by the same angle, and the other way round |
| Day12.RotationKeepsDistance | day12/src/main.rs:73-104 | turning keeps the waypoint's Manhattan length |
| Day12.Eval1 | day12/src/main.rs:130-147 | in part one, compass actions move the ship, turns keep the ship and the waypoint's length and succeed exactly for the three angles, and `F n` moves the ship n waypoints |
| Day12.Eval2 | day12/src/main.rs:150-167 | in part two, compass actions move the waypoint instead, nothing but `F` moves the ship, and turns and `F` act as in part one |
| Day12.RunAppend | day12/src/main.rs:177-197 | running two lists of actions one after the other is running their concatenation |
| Day12.RunOneKeepsHeadingLength | day12/src/main.rs:170-186 | in part one the waypoint is only a heading: its Manhattan length never changes |
| Day12.Solve | day12/src/main.rs:170-204 | the answer exists exactly when no turn has a bad angle, and it is the Manhattan distance of the ship after all actions from the start (0,0) with waypoint (1,0) or (10,1) |
| Day12.ParseActions | day12/src/main.rs:209-214 | the input is rejected exactly when some line is not an action; otherwise there is one action per line, in order |
| Day13.ModFix | day13/src/main.rs:77-79 | for a positive modulus `((x % m + m) % m) as u64`, with Rust's truncating `%`, is the mathematical remainder of x, also for negative x |
| Day13.ModFixPositive | day13/src/main.rs:78 | the truncating-remainder expression equals the Euclidean remainder for every x and positive m |
| Day13.ExtGcdIsGcd | day13/src/main.rs:61-63 | the extended gcd is a non-negative common divisor, zero only for two zeros, with Bezout coefficients a*x + b*y = gcd |
| Day13.GcdOneIffCoprime | day13/src/main.rs:65 | the gcd is 1 exactly when the two numbers have no common divisor above 1 |
| Day13.ModulusInverse | day13/src/main.rs:59-75 | for a positive modulus a returned inverse is below the modulus and inverts x modulo it |
| Day13.InverseIffCoprime | day13/src/main.rs:59-75 | `modulus_inverse` finds an inverse exactly when x and y are coprime |
| Day13.BezoutInverse | day13/src/main.rs:61-71 | the remainder of the Bezout coefficient of x is an inverse of x modulo y whenever the gcd is 1 |
| Day13.InverseOnlyWhenCoprime | day13/src/main.rs:65-74 | a number with an inverse modulo y is coprime to y, so the `None` branch loses nothing |
| Day13.CoprimeProduct | day13/src/main.rs:110-117 | a product of numbers coprime to n is coprime to n |
| Day13.ParseSchedule | day13/src/main.rs:19-22 | one entry per comma-separated token, a bus id exactly when the token reads as a `u64`; parsing never fails |
| Day13.ParseRenderSchedule | day13/src/main.rs:19-22 | a schedule written with ids and `x` reads back to itself |
| Day13.SumRem | day13/src/main.rs:38-43 | `map(x % m).sum() % m` is the sum modulo m, within 0..m |
| Day13.SumOfRemainders | day13/src/main.rs:42 | reducing each term before summing does not change the sum modulo m |
| Day13.BusesOfSchedule | day13/src/main.rs:102-107 | the buses are exactly the ids of the schedule with their positions, in order of position |
| Day13.Moduli | day13/src/main.rs:108 | the moduli are the bus ids in order |
| Day13.Residue | day13/src/main.rs:112-115 | a bus's residue is (id - position) mod id |
| Day13.TermsOfBuses | day13/src/main.rs:119-125 | the terms exist exactly when every bus has an inverse (`unwrap` never panics), one term per bus |
| Day13.ProductRemove | day13/src/main.rs:117-123 | the product is one modulus times the product of the others, so `product / modulus` is that product |
| Day13.ProductCoprime | day13/src/main.rs:117-124 | a product of moduli each coprime to n is coprime to n, so `m` has an inverse modulo each other modulus |
| Day13.TermsExist | day13/src/main.rs:119-125 | with pairwise coprime moduli no `unwrap` panics |
| Day13.SumOfTermsModulo | day13/src/main.rs:119-126 | the sum of the terms leaves the right residue modulo each bus id: the other terms vanish, the bus's own term is its residue |
| Day13.BusesPairwiseCoprime | day13/src/main.rs:102-108 | pairwise coprime ids in the schedule give pairwise coprime moduli |
| Day13.SolveBusesValue | day13/src/main.rs:110-126 | the construction is the sum of the terms taken modulo the product |
| Day13.SolveBusesCongruence | day13/src/main.rs:101-128 | with pairwise coprime ids the construction yields a time below the product at which every bus leaves its position's minutes later |
| Day13.AllBusesLeave | day13/src/main.rs:119-126 | the reduced sum of the terms satisfies every bus's congruence |
| Day13.SolvePartTwoIsCrt | day13/src/main.rs:101-128 | for a schedule whose ids are positive, fit an `i64` and are pairwise coprime, part two returns t < product at which (t + position) is divisible by each id |
| Day13.SolveCoprimeBuses | day13/src/main.rs:101-128 | the same holds whenever the moduli of the buses are pairwise coprime |
| Day13.ScheduleLeaves | day13/src/main.rs:102-107 | a time that works for the buses works for every id of the schedule at its position |
| Day14.SetBitBits | day14/src/main.rs:76 | or-ing in `1 << i` sets bit i and keeps every other bit |
| Day14.ClearBitBits | day14/src/main.rs:77 | `value &= !(1 << i)` clears bit i and keeps every other bit |
| Day14.BitsDetermine | day14/src/main.rs:73-82 | two numbers with the same bits are equal, so the per-bit statements below determine the values |
| Day14.ApplyMaskBits | day14/src/main.rs:74-80 | after the loop has treated the last i mask elements, the bits below i are as the mask says and the others are untouched |
| Day14.MaskedValueBits | day14/src/main.rs:73-82 | in the masked value each bit under a `1` is set, each under a `0` cleared, each under an `X` or beyond the mask kept |
| Day14.FloatingMaskIsIdentity | day14/src/main.rs:86 | the initial all-`X` mask of part one leaves values unchanged |
| Day14.ApplyMaskToValue | day14/src/main.rs:73-82 | the loop computes the masked value, bit by bit as the mask says |
| Day14.AllFloating | day14/src/main.rs:86 | the initial mask is 36 `X`s |
| Day14.RunOneMask | day14/src/main.rs:88-97 | after the instructions part one's mask is the last `mask` given, or the initial one |
| Day14.LastWriteWins | day14/src/main.rs:93-95 | a cell holds the value of the last `mem` to its address, masked with the mask in force at that instruction |
| Day14.SolvePartOne | day14/src/main.rs:84-101 | the loop builds part one's memory and answers the sum of its values |
| Day14.GetBit | day14/src/main.rs:103-105 | `get_bit` is `One` exactly when the bit is set, and never `Floating` |
| Day14.BitsToNumber | day14/src/main.rs:107-117 | the conversion panics exactly on an `X` and otherwise gives a number below 2^length |
| Day14.BitsToNumberBits | day14/src/main.rs:107-117 | bit n of the number is the n-th bit from the end of the sequence |
| Day14.Masked | day14/src/main.rs:142-150 | under a `0` the masked address has the address bit, elsewhere the mask bit |
| Day14.FloatingPositions | day14/src/main.rs:134-139 | the floating positions are exactly the positions of the `X`s, in increasing order |
| Day14.Powerset | day14/src/main.rs:168-170 | there are 2^k subsets of k floating positions, each made of floating positions |
| Day14.PowersetComplete | day14/src/main.rs:168-170 | every subset of the floating positions is listed |
| Day14.PowersetDistinct | day14/src/main.rs:168-170 | no subset is listed twice |
| Day14.Fill | day14/src/main.rs:171-180 | filling a subset leaves a bit sequence without `X` of the mask's length |
| Day14.AddressBits | day14/src/main.rs:142-183 | each bit of a written address is the address bit under a `0`, set under a `1`, and under an `X` set exactly when that position is in the subset |
| Day14.DistinctSubsetsDistinctAddresses | day14/src/main.rs:168-184 | different subsets write different addresses |
| Day14.OneAddressPerSubset | day14/src/main.rs:168-184 | a `mem` with k floating bits writes 2^k different addresses, one per subset |
| Day14.EveryMatchingAddressWritten | day14/src/main.rs:168-184 | every choice of values for the floating bits is written |
| Day14.WriteSubsetsEffect | day14/src/main.rs:182-185 | after the writes every earlier cell is still there, every written address holds the value, and every other cell is unchanged |
| Day14.WriteFloating | day14/src/main.rs:132-185 | one `mem` instruction of part two writes the value at the address of every subset of the floating positions |
| Day14.SolvePartTwo | day14/src/main.rs:119-192 | part two fails exactly when a `mem` address is not below 2^36 (the assertion); otherwise it builds the reference memory and answers the sum of its values |
| Day14.RunTwoStaysFailed | day14/src/main.rs:130 | a failed assertion ends the program: later instructions do not revive it |
| Day14.BitOf | day14/src/main.rs:53-60 | a mask character converts exactly when it is `X`, `0` or `1` |
| Day14.ParseInstruction | day14/src/main.rs:28-47 | a parsed mask has 36 bits; a parsed `mem` has an address that fits a `usize` and a value that fits a `u64` |
| Day14.ParseRenderInstruction | day14/src/main.rs:28-47 | every well-formed instruction reads back from its text |
| Day14.ParseInstructionText | day14/src/main.rs:28-47 | any other text is an error: an accepted mask line is exactly the text of its 36 bits, and an accepted `mem` line is `mem[a] = v` with two digit runs that read as its address and value |
| Day14.MemTextParses | day14/src/main.rs:40-43 | every `mem[a] = v` line whose two digit runs fit a `u64` is accepted with their values, leading zeros included |
| Day15.LastBefore | day15/src/main.rs:53-57 | the turn found for a number before turn k is below k and was spent on that number |
| Day15.LastBeforeIsLast | day15/src/main.rs:53-57 | nothing is found exactly when the number was not spoken before turn k, and otherwise no later turn before k spoke it |
| Day15.LastBeforePrefix | day15/src/main.rs:53-57 | the lookup before turn k depends only on the first k turns, so extending the game does not change it |
| Day15.Game | day15/src/main.rs:64-71 | the reference game has exactly n turns |
| Day15.GameStartsWithData | day15/src/main.rs:26-35 | the game starts with the starting numbers |
| Day15.SpokenNumbers.StoredTurnsBeforeLast | day15/src/main.rs:40-44 | every stored turn is at least two turns before the current step |
| Day15.SpokenNumbers.WithCapacity | day15/src/main.rs:21-38 | the new state has spoken the starting numbers and its storage is the last turn of each earlier number |
| Day15.SpokenNumbers.Push | day15/src/main.rs:40-44 | the last number is stored at its turn, the value becomes the last and the step advances; the state invariant is kept |
| Day15.SpokenNumbers.Next | day15/src/main.rs:50-61 | the next number is the age of the last number (0 when it is new) and is appended to the game |
| Day15.SpokenNumber | day15/src/main.rs:64-71 | the result is None exactly when the start is empty or n does not lie beyond it (the two `assert!`s); otherwise it is the n-th turn of the reference game |
| Day15.GameNext | day15/src/main.rs:50-61 | each turn after the start appends the age of the previous number |
| Day15.GameStepNew | day15/src/main.rs:53-57 | a number not spoken before is followed by 0 |
| Day15.GameStepSeen | day15/src/main.rs:53-55 | a number last spoken at turn k is followed by the distance back to k |
| Day15.SampleTurnTen | day15/src/main.rs:110-113 | with the start 0, 3, 6 the tenth number is 0 |
| Day16.ParseU32 | day16/src/main.rs:33-36 | a parsed number fits a `u32` |
| Day16.ParseU32Decimal | day16/src/main.rs:33-36 | every `u32` reads back from its decimal text |
| Day16.ParseRule | day16/src/main.rs:29-44 | a parsed rule has a field name of word characters and spaces and four bounds that fit a `u32` |
| Day16.RuleShapeOf | day16/src/main.rs:30 | a line `field: a-b or c-d` matches the rule pattern with exactly those five captures |
| Day16.ParseRenderRule | day16/src/main.rs:29-44 | every well-formed rule reads back from its text |
| Day16.RuleShapeParts | day16/src/main.rs:30-42 | the regex accepts only the rule shape: a matched line is its field name, `: `, and four digit runs joined by `-`, ` or ` and `-` |
| Day16.NoMatchIff | day16/src/main.rs:29-44 | `NoMatch` is reported exactly for lines not of the form `name: a-b or c-d`: a line of that form never gets it, and a line that does not get it has that form |
| Day16.ParseNumbers | day16/src/main.rs:56 | the numbers parse exactly when every piece parses, and then they are the pieces' values in order |
| Day16.DecimalsArePieces | day16/src/main.rs:56 | decimal renderings contain no comma and read back as their numbers |
| Day16.ParseNumbersOf | day16/src/main.rs:56 | pieces that each parse give the sequence of their values |
| Day16.TicketRoundTrip | day16/src/main.rs:55-58 | a ticket of `u32` values reads back from its comma-separated text |
| Day16.EmptyLineIsNoTicket | day16/src/main.rs:55-58 | an empty line is not a ticket (the empty number fails to parse) |
| Day16.Ranges | day16/src/main.rs:62-65 | the ranges are the two ranges of each rule, in rule order |
| Day16.OutsideAllRules | day16/src/main.rs:70 | a value is outside all ranges exactly when no rule contains it |
| Day16.TicketRateZero | day16/src/main.rs:67-71 | a ticket adds nothing to the rate exactly when each of its non-zero values is inside some range |
| Day16.ErrorRateZero | day16/src/main.rs:61-74 | the error rate is zero exactly when every non-zero nearby value is contained in some rule |
| Day16.SampleRanges | day16/src/main.rs:62-65 | the sample rules give the ranges 1-3, 5-7, 6-11, 33-44, 13-40, 45-50 |
| Day16.ThreeValueRate | day16/src/main.rs:67-71 | a three-value ticket adds each value outside all ranges |
| Day16.SampleValidRates | day16/src/main.rs:67-71 | on the sample, tickets 7,3,47 and 40,4,50 add 0 and 4 |
| Day16.SampleInvalidRates | day16/src/main.rs:67-71 | on the sample, tickets 55,2,20 and 38,6,12 add 55 and 12 |
| Day16.SampleErrorRate | day16/src/main.rs:203-214 | the sample's error rate is 71 |
| Day16.ValidTickets | day16/src/main.rs:126-134 | the kept tickets are exactly the nearby tickets whose every value fits some rule, followed by my ticket |
| Day16.Candidates | day16/src/main.rs:95-103 | the possible positions are exactly the unused positions whose value on every ticket the rule contains, in increasing order |
| Day16.SingleCandidate | day16/src/main.rs:105-110 | when there is one possible position, it is the only position that fits |
| Day16.AssignStep | day16/src/main.rs:106-109 | saving the single position keeps the assignment consistent and adds it to the used positions |
| Day16.UsedAfterAssign | day16/src/main.rs:108 | the used positions grow by exactly the new position |
| Day16.AllRulesAssigned | day16/src/main.rs:87 | when the map has as many entries as there are rules, every rule has a value |
| Day16.PassTurn | day16/src/main.rs:89-109 | the turn of one rule steps the pass function by one rule: an unassigned rule with a single candidate takes it and the assignment grows by exactly that entry, staying consistent; otherwise nothing changes |
| Day16.Pass | day16/src/main.rs:88-111 | the loop computes exactly the pass function: each unassigned rule with a single candidate, seeing the positions taken earlier in the pass, takes it; the assignment stays consistent, only grows, and something is found exactly when it grew |
| Day16.PassFromGrows | day16/src/main.rs:88-111 | a pass keeps every assignment it starts from and adds only rules of the list |
| Day16.PassFromStuck | day16/src/main.rs:88-116 | a pass assigns nothing exactly when no unassigned rule has a single candidate, and then it changes nothing |
| Day16.FindFieldValues | day16/src/main.rs:76-123 | the result is the deduction function from the empty assignment; the state reached is always consistent with the tickets; on success every rule has a value; on the "Stale" abort some rule is unassigned and no unassigned rule has a single candidate |
| Day16.DepartureProduct | day16/src/main.rs:138-142 | the product is zero exactly when a departure field's value is zero, and one when there is no departure field |
| Day16.SolvePartTwo | day16/src/main.rs:125-145 | the answer is None exactly when the deduction over the valid tickets and my ticket goes stale, and then no unassigned rule has a single candidate; otherwise it is the departure product of the consistent assignment found |
| Day16.RenderedLayout | day16/src/main.rs:147-171 | the rendered notes are the rule lines, a blank, the two lines of my ticket, a blank, the header and the nearby tickets |
| Day16.ReadRenderedNotes | day16/src/main.rs:147-171 | reading rendered well-formed notes gives back the rules, my ticket and the nearby tickets |
| Day16.RulesRoundTrip | day16/src/main.rs:147-152 | every rendered rule line reads back |
| Day16.TicketsRoundTrip | day16/src/main.rs:166-171 | every rendered nearby ticket reads back |
| Day16.FirstBlankAt | day16/src/main.rs:149 | the rules end at the first empty line |
| Day17.RankDetermines | day17/src/main.rs:71-81 | two offsets with components in -1..1 and the same loop rank are equal |
| Day17.AppendOffset | day17/src/main.rs:75-77 | pushing the current non-zero offset extends the list of offsets built so far, in loop order |
| Day17.SkipZero | day17/src/main.rs:75 | skipping the zero offset keeps the list complete up to the next rank |
| Day17.BuiltAll | day17/src/main.rs:82 | after the four loops the list holds every non-zero offset, 80 of them, in loop order |
| Day17.BuildOffsets | day17/src/main.rs:66-84 | the nested loops build the 80 non-zero offsets of -1..1 in each axis, each once, in loop order |
| Day17.OffsetsUnique | day17/src/main.rs:66-84 | there is only one such list, so the offsets are fully determined |
| Day17.RankSortedUnique | day17/src/main.rs:66-84 | two lists increasing by rank with the same elements are equal |
| Day17.NeighboursExcludeSelf | day17/src/main.rs:48-50 | no neighbour of a point is the point itself |
| Day17.ActiveNeighbours | day17/src/main.rs:94 | the count is at most the number of offsets, and positive exactly when some neighbour is active |
| Day17.NeighbourOfActiveIsCandidate | day17/src/main.rs:88-92 | a point with an active neighbour is among the points the step looks at |
| Day17.StepRule | day17/src/main.rs:86-103 | for every point in space, it is active after a step exactly when it was active with 2 or 3 active neighbours, or inactive with exactly 3 |
| Day17.Solve | day17/src/main.rs:146-173 | the answer is the number of active cubes after six steps from the `#` cells of the grid placed at (row, column, 0, 0) |
| Day17.StateOf | day17/src/main.rs:28-37 | a character converts exactly when it is `.` or `#`, and `#` is the active state |
| Day17.ParseRow | day17/src/main.rs:182 | a line converts exactly when all its characters are `.` or `#`, cell by cell |
| Day17.ParseRenderRow | day17/src/main.rs:182 | every row reads back from its rendering |
| Day17.ParseGrid | day17/src/main.rs:179-183 | the grid converts exactly when every line does, line by line |
| Day18.SumOfLines | day18/src/main.rs:11-20 | the sum of the parsed lines exists exactly when no line panics |
| Day18.SumOfLinesAppend | day18/src/main.rs:12-17 | one more line adds its value to the sum, or makes it panic |
| Day18.SolvePartOne | day18/src/main.rs:11-20 | part one panics exactly when some line fails the same-precedence parse |
| Day18.SolvePartTwo | day18/src/main.rs:22-31 | part two panics exactly when some line fails the reversed-precedence parse |
| Day18.SolvePartOneOfTrees | day18/src/main.rs:11-20 | for lines written from expression trees in left-to-right form, part one is the sum of the trees' values |
| Day18.SolvePartTwoOfTrees | day18/src/main.rs:22-31 | for lines written from trees in the reversed-precedence form, part two is the sum of the trees' values |
| Day18Syntax.Multispace0 | day18/src/parser_same.rs:25 | `multispace0` removes a prefix and leaves text that does not start with whitespace |
| Day18Syntax.Multispace0Skips | day18/src/parser_same.rs:25 | everything `multispace0` removes is whitespace |
| Day18Syntax.NoSpaceFirst | day18/src/parser_same.rs:25 | text that does not start with whitespace is left alone |
| Day18Syntax.SkipSpace | day18/src/parser_same.rs:25 | a space before a non-space character is skipped |
| Day18Syntax.SkipOneSpace | day18/src/parser_same.rs:25 | one leading space makes no difference to `multispace0` |
| Day18Syntax.Trail | day18/src/parser_same.rs:25 | the trailing `multispace0` keeps the parsed value, success and panic, and only shortens the rest |
| Day18Syntax.Close | day18/src/parser_same.rs:17 | the closing parenthesis succeeds only after a successful parse followed by `)`, which it consumes; panics pass through |
| Day18Syntax.Number | day18/src/parser_same.rs:20-22 | `number` never panics and succeeds exactly on a non-empty digit run whose value fits an `i64`, giving that value and the text after the run |
| Day18Syntax.NumberOfDecimal | day18/src/parser_same.rs:20-22 | every `i64` reads back from its decimal text |
| Day18Syntax.CharOp | day18/src/parser_same.rs:35 | an operator character is recognised exactly when it is one of `+-*/` |
| Day18Syntax.CharOpChar | day18/src/parser_same.rs:35 | every operator is recognised from its own character |
| Day18Syntax.Apply | day18/src/parser_same.rs:37-43 | the fold step panics exactly on a division by zero |
| Day18Same.Parens | day18/src/parser_same.rs:16-18 | a parenthesised expression consumes at least one character |
| Day18Same.Primary | day18/src/parser_same.rs:24-26 | a primary consumes at least one character |
| Day18Same.Fold | day18/src/parser_same.rs:34-44 | the fold consumes no more than its input |
| Day18Same.Expr | day18/src/parser_same.rs:32-45 | an expression consumes at least one character |
| Day18Same.Parse | day18/src/parser_same.rs:47-51 | `parse` returns a value exactly when the expression parser succeeds and leaves nothing |
| Day18Same.RenderStart | day18/src/parser_same.rs:24-26 | a rendered expression starts with a digit or `(` |
| Day18Same.AtomParses | day18/src/parser_same.rs:16-26 | a number or parenthesised expression parses to its value (a panic if its evaluation divides by zero) |
| Day18Same.RenderParses | day18/src/parser_same.rs:32-45 | the rendering of any tree parses to the tree's value evaluated left to right |
| Day18Same.PrimaryOfNumber | day18/src/parser_same.rs:20-26 | a decimal number parses as a primary to its value |
| Day18Same.PrimaryOfParens | day18/src/parser_same.rs:16-18 | a parenthesised expression parses to the value of the inner expression |
| Day18Same.PrimaryOfParensText | day18/src/parser_same.rs:16-26 | on `(` the primary is the inner expression followed by `)` and spaces |
| Day18Same.ExprOfOperation | day18/src/parser_same.rs:34-44 | appending an operator and an operand applies the operator to the value so far and the operand's value |
| Day18Same.FoldAfterOperand | day18/src/parser_same.rs:34-44 | one fold step applies the operator to the accumulator and the next primary |
| Day18Same.FoldStops | day18/src/parser_same.rs:34-35 | the fold stops at text not starting with an operator, keeping the accumulator |
| Day18Same.FoldOperator | day18/src/parser_same.rs:34-44 | after an operator the fold stops when no primary follows, panics on a panic or division by zero, and otherwise goes on with the applied value |
| Day18Same.PrimarySkipsSpace | day18/src/parser_same.rs:25 | leading spaces do not change a primary |
| Day18Same.ParseRender | day18/src/parser_same.rs:47-51 | parsing the rendering of a tree gives its left-to-right value |
| Day18Same.TrailingTextPanics | day18/src/parser_same.rs:49-50 | a rendered expression followed by a character that is not a digit, space or operator panics (the `assert!`) |
| Day18Same.SampleOne | day18/src/parser_same.rs:59-60 | `1 + 2 * 3` is 9 |
| Day18Same.SampleTwo | day18/src/parser_same.rs:62-63 | `1 + 2 * 3 + 4 * 5 + 6` is 71 |
| Day18Same.SampleThree | day18/src/parser_same.rs:65-66 | `2 * 3 + (4 * 5)` is 26 |
| Day18Rev.Parens | day18/src/parser_rev.rs:16-18 | a parenthesised expression consumes at least one character |
| Day18Rev.Primary | day18/src/parser_rev.rs:24-30 | a primary consumes at least one character |
| Day18Rev.AddOp | day18/src/parser_rev.rs:35 | `factor`'s operator is recognised exactly on `+` or `-` |
| Day18Rev.MulOp | day18/src/parser_rev.rs:48 | `expr`'s operator is recognised exactly on `*` or `/` |
| Day18Rev.Factor | day18/src/parser_rev.rs:32-43 | a factor consumes at least one character |
| Day18Rev.FoldAdd | day18/src/parser_rev.rs:34-42 | the additive fold consumes no more than its input |
| Day18Rev.Expr | day18/src/parser_rev.rs:45-56 | an expression consumes at least one character |
| Day18Rev.FoldMul | day18/src/parser_rev.rs:47-55 | the multiplicative fold consumes no more than its input |
| Day18Rev.Parse | day18/src/parser_rev.rs:58-62 | `parse` returns a value exactly when the expression parser succeeds and leaves nothing |
| Day18Rev.TermParses | day18/src/parser_rev.rs:24-30 | a term's text parses as a primary to its value |
| Day18Rev.FactorParses | day18/src/parser_rev.rs:32-43 | a factor's text parses to its value, the additions bound first |
| Day18Rev.ExprParses | day18/src/parser_rev.rs:45-56 | the text of any tree parses to the tree's value with `+`/`-` binding tighter than `*`/`/` |
| Day18Rev.ParseText | day18/src/parser_rev.rs:58-62 | parsing the text of a tree gives its value |
| Day18Rev.TrailingTextPanics | day18/src/parser_rev.rs:60-61 | a written expression followed by a character that is not a digit, space or operator panics (the `assert!`) |
| Day18Rev.PrimaryOfNumber | day18/src/parser_rev.rs:20-26 | a decimal number parses as a primary to its value |
| Day18Rev.PrimaryOfParensText | day18/src/parser_rev.rs:16-26 | on `(` the primary is the inner expression followed by `)` and spaces |
| Day18Rev.PrimaryOfParens | day18/src/parser_rev.rs:16-18 | a parenthesised expression parses to the value of the inner expression |
| Day18Rev.FactorOfOperation | day18/src/parser_rev.rs:34-42 | appending `+`/`-` and a term to a factor applies the operator |
| Day18Rev.ExprOfOperation | day18/src/parser_rev.rs:47-55 | appending `*`/`/` and a factor to an expression applies the operator |
| Day18Rev.OperatorText | day18/src/parser_rev.rs:26 | the spaces around an operator are consumed before it |
| Day18Rev.FoldAddStep | day18/src/parser_rev.rs:34-42 | one additive fold step applies the operator to the accumulator and the next term |
| Day18Rev.FoldMulStep | day18/src/parser_rev.rs:47-55 | one multiplicative fold step applies the operator to the accumulator and the next factor |
| Day18Rev.FoldAddOperator | day18/src/parser_rev.rs:34-42 | after `+`/`-` the fold stops when no term follows, panics on a panic, and otherwise goes on with the applied value |
| Day18Rev.FoldMulOperator | day18/src/parser_rev.rs:47-55 | after `*`/`/` the fold stops when no factor follows, panics on a panic or division by zero, and otherwise goes on with the applied value |
| Day18Rev.FactorStops | day18/src/parser_rev.rs:34-35 | the additive fold stops at text not starting with `+` or `-` |
| Day18Rev.PrimarySkipsSpace | day18/src/parser_rev.rs:26 | leading spaces do not change a primary |
| Day18Rev.FactorSkipsSpace | day18/src/parser_rev.rs:32-33 | leading spaces do not change a factor |
| Day18Rev.ExprOfFactor | day18/src/parser_rev.rs:45-46 | an expression that is a single factor has the factor's value |
| Day18Rev.SampleOne | day18/src/parser_rev.rs:70-71 | `1 + 2 * 3` is 9 |
| Day18Rev.SampleTwo | day18/src/parser_rev.rs:73-74 | `1 + 2 * 3 + 4 * 5 + 6` is 231 |
| Day18Rev.SampleThree | day18/src/parser_rev.rs:76-77 | `1 + (2 * 3) + (4 * (5 + 6))` is 51 |
| Day18Rev.SampleFour | day18/src/parser_rev.rs:79-80 | `2 * 3 + (4 * 5)` is 46 |
| Day19Rule.Extends | day19/src/rule.rs:51-56 | a cache that extends another keeps all its keys |
| Day19Rule.ResolvableGrows | day19/src/rule.rs:51-56 | adding entries to the cache keeps every rule resolvable |
| Day19Rule.BelowGrows | day19/src/rule.rs:51-56 | a reference that can be resolved stays resolvable when the cache grows |
| Day19Rule.Lookup | day19/src/rule.rs:48-59 | the strings of a sequence of indices are their cache entries, in order |
| Day19Rule.LookupExtends | day19/src/rule.rs:51-55 | a cache entry, once inserted, is never changed, so lookups in a later cache agree |
| Day19Rule.LookupsExtend | day19/src/rule.rs:45-62 | the same holds for every alternative of a rule |
| Day19Rule.Compile | day19/src/rule.rs:35-70 | the cache only grows; a `Match` rule compiles to its text; an `Alt` rule leaves every index it refers to in the cache and compiles to the alternatives' concatenated cache strings joined by bars, grouped as `(?:…)` exactly when the joined text contains a bar |
| Day19Rule.CompileAlts | day19/src/rule.rs:45-62 | each alternative compiles to the concatenation of its indices' cache strings, and the cache only grows |
| Day19Rule.CompileSeq | day19/src/rule.rs:48-59 | a sequence of indices compiles to their cache strings in order, each index then in the cache |
| Day19Rule.Resolve | day19/src/rule.rs:51-56 | a cached index gives its cache entry and changes nothing; an uncached one is compiled and inserted under its index |
| Day19Rule.ToRegexString | day19/src/rule.rs:30-33 | compiling from an empty cache gives the reference regex of the rule, defined without a cache |
| Day19Rule.RefAlts | day19/src/rule.rs:45-62 | the reference has one string per alternative |
| Day19Rule.RefSeq | day19/src/rule.rs:48-59 | the reference has one string per index |
| Day19Rule.FaithfulStart | day19/src/rule.rs:31-32 | a cache agrees with the reference that treats it as fixed |
| Day19Rule.CompileIsReference | day19/src/rule.rs:35-70 | compiling with a cache whose entries agree with the reference gives the reference regex, and the new cache still agrees |
| Day19Rule.AltsAreReference | day19/src/rule.rs:45-62 | the same for the list of alternatives |
| Day19Rule.SeqIsReference | day19/src/rule.rs:48-59 | the same for a sequence of indices |
| Day19Rule.ResolveIsReference | day19/src/rule.rs:51-56 | resolving an index through the cache gives the reference regex of that index |
| Day19Rule.MatchIsVerbatim | day19/src/rule.rs:43 | a `Match` rule compiles to its text and leaves the cache alone |
| Day19Rule.CachedIgnoresRuleMap | day19/src/rule.rs:51-52 | a cached index does not consult the rule map at all |
| Day19Rule.SingleAlternativeWithBarIsGrouped | day19/src/rule.rs:63-67 | a single alternative whose text contains a bar (from a nested group) is still wrapped in `(?:…)` |
| Day19Rule.MatchExample | day19/src/rule.rs:77-85 | the rule `"a"` compiles to `a` |
| Day19Rule.AltExample | day19/src/rule.rs:87-99 | the rule with alternatives `1` and `2 1`, where `1` = `a` and `2` = `b`, compiles to the group of `a` or `ba` (the expected string of the unit test) |
| Day19Rule.AltStep6 | day19/src/rule.rs:87-99 | the reference regex of the alternatives `1` and `2 1` is the group of `a` or `ba` |
| Day19Rule.NestPairs | day19/src/rule.rs:101-122 | in the nested test, rule 2 compiles to the group of `aa` or `bb` and rule 3 to the group of `ab` or `ba` |
| Day19Rule.NestMiddle | day19/src/rule.rs:101-122 | rule 1 compiles to the group of rule 2 then 3, or rule 3 then 2 |
| Day19Rule.NestedExample | day19/src/rule.rs:101-122 | the rule `4 1 5` over the nested alternations compiles to the expected string of the unit test, a group holding `a`, rule 1's group and `b` |
| Day19Parser.BlankRun | day19/src/parser.rs:3 | `space1` looks at the longest run of spaces and tabs at the start |
| Day19Parser.Index | day19/src/parser.rs:15-17 | `index` succeeds exactly on text starting with a digit whose digit run reads as a `usize` (below 2^64); it consumes the whole run, its value fits a `usize`, and the text left does not start with a digit |
| Day19Parser.IndexParts | day19/src/parser.rs:15-17 | the consumed prefix is all digits and the index is its decimal value |
| Day19Parser.IndexOfDecimal | day19/src/parser.rs:15-17 | every number below 2^64 reads back from its decimal text |
| Day19Parser.IndexOverflow | day19/src/parser.rs:15-17 | the decimal text of a number of 2^64 or more is not an index (`parse::<usize>` fails inside `map_res`) |
| Day19Parser.OverflowingLineRejected | day19/src/parser.rs:35-45 | a line whose leading index does not fit a `usize` is rejected, whatever its body |
| Day19Parser.Quoted | day19/src/parser.rs:19-22 | a quoted string is a non-empty run without `"` between two `"` |
| Day19Parser.QuotedOf | day19/src/parser.rs:19-22 | every such run reads back from its quoted text |
| Day19Parser.Space1 | day19/src/parser.rs:25 | `space1` consumes at least one character and leaves a suffix |
| Day19Parser.Space1OfSpace | day19/src/parser.rs:25 | one space before a non-blank is consumed |
| Day19Parser.Tag | day19/src/parser.rs:25 | a tag matches exactly when the text starts with it, leaving the rest |
| Day19Parser.TagOf | day19/src/parser.rs:25 | a tag matches its own text |
| Day19Parser.MoreIndices | day19/src/parser.rs:25 | the repeated `space1 index` part consumes no more than its input |
| Day19Parser.Indices | day19/src/parser.rs:25 | a list of indices exists exactly when its first index parses, and is non-empty; a later index that fails, an overflowing one included, ends the list before its blanks |
| Day19Parser.MoreAlternatives | day19/src/parser.rs:24-26 | the repeated part of a separator and a list of indices consumes no more than its input |
| Day19Parser.Alternatives | day19/src/parser.rs:24-26 | the alternatives exist exactly when the first index parses; there is at least one and each is non-empty |
| Day19Parser.AlternativesNonEmpty | day19/src/parser.rs:24-26 | every alternative parsed after a separator is non-empty |
| Day19Parser.RuleBody | day19/src/parser.rs:28-33 | a quoted string is a `Match`; otherwise text on which the first index parses is an `Alt`; anything else fails |
| Day19Parser.RuleLineParser | day19/src/parser.rs:35-39 | a parsed rule line carries the leading index |
| Day19Parser.ParseRuleLine | day19/src/parser.rs:41-45 | a line parses exactly when the rule-line parser succeeds and leaves nothing (the `assert!`) |
| Day19Parser.MoreIndicesStep | day19/src/parser.rs:25 | a space and an index add that index and continue |
| Day19Parser.MoreIndicesStop | day19/src/parser.rs:25 | the list of indices ends at the end of the line or at a space followed by a bar |
| Day19Parser.MoreIndicesRendered | day19/src/parser.rs:25 | the rendered tail of a list of indices reads back |
| Day19Parser.IndicesStep | day19/src/parser.rs:25 | a list starts with its first index |
| Day19Parser.IndicesRendered | day19/src/parser.rs:25 | every non-empty list of indices reads back from its text |
| Day19Parser.MoreAlternativesStep | day19/src/parser.rs:24-26 | a separator and a list of indices add that alternative and continue |
| Day19Parser.MoreAlternativesRendered | day19/src/parser.rs:24-26 | the rendered tail of the alternatives reads back |
| Day19Parser.SeparatorThenAlternative | day19/src/parser.rs:24-26 | a separator, one alternative and a readable tail read back as that alternative followed by the tail's |
| Day19Parser.RuleLineOf | day19/src/parser.rs:35-39 | `n: body` parses as rule `n` with the body's rule exactly when the body parses |
| Day19Parser.ParseRenderRoundTrip | day19/src/parser.rs:41-45 | every rule line whose index and referenced indices fit a `usize` and whose rule the grammar can express reads back from its text |
| Day19Parser.MatchBodyRoundTrip | day19/src/parser.rs:19-22 | a quoted body reads back as its `Match` rule |
| Day19Parser.AltBodyRoundTrip | day19/src/parser.rs:24-26 | an alternatives body reads back as its `Alt` rule |
| Day19Parser.TrailingTextRejected | day19/src/parser.rs:41-45 | a quoted rule with a `usize` index followed by extra text panics on the `assert!` |
| Day19Main.RuleMapOf | day19/src/main.rs:17 | every line's index is a key of the rule map and every key comes from some line |
| Day19Main.LaterLineWins | day19/src/main.rs:17 | the rule map holds the last line with each index |
| Day19Main.PartOnePattern | day19/src/main.rs:18-20 | part one's pattern is None exactly when there is no rule 0 (`rulemap[&0]` panics); otherwise it is the reference regex of rule 0, anchored at both ends |
| Day19Main.CountAccepted | day19/src/main.rs:24 | the count is the number of positions whose message is accepted, at most the number of messages |
| Day19Main.CountAcceptedExtremes | day19/src/main.rs:24 | the count is zero exactly when no message is accepted, and the number of messages exactly when every one is |
| Day19Main.SolvePartOne | day19/src/main.rs:16-27 | the answer is None exactly when there is no rule 0; otherwise it is the number of positions whose message matches part one's pattern |
| Day19Main.Rule11Branches | day19/src/main.rs:62-68 | branch k repeats rule 42's regex and then rule 31's regex k+1 times each |
| Day19Main.Rule11BranchCounts | day19/src/main.rs:62-70 | with 20 branches, branch k is written `(?:42){k+1}(?:31){k+1}` |
| Day19Main.RefsBelowGrows | day19/src/main.rs:33-39 | seeding the cache keeps rule references resolvable |
| Day19Main.CompileRuleFromFaithful | day19/src/main.rs:34-38 | compiling rules 31 and 42 with a cache that agrees with the reference gives their reference regexes, and the cache still agrees |
| Day19Main.PartTwoPattern | day19/src/main.rs:29-77 | the pattern is None exactly when rule 0, 31 or 42 is missing; otherwise 31 and 42 are cached as their reference regexes, 8 as `(42)+`, 11 as the 20-branch alternation, every other cache entry is a reference regex, and the pattern is rule 0's regex over that cache, anchored |
| Day19Main.SolvePartTwo | day19/src/main.rs:29-84 | the answer is None exactly when rule 0, 31 or 42 is missing; otherwise it is the number of positions whose message matches part two's seeded pattern |
| Day19Main.SeededNeverExpanded | day19/src/main.rs:51-52 | a seeded entry is used as it stands and never recompiled from its rule |
| Day19Main.ReadData | day19/src/main.rs:86-100 | the rules are the lines before the first empty line, all of which must parse; the messages are all lines after it |
| Day20Tile.Reverse | day20/src/tile.rs:25 | the reversed side lists the same characters back to front |
| Day20Tile.ReverseReverse | day20/src/tile.rs:25-37 | reversing twice gives the side back, so each inner side and its outer side are mutual reversals |
| Day20Tile.FirstColumn | day20/src/tile.rs:28-31 | the left column is the first character of each row, top to bottom |
| Day20Tile.LastColumn | day20/src/tile.rs:33-36 | the right column is the last character of each row, top to bottom |
| Day20Tile.NewTile | day20/src/tile.rs:20-50 | a tile is built exactly when there is a row and no row is empty (otherwise `unwrap` panics), and it keeps the id and the rows |
| Day20Tile.NewTileSides | day20/src/tile.rs:24-37 | the inner side of each edge reads the border clockwise, and the outer side reads it counter-clockwise |
| Day20Tile.SampleSides | day20/src/tile.rs:129-148 | on the sample tile the top inner, bottom outer, left outer and right inner sides are the four expected strings |
| Day20Tile.TerminatedIsJoin | day20/src/tile.rs:111-120 | each line followed by a newline is the lines joined by newlines plus a final one |
| Day20Tile.DisplaySplits | day20/src/tile.rs:111-120 | the display of a tile splits back into its header and its rows |
| Day20.CoveredStep | day20/src/main.rs:33-41 | one pass of the innermost loop records the pair exactly when the two sides match |
| Day20.CoveredMoves | day20/src/main.rs:27-45 | moving the loop counters forward without skipping any pair keeps every earlier matching pair recorded |
| Day20.CoveredAll | day20/src/main.rs:27-45 | when the loops end, the recorded set is every matching pair of sides |
| Day20.FindMatches | day20/src/main.rs:24-45 | the loops record exactly the side pairs of two different tiles (the first before the second) where the inner side of one equals the outer side of the other, and separately those where the two inner sides are equal |
| Day20.NoTilePairedWithItself | day20/src/main.rs:31 | with distinct ids, no recorded pair joins a tile to itself |
| Day20.Partners | day20/src/main.rs:58-73 | a tile's partner count is at most the number of tiles, and zero exactly when no pair joins it to any tile |
| Day20.SelectedIds | day20/src/main.rs:57-77 | the kept ids are exactly those of the tiles the test keeps |
| Day20.CornerIds | day20/src/main.rs:57-77 | the corner ids are exactly those of the tiles with two partners in all |
| Day20.CornerProduct | day20/src/main.rs:56-87 | the loop computes the product of the corner ids |
| Day20.SolvePartOneAsWritten | day20/src/main.rs:17-91 | as written, part one panics on an empty tile list and otherwise returns 42, whatever the tiles |
| Day20.SolvePartOne | day20/src/main.rs:17-91 | corrected, part one returns the product of the ids of the tiles with two partners |
| Day20.AsWrittenIgnoresTheProduct | day20/src/main.rs:88-90 | for a single tile the intended answer is 1, not 42 |
| Day20.NoMatchesNoCorners | day20/src/main.rs:56-87 | when no sides match, no tile is a corner and the product is 1 |
| Day20.HeaderFromLeftmost | day20/src/main.rs:104-108 | the header search finds the leftmost `Tile <digits>:` in the line, and finds nothing exactly when there is none |
| Day20.HeaderId | day20/src/main.rs:104-108 | a header's id fits a `usize` |
| Day20.HeaderIdOf | day20/src/main.rs:104-108 | every `usize` id reads back from its header line |
| Day20.ReadRows | day20/src/main.rs:109-117 | the rows are the lines up to the next empty line, which is consumed |
| Day20.ReadTilesBlock | day20/src/main.rs:99-121 | a header and its rows give one tile in front of the tiles read from the rest, and a bad tile ends reading in failure |
| Day20.PrependTile | day20/src/main.rs:119-120 | pushing tiles one at a time builds the same list as pushing them together |
| Day20.ReadData | day20/src/main.rs:93-124 | the loop reads the same tiles as the reference reading of the lines, and fails exactly when it does |
| Day20.FirstBlankIs | day20/src/main.rs:100-102 | the rows of a tile end at the first empty line |

## Left out

- Reading files, printing, timing and progress bars are left out. The models start from the input lines, except days 10 and 15, which start from the numbers already parsed (day10/src/main.rs:60-65 and day15/src/main.rs:84-92 read them, with a panic or an error on a bad number).
- Machine-integer overflow is not modelled: the models use unbounded integers. This covers the i32 sums and the products `a * b` and `a * b * c` of day 1 (day01/src/main.rs:22, 39), the u64 tree product of day 3, the u64 sums of day 9, the i32 joltages, the usize product `diffs1 * diffs3` and the u64 path weights of day 10 (day10/src/main.rs:26, 49-54), the i32 positions of day 12, the u64 products of day 13, the u64 memory sum of day 14, the u32 error rate and u64 product of day 16, the i64 arithmetic of day 18 (including `i64::MIN / -1`), and the usize corner product of day 20 (day20/src/main.rs:87-88). Numbers parsed from the input are still rejected when they do not fit the type they are parsed into (for example `Day01.ParseI32`, `Day16.ParseU32`, `Day19Parser.Index` and `Day20.HeaderId`); the arithmetic on them afterwards is unbounded.
- Day13.SolvePartTwo: requires every bus id below 2^63, because the ids are cast `as i64` (day13/src/main.rs:114, 124) and a larger id would wrap to a negative number. The same bound is required by `Day13.Residue`, `Day13.Term`, `Day13.Terms`, `Day13.SolveBuses` and the lemmas about them.
- The assertions about one particular puzzle input are left out, because the data files are not part of this model: the expected counts 620 and 727 of day 2 (day02/src/main.rs:74-78), the expected first and last passports of day 4 (day04/src/main.rs:218-247), and the unit tests of days 16 to 19 that read `data/input.txt` or a sample file.
- Day 7 is not part of this model. It is all inside `main`, and its substance is graph-library traversal and topological sorting.
- Day 13's part one is not part of this model, because it rounds with `f32` division and `ceil`.
- day20/src/side.rs holds only the `Side` and `Direction` declarations, which are datatypes in `Day20Tile`.
- Regex matching in day 19 is a parameter `matches` of the solvers. The regex engine and its size limit are a foreign library. The pattern strings are modelled exactly.
- The line patterns of days 2, 4, 8, 12, 14, 16 and 20 and the parser combinators of days 18 and 19 are modelled by the grammars they accept. Unicode character classes (`\d`, `\w`, whitespace) are restricted to ASCII.
- Day05.ParseSeat: Rust's `line.len()` counts bytes; the model counts characters, which agree on ASCII input.
- Day04.ValidateComplex: requires the height to fit an `i32` (`HeightFits`), so the panic of an over-long height number is not modelled.
- Day08.Eval, Day12.Eval1 and Day12.Eval2 are functions on state values; the source mutates `Copy` structs through `&mut self`, which has no observable aliasing.
- Day10.SolvePartTwo: the graph library's topological order is replaced by the sorted order, which is a topological order because every edge goes from a smaller to a larger value. Which sink the library would put last when the chain has a gap above 3 is not modelled.
- Day11.Solve: the source loops until a round changes nothing, with no bound; the model stops after `maxRounds` rounds and then reports that no steady state was reached. Grids must be rectangular (`WellFormed`).
- Day13.ExtGcd stands for the extended gcd of the `num-integer` crate, which is a foreign library; Bezout's identity is proved about it (`Day13.ExtGcdIsGcd`).
- Day14.SolvePartOne: the memory is a map; the sum over it does not depend on the iteration order of the source's hash map.
- Day15.SpokenNumbers.WithCapacity: the capacity argument only sizes the map and has no effect on the result. Its `assert!(data.len() > 0)` (day15/src/main.rs:22) is a precondition of the constructor; `Day15.SpokenNumber` checks the same condition first and returns `None`.
- Day15.SampleTurnTen: only the tenth turn of the first sample is proved. The turn-2020 and turn-30,000,000 results are too long to evaluate in the verifier.
- Day16.FindFieldValues, Day16.SolvePartTwo, Day16.Pass and Day16.PassTurn: tickets shorter than my ticket would make `t.numbers[i]` panic; this is a precondition rather than a modelled panic.
- Day17.Solve: the sample answer 848 is not evaluated; the six steps over four-dimensional point sets are too large to evaluate in the verifier.
- Day18Same.SampleThree and Day18Rev.SampleFour are the last sample expressions proved; the longer unit-test expressions are not evaluated.
- Day18Rev.Parse and Day18Same.Parse follow the behaviour of `fold_many0` in nom 6. The crate version is inferred, because the manifest is not part of this model.
- Day19Main.PartTwoPattern, Day19Main.PartOnePattern, Day19Main.SolvePartOne and Day19Main.SolvePartTwo: require the whole rule map to be acyclic, with every index a rule refers to defined, by asking for a rank map (`Resolvable(rules, {}, rank)`). The program relies on this (day19/src/main.rs:59-60). On a cyclic map it would recurse without end, and a reference to a missing rule would make `rulemap[&i]` panic. Rules 8 and 11 of the input must be acyclic too, even though part two never expands them.
- Day20.SolvePartOne: the sample answer 20899048083289 depends on the sample data file, which is not part of this model.

## Findings

| source | as written | input that shows it | evidently intended | confidence | as-written member | corrected member |
|---|---|---|---|---|---|---|
| day20/src/main.rs:88-90 | `solve_part_one` computes the corner product `p`, only prints it, and returns the constant 42 | any single tile: the corner product is 1 but the function returns 42; the unit test at day20/src/main.rs:151-161 expects 20899048083289 | return `p`, the product of the ids of the tiles with exactly two partners | high, not executed | Day20.SolvePartOneAsWritten, Day20.AsWrittenIgnoresTheProduct | Day20.SolvePartOne |
