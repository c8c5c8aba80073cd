/** Day 6: customs declarations. Each group is a block of non-empty lines,
    one per person, each line the questions that person answered "yes" to;
    the answers are the sizes of each group's union and intersection. */
module Day06 {
  import opened Common

  /** `Item` (main.rs:7-11): the questions anyone in the group answered and
      those everyone answered. */
  datatype Item = Item(union: set<char>, intersection: set<char>)

  /** The characters of a line (`line.chars().collect()` into a set). */
  function Chars(line: string): (cs: set<char>)
    ensures forall c :: c in cs <==> c in line
  {
    set c | c in line
  }

  /** A group's first line sets both sets to its characters (main.rs:38-41). */
  function Start(line: string): Item
  {
    Item(Chars(line), Chars(line))
  }

  /** Each further line is united into the union and intersected into the
      intersection (main.rs:29-33). */
  function Extend(item: Item, line: string): Item
  {
    Item(item.union + Chars(line), item.intersection * Chars(line))
  }

  /** The state of the line loop: the groups pushed so far, and `temp`, the
      group being read. */
  datatype Reading = Reading(done: seq<Item>, open: Option<Item>)

  /** One line of the loop (main.rs:21-43): an empty line pushes the open
      group, if there is one; any other line starts a group or extends the
      open one. */
  function Step(st: Reading, line: string): Reading
  {
    if line == "" then
      if st.open.Some? then Reading(st.done + [st.open.value], None) else st
    else if st.open.Some? then Reading(st.done, Some(Extend(st.open.value, line)))
    else Reading(st.done, Some(Start(line)))
  }

  /** The state after the loop has read `lines`. */
  function ReadLines(lines: seq<string>): Reading
  {
    if |lines| == 0 then Reading([], None)
    else Step(ReadLines(lines[..|lines| - 1]), lines[|lines| - 1])
  }

  /** The groups, the last one pushed after the loop (main.rs:47-50). */
  function Groups(lines: seq<string>): seq<Item>
  {
    var st := ReadLines(lines);
    if st.open.Some? then st.done + [st.open.value] else st.done
  }

  /** The line loop of `main` (main.rs:17-50). */
  method ReadGroups(lines: seq<string>) returns (data: seq<Item>)
    ensures data == Groups(lines)
  {
    data := [];
    var temp: Option<Item> := None;
    var i := 0;
    while i < |lines|
      invariant i <= |lines|
      invariant ReadLines(lines[..i]) == Reading(data, temp)
    {
      var line := lines[i];
      assert lines[..i + 1][..i] == lines[..i];
      if line == "" {
        if temp.Some? {
          data := data + [temp.value];
          temp := None;
        }
      } else {
        if temp.Some? {
          var item := temp.value;
          item := item.(union := item.union + Chars(line));
          item := item.(intersection := item.intersection * Chars(line));
          temp := Some(item);
        } else {
          temp := Some(Item(Chars(line), Chars(line)));
        }
      }
      i := i + 1;
    }
    assert lines[..i] == lines;
    if temp.Some? {
      data := data + [temp.value];
    }
  }

  /** The totals (main.rs:56-57): the sums of the union sizes and of the
      intersection sizes. */
  function TotalUnion(data: seq<Item>): nat
  {
    if |data| == 0 then 0 else TotalUnion(data[..|data| - 1]) + |data[|data| - 1].union|
  }

  function TotalIntersection(data: seq<Item>): nat
  {
    if |data| == 0 then 0 else TotalIntersection(data[..|data| - 1]) + |data[|data| - 1].intersection|
  }

  // ---------------------------------------------------------------------------
  // The groups are the paragraphs of the input

  /** The item of a block of lines: the first line starts it and each
      further line extends it. */
  function GroupOf(para: seq<string>): Item
    requires |para| > 0
  {
    if |para| == 1 then Start(para[0]) else Extend(GroupOf(para[..|para| - 1]), para[|para| - 1])
  }

  /** A question is in a group's union exactly when someone in the group
      answered it, and in its intersection exactly when everyone did; so the
      intersection is within the union. */
  lemma {:induction false} GroupOfMeaning(para: seq<string>)
    requires |para| > 0
    ensures forall c :: c in GroupOf(para).union <==> exists k | 0 <= k < |para| :: c in para[k]
    ensures forall c :: c in GroupOf(para).intersection <==> forall k | 0 <= k < |para| :: c in para[k]
    ensures GroupOf(para).intersection <= GroupOf(para).union
  {
    if |para| > 1 {
      var init := para[..|para| - 1];
      GroupOfMeaning(init);
      assert forall k | 0 <= k < |init| :: init[k] == para[k];
    }
  }

  /** The reading state after `lines` holds one item per closed paragraph,
      and the open paragraph's item when the last line is not empty. */
  predicate ReadsParagraphs(lines: seq<string>, st: Reading)
  {
    Reads(Paragraphs(lines), Open(lines), st)
  }

  /** `st` holds the items of the paragraphs `ps`, the last one open when
      `open` holds. */
  predicate Reads(ps: seq<seq<string>>, open: bool, st: Reading)
  {
    && (st.open.Some? <==> open)
    && |st.done| == |ps| - (if open then 1 else 0)
    && (forall k | 0 <= k < |st.done| :: |ps[k]| > 0 && st.done[k] == GroupOf(ps[k]))
    && (st.open.Some? ==> |ps[|ps| - 1]| > 0 && st.open.value == GroupOf(ps[|ps| - 1]))
  }

  lemma {:induction false} ReadLinesParagraphs(lines: seq<string>)
    ensures ReadsParagraphs(lines, ReadLines(lines))
  {
    if |lines| > 0 {
      var init := lines[..|lines| - 1];
      var line := lines[|lines| - 1];
      ReadLinesParagraphs(init);
      var ps := Paragraphs(init);
      var st := ReadLines(init);
      if line == "" {
        assert Paragraphs(lines) == ps;
        BlankLineStep(ps, Open(init), st);
      } else if Open(init) {
        assert Paragraphs(lines) == ps[..|ps| - 1] + [ps[|ps| - 1] + [line]];
        ContinueStep(ps, st, line);
      } else {
        assert Paragraphs(lines) == ps + [[line]];
        StartStep(ps, st, line);
      }
    }
  }

  /** An empty line closes the open paragraph, if any. */
  lemma BlankLineStep(ps: seq<seq<string>>, open: bool, st: Reading)
    requires Reads(ps, open, st)
    ensures Reads(ps, false, Step(st, ""))
  {
    if st.open.Some? {
      var done := st.done + [st.open.value];
      assert forall k | 0 <= k < |st.done| :: done[k] == st.done[k];
    }
  }

  /** A further line of the open paragraph extends its item. */
  lemma ContinueStep(ps: seq<seq<string>>, st: Reading, line: string)
    requires line != "" && Reads(ps, true, st)
    ensures Reads(ps[..|ps| - 1] + [ps[|ps| - 1] + [line]], true, Step(st, line))
  {
    var last := ps[|ps| - 1];
    assert (last + [line])[..|last|] == last;
    assert GroupOf(last + [line]) == Extend(GroupOf(last), line);
  }

  /** The first line of a paragraph starts its item. */
  lemma StartStep(ps: seq<seq<string>>, st: Reading, line: string)
    requires line != "" && Reads(ps, false, st)
    ensures Reads(ps + [[line]], true, Step(st, line))
  {
  }

  /** The groups are those of the paragraphs of the input, in order: one
      group per maximal block of non-empty lines, however many empty lines
      separate the blocks. */
  lemma GroupsAreParagraphs(lines: seq<string>)
    ensures |Groups(lines)| == |Paragraphs(lines)|
    ensures forall k | 0 <= k < |Paragraphs(lines)| ::
      |Paragraphs(lines)[k]| > 0 && Groups(lines)[k] == GroupOf(Paragraphs(lines)[k])
  {
    ReadLinesParagraphs(lines);
  }

  /** Every group's intersection is within its union, so the second total
      is at most the first. */
  lemma {:induction false} TotalsOrdered(lines: seq<string>)
    ensures TotalIntersection(Groups(lines)) <= TotalUnion(Groups(lines))
  {
    GroupsAreParagraphs(lines);
    var data := Groups(lines);
    forall k | 0 <= k < |data|
      ensures data[k].intersection <= data[k].union
    {
      GroupOfMeaning(Paragraphs(lines)[k]);
    }
    TotalsOrderedOf(data);
  }

  lemma {:induction false} TotalsOrderedOf(data: seq<Item>)
    requires forall k | 0 <= k < |data| :: data[k].intersection <= data[k].union
    ensures TotalIntersection(data) <= TotalUnion(data)
  {
    if |data| > 0 {
      TotalsOrderedOf(data[..|data| - 1]);
      var last := data[|data| - 1];
      SubsetSize(last.intersection, last.union);
    }
  }

  /** A subset is no larger than its superset. */
  lemma {:induction false} SubsetSize(a: set<char>, b: set<char>)
    requires a <= b
    ensures |a| <= |b|
  {
    assert b == a + (b - a);
  }
}
