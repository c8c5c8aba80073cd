/** Day 8: a handheld console's boot code. A program of `acc`, `jmp` and
    `nop` instructions runs until it would run an instruction a second time
    or its pointer leaves the program; then one `jmp`/`nop` is flipped at a
    time until the program terminates. */
module Day08 {
  import opened Common

  const I32Min: int := -0x8000_0000
  const I32Limit: int := 0x8000_0000
  const UsizeModulus: int := 0x1_0000_0000_0000_0000

  predicate InI32(v: int) { I32Min <= v < I32Limit }

  datatype Instruction = Acc(arg: int) | Jmp(arg: int) | Nop(arg: int)

  /** `State` (main.rs:37-41). */
  datatype State = State(pointer: nat, accumulator: int)

  // ---------------------------------------------------------------------------
  // Parsing (main.rs:21-34)

  /** `str::parse::<i32>` of a sign followed by one or more digits. */
  function ParseSigned(s: string): (r: Option<int>)
    ensures r.Some? ==> InI32(r.value)
  {
    if |s| < 2 || s[0] !in "+-" || !AllDigits(s[1..]) then None
    else
      var n: int := DigitsValue(s[1..]);
      var v := if s[0] == '-' then -n else n;
      if InI32(v) then Some(v) else None
  }

  /** `Instruction::from_str`: `acc`, `jmp` or `nop`, a space, then an
      explicitly signed integer that fits an `i32`. */
  function ParseInstruction(s: string): (r: Option<Instruction>)
    ensures r.Some? ==> |s| > 4 && s[3] == ' ' && s[4] in "+-" && InI32(r.value.arg)
    ensures r.Some? ==> (r.value.Acc? <==> s[..3] == "acc") && (r.value.Jmp? <==> s[..3] == "jmp") && (r.value.Nop? <==> s[..3] == "nop")
  {
    if |s| < 4 || s[3] != ' ' then None
    else
      match ParseSigned(s[4..])
      case None => None
      case Some(v) =>
        if s[..3] == "acc" then Some(Acc(v))
        else if s[..3] == "jmp" then Some(Jmp(v))
        else if s[..3] == "nop" then Some(Nop(v))
        else None
  }

  function Signed(v: int): string
  {
    if v < 0 then "-" + Decimal(-v) else "+" + Decimal(v)
  }

  function RenderInstruction(ins: Instruction): string
  {
    Mnemonic(ins) + " " + Signed(ins.arg)
  }

  /** A number written with its sign reads back. */
  lemma ParseSignedSigned(v: int)
    requires InI32(v)
    ensures ParseSigned(Signed(v)) == Some(v)
  {
    var n := if v < 0 then -v else v;
    assert Signed(v)[1..] == Decimal(n);
    DecimalValue(n);
  }

  /** Reading a written instruction gives it back. */
  lemma ParseRenderInstruction(ins: Instruction)
    requires InI32(ins.arg)
    ensures ParseInstruction(RenderInstruction(ins)) == Some(ins)
  {
    var w := Mnemonic(ins);
    var s := RenderInstruction(ins);
    WordArgParts(w, Signed(ins.arg), s);
    ParseSignedSigned(ins.arg);
    ParseInstructionOf(s, ins);
  }

  function Mnemonic(ins: Instruction): string
  {
    match ins case Acc(_) => "acc" case Jmp(_) => "jmp" case Nop(_) => "nop"
  }

  lemma WordArgParts(w: string, a: string, s: string)
    requires |w| == 3 && s == w + " " + a
    ensures |s| >= 4 && s[..3] == w && s[3] == ' ' && s[4..] == a
  {
  }

  /** A line whose first three characters name the instruction, followed by
      a space and its signed argument, reads as that instruction. */
  lemma ParseInstructionOf(s: string, ins: Instruction)
    requires |s| >= 4 && s[..3] == Mnemonic(ins) && s[3] == ' ' && ParseSigned(s[4..]) == Some(ins.arg)
    ensures ParseInstruction(s) == Some(ins)
  {
  }

  // ---------------------------------------------------------------------------
  // Execution

  /** `pointer as i32`: the low 32 bits read as two's complement. */
  function AsI32(n: nat): (v: int)
    ensures InI32(v)
    ensures n < I32Limit ==> v == n
  {
    (n + I32Limit) % (2 * I32Limit) - I32Limit
  }

  /** `i32 as usize`: a negative value wraps to a huge index. */
  function AsUsize(v: int): (n: nat)
    requires InI32(v)
    ensures v >= 0 ==> n == v
    ensures v < 0 ==> n >= UsizeModulus - I32Limit
  {
    if v < 0 then UsizeModulus + v else v
  }

  /** `State::eval` (main.rs:51-64). An `i32` overflow of the accumulator
      or of the jump target panics, modelled as `None`. */
  function Eval(s: State, ins: Instruction): (r: Option<State>)
    ensures ins.Acc? ==> r == (if InI32(s.accumulator + ins.arg) then Some(State(s.pointer + 1, s.accumulator + ins.arg)) else None)
    ensures ins.Nop? ==> r == Some(State(s.pointer + 1, s.accumulator))
    ensures ins.Jmp? && r.Some? ==> r.value.accumulator == s.accumulator
    ensures ins.Jmp? && s.pointer < I32Limit && InI32(s.pointer + ins.arg) ==>
      r.Some? && (r.value.pointer == s.pointer + ins.arg || (s.pointer + ins.arg < 0 && r.value.pointer >= UsizeModulus - I32Limit))
  {
    match ins
    case Acc(arg) =>
      var acc := s.accumulator + arg;
      if InI32(acc) then Some(State(s.pointer + 1, acc)) else None
    case Jmp(arg) =>
      var target := AsI32(s.pointer) + arg;
      if InI32(target) then Some(State(AsUsize(target), s.accumulator)) else None
    case Nop(_) => Some(State(s.pointer + 1, s.accumulator))
  }

  /** The state after `k` instructions from `s`, if the instruction pointer stays in the
      program and nothing overflows: the reference meaning of running the
      program. */
  function Steps(program: seq<Instruction>, s: State, k: nat): Option<State>
    decreases k
  {
    if k == 0 then Some(s)
    else if s.pointer >= |program| then None
    else
      match Eval(s, program[s.pointer])
      case None => None
      case Some(s') => Steps(program, s', k - 1)
  }

  /** `Either::Left` (an instruction about to run a second time) or
      `Either::Right` (the instruction pointer left the program). */
  datatype Outcome = Loops(state: State) | Terminates(state: State)

  ghost predicate InProgram(program: seq<Instruction>, visited: set<nat>)
  {
    forall v | v in visited :: v < |program|
  }

  function Unvisited(program: seq<Instruction>, visited: set<nat>): set<nat>
  {
    set k | 0 <= k < |program| && k !in visited
  }

  /** The loop of `find_infinite_loop` (main.rs:72-87) from state `s`, with
      the instructions already run in `visited`. */
  function Explore(program: seq<Instruction>, s: State, visited: set<nat>): (r: Option<Outcome>)
    requires s.pointer < |program| && s.pointer !in visited
    ensures r.Some? && r.value.Terminates? ==> r.value.state.pointer >= |program|
    ensures r.Some? && r.value.Loops? ==> r.value.state.pointer < |program|
    decreases Unvisited(program, visited)
  {
    var visited' := visited + {s.pointer};
    assert Unvisited(program, visited') < Unvisited(program, visited) by {
      assert s.pointer in Unvisited(program, visited);
    }
    match Eval(s, program[s.pointer])
    case None => None
    case Some(s') =>
      if s'.pointer >= |program| then Some(Terminates(s'))
      else if s'.pointer in visited' then Some(Loops(s'))
      else Explore(program, s', visited')
  }

  /** The state `Explore` reports is reached by running the program, and in
      the `Loops` case its pointer was run before (or belongs to `visited`):
      the program really runs an instruction a second time. */
  lemma ExploreIsExecution(program: seq<Instruction>, s: State, visited: set<nat>)
    requires s.pointer < |program| && s.pointer !in visited
    ensures var r := Explore(program, s, visited);
      r.Some? ==> exists k | 1 <= k <= |Unvisited(program, visited)| ::
        && Steps(program, s, k) == Some(r.value.state)
        && (r.value.Loops? ==> r.value.state.pointer in visited || exists j | 0 <= j < k :: Steps(program, s, j).Some? && Steps(program, s, j).value.pointer == r.value.state.pointer)
    decreases Unvisited(program, visited)
  {
    var r := Explore(program, s, visited);
    var visited' := visited + {s.pointer};
    assert Unvisited(program, visited') == Unvisited(program, visited) - {s.pointer};
    assert s.pointer in Unvisited(program, visited);
    if r.Some? {
      var s' := Eval(s, program[s.pointer]).value;
      assert Steps(program, s, 1) == Some(s') by {
        assert Steps(program, s', 0) == Some(s');
      }
      assert Steps(program, s, 0) == Some(s);
      if s'.pointer >= |program| || s'.pointer in visited' {
        assert Steps(program, s, 1) == Some(r.value.state);
      } else {
        ExploreIsExecution(program, s', visited');
        var k' :| 1 <= k' <= |Unvisited(program, visited')| && Steps(program, s', k') == Some(r.value.state)
          && (r.value.Loops? ==> r.value.state.pointer in visited' || exists j | 0 <= j < k' :: Steps(program, s', j).Some? && Steps(program, s', j).value.pointer == r.value.state.pointer);
        assert Steps(program, s, k' + 1) == Some(r.value.state);
        if r.value.Loops? && r.value.state.pointer !in visited {
          if r.value.state.pointer == s.pointer {
            assert Steps(program, s, 0).value.pointer == r.value.state.pointer;
          } else {
            var j :| 0 <= j < k' && Steps(program, s', j).Some? && Steps(program, s', j).value.pointer == r.value.state.pointer;
            assert Steps(program, s, j + 1) == Steps(program, s', j);
          }
        }
      }
    }
  }

  lemma {:induction false} AllUnvisited(program: seq<Instruction>)
    ensures |Unvisited(program, {})| == |program|
  {
    if |program| > 0 {
      var init := program[..|program| - 1];
      AllUnvisited(init);
      assert Unvisited(program, {}) == Unvisited(init, {}) + {|init|};
    }
  }

  /** From the start, the reported state is reached within `|program|`
      instructions, and a reported loop is a real one: its pointer is that of
      an earlier state of the same run. */
  lemma RunWithinLength(program: seq<Instruction>)
    requires |program| > 0
    ensures var r := Explore(program, State(0, 0), {});
      r.Some? ==> exists k | 1 <= k <= |program| ::
        && Steps(program, State(0, 0), k) == Some(r.value.state)
        && (r.value.Loops? ==> exists j | 0 <= j < k :: Steps(program, State(0, 0), j).Some? && Steps(program, State(0, 0), j).value.pointer == r.value.state.pointer)
  {
    ExploreIsExecution(program, State(0, 0), {});
    AllUnvisited(program);
  }

  /** A jump back from the first instruction wraps to a huge index, which
      counts as leaving the program (main.rs:58, 78). */
  lemma NegativeJumpTerminates(arg: int)
    requires I32Min <= arg < 0
    ensures Explore([Jmp(arg)], State(0, 0), {}) == Some(Terminates(State(UsizeModulus + arg, 0)))
  {
  }

  /** `find_infinite_loop` (main.rs:67-88): run from pointer 0 with a
      `visited` flag per instruction. An empty program panics on
      `visited[0]`, modelled as `None` like an overflow. */
  method FindInfiniteLoop(program: seq<Instruction>) returns (r: Option<Outcome>)
    ensures |program| == 0 ==> r.None?
    ensures |program| > 0 ==> r == Explore(program, State(0, 0), {})
  {
    if |program| == 0 {
      return None;
    }
    var state := State(0, 0);
    var visited := new bool[|program|](_ => false);
    ghost var seen: set<nat> := {};
    while true
      invariant state.pointer < |program| && state.pointer !in seen
      invariant forall k | 0 <= k < |program| :: visited[k] <==> k in seen
      invariant Explore(program, State(0, 0), {}) == Explore(program, state, seen)
      decreases Unvisited(program, seen)
    {
      assert Unvisited(program, seen + {state.pointer}) < Unvisited(program, seen) by {
        assert state.pointer in Unvisited(program, seen);
      }
      visited[state.pointer] := true;
      seen := seen + {state.pointer};
      var next := Eval(state, program[state.pointer]);
      if next.None? {
        return None;
      }
      state := next.value;
      if state.pointer >= |program| {
        return Some(Terminates(state));
      }
      if visited[state.pointer] {
        return Some(Loops(state));
      }
    }
  }

  // ---------------------------------------------------------------------------
  // Repairing the program (main.rs:116-135)

  /** The program with instruction `i` flipped between `jmp` and `nop`;
      `acc` is left alone (`None`). */
  function Flip(program: seq<Instruction>, i: nat): (r: Option<seq<Instruction>>)
    requires i < |program|
    ensures r.Some? <==> !program[i].Acc?
    ensures r.Some? ==> |r.value| == |program| && r.value[i].arg == program[i].arg && r.value[i].Jmp? == program[i].Nop?
    ensures r.Some? ==> forall k | 0 <= k < |program| && k != i :: r.value[k] == program[k]
  {
    match program[i]
    case Jmp(arg) => Some(program[..i] + [Nop(arg)] + program[i + 1..])
    case Nop(arg) => Some(program[..i] + [Jmp(arg)] + program[i + 1..])
    case Acc(_) => None
  }

  /** What a run of `find_infinite_loop` gives, `None` for a panic. */
  function Run(program: seq<Instruction>): Option<Outcome>
  {
    if |program| == 0 then None else Explore(program, State(0, 0), {})
  }

  datatype Search = Found(index: nat, state: State) | NotFound | Panicked

  /** The mutation search from index `i` on. */
  function SearchFrom(program: seq<Instruction>, i: nat): (r: Search)
    requires i <= |program|
    ensures r.Found? ==> i <= r.index < |program| && Flip(program, r.index).Some? && Run(Flip(program, r.index).value) == Some(Terminates(r.state))
    ensures r.Found? || r.NotFound? ==> forall j | i <= j < |program| && (!r.Found? || j < r.index) && Flip(program, j).Some? :: Run(Flip(program, j).value).Some? && Run(Flip(program, j).value).value.Loops?
    decreases |program| - i
  {
    if i == |program| then NotFound
    else
      match Flip(program, i)
      case None => SearchFrom(program, i + 1)
      case Some(mutated) =>
        match Run(mutated)
        case None => Panicked
        case Some(Terminates(s)) => Found(i, s)
        case Some(Loops(_)) => SearchFrom(program, i + 1)
  }

  /** The repair in `main` (main.rs:103-135): the original program must
      loop (otherwise `main` panics); then the first flip that makes the
      program terminate is reported. */
  method Repair(program: seq<Instruction>) returns (r: Search)
    ensures r == match Run(program) case Some(Loops(_)) => SearchFrom(program, 0) case _ => Panicked
  {
    var original := FindInfiniteLoop(program);
    if !(original.Some? && original.value.Loops?) {
      return Panicked;
    }
    var i := 0;
    while i < |program|
      invariant 0 <= i <= |program|
      invariant SearchFrom(program, 0) == SearchFrom(program, i)
    {
      var mutated := Flip(program, i);
      if mutated.Some? {
        var outcome := FindInfiniteLoop(mutated.value);
        if outcome.None? {
          return Panicked;
        }
        if outcome.value.Terminates? {
          return Found(i, outcome.value.state);
        }
      }
      i := i + 1;
    }
    return NotFound;
  }

  /** The program of the input file (main.rs:92-96); a bad line panics in
      `unwrap`, modelled as `None`. */
  function ParseProgram(lines: seq<string>): (r: Option<seq<Instruction>>)
    ensures r.None? <==> exists k | 0 <= k < |lines| :: ParseInstruction(lines[k]).None?
    ensures r.Some? ==> |r.value| == |lines| && forall k | 0 <= k < |lines| :: ParseInstruction(lines[k]) == Some(r.value[k])
  {
    ParseEach(lines, ParseInstruction)
  }
}
