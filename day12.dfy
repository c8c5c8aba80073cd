/** Day 12: ship navigation. A ship has a position and a waypoint; actions
    move one of the two or turn the waypoint around the ship in quarter
    turns. */
module Day12 {
  import opened Common

  /** Values of `i32` are below this bound. */
  const I32Limit: nat := 0x8000_0000

  datatype Action =
    | North(value: int)
    | South(value: int)
    | East(value: int)
    | West(value: int)
    | Left(value: int)
    | Right(value: int)
    | Forward(value: int)

  datatype Vector = Vector(x: int, y: int)

  datatype State = State(position: Vector, waypoint: Vector)

  function ActionOf(letter: char, value: int): Option<Action>
  {
    match letter
    case 'N' => Some(North(value))
    case 'S' => Some(South(value))
    case 'E' => Some(East(value))
    case 'W' => Some(West(value))
    case 'L' => Some(Left(value))
    case 'R' => Some(Right(value))
    case 'F' => Some(Forward(value))
    case _ => None
  }

  function Letter(a: Action): char
  {
    match a
    case North(_) => 'N'
    case South(_) => 'S'
    case East(_) => 'E'
    case West(_) => 'W'
    case Left(_) => 'L'
    case Right(_) => 'R'
    case Forward(_) => 'F'
  }

  /** `Action::from_str` (main.rs:24-42): one of the letters `NSEWLRF`, then
      one or more digits whose value fits an `i32`. */
  function ParseAction(s: string): (r: Option<Action>)
    ensures r.Some? <==> (|s| > 1 && s[0] in "NSEWLRF" && AllDigits(s[1..]) && DigitsValue(s[1..]) < I32Limit)
    ensures r.Some? ==> Letter(r.value) == s[0] && r.value.value == DigitsValue(s[1..])
  {
    if |s| < 2 || !AllDigits(s[1..]) then None
    else
      var v := DigitsValue(s[1..]);
      if v < I32Limit then ActionOf(s[0], v) else None
  }

  function RenderAction(a: Action): string
    requires 0 <= a.value
  {
    [Letter(a)] + Decimal(a.value)
  }

  /** Reading a written action gives it back. */
  lemma ParseRenderAction(a: Action)
    requires 0 <= a.value < I32Limit
    ensures ParseAction(RenderAction(a)) == Some(a)
  {
    var s := RenderAction(a);
    assert s[1..] == Decimal(a.value);
    DecimalValue(a.value);
  }

  /** `Waypoint::left` (main.rs:92-94): a quarter turn counter-clockwise. */
  function TurnLeft(w: Vector): Vector { Vector(-w.y, w.x) }

  /** `Waypoint::right` (main.rs:97-99): a quarter turn clockwise. */
  function TurnRight(w: Vector): Vector { Vector(w.y, -w.x) }

  /** `Waypoint::opposite` (main.rs:102-104): a half turn. */
  function Opposite(w: Vector): Vector { Vector(-w.x, -w.y) }

  /** `rotate_left` (main.rs:73-80); any angle other than 90, 180 and 270
      panics, modelled as `None`. */
  function RotateLeft(w: Vector, angle: int): (r: Option<Vector>)
    ensures r.Some? <==> angle in {90, 180, 270}
  {
    if angle == 90 then Some(TurnLeft(w))
    else if angle == 180 then Some(Opposite(w))
    else if angle == 270 then Some(TurnRight(w))
    else None
  }

  /** `rotate_right` (main.rs:82-89). */
  function RotateRight(w: Vector, angle: int): (r: Option<Vector>)
    ensures r.Some? <==> angle in {90, 180, 270}
  {
    if angle == 90 then Some(TurnRight(w))
    else if angle == 180 then Some(Opposite(w))
    else if angle == 270 then Some(TurnLeft(w))
    else None
  }

  /** `angle` quarter turns counter-clockwise, the reference meaning of a
      rotation. */
  function QuarterTurns(w: Vector, n: nat): Vector
  {
    if n == 0 then w else TurnLeft(QuarterTurns(w, n - 1))
  }

  /** Turning left by `angle` is `angle / 90` quarter turns counter-clockwise,
      and turning right is the remaining quarter turns of a full turn. */
  lemma RotationsAreQuarterTurns(w: Vector, angle: int)
    requires angle in {90, 180, 270}
    ensures RotateLeft(w, angle) == Some(QuarterTurns(w, angle / 90))
    ensures RotateRight(w, angle) == Some(QuarterTurns(w, 4 - angle / 90))
  {
    assert QuarterTurns(w, 1) == TurnLeft(w);
    assert QuarterTurns(w, 2) == Opposite(w);
    assert QuarterTurns(w, 3) == TurnRight(w);
  }

  /** A rotation to the right undoes a rotation to the left by the same angle,
      and the other way round. */
  lemma RotateLeftRight(w: Vector, angle: int)
    requires angle in {90, 180, 270}
    ensures RotateRight(RotateLeft(w, angle).value, angle) == Some(w)
    ensures RotateLeft(RotateRight(w, angle).value, angle) == Some(w)
  {
  }

  function Abs(n: int): nat { if n < 0 then -n else n }

  function Manhattan(v: Vector): nat { Abs(v.x) + Abs(v.y) }

  /** A rotation keeps the waypoint's distance from the ship. */
  lemma RotationKeepsDistance(w: Vector, angle: int)
    requires angle in {90, 180, 270}
    ensures Manhattan(RotateLeft(w, angle).value) == Manhattan(w)
    ensures Manhattan(RotateRight(w, angle).value) == Manhattan(w)
  {
  }

  /** `Position += (i32, i32)` and `Waypoint += (i32, i32)`
      (main.rs:55-60, 107-112). */
  function Plus(a: Vector, b: Vector): Vector { Vector(a.x + b.x, a.y + b.y) }

  /** `Waypoint * i32` (main.rs:114-120). */
  function Scale(w: Vector, times: int): Vector { Vector(times * w.x, times * w.y) }

  /** The displacement of a compass action: north is +y, east is +x. */
  function Compass(a: Action): Option<Vector>
  {
    match a
    case North(v) => Some(Vector(0, v))
    case South(v) => Some(Vector(0, -v))
    case East(v) => Some(Vector(v, 0))
    case West(v) => Some(Vector(-v, 0))
    case _ => None
  }

  /** `State::eval1` (main.rs:130-147): compass actions move the ship, turns
      turn the waypoint (used as a heading), `F` moves the ship `times`
      waypoints. A bad angle is the panic, modelled as `None`. */
  function Eval1(s: State, a: Action): (r: Option<State>)
    ensures Compass(a).Some? ==> r == Some(State(Plus(s.position, Compass(a).value), s.waypoint))
    ensures (a.Left? || a.Right?) ==> (r.Some? <==> a.value in {90, 180, 270})
    ensures (a.Left? || a.Right?) && r.Some? ==> r.value.position == s.position && Manhattan(r.value.waypoint) == Manhattan(s.waypoint)
    ensures a.Forward? ==> r == Some(State(Plus(s.position, Scale(s.waypoint, a.value)), s.waypoint))
  {
    match a
    case Left(angle) =>
      (match RotateLeft(s.waypoint, angle)
       case None => None
       case Some(w) => RotationKeepsDistance(s.waypoint, angle); Some(State(s.position, w)))
    case Right(angle) =>
      (match RotateRight(s.waypoint, angle)
       case None => None
       case Some(w) => RotationKeepsDistance(s.waypoint, angle); Some(State(s.position, w)))
    case Forward(times) => Some(State(Plus(s.position, Scale(s.waypoint, times)), s.waypoint))
    case _ => Some(State(Plus(s.position, Compass(a).value), s.waypoint))
  }

  /** `State::eval2` (main.rs:150-167): as `eval1`, except that compass
      actions move the waypoint and not the ship. */
  function Eval2(s: State, a: Action): (r: Option<State>)
    ensures Compass(a).Some? ==> r == Some(State(s.position, Plus(s.waypoint, Compass(a).value)))
    ensures !a.Forward? && r.Some? ==> r.value.position == s.position
    ensures Compass(a).None? ==> r == Eval1(s, a)
  {
    match Compass(a)
    case Some(d) => Some(State(s.position, Plus(s.waypoint, d)))
    case None => Eval1(s, a)
  }

  datatype Part = One | Two

  function Eval(part: Part, s: State, a: Action): Option<State>
  {
    match part
    case One => Eval1(s, a)
    case Two => Eval2(s, a)
  }

  /** The state after all actions, or `None` at the first bad angle. */
  function Run(part: Part, s: State, actions: seq<Action>): Option<State>
    decreases |actions|
  {
    if |actions| == 0 then Some(s)
    else
      match Eval(part, s, actions[0])
      case None => None
      case Some(s') => Run(part, s', actions[1..])
  }

  /** Running two lists of actions one after the other is running their
      concatenation. */
  lemma {:induction false} RunAppend(part: Part, s: State, a: seq<Action>, b: seq<Action>)
    ensures Run(part, s, a + b) == match Run(part, s, a) case None => None case Some(t) => Run(part, t, b)
    decreases |a|
  {
    if |a| > 0 {
      assert (a + b)[1..] == a[1..] + b;
      match Eval(part, s, a[0])
      case None =>
      case Some(s') => RunAppend(part, s', a[1..], b);
    } else {
      assert a + b == b;
    }
  }

  /** In part one the waypoint only ever turns, so it keeps its distance from
      the ship throughout. */
  lemma {:induction false} RunOneKeepsHeadingLength(s: State, actions: seq<Action>)
    ensures Run(One, s, actions).Some? ==> Manhattan(Run(One, s, actions).value.waypoint) == Manhattan(s.waypoint)
    decreases |actions|
  {
    if |actions| > 0 {
      match Eval1(s, actions[0])
      case None =>
      case Some(s') => RunOneKeepsHeadingLength(s', actions[1..]);
    }
  }

  function Start(part: Part): State
  {
    match part
    case One => State(Vector(0, 0), Vector(1, 0))
    case Two => State(Vector(0, 0), Vector(10, 1))
  }

  /** `solve_part_one` / `solve_part_two` (main.rs:170-204): start at the
      origin with waypoint (1, 0) or (10, 1), apply each action in turn, and
      report the Manhattan distance of the ship from the start. */
  method Solve(part: Part, actions: seq<Action>) returns (r: Option<nat>)
    ensures r.Some? <==> Run(part, Start(part), actions).Some?
    ensures r.Some? ==> r.value == Manhattan(Run(part, Start(part), actions).value.position)
  {
    var state := Start(part);
    var i := 0;
    while i < |actions|
      invariant 0 <= i <= |actions|
      invariant Run(part, Start(part), actions[..i]) == Some(state)
    {
      RunAppend(part, Start(part), actions[..i], [actions[i]]);
      assert actions[..i + 1] == actions[..i] + [actions[i]];
      var next := Eval(part, state, actions[i]);
      if next.None? {
        RunAppend(part, Start(part), actions[..i + 1], actions[i + 1..]);
        assert actions[..i + 1] + actions[i + 1..] == actions;
        return None;
      }
      state := next.value;
      i := i + 1;
    }
    assert actions[..i] == actions;
    r := Some(Manhattan(state.position));
  }

  /** The input file, one action per line, all or nothing (main.rs:209-214). */
  function ParseActions(lines: seq<string>): (r: Option<seq<Action>>)
    ensures r.None? <==> exists k | 0 <= k < |lines| :: ParseAction(lines[k]).None?
    ensures r.Some? ==> |r.value| == |lines| && forall k | 0 <= k < |lines| :: ParseAction(lines[k]) == Some(r.value[k])
  {
    ParseEach(lines, ParseAction)
  }
}
