/** Day 18: what the two expression parsers share. Both read decimal
    numbers, parentheses and the operators `+ - * /`, with optional
    whitespace around each number or parenthesised group; they differ only
    in how the operators bind. The expression trees and their evaluation here
    are the meaning both parsers are proved against. */
module Day18Syntax {
  import opened Common

  /** Values are `i64`: a number literal must be below 2^63. */
  const I64Limit: int := 0x8000_0000_0000_0000

  /** The outcome of a `nom` parser: a value and the input it left
      unparsed, a recoverable error (on which `alt` tries its next choice
      and `fold_many0` stops), or a panic inside a fold's closure (a
      division by zero), which ends the whole program. */
  datatype Parsed<T> = Done(value: T, rest: string) | Fail | Panic

  /** The whitespace `multispace0` skips: spaces, tabs, carriage returns and
      line feeds. */
  predicate IsMultispace(c: char)
  {
    c == ' ' || c == '\t' || c == '\r' || c == '\n'
  }

  /** `multispace0`: the input after its leading whitespace. */
  function Multispace0(s: string): (r: string)
    ensures |r| <= |s|
    ensures r == [] || !IsMultispace(r[0])
  {
    if |s| > 0 && IsMultispace(s[0]) then Multispace0(s[1..]) else s
  }

  /** What `multispace0` skips is whitespace. */
  lemma {:induction false} Multispace0Skips(s: string)
    ensures forall k | 0 <= k < |s| - |Multispace0(s)| :: IsMultispace(s[k])
  {
    if |s| > 0 && IsMultispace(s[0]) {
      Multispace0Skips(s[1..]);
      assert forall k | 1 <= k < |s| - |Multispace0(s)| :: s[k] == s[1..][k - 1];
    }
  }

  /** Input that does not start with whitespace is left as it is. */
  lemma NoSpaceFirst(s: string)
    requires |s| > 0 && !IsMultispace(s[0])
    ensures Multispace0(s) == s
  {
  }

  /** The trailing `multispace0` of `primary`: the value is kept and the
      whitespace after it skipped. */
  function Trail(p: Parsed<int>): (r: Parsed<int>)
    ensures r.Done? <==> p.Done?
    ensures r.Done? ==> r.value == p.value && |r.rest| <= |p.rest|
    ensures r.Panic? <==> p.Panic?
  {
    match p
    case Done(v, u) => Done(v, Multispace0(u))
    case Fail => Fail
    case Panic => Panic
  }

  /** The closing `tag(")")` of `parens`: it must follow the expression. */
  function Close(p: Parsed<int>): (r: Parsed<int>)
    ensures r.Done? ==> p.Done? && r.value == p.value && |p.rest| > 0 && p.rest[0] == ')' && r.rest == p.rest[1..]
    ensures r.Panic? <==> p.Panic?
  {
    match p
    case Done(v, t) => if |t| > 0 && t[0] == ')' then Done(v, t[1..]) else Fail
    case Fail => Fail
    case Panic => Panic
  }

  /** `map_res(digit1, |s| s.parse())` (parser_rev.rs:20-22,
      parser_same.rs:20-22): one or more decimal digits read as an `i64`.
      There is no sign; a run of digits too large for an `i64` is an error. */
  function Number(s: string): (r: Parsed<int>)
    ensures !r.Panic?
    ensures r.Done? <==> 0 < DigitRun(s) && DigitsValue(s[..DigitRun(s)]) < I64Limit
    ensures r.Done? ==> r.value == DigitsValue(s[..DigitRun(s)]) && r.rest == s[DigitRun(s)..]
  {
    var k := DigitRun(s);
    if k == 0 then Fail
    else
      var v := DigitsValue(s[..k]);
      if v < I64Limit then Done(v, s[k..]) else Fail
  }

  /** A number written in decimal and followed by a non-digit reads back. */
  lemma NumberOfDecimal(n: nat, rest: string)
    requires n < I64Limit
    requires rest == [] || !IsDigit(rest[0])
    ensures Number(Decimal(n) + rest) == Done(n, rest)
  {
    var d := Decimal(n);
    DigitRunPrefix(d, rest);
    assert (d + rest)[..|d|] == d;
    assert (d + rest)[|d|..] == rest;
    DecimalValue(n);
  }

  /** The four operators. */
  datatype Op = Add | Sub | Mul | Div

  function OpChar(op: Op): char
  {
    match op
    case Add => '+'
    case Sub => '-'
    case Mul => '*'
    case Div => '/'
  }

  /** The operator a character stands for. */
  function CharOp(c: char): (r: Option<Op>)
    ensures r.Some? ==> OpChar(r.value) == c
    ensures r.None? <==> c !in "+-*/"
  {
    if c == '+' then Some(Add)
    else if c == '-' then Some(Sub)
    else if c == '*' then Some(Mul)
    else if c == '/' then Some(Div)
    else None
  }

  lemma CharOpChar(op: Op)
    ensures CharOp(OpChar(op)) == Some(op)
  {
  }

  /** Rust's `/` on `i64`: the quotient rounded toward zero. */
  function TruncDiv(a: int, b: int): int
    requires b != 0
  {
    var q := Abs(a) / Abs(b);
    if (a < 0) != (b < 0) then -q else q
  }

  function Abs(n: int): nat { if n < 0 then -n else n }

  /** One step of a fold's closure (parser_same.rs:37-43,
      parser_rev.rs:37-41 and 50-54). A division by zero panics, modelled
      as `None`. */
  function Apply(op: Op, a: int, b: int): (r: Option<int>)
    ensures r.None? <==> op == Div && b == 0
  {
    match op
    case Add => Some(a + b)
    case Sub => Some(a - b)
    case Mul => Some(a * b)
    case Div => if b == 0 then None else Some(TruncDiv(a, b))
  }

  /** An arithmetic expression as a tree. `Group` is a pair of
      parentheses the text writes around a subexpression. */
  datatype Expr = Num(n: nat) | Bin(op: Op, left: Expr, right: Expr) | Group(inner: Expr)

  /** Every literal of the tree fits an `i64`. */
  predicate Literals(e: Expr)
  {
    match e
    case Num(n) => n < I64Limit
    case Bin(_, l, r) => Literals(l) && Literals(r)
    case Group(g) => Literals(g)
  }

  /** The value of the tree, or `None` when it divides by zero. */
  function Eval(e: Expr): Option<int>
  {
    match e
    case Num(n) => Some(n)
    case Bin(op, l, r) => Combine(op, Eval(l), Eval(r))
    case Group(g) => Eval(g)
  }

  /** The value of an operation on two values, each of which may be a
      panic. */
  function Combine(op: Op, a: Option<int>, b: Option<int>): Option<int>
  {
    if a.None? || b.None? then None else Apply(op, a.value, b.value)
  }

  /** The parse of a tree's text after its value: `Done` with the value
      when it has one, a panic otherwise. */
  function Lift(v: Option<int>, rest: string): Parsed<int>
  {
    match v
    case None => Panic
    case Some(x) => Done(x, rest)
  }

  /** What may follow a number without being read as part of it. */
  predicate NoDigitFirst(rest: string)
  {
    rest == [] || !IsDigit(rest[0])
  }

  /** Whitespace before a character that is not whitespace is skipped. */
  lemma SkipSpace(c: char, rest: string)
    requires !IsMultispace(c)
    ensures Multispace0(" " + [c] + rest) == [c] + rest
  {
    assert (" " + [c] + rest)[1..] == [c] + rest;
  }

  lemma SkipOneSpace(s: string)
    ensures Multispace0(" " + s) == Multispace0(s)
  {
    assert (" " + s)[1..] == s;
  }
}
