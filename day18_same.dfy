/** Day 18, part one (parser_same.rs): the four operators share one
    precedence and apply from left to right, so `1 + 2 * 3` is
    `(1 + 2) * 3`. */
module Day18Same {
  import opened Common
  import opened Day18Syntax

  /** `parens` (parser_same.rs:16-18): an expression between `(` and `)`. */
  function Parens(s: string): (r: Parsed<int>)
    ensures r.Done? ==> |r.rest| < |s|
    decreases |s|, 0
  {
    if |s| > 0 && s[0] == '(' then
      Close(Expr(s[1..]))
    else Fail
  }

  /** `primary` and `term` (parser_same.rs:24-30): a number or a
      parenthesised expression, with the whitespace around it. */
  function Primary(s: string): (r: Parsed<int>)
    ensures r.Done? ==> |r.rest| < |s|
    decreases |s|, 1
  {
    var t := Multispace0(s);
    var p := if Number(t).Fail? then Parens(t) else Number(t);
    Trail(p)
  }

  /** The `fold_many0` of `expr` (parser_same.rs:34-44): while an operator
      and a term follow, the accumulated value is combined with the term.
      The fold stops, leaving the operator unread, at the first operator
      without a term after it. */
  function Fold(acc: int, s: string): (r: Parsed<int>)
    ensures r.Done? ==> |r.rest| <= |s|
    decreases |s|, 3
  {
    if |s| == 0 || CharOp(s[0]).None? then Done(acc, s)
    else
      match Primary(s[1..])
      case Fail => Done(acc, s)
      case Panic => Panic
      case Done(v, t) =>
        match Apply(CharOp(s[0]).value, acc, v)
        case None => Panic
        case Some(a) => Fold(a, t)
  }

  /** `expr` (parser_same.rs:32-45): a term, then the fold. */
  function Expr(s: string): (r: Parsed<int>)
    ensures r.Done? ==> |r.rest| < |s|
    decreases |s|, 2
  {
    match Primary(s)
    case Done(v, t) => Fold(v, t)
    case Fail => Fail
    case Panic => Panic
  }

  /** `parse` (parser_same.rs:47-51): the value of a whole line. A parse
      error, input left over or a division by zero panics, modelled as
      `None`. */
  function Parse(line: string): (r: Option<int>)
    ensures r.Some? <==> Expr(line).Done? && Expr(line).rest == []
  {
    match Expr(line)
    case Done(v, rest) => if rest == [] then Some(v) else None
    case _ => None
  }

  /** The text of an expression in the puzzle's format: operators between
      single spaces, and parentheses around a right operand that is itself
      an operation. */
  function Render(e: Expr): string
    decreases e, 0
  {
    match e
    case Num(n) => Decimal(n)
    case Bin(op, l, r) => Render(l) + " " + [OpChar(op)] + " " + Atom(r)
    case Group(g) => "(" + Render(g) + ")"
  }

  /** The text of a right operand. */
  function Atom(e: Expr): string
    decreases e, 1
  {
    if e.Bin? then "(" + Render(e) + ")" else Render(e)
  }

  /** The text of a tree starts with a digit or `(`. */
  lemma RenderStart(e: Expr)
    ensures |Render(e)| > 0 && (IsDigit(Render(e)[0]) || Render(e)[0] == '(')
  {
    match e
    case Num(n) =>
    case Bin(_, l, _) =>
      RenderStart(l);
    case Group(_) =>
  }

  /** The value a fold starts from after the text of a tree: a panic when
      the tree divides by zero. */
  function Then(v: Option<int>, rest: string): Parsed<int>
  {
    match v
    case None => Panic
    case Some(x) => Fold(x, rest)
  }

  /** A right operand's text parses as a term to the operand's value, and
      the whitespace after it is skipped. */
  lemma {:induction false} AtomParses(e: Expr, rest: string)
    requires Literals(e) && NoDigitFirst(rest)
    ensures Primary(Atom(e) + rest) == Lift(Eval(e), Multispace0(rest))
    decreases e, if e.Bin? then 2 else 0
  {
    if e.Num? {
      assert Atom(e) == Decimal(e.n);
      PrimaryOfNumber(e.n, rest);
    } else {
      var body := if e.Bin? then e else e.inner;
      assert Atom(e) == "(" + Render(body) + ")";
      RenderParses(body, ")" + rest);
      PrimaryOfParens(Render(body), Eval(body), rest);
    }
  }

  /** The text of a tree followed by more input parses as an expression:
      its value becomes the fold's starting value for what follows. */
  lemma {:induction false} RenderParses(e: Expr, rest: string)
    requires Literals(e) && NoDigitFirst(rest)
    ensures Expr(Render(e) + rest) == Then(Eval(e), Multispace0(rest))
    decreases e, 1
  {
    match e
    case Bin(op, l, r) =>
      var tail := " " + ([OpChar(op)] + (" " + (Atom(r) + rest)));
      assert Render(e) + rest == Render(l) + tail;
      RenderParses(l, tail);
      AtomParses(r, rest);
      ExprOfOperation(Render(l), Eval(l), op, Atom(r), Eval(r), rest);
    case _ =>
      assert Render(e) == Atom(e);
      AtomParses(e, rest);
  }

  /** A number followed by a non-digit is a term. */
  lemma PrimaryOfNumber(n: nat, rest: string)
    requires n < I64Limit && NoDigitFirst(rest)
    ensures Primary(Decimal(n) + rest) == Done(n, Multispace0(rest))
  {
    NoSpaceFirst(Decimal(n) + rest);
    NumberOfDecimal(n, rest);
  }

  /** An expression's text in parentheses is a term with the expression's
      value. */
  lemma PrimaryOfParens(text: string, v: Option<int>, rest: string)
    requires Expr(text + (")" + rest)) == Then(v, Multispace0(")" + rest))
    ensures Primary("(" + text + ")" + rest) == Lift(v, Multispace0(rest))
  {
    var close := ")" + rest;
    var s := "(" + text + ")" + rest;
    assert s == "(" + (text + close);
    assert s[1..] == text + close;
    PrimaryOfParensText(s);
    NoSpaceFirst(close);
    if v.Some? {
      FoldStops(v.value, close);
      assert close[1..] == rest;
    }
  }

  /** An operator and a term after a left operand's text: the fold goes on
      with the operation's value. */
  lemma ExprOfOperation(left: string, a: Option<int>, op: Op, right: string, b: Option<int>, rest: string)
    requires Expr(left + (" " + ([OpChar(op)] + (" " + (right + rest))))) ==
      Then(a, Multispace0(" " + ([OpChar(op)] + (" " + (right + rest)))))
    requires Primary(right + rest) == Lift(b, Multispace0(rest))
    ensures Expr(left + (" " + ([OpChar(op)] + (" " + (right + rest))))) == Then(Combine(op, a, b), Multispace0(rest))
  {
    var operand := right + rest;
    SkipOneSpace([OpChar(op)] + (" " + operand));
    NoSpaceFirst([OpChar(op)] + (" " + operand));
    if a.Some? {
      FoldAfterOperand(a.value, op, operand, b, Multispace0(rest));
    }
  }

  /** The fold over an operator and the operand after it. */
  lemma FoldAfterOperand(acc: int, op: Op, operand: string, b: Option<int>, r: string)
    requires Primary(operand) == Lift(b, r)
    ensures Fold(acc, [OpChar(op)] + (" " + operand)) == Then(Combine(op, Some(acc), b), r)
  {
    FoldOperator(acc, op, " " + operand);
    PrimarySkipsSpace(operand);
  }

  /** The fold stops where no operator follows. */
  lemma FoldStops(acc: int, s: string)
    requires s == [] || CharOp(s[0]).None?
    ensures Fold(acc, s) == Done(acc, s)
  {
  }

  /** A term starting with `(` is a parenthesised expression. */
  lemma PrimaryOfParensText(s: string)
    requires |s| > 0 && s[0] == '('
    ensures Primary(s) == Trail(Close(Expr(s[1..])))
  {
    NoSpaceFirst(s);
    assert Number(s).Fail?;
  }

  /** An operator is followed by a term, or the fold stops before it. */
  lemma FoldOperator(acc: int, op: Op, s: string)
    ensures var p := Primary(s);
      Fold(acc, [OpChar(op)] + s) ==
        if p.Fail? then Done(acc, [OpChar(op)] + s)
        else if p.Panic? || Apply(op, acc, p.value).None? then Panic
        else Fold(Apply(op, acc, p.value).value, p.rest)
  {
    CharOpChar(op);
    assert ([OpChar(op)] + s)[1..] == s;
  }

  /** Whitespace before a term is skipped. */
  lemma PrimarySkipsSpace(s: string)
    ensures Primary(" " + s) == Primary(s)
  {
    SkipOneSpace(s);
  }

  /** Parsing the text of any tree gives its value, or panics when it
      divides by zero. */
  lemma ParseRender(e: Expr)
    requires Literals(e)
    ensures Parse(Render(e)) == Eval(e)
  {
    RenderParses(e, []);
    assert Render(e) + [] == Render(e);
  }

  /** Text left after a whole expression makes the parse panic. */
  lemma TrailingTextPanics(e: Expr, c: char, rest: string)
    requires Literals(e) && !IsDigit(c) && !IsMultispace(c) && CharOp(c).None?
    ensures Parse(Render(e) + [c] + rest) == None
  {
    RenderParses(e, [c] + rest);
    assert Render(e) + [c] + rest == Render(e) + ([c] + rest);
  }

  /** `1 + 2 * 3` is 9 (parser_same.rs:59-60). */
  lemma SampleOne()
    ensures Parse("1 + 2 * 3") == Some(9)
  {
    var e := Bin(Mul, Bin(Add, Num(1), Num(2)), Num(3));
    ParseRender(e);
    assert Render(e) == "1 + 2 * 3";
  }

  /** `1 + 2 * 3 + 4 * 5 + 6` is 71 (parser_same.rs:62-63). */
  lemma SampleTwo()
    ensures Parse("1 + 2 * 3 + 4 * 5 + 6") == Some(71)
  {
    var e1 := Bin(Add, Num(1), Num(2));
    var e2 := Bin(Mul, e1, Num(3));
    var e3 := Bin(Add, e2, Num(4));
    var e4 := Bin(Mul, e3, Num(5));
    var e := Bin(Add, e4, Num(6));
    assert Render(e2) == "1 + 2 * 3";
    assert Render(e4) == "1 + 2 * 3 + 4 * 5";
    assert Render(e) == "1 + 2 * 3 + 4 * 5 + 6";
    ParseRender(e);
  }

  /** `2 * 3 + (4 * 5)` is 26 (parser_same.rs:65-66). */
  lemma SampleThree()
    ensures Parse("2 * 3 + (4 * 5)") == Some(26)
  {
    var left := Bin(Mul, Num(2), Num(3));
    var right := Bin(Mul, Num(4), Num(5));
    assert Render(left) == "2 * 3";
    assert Atom(right) == "(4 * 5)";
    var e := Bin(Add, left, right);
    ParseRender(e);
    assert Render(e) == "2 * 3 + (4 * 5)";
  }

}
