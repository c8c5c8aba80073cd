/** Day 18, part two (parser_rev.rs): addition and subtraction bind more
    tightly than multiplication and division, so `1 * 2 + 3` is
    `1 * (2 + 3)`. Operators of one precedence apply from left to right. */
module Day18Rev {
  import opened Common
  import opened Day18Syntax

  /** `parens` (parser_rev.rs:16-18): an expression between `(` and `)`. */
  function Parens(s: string): (r: Parsed<int>)
    ensures r.Done? ==> |r.rest| < |s|
    decreases |s|, 0
  {
    if |s| > 0 && s[0] == '(' then Close(Expr(s[1..])) else Fail
  }

  /** `primary` and `term` (parser_rev.rs:24-30): a number or a
      parenthesised expression, with the whitespace around it. */
  function Primary(s: string): (r: Parsed<int>)
    ensures r.Done? ==> |r.rest| < |s|
    decreases |s|, 1
  {
    var t := Multispace0(s);
    Trail(if Number(t).Fail? then Parens(t) else Number(t))
  }

  /** The operators `factor` folds over: `+` and `-`. */
  function AddOp(c: char): (r: Option<Op>)
    ensures r.Some? <==> c == '+' || c == '-'
    ensures r.Some? ==> OpChar(r.value) == c
  {
    if c == '+' then Some(Add) else if c == '-' then Some(Sub) else None
  }

  /** The operators `expr` folds over: `*` and `/`. */
  function MulOp(c: char): (r: Option<Op>)
    ensures r.Some? <==> c == '*' || c == '/'
    ensures r.Some? ==> OpChar(r.value) == c
  {
    if c == '*' then Some(Mul) else if c == '/' then Some(Div) else None
  }

  /** `factor` (parser_rev.rs:32-43): a term, then the fold over `+` and
      `-`. */
  function Factor(s: string): (r: Parsed<int>)
    ensures r.Done? ==> |r.rest| < |s|
    decreases |s|, 2
  {
    match Primary(s)
    case Done(v, t) => FoldAdd(v, t)
    case Fail => Fail
    case Panic => Panic
  }

  /** The `fold_many0` of `factor` (parser_rev.rs:34-42): while `+` or `-`
      and a term follow, the accumulated value is combined with the term. */
  function FoldAdd(acc: int, s: string): (r: Parsed<int>)
    ensures r.Done? ==> |r.rest| <= |s|
    decreases |s|, 3
  {
    if |s| == 0 || AddOp(s[0]).None? then Done(acc, s)
    else
      match Primary(s[1..])
      case Fail => Done(acc, s)
      case Panic => Panic
      case Done(v, t) =>
        match Apply(AddOp(s[0]).value, acc, v)
        case None => Panic
        case Some(a) => FoldAdd(a, t)
  }

  /** `expr` (parser_rev.rs:45-56): a factor, then the fold over `*` and
      `/`. */
  function Expr(s: string): (r: Parsed<int>)
    ensures r.Done? ==> |r.rest| < |s|
    decreases |s|, 4
  {
    match Factor(s)
    case Done(v, t) => FoldMul(v, t)
    case Fail => Fail
    case Panic => Panic
  }

  /** The `fold_many0` of `expr` (parser_rev.rs:47-55): while `*` or `/`
      and a factor follow, the accumulated value is combined with the
      factor. A division by zero panics. */
  function FoldMul(acc: int, s: string): (r: Parsed<int>)
    ensures r.Done? ==> |r.rest| <= |s|
    decreases |s|, 5
  {
    if |s| == 0 || MulOp(s[0]).None? then Done(acc, s)
    else
      match Factor(s[1..])
      case Fail => Done(acc, s)
      case Panic => Panic
      case Done(v, t) =>
        match Apply(MulOp(s[0]).value, acc, v)
        case None => Panic
        case Some(a) => FoldMul(a, t)
  }

  /** `parse` (parser_rev.rs:58-62): the value of a whole line. A parse
      error, input left over or a division by zero panics, modelled as
      `None`. */
  function Parse(line: string): (r: Option<int>)
    ensures r.Some? <==> Expr(line).Done? && Expr(line).rest == []
  {
    match Expr(line)
    case Done(v, rest) => if rest == [] then Some(v) else None
    case _ => None
  }

  // ---------------------------------------------------------------------------
  // The text of a tree, with the parentheses the reversed precedence needs

  predicate Additive(e: Expr)
  {
    e.Bin? && (e.op == Add || e.op == Sub)
  }

  predicate Multiplicative(e: Expr)
  {
    e.Bin? && (e.op == Mul || e.op == Div)
  }

  /** The text of a tree as a whole expression: a chain of factors joined
      by `*` and `/`. */
  function Text(e: Expr): string
    decreases e, if Multiplicative(e) then 0 else if Additive(e) then 1 else 2
  {
    if Multiplicative(e) then Text(e.left) + " " + [OpChar(e.op)] + " " + FactorText(e.right)
    else FactorText(e)
  }

  /** The text of a tree as a factor: a chain of terms joined by `+` and
      `-`. */
  function FactorText(e: Expr): string
    decreases e, if Additive(e) then 0 else if Multiplicative(e) then 2 else 1
  {
    if Additive(e) then FactorText(e.left) + " " + [OpChar(e.op)] + " " + TermText(e.right)
    else TermText(e)
  }

  /** The text of a tree as a term: a number, or parentheses around it. */
  function TermText(e: Expr): string
    decreases e, if Additive(e) then 2 else if Multiplicative(e) then 1 else 0
  {
    match e
    case Num(n) => Decimal(n)
    case Group(g) => "(" + Text(g) + ")"
    case Bin(_, _, _) => "(" + Text(e) + ")"
  }

  /** The fold over `+` and `-` after a value, or a panic. */
  function ThenAdd(v: Option<int>, rest: string): Parsed<int>
  {
    match v
    case None => Panic
    case Some(x) => FoldAdd(x, rest)
  }

  /** The fold over `*` and `/` after a value, or a panic. */
  function ThenMul(v: Option<int>, rest: string): Parsed<int>
  {
    match v
    case None => Panic
    case Some(x) => FoldMul(x, rest)
  }

  /** Input that does not go on with `+` or `-`. */
  predicate NoAddFirst(s: string)
  {
    s == [] || AddOp(s[0]).None?
  }

  /** A term's text parses to the term's value, and the whitespace after it
      is skipped. */
  lemma {:induction false} TermParses(e: Expr, rest: string)
    requires Literals(e) && NoDigitFirst(rest)
    ensures Primary(TermText(e) + rest) == Lift(Eval(e), Multispace0(rest))
    decreases e, if Additive(e) then 2 else if Multiplicative(e) then 1 else 0
  {
    if e.Num? {
      PrimaryOfNumber(e.n, rest);
    } else {
      var body := if e.Bin? then e else e.inner;
      assert TermText(e) == "(" + Text(body) + ")";
      ExprParses(body, ")" + rest);
      PrimaryOfParens(Text(body), Eval(body), rest);
    }
  }

  /** A factor's text followed by more input: its value starts the fold
      over `+` and `-`. */
  lemma {:induction false} FactorParses(e: Expr, rest: string)
    requires Literals(e) && NoDigitFirst(rest)
    ensures Factor(FactorText(e) + rest) == ThenAdd(Eval(e), Multispace0(rest))
    decreases e, if Additive(e) then 0 else if Multiplicative(e) then 2 else 1
  {
    if Additive(e) {
      var l, r := e.left, e.right;
      var tail := " " + [OpChar(e.op)] + " " + TermText(r) + rest;
      assert FactorText(e) + rest == FactorText(l) + tail;
      FactorParses(l, tail);
      TermParses(r, rest);
      FactorOfOperation(FactorText(l), Eval(l), e.op, TermText(r), Eval(r), rest);
    } else {
      TermParses(e, rest);
    }
  }

  /** An expression's text followed by input that does not go on with `+`
      or `-`: its value starts the fold over `*` and `/`. */
  lemma {:induction false} ExprParses(e: Expr, rest: string)
    requires Literals(e) && NoDigitFirst(rest) && NoAddFirst(Multispace0(rest))
    ensures Expr(Text(e) + rest) == ThenMul(Eval(e), Multispace0(rest))
    decreases e, if Multiplicative(e) then 0 else if Additive(e) then 1 else 2
  {
    if Multiplicative(e) {
      var l, r := e.left, e.right;
      var c := OpChar(e.op);
      var tail := " " + [c] + " " + FactorText(r) + rest;
      assert Text(e) + rest == Text(l) + tail;
      assert tail == " " + ([c] + (" " + FactorText(r) + rest));
      SkipOneSpace([c] + (" " + FactorText(r) + rest));
      NoSpaceFirst([c] + (" " + FactorText(r) + rest));
      ExprParses(l, tail);
      FactorParses(r, rest);
      ExprOfOperation(Text(l), Eval(l), e.op, FactorText(r), Eval(r), rest);
    } else {
      FactorParses(e, rest);
      ExprOfFactor(FactorText(e) + rest, Eval(e), Multispace0(rest));
    }
  }

  /** Parsing the text of any tree gives its value, or panics when it
      divides by zero. */
  lemma ParseText(e: Expr)
    requires Literals(e)
    ensures Parse(Text(e)) == Eval(e)
  {
    ExprParses(e, []);
    assert Text(e) + [] == Text(e);
  }

  /** Text left after a whole expression makes the parse panic. */
  lemma TrailingTextPanics(e: Expr, c: char, rest: string)
    requires Literals(e) && !IsDigit(c) && !IsMultispace(c) && CharOp(c).None?
    ensures Parse(Text(e) + [c] + rest) == None
  {
    NoSpaceFirst([c] + rest);
    ExprParses(e, [c] + rest);
    assert Text(e) + [c] + rest == Text(e) + ([c] + rest);
  }

  // ---------------------------------------------------------------------------
  // One parsing step at a time

  /** A number followed by a non-digit is a term. */
  lemma PrimaryOfNumber(n: nat, rest: string)
    requires n < I64Limit && NoDigitFirst(rest)
    ensures Primary(Decimal(n) + rest) == Done(n, Multispace0(rest))
  {
    NoSpaceFirst(Decimal(n) + rest);
    NumberOfDecimal(n, rest);
  }

  /** A term starting with `(` is a parenthesised expression. */
  lemma PrimaryOfParensText(s: string)
    requires |s| > 0 && s[0] == '('
    ensures Primary(s) == Trail(Close(Expr(s[1..])))
  {
    NoSpaceFirst(s);
    assert Number(s).Fail?;
  }

  /** An expression's text in parentheses is a term with the expression's
      value. */
  lemma PrimaryOfParens(text: string, v: Option<int>, rest: string)
    requires Expr(text + (")" + rest)) == ThenMul(v, Multispace0(")" + rest))
    ensures Primary("(" + text + ")" + rest) == Lift(v, Multispace0(rest))
  {
    var close := ")" + rest;
    var s := "(" + text + ")" + rest;
    assert s == "(" + (text + close);
    assert s[1..] == text + close;
    PrimaryOfParensText(s);
    NoSpaceFirst(close);
    if v.Some? {
      assert FoldMul(v.value, close) == Done(v.value, close);
      assert close[1..] == rest;
    }
  }

  /** `+` or `-` and a term after a factor's text: the fold goes on with
      the operation's value. */
  lemma FactorOfOperation(left: string, a: Option<int>, op: Op, right: string, b: Option<int>, rest: string)
    requires op == Add || op == Sub
    requires Factor(left + (" " + [OpChar(op)] + " " + right + rest)) ==
      ThenAdd(a, Multispace0(" " + [OpChar(op)] + " " + right + rest))
    requires Primary(right + rest) == Lift(b, Multispace0(rest))
    ensures Factor(left + " " + [OpChar(op)] + " " + right + rest) == ThenAdd(Combine(op, a, b), Multispace0(rest))
  {
    var c := OpChar(op);
    JoinOperator(left, c, right, rest);
    OperatorText(c, right, rest);
    if a.Some? {
      FoldAddStep(a.value, op, right + rest, b, rest);
    }
  }

  /** `*` or `/` and a factor after an expression's text: the fold goes on
      with the operation's value. */
  lemma ExprOfOperation(left: string, a: Option<int>, op: Op, right: string, b: Option<int>, rest: string)
    requires op == Mul || op == Div
    requires Expr(left + (" " + [OpChar(op)] + " " + right + rest)) ==
      ThenMul(a, Multispace0(" " + [OpChar(op)] + " " + right + rest))
    requires Factor(right + rest) == ThenAdd(b, Multispace0(rest))
    requires NoAddFirst(Multispace0(rest))
    ensures Expr(left + " " + [OpChar(op)] + " " + right + rest) == ThenMul(Combine(op, a, b), Multispace0(rest))
  {
    var c := OpChar(op);
    JoinOperator(left, c, right, rest);
    OperatorText(c, right, rest);
    if a.Some? {
      FactorStops(b, Multispace0(rest));
      FoldMulStep(a.value, op, right + rest, b, rest);
    }
  }

  /** Regrouping an operation's text around its left operand. */
  lemma JoinOperator(left: string, c: char, right: string, rest: string)
    ensures left + " " + [c] + " " + right + rest == left + (" " + [c] + " " + right + rest)
  {
  }

  /** The whitespace before an operator is skipped. */
  lemma OperatorText(c: char, right: string, rest: string)
    requires !IsMultispace(c)
    ensures Multispace0(" " + [c] + " " + right + rest) == [c] + (" " + (right + rest))
  {
    assert " " + [c] + " " + right + rest == " " + ([c] + (" " + (right + rest)));
    SkipOneSpace([c] + (" " + (right + rest)));
    NoSpaceFirst([c] + (" " + (right + rest)));
  }

  /** The fold over `+` and `-` reads an operator and a term. */
  lemma FoldAddStep(acc: int, op: Op, operand: string, b: Option<int>, rest: string)
    requires op == Add || op == Sub
    requires Primary(operand) == Lift(b, Multispace0(rest))
    ensures FoldAdd(acc, [OpChar(op)] + (" " + operand)) == ThenAdd(Combine(op, Some(acc), b), Multispace0(rest))
  {
    FoldAddOperator(acc, op, " " + operand);
    PrimarySkipsSpace(operand);
  }

  /** The fold over `*` and `/` reads an operator and a factor. */
  lemma FoldMulStep(acc: int, op: Op, operand: string, b: Option<int>, rest: string)
    requires op == Mul || op == Div
    requires Factor(operand) == Lift(b, Multispace0(rest))
    ensures FoldMul(acc, [OpChar(op)] + (" " + operand)) == ThenMul(Combine(op, Some(acc), b), Multispace0(rest))
  {
    FoldMulOperator(acc, op, " " + operand);
    FactorSkipsSpace(operand);
  }

  /** `+` or `-` is followed by a term, or the fold stops before it. */
  lemma FoldAddOperator(acc: int, op: Op, s: string)
    requires op == Add || op == Sub
    ensures var p := Primary(s);
      FoldAdd(acc, [OpChar(op)] + s) ==
        if p.Fail? then Done(acc, [OpChar(op)] + s)
        else if p.Panic? || Apply(op, acc, p.value).None? then Panic
        else FoldAdd(Apply(op, acc, p.value).value, p.rest)
  {
    assert ([OpChar(op)] + s)[1..] == s;
  }

  /** `*` or `/` is followed by a factor, or the fold stops before it. */
  lemma FoldMulOperator(acc: int, op: Op, s: string)
    requires op == Mul || op == Div
    ensures var p := Factor(s);
      FoldMul(acc, [OpChar(op)] + s) ==
        if p.Fail? then Done(acc, [OpChar(op)] + s)
        else if p.Panic? || Apply(op, acc, p.value).None? then Panic
        else FoldMul(Apply(op, acc, p.value).value, p.rest)
  {
    assert ([OpChar(op)] + s)[1..] == s;
  }

  /** The fold over `+` and `-` stops where neither follows. */
  lemma FactorStops(b: Option<int>, t: string)
    requires NoAddFirst(t)
    ensures ThenAdd(b, t) == Lift(b, t)
  {
  }

  /** Whitespace before a term is skipped. */
  lemma PrimarySkipsSpace(s: string)
    ensures Primary(" " + s) == Primary(s)
  {
    SkipOneSpace(s);
  }

  /** Whitespace before a factor is skipped. */
  lemma FactorSkipsSpace(s: string)
    ensures Factor(" " + s) == Factor(s)
  {
    PrimarySkipsSpace(s);
  }

  /** A factor that `+` and `-` do not follow is a whole expression up to
      the fold over `*` and `/`. */
  lemma ExprOfFactor(s: string, v: Option<int>, t: string)
    requires Factor(s) == ThenAdd(v, t) && NoAddFirst(t)
    ensures Expr(s) == ThenMul(v, t)
  {
    if v.Some? {
      assert FoldAdd(v.value, t) == Done(v.value, t);
    }
  }

  // ---------------------------------------------------------------------------
  // The unit tests (parser_rev.rs:68-90)

  /** `1 + 2 * 3` is 9 (parser_rev.rs:70-71). */
  lemma SampleOne()
    ensures Parse("1 + 2 * 3") == Some(9)
  {
    var e := Bin(Mul, Bin(Add, Num(1), Num(2)), Num(3));
    ParseText(e);
    assert Text(e) == "1 + 2 * 3";
  }

  /** `1 + 2 * 3 + 4 * 5 + 6` is 231 (parser_rev.rs:73-74). */
  lemma SampleTwo()
    ensures Parse("1 + 2 * 3 + 4 * 5 + 6") == Some(231)
  {
    var e := Bin(Mul, Bin(Mul, Bin(Add, Num(1), Num(2)), Bin(Add, Num(3), Num(4))), Bin(Add, Num(5), Num(6)));
    ParseText(e);
    SampleTwoText(e);
  }

  lemma SampleTwoText(e: Expr)
    requires e == Bin(Mul, Bin(Mul, Bin(Add, Num(1), Num(2)), Bin(Add, Num(3), Num(4))), Bin(Add, Num(5), Num(6)))
    ensures Text(e) == "1 + 2 * 3 + 4 * 5 + 6"
  {
    SampleTwoLeft(e.left);
    assert FactorText(e.right) == "5 + 6";
    assert Text(e) == Text(e.left) + " " + [OpChar(Mul)] + " " + FactorText(e.right);
    SampleTwoJoin(Text(e.left), FactorText(e.right));
  }

  lemma SampleTwoLeft(e: Expr)
    requires e == Bin(Mul, Bin(Add, Num(1), Num(2)), Bin(Add, Num(3), Num(4)))
    ensures Text(e) == "1 + 2 * 3 + 4"
  {
    assert Text(e.left) == "1 + 2";
    assert FactorText(e.right) == "3 + 4";
    assert Text(e) == Text(e.left) + " " + [OpChar(Mul)] + " " + FactorText(e.right);
    SampleTwoLeftJoin(Text(e.left), FactorText(e.right));
  }

  lemma SampleTwoLeftJoin(a: string, b: string)
    requires a == "1 + 2" && b == "3 + 4"
    ensures a + " " + ['*'] + " " + b == "1 + 2 * 3 + 4"
  {
  }

  lemma SampleTwoJoin(a: string, b: string)
    requires a == "1 + 2 * 3 + 4" && b == "5 + 6"
    ensures a + " " + ['*'] + " " + b == "1 + 2 * 3 + 4 * 5 + 6"
  {
  }

  /** `1 + (2 * 3) + (4 * (5 + 6))` is 51 (parser_rev.rs:76-77). */
  lemma SampleThree()
    ensures Parse("1 + (2 * 3) + (4 * (5 + 6))") == Some(51)
  {
    var product := Bin(Mul, Num(4), Group(Bin(Add, Num(5), Num(6))));
    var e := Bin(Add, Bin(Add, Num(1), Bin(Mul, Num(2), Num(3))), product);
    ParseText(e);
    SampleThreeText(e);
  }

  lemma SampleThreeText(e: Expr)
    requires e == Bin(Add, Bin(Add, Num(1), Bin(Mul, Num(2), Num(3))), Bin(Mul, Num(4), Group(Bin(Add, Num(5), Num(6)))))
    ensures Text(e) == "1 + (2 * 3) + (4 * (5 + 6))"
  {
    SampleThreeSum(e.left);
    SampleThreeProduct(e.right);
    assert Text(e) == FactorText(e.left) + " " + [OpChar(Add)] + " " + TermText(e.right);
    SampleThreeJoin(FactorText(e.left), TermText(e.right));
  }

  lemma SampleThreeJoin(a: string, b: string)
    requires a == "1 + (2 * 3)" && b == "(4 * (5 + 6))"
    ensures a + " " + ['+'] + " " + b == "1 + (2 * 3) + (4 * (5 + 6))"
  {
  }

  lemma SampleThreeSum(e: Expr)
    requires e == Bin(Add, Num(1), Bin(Mul, Num(2), Num(3)))
    ensures FactorText(e) == "1 + (2 * 3)"
  {
    assert TermText(e.right) == "(2 * 3)";
  }

  lemma SampleThreeProduct(e: Expr)
    requires e == Bin(Mul, Num(4), Group(Bin(Add, Num(5), Num(6))))
    ensures TermText(e) == "(4 * (5 + 6))"
  {
    assert Text(e.left) == "4";
    assert FactorText(e.right) == "(5 + 6)";
    assert Text(e) == Text(e.left) + " " + [OpChar(Mul)] + " " + FactorText(e.right);
    SampleThreeProductJoin(Text(e.left), FactorText(e.right));
  }

  lemma SampleThreeProductJoin(a: string, b: string)
    requires a == "4" && b == "(5 + 6)"
    ensures "(" + (a + " " + ['*'] + " " + b) + ")" == "(4 * (5 + 6))"
  {
  }

  /** `2 * 3 + (4 * 5)` is 46 (parser_rev.rs:79-80). */
  lemma SampleFour()
    ensures Parse("2 * 3 + (4 * 5)") == Some(46)
  {
    var e := Bin(Mul, Num(2), Bin(Add, Num(3), Bin(Mul, Num(4), Num(5))));
    ParseText(e);
    SampleFourText(e);
  }

  lemma SampleFourText(e: Expr)
    requires e == Bin(Mul, Num(2), Bin(Add, Num(3), Bin(Mul, Num(4), Num(5))))
    ensures Text(e) == "2 * 3 + (4 * 5)"
  {
    assert TermText(Bin(Mul, Num(4), Num(5))) == "(4 * 5)";
  }
}
