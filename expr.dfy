/** The expression tree of `arithgen/expr.py`: integer leaves and the four
    binary operators, exact evaluation, infix rendering with minimal
    parentheses, reverse-Polish rendering, and an optional display name that
    overrides both renderings. */
module ExprTree {
  import opened Wrappers
  import opened Decimal

  /** The operator of a binary node, with its order of operation (`level`)
      and whether it is subtraction or division (`is_negative`). */
  datatype Op = Add | Sub | Mul | Div {

    function Symbol(): string
    {
      match this
      case Add => "+"
      case Sub => "-"
      case Mul => "*"
      case Div => "/"
    }

    function Level(): int
    {
      match this
      case Add => 1
      case Sub => 1
      case Mul => 2
      case Div => 2
    }

    predicate IsNegative()
    {
      Sub? || Div?
    }
  }

  /** An `Integer` leaf or a binary node; `name`, when present, is the text
      the node is displayed as. */
  datatype Expr =
    | Integer(num: int, name: Option<string>)
    | Binary(op: Op, left: Expr, right: Expr, name: Option<string>)
  {
    /** `level`: the operator's order of operation, none for a leaf. */
    function Level(): Option<int>
    {
      if Binary? then Some(op.Level()) else None
    }
  }

  // Unnamed nodes, as the generator builds them.
  function Leaf(n: int): Expr { Integer(n, None) }
  function Addition(l: Expr, r: Expr): Expr { Binary(Add, l, r, None) }
  function Subtraction(l: Expr, r: Expr): Expr { Binary(Sub, l, r, None) }
  function Multiplication(l: Expr, r: Expr): Expr { Binary(Mul, l, r, None) }
  function Division(l: Expr, r: Expr): Expr { Binary(Div, l, r, None) }

  // ---------------------------------------------------------------------
  // Evaluation.

  /** The operator applied to exact values; division by zero has no value
      (Python raises `ZeroDivisionError`). */
  function Apply(op: Op, a: real, b: real): (r: Option<real>)
    ensures r.None? <==> (op == Div && b == 0.0)
  {
    match op
    case Add => Some(a + b)
    case Sub => Some(a - b)
    case Mul => Some(Times(a, b))
    case Div => if b == 0.0 then None else Some(Quot(a, b))
  }

  // Product and quotient by name, so that the solver can match them as
  // whole terms.
  function Times(x: real, y: real): real { x * y }
  function Quot(x: real, y: real): real requires y != 0.0 { x / y }

  /** `evaluate()`: the exact value of the tree, or none when some divisor
      evaluates to zero. */
  function Evaluate(e: Expr): Option<real>
  {
    match e
    case Integer(n, _) => Some(n as real)
    case Binary(op, l, r, _) =>
      match Evaluate(l)
      case None => None
      case Some(a) =>
        match Evaluate(r)
        case None => None
        case Some(b) => Apply(op, a, b)
  }

  // ---------------------------------------------------------------------
  // Rendering.

  /** The left operand is parenthesised when it binds more loosely. */
  predicate LeftNeedsParens(op: Op, l: Expr)
  {
    l.Binary? && l.op.Level() < op.Level()
  }

  /** The right operand is parenthesised when it binds more loosely, or
      equally loosely under `-` or `/`. */
  predicate RightNeedsParens(op: Op, r: Expr)
  {
    r.Binary? &&
    (r.op.Level() < op.Level() || (r.op.Level() == op.Level() && op.IsNegative()))
  }

  function Parenthesise(s: string, wrap: bool): string
  {
    if wrap then "(" + s + ")" else s
  }

  /** `str(e)`: the name if there is one, else the infix text. */
  function Str(e: Expr): string
    decreases e, 1
  {
    if e.name.Some? then e.name.value else ToString(e)
  }

  /** `to_string()`: infix text, each operand as `str` renders it. */
  function ToString(e: Expr): string
    decreases e, 0
  {
    match e
    case Integer(n, _) => IntToString(n)
    case Binary(op, l, r, _) =>
      Parenthesise(Str(l), LeftNeedsParens(op, l)) + " " + op.Symbol() + " " +
      Parenthesise(Str(r), RightNeedsParens(op, r))
  }

  /** `format(e, 'rpn')`: the name if there is one, else the RPN text. */
  function RpnStr(e: Expr): string
    decreases e, 1
  {
    if e.name.Some? then e.name.value else ToReversePolish(e)
  }

  /** `to_reverse_polish()`: left operand, right operand, operator. */
  function ToReversePolish(e: Expr): string
    decreases e, 0
  {
    match e
    case Integer(n, _) => IntToString(n)
    case Binary(op, l, r, _) => RpnStr(l) + " " + RpnStr(r) + " " + op.Symbol()
  }

  /** `Expression.__format__`: the name wins; otherwise `''` selects infix,
      `'rpn'` reverse Polish, and anything else is an error. */
  function Format(e: Expr, fmt: string): (r: Result<string>)
    ensures e.name.Some? ==> r == Ok(e.name.value)
    ensures e.name.None? && fmt == "" ==> r == Ok(ToString(e))
    ensures e.name.None? && fmt == "rpn" ==> r == Ok(ToReversePolish(e))
    ensures r.Err? <==> e.name.None? && fmt != "" && fmt != "rpn"
  {
    if e.name.Some? then Ok(e.name.value)
    else if fmt == "" then Ok(ToString(e))
    else if fmt == "rpn" then Ok(ToReversePolish(e))
    else Err("Unrecognized format string")
  }

  // ---------------------------------------------------------------------
  // Properties of the renderings.

  /** A leaf renders as the decimal text of its number, in both notations,
      and evaluates to it. */
  lemma IntegerRendering(n: int)
    ensures Format(Leaf(n), "") == Ok(IntToString(n))
    ensures Format(Leaf(n), "rpn") == Ok(IntToString(n))
    ensures Evaluate(Leaf(n)) == Some(n as real)
  {
  }

  /** No node of the tree carries a name. */
  predicate Unnamed(e: Expr)
  {
    e.name.None? && (e.Binary? ==> Unnamed(e.left) && Unnamed(e.right))
  }

  /** Every divisor in the tree evaluates to a nonzero value. */
  predicate Defined(e: Expr)
  {
    match e
    case Integer(_, _) => true
    case Binary(op, l, r, _) =>
      Defined(l) && Defined(r) && (op == Div ==> Evaluate(r) != Some(0.0))
  }

  /** Evaluation succeeds exactly on trees with no zero divisor. */
  lemma {:induction false} EvaluatesIffDefined(e: Expr)
    ensures Evaluate(e).Some? <==> Defined(e)
  {
    match e
    case Integer(_, _) =>
    case Binary(_, l, r, _) =>
      EvaluatesIffDefined(l);
      EvaluatesIffDefined(r);
  }

  /** A node that has a name shows exactly that name wherever it is an
      operand: a left operand at the start of its parent's text in both
      notations, a right operand at the end of its parent's infix text and
      just before the operator at the end of its RPN text (parenthesised in
      infix when the rules ask for it). */
  lemma NamedOperand(op: Op, l: Expr, r: Expr, name: Option<string>)
    ensures l.name.Some? ==>
      Parenthesise(l.name.value, LeftNeedsParens(op, l)) <= ToString(Binary(op, l, r, name)) &&
      l.name.value <= ToReversePolish(Binary(op, l, r, name))
    ensures r.name.Some? ==>
      IsSuffix(Parenthesise(r.name.value, RightNeedsParens(op, r)), ToString(Binary(op, l, r, name))) &&
      IsSuffix(r.name.value + " " + op.Symbol(), ToReversePolish(Binary(op, l, r, name)))
  {
    var s := ToString(Binary(op, l, r, name));
    var lt := Parenthesise(Str(l), LeftNeedsParens(op, l));
    var rt := Parenthesise(Str(r), RightNeedsParens(op, r));
    assert s == lt + (" " + op.Symbol() + " " + rt);
    assert s == (lt + " " + op.Symbol() + " ") + rt;
    var rp := RpnStr(l) + (" " + RpnStr(r) + " " + op.Symbol());
    assert ToReversePolish(Binary(op, l, r, name)) == rp;
    assert rp == (RpnStr(l) + " ") + (RpnStr(r) + " " + op.Symbol());
  }

  predicate IsSuffix(t: string, s: string)
  {
    |t| <= |s| && s[|s| - |t|..] == t
  }

  /** The decimal text of an integer holds no parenthesis. */
  lemma IntTextHasNoParens(n: int)
    ensures '(' !in IntToString(n) && ')' !in IntToString(n)
  {
    var m: nat := if n < 0 then -n else n;
    var d := NatToString(m);
    assert AllDigits(d);
    assert '(' !in d && ')' !in d by {
      forall i | 0 <= i < |d|
        ensures d[i] != '(' && d[i] != ')'
      {
        assert IsDigit(d[i]);
      }
    }
  }

  /** Reverse Polish text needs no parentheses: a tree without names renders
      without any. */
  lemma {:induction false} ReversePolishHasNoParens(e: Expr)
    requires Unnamed(e)
    ensures '(' !in ToReversePolish(e) && ')' !in ToReversePolish(e)
  {
    match e
    case Integer(n, _) => IntTextHasNoParens(n);
    case Binary(op, l, r, _) =>
      ReversePolishHasNoParens(l);
      ReversePolishHasNoParens(r);
      assert op.Symbol() == "+" || op.Symbol() == "-" || op.Symbol() == "*" || op.Symbol() == "/";
  }

  /** Dropping the parentheses around a right operand of the same level
      under `+` or `*` does not change the value: the text `a + b - c` read
      left to right means `(a + b) - c`, which equals `a + (b - c)`. This is
      why only `-` and `/` keep them. */
  lemma RegroupRight(op: Op, l: Expr, op2: Op, rl: Expr, rr: Expr)
    requires !op.IsNegative() && op2.Level() == op.Level()
    ensures Evaluate(Binary(op, l, Binary(op2, rl, rr, None), None)) ==
            Evaluate(Binary(op2, Binary(op, l, rl, None), rr, None))
  {
    if Evaluate(l).Some? && Evaluate(rl).Some? && Evaluate(rr).Some? {
      ApplyRegroup(op, op2, Evaluate(l).value, Evaluate(rl).value, Evaluate(rr).value);
    }
  }

  /** `RegroupRight` on values. */
  lemma ApplyRegroup(op: Op, op2: Op, a: real, b: real, c: real)
    requires !op.IsNegative() && op2.Level() == op.Level()
    ensures (match Apply(op2, b, c) case None => None case Some(v) => Apply(op, a, v)) ==
            (match Apply(op, a, b) case None => None case Some(v) => Apply(op2, v, c))
  {
    if op == Mul && op2 == Mul {
      TimesAssociative(a, b, c);
    } else if op == Mul && op2 == Div && c != 0.0 {
      TimesQuotAssociative(a, b, c);
    }
  }

  lemma TimesAssociative(a: real, b: real, c: real)
    ensures Times(a, Times(b, c)) == Times(Times(a, b), c)
  {
  }

  lemma TimesQuotAssociative(a: real, b: real, c: real)
    requires c != 0.0
    ensures Times(a, Quot(b, c)) == Quot(Times(a, b), c)
  {
    var q := b / c;
    assert q * c == b;
  }

  /** Under `-` and `/` the parentheses are needed: without them the text
      would mean a different value. */
  lemma SubtractionNeedsParens()
    ensures Evaluate(Subtraction(Leaf(1), Addition(Leaf(1), Leaf(1)))) == Some(-1.0)
    ensures Evaluate(Addition(Subtraction(Leaf(1), Leaf(1)), Leaf(1))) == Some(1.0)
  {
  }

  lemma DivisionNeedsParens()
    ensures Evaluate(Division(Leaf(1), Multiplication(Leaf(2), Leaf(2)))) == Some(0.25)
    ensures Evaluate(Multiplication(Division(Leaf(1), Leaf(2)), Leaf(2))) == Some(1.0)
  {
    assert Evaluate(Multiplication(Leaf(2), Leaf(2))) == Some(4.0);
    assert Evaluate(Division(Leaf(1), Leaf(2))) == Some(0.5);
  }

  // ---------------------------------------------------------------------
  // The regression trees of arithgen's test suite.

  /** `(4 + 2/5) / ((2*4 - 6/5) * (3/2 + 4/3))`. */
  function CompoundTree(): Expr
  {
    Division(
      Addition(Leaf(4), Division(Leaf(2), Leaf(5))),
      Multiplication(
        Subtraction(Multiplication(Leaf(2), Leaf(4)), Division(Leaf(6), Leaf(5))),
        Addition(Division(Leaf(3), Leaf(2)), Division(Leaf(4), Leaf(3)))))
  }

  /** `((3*4)/(2*6) - 3/(5+6)) + ((4+2)-(2-1))*6`. */
  function SampleTree(): Expr
  {
    Addition(
      Subtraction(
        Division(Multiplication(Leaf(3), Leaf(4)), Multiplication(Leaf(2), Leaf(6))),
        Division(Leaf(3), Addition(Leaf(5), Leaf(6)))),
      Multiplication(
        Subtraction(Addition(Leaf(4), Leaf(2)), Subtraction(Leaf(2), Leaf(1))),
        Leaf(6)))
  }

  lemma EvaluationExamples()
    ensures Evaluate(Leaf(9)) == Some(9.0)
    ensures Evaluate(Addition(Leaf(5), Leaf(6))) == Some(11.0)
    ensures Evaluate(Subtraction(Leaf(4), Leaf(7))) == Some(-3.0)
    ensures Evaluate(Multiplication(Leaf(3), Leaf(8))) == Some(24.0)
    ensures Evaluate(Division(Leaf(8), Leaf(6))) == Some(4.0 / 3.0)
    ensures Evaluate(CompoundTree()) == Some(66.0 / 289.0)
  {
  }

  /** The decimal text of a single digit. */
  lemma DigitText()
    ensures IntToString(1) == "1" && IntToString(2) == "2" && IntToString(3) == "3"
    ensures IntToString(4) == "4" && IntToString(5) == "5" && IntToString(6) == "6"
  {
  }

  lemma InfixExample()
    ensures ToString(SampleTree()) == "3 * 4 / (2 * 6) - 3 / (5 + 6) + (4 + 2 - (2 - 1)) * 6"
  {
    InfixLeft();
    InfixRight();
    InfixNode(Add, SampleTree().left, SampleTree().right,
      "3 * 4 / (2 * 6) - 3 / (5 + 6)", "(4 + 2 - (2 - 1)) * 6");
    InfixPiecesOuter();
  }

  /** One step of an infix rendering, with the operands' texts given. */
  lemma InfixNode(op: Op, l: Expr, r: Expr, sl: string, sr: string)
    requires l.name.None? && r.name.None? && ToString(l) == sl && ToString(r) == sr
    ensures ToString(Binary(op, l, r, None)) ==
            Parenthesise(sl, LeftNeedsParens(op, l)) + " " + op.Symbol() + " " +
            Parenthesise(sr, RightNeedsParens(op, r))
  {
  }

  // The text glued together at the inner nodes of the sample tree.
  lemma InfixPiecesOuter()
    ensures Parenthesise("3 * 4 / (2 * 6) - 3 / (5 + 6)", false) + " " + Add.Symbol() + " " +
            Parenthesise("(4 + 2 - (2 - 1)) * 6", false) ==
            "3 * 4 / (2 * 6) - 3 / (5 + 6) + (4 + 2 - (2 - 1)) * 6"
    ensures Parenthesise("3 * 4 / (2 * 6)", false) + " " + Sub.Symbol() + " " +
            Parenthesise("3 / (5 + 6)", false) == "3 * 4 / (2 * 6) - 3 / (5 + 6)"
  {
  }

  lemma InfixPiecesInner()
    ensures Parenthesise("3 * 4", false) + " " + Div.Symbol() + " " +
            Parenthesise("2 * 6", true) == "3 * 4 / (2 * 6)"
    ensures Parenthesise("3", false) + " " + Div.Symbol() + " " +
            Parenthesise("5 + 6", true) == "3 / (5 + 6)"
    ensures Parenthesise("4 + 2", false) + " " + Sub.Symbol() + " " +
            Parenthesise("2 - 1", true) == "4 + 2 - (2 - 1)"
    ensures Parenthesise("4 + 2 - (2 - 1)", true) + " " + Mul.Symbol() + " " +
            Parenthesise("6", false) == "(4 + 2 - (2 - 1)) * 6"
  {
  }

  lemma InfixLeft()
    ensures ToString(SampleTree().left) == "3 * 4 / (2 * 6) - 3 / (5 + 6)"
  {
    var t := SampleTree().left;
    InfixLeftLeft();
    InfixLeftRight();
    InfixNode(Sub, t.left, t.right, "3 * 4 / (2 * 6)", "3 / (5 + 6)");
    InfixPiecesOuter();
  }

  lemma InfixLeftLeft()
    ensures ToString(SampleTree().left.left) == "3 * 4 / (2 * 6)"
  {
    DigitText();
    var t := SampleTree().left.left;
    assert ToString(t.left) == "3 * 4";
    assert ToString(t.right) == "2 * 6";
    InfixNode(Div, t.left, t.right, "3 * 4", "2 * 6");
    InfixPiecesInner();
  }

  lemma InfixLeftRight()
    ensures ToString(SampleTree().left.right) == "3 / (5 + 6)"
  {
    DigitText();
    var t := SampleTree().left.right;
    assert ToString(t.right) == "5 + 6";
    InfixNode(Div, t.left, t.right, "3", "5 + 6");
    InfixPiecesInner();
  }

  lemma InfixRight()
    ensures ToString(SampleTree().right) == "(4 + 2 - (2 - 1)) * 6"
  {
    DigitText();
    var t := SampleTree().right;
    InfixRightLeft();
    InfixNode(Mul, t.left, t.right, "4 + 2 - (2 - 1)", "6");
    InfixPiecesInner();
  }

  lemma InfixRightLeft()
    ensures ToString(SampleTree().right.left) == "4 + 2 - (2 - 1)"
  {
    DigitText();
    var t := SampleTree().right.left;
    assert ToString(t.left) == "4 + 2";
    assert ToString(t.right) == "2 - 1";
    InfixNode(Sub, t.left, t.right, "4 + 2", "2 - 1");
    InfixPiecesInner();
  }

  lemma ReversePolishExample()
    ensures ToReversePolish(SampleTree()) == "3 4 * 2 6 * / 3 5 6 + / - 4 2 + 2 1 - - 6 * +"
  {
    ReversePolishLeft();
    ReversePolishRight();
  }

  lemma ReversePolishLeft()
    ensures ToReversePolish(SampleTree().left) == "3 4 * 2 6 * / 3 5 6 + / -"
  {
    ReversePolishLeftLeft();
    ReversePolishLeftRight();
  }

  lemma ReversePolishLeftLeft()
    ensures ToReversePolish(SampleTree().left.left) == "3 4 * 2 6 * /"
  {
    DigitText();
    var t := SampleTree().left.left;
    assert ToReversePolish(t.left) == "3 4 *";
    assert ToReversePolish(t.right) == "2 6 *";
  }

  lemma ReversePolishLeftRight()
    ensures ToReversePolish(SampleTree().left.right) == "3 5 6 + /"
  {
    DigitText();
    var t := SampleTree().left.right;
    assert ToReversePolish(t.right) == "5 6 +";
  }

  lemma ReversePolishRight()
    ensures ToReversePolish(SampleTree().right) == "4 2 + 2 1 - - 6 *"
  {
    DigitText();
    var t := SampleTree().right;
    assert ToReversePolish(t.left) == "4 2 + 2 1 - -" by {
      assert ToReversePolish(t.left.left) == "4 2 +";
      assert ToReversePolish(t.left.right) == "2 1 -";
    }
  }
}
