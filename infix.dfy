/** Reading back the infix text of `arithgen/expr.py`. A lexer and a
    recursive-descent parser with the usual rules (`*` and `/` bind tighter
    than `+` and `-`, and operators of one level group to the left) give an
    independent meaning to the text `to_string()` writes; reading the text
    of a tree without names yields exactly the value of `evaluate()`, so
    the parentheses the renderer leaves out are never needed. */
module Infix {
  import opened Wrappers
  import opened Decimal
  import opened ExprTree

  /** A lexical token of infix text. */
  datatype Tok = Number(n: int) | OpTok(op: Op) | Open | Close

  // ---------------------------------------------------------------------
  // The text as tokens.

  function Wrap(ts: seq<Tok>, wrap: bool): seq<Tok>
  {
    if wrap then [Open] + ts + [Close] else ts
  }

  /** The tokens of the infix text of a tree without names. */
  function Tokens(e: Expr): (ts: seq<Tok>)
    ensures |ts| >= 1
    ensures ts[0].Number? || ts[0] == Open
    ensures ts[|ts| - 1].Number? || ts[|ts| - 1] == Close
  {
    match e
    case Integer(n, _) => [Number(n)]
    case Binary(op, l, r, _) =>
      Wrap(Tokens(l), LeftNeedsParens(op, l)) + [OpTok(op)] + Wrap(Tokens(r), RightNeedsParens(op, r))
  }

  function TokText(t: Tok): string
  {
    match t
    case Number(n) => IntToString(n)
    case OpTok(op) => op.Symbol()
    case Open => "("
    case Close => ")"
  }

  /** The separator between two adjacent tokens: none inside a pair of
      parentheses, one space everywhere else. */
  function Gap(t: Tok, u: Tok): string
  {
    if t == Open || u == Close then "" else " "
  }

  /** Tokens laid out as text. */
  function Layout(ts: seq<Tok>): string
  {
    if |ts| == 0 then ""
    else if |ts| == 1 then TokText(ts[0])
    else TokText(ts[0]) + Gap(ts[0], ts[1]) + Layout(ts[1..])
  }

  lemma {:induction false} LayoutAppend(a: seq<Tok>, b: seq<Tok>)
    requires |a| >= 1 && |b| >= 1
    ensures Layout(a + b) == Layout(a) + Gap(a[|a| - 1], b[0]) + Layout(b)
    decreases |a|
  {
    if |a| == 1 {
      assert (a + b)[1..] == b;
    } else {
      assert (a + b)[1..] == a[1..] + b;
      LayoutAppend(a[1..], b);
    }
  }

  lemma LayoutOpen(ts: seq<Tok>)
    requires |ts| >= 1
    ensures Layout([Open] + ts) == "(" + Layout(ts)
  {
    assert ([Open] + ts)[1..] == ts;
  }

  lemma LayoutClose(ts: seq<Tok>)
    requires |ts| >= 1
    ensures Layout(ts + [Close]) == Layout(ts) + ")"
  {
    LayoutAppend(ts, [Close]);
  }

  lemma LayoutWrap(ts: seq<Tok>, wrap: bool)
    requires |ts| >= 1
    ensures Layout(Wrap(ts, wrap)) == Parenthesise(Layout(ts), wrap)
  {
    if wrap {
      LayoutOpen(ts);
      LayoutClose([Open] + ts);
    }
  }

  /** The infix text is the layout of the tokens. */
  lemma {:induction false} TextIsLayout(e: Expr)
    requires Unnamed(e)
    ensures ToString(e) == Layout(Tokens(e))
  {
    match e
    case Integer(_, _) =>
    case Binary(op, l, r, _) =>
      TextIsLayout(l);
      TextIsLayout(r);
      var lt := Wrap(Tokens(l), LeftNeedsParens(op, l));
      var rt := Wrap(Tokens(r), RightNeedsParens(op, r));
      LayoutWrap(Tokens(l), LeftNeedsParens(op, l));
      LayoutWrap(Tokens(r), RightNeedsParens(op, r));
      LayoutAppend(lt, [OpTok(op)]);
      LayoutAppend(lt + [OpTok(op)], rt);
      assert Tokens(e) == lt + [OpTok(op)] + rt;
  }

  // ---------------------------------------------------------------------
  // The lexer.

  /** The number of leading digits. */
  function DigitSpan(s: string): (k: nat)
    ensures k <= |s| && AllDigits(s[..k])
  {
    if |s| > 0 && IsDigit(s[0]) then
      assert s[..1 + DigitSpan(s[1..])] == [s[0]] + s[1..][..DigitSpan(s[1..])];
      1 + DigitSpan(s[1..])
    else 0
  }

  function Cons(t: Tok, r: Option<seq<Tok>>): Option<seq<Tok>>
  {
    match r
    case None => None
    case Some(ts) => Some([t] + ts)
  }

  function SymbolOp(c: char): Option<Op>
  {
    if c == '+' then Some(Add)
    else if c == '-' then Some(Sub)
    else if c == '*' then Some(Mul)
    else if c == '/' then Some(Div)
    else None
  }

  /** Splits text into tokens: spaces separate, a run of digits is a number,
      a `-` directly followed by a digit starts a negative number, and any
      other character than an operator or a parenthesis is an error. */
  function Lex(s: string): Option<seq<Tok>>
    decreases |s|
  {
    if |s| == 0 then Some([])
    else if s[0] == ' ' then Lex(s[1..])
    else if s[0] == '(' then Cons(Open, Lex(s[1..]))
    else if s[0] == ')' then Cons(Close, Lex(s[1..]))
    else if IsDigit(s[0]) then
      var k := DigitSpan(s);
      Cons(Number(DigitsValue(s[..k])), Lex(s[k..]))
    else if s[0] == '-' && |s| > 1 && IsDigit(s[1]) then
      var k := DigitSpan(s[1..]);
      Cons(Number(-(DigitsValue(s[1..][..k]) as int)), Lex(s[1..][k..]))
    else match SymbolOp(s[0])
      case None => None
      case Some(op) => Cons(OpTok(op), Lex(s[1..]))
  }

  /** Text that cannot continue a number or turn a `-` into a sign. */
  predicate Delimited(s: string)
  {
    |s| == 0 || s[0] == ' ' || s[0] == ')'
  }

  lemma {:induction false} DigitSpanOf(d: string, s: string)
    requires AllDigits(d) && Delimited(s)
    ensures DigitSpan(d + s) == |d|
    decreases |d|
  {
    if |d| > 0 {
      assert (d + s)[1..] == d[1..] + s;
      DigitSpanOf(d[1..], s);
    }
  }

  /** A natural number followed by a delimiter lexes as that number. */
  lemma LexNat(m: nat, s: string)
    requires Delimited(s)
    ensures Lex(NatToString(m) + s) == Cons(Number(m), Lex(s))
  {
    var d := NatToString(m);
    DigitSpanOf(d, s);
    DigitsValueOfNatToString(m);
    assert (d + s)[..|d|] == d && (d + s)[|d|..] == s;
  }

  /** A negative number followed by a delimiter lexes as that number. */
  lemma LexNegative(m: nat, s: string)
    requires Delimited(s) && m >= 1
    ensures Lex("-" + NatToString(m) + s) == Cons(Number(-(m as int)), Lex(s))
  {
    var d := NatToString(m);
    var u := d + s;
    DigitSpanOf(d, s);
    DigitsValueOfNatToString(m);
    var t := "-" + d + s;
    assert t[1..] == u && t[0] == '-' && IsDigit(t[1]);
    assert u[..|d|] == d && u[|d|..] == s;
    assert Lex(t) == Cons(Number(-(DigitsValue(u[..DigitSpan(u)]) as int)), Lex(u[DigitSpan(u)..]));
  }

  lemma LexNumber(n: int, s: string)
    requires Delimited(s)
    ensures Lex(IntToString(n) + s) == Cons(Number(n), Lex(s))
  {
    if n < 0 {
      LexNegative(-n, s);
    } else {
      LexNat(n, s);
    }
  }

  lemma LexOpen(s: string)
    ensures Lex("(" + s) == Cons(Open, Lex(s))
  {
    assert ("(" + s)[1..] == s;
  }

  lemma LexClose(s: string)
    ensures Lex(")" + s) == Cons(Close, Lex(s))
  {
    assert (")" + s)[1..] == s;
  }

  lemma LexSpace(s: string)
    ensures Lex(" " + s) == Lex(s)
  {
    assert (" " + s)[1..] == s;
  }

  lemma LexOperator(op: Op, s: string)
    requires op == Sub ==> Delimited(s)
    ensures Lex(op.Symbol() + s) == Cons(OpTok(op), Lex(s))
  {
    assert (op.Symbol() + s)[1..] == s;
  }

  /** One token followed by what may follow it in a layout. */
  lemma LexToken(t: Tok, s: string)
    requires (t.Number? || t == OpTok(Sub)) ==> Delimited(s)
    ensures Lex(TokText(t) + s) == Cons(t, Lex(s))
  {
    match t
    case Number(n) => LexNumber(n, s);
    case OpTok(op) => LexOperator(op, s);
    case Open => LexOpen(s);
    case Close => LexClose(s);
  }

  /** The lexer reads every layout back as its tokens. */
  lemma {:induction false} LexLayout(ts: seq<Tok>)
    ensures Lex(Layout(ts)) == Some(ts)
    decreases |ts|
  {
    if |ts| == 1 {
      LexToken(ts[0], "");
      assert TokText(ts[0]) + "" == TokText(ts[0]);
      assert Lex("") == Some([]);
      assert [ts[0]] + [] == ts;
    } else if |ts| > 1 {
      LexLayout(ts[1..]);
      LexFirst(ts);
      assert [ts[0]] + ts[1..] == ts;
    }
  }

  /** The first token of a longer layout lexes on its own. */
  lemma LexFirst(ts: seq<Tok>)
    requires |ts| > 1
    ensures Lex(Layout(ts)) == Cons(ts[0], Lex(Layout(ts[1..])))
  {
    DelimitedAfter(ts);
    LexHead(ts[0], Gap(ts[0], ts[1]), Layout(ts[1..]));
  }

  /** A token and the separator after it. */
  lemma LexHead(t: Tok, g: string, s: string)
    requires g == "" || g == " "
    requires (t.Number? || t == OpTok(Sub)) ==> Delimited(g + s)
    ensures Lex(TokText(t) + g + s) == Cons(t, Lex(s))
  {
    assert TokText(t) + g + s == TokText(t) + (g + s);
    LexToken(t, g + s);
    if g == " " {
      LexSpace(s);
    } else {
      assert g + s == s;
    }
  }

  /** After a number or a `-` a layout continues with a space or `)`. */
  lemma DelimitedAfter(ts: seq<Tok>)
    requires |ts| > 1
    ensures (ts[0].Number? || ts[0] == OpTok(Sub)) ==> Delimited(Gap(ts[0], ts[1]) + Layout(ts[1..]))
  {
    if (ts[0].Number? || ts[0] == OpTok(Sub)) && Gap(ts[0], ts[1]) == "" {
      assert ts[1] == Close;
      LayoutHead(ts[1..]);
    }
  }

  /** A layout starts with the text of its first token. */
  lemma LayoutHead(ts: seq<Tok>)
    requires |ts| >= 1
    ensures TokText(ts[0]) <= Layout(ts)
  {
  }

  // ---------------------------------------------------------------------
  // The parser.

  /** What a parsing function has read: the value (none after a division by
      zero) and the tokens left over. */
  datatype Reading = Reading(value: Option<real>, rest: seq<Tok>)

  /** An operator applied to values that may be missing. */
  function Lift(op: Op, a: Option<real>, b: Option<real>): Option<real>
  {
    match a
    case None => None
    case Some(x) =>
      match b
      case None => None
      case Some(y) => Apply(op, x, y)
  }

  predicate IsAddOp(ts: seq<Tok>)
  {
    |ts| > 0 && ts[0].OpTok? && ts[0].op.Level() == 1
  }

  predicate IsMulOp(ts: seq<Tok>)
  {
    |ts| > 0 && ts[0].OpTok? && ts[0].op.Level() == 2
  }

  /** expression := term (('+' | '-') term)* */
  function ParseExpr(ts: seq<Tok>): (r: Option<Reading>)
    ensures r.Some? ==> |r.value.rest| < |ts|
    decreases |ts|, 2
  {
    match ParseTerm(ts)
    case None => None
    case Some(t) => ParseExprTail(t.value, t.rest)
  }

  function ParseExprTail(acc: Option<real>, ts: seq<Tok>): (r: Option<Reading>)
    ensures r.Some? ==> |r.value.rest| <= |ts|
    decreases |ts|, 3
  {
    if IsAddOp(ts) then
      match ParseTerm(ts[1..])
      case None => None
      case Some(t) => ParseExprTail(Lift(ts[0].op, acc, t.value), t.rest)
    else Some(Reading(acc, ts))
  }

  /** term := factor (('*' | '/') factor)* */
  function ParseTerm(ts: seq<Tok>): (r: Option<Reading>)
    ensures r.Some? ==> |r.value.rest| < |ts|
    decreases |ts|, 1
  {
    match ParseFactor(ts)
    case None => None
    case Some(f) => ParseTermTail(f.value, f.rest)
  }

  function ParseTermTail(acc: Option<real>, ts: seq<Tok>): (r: Option<Reading>)
    ensures r.Some? ==> |r.value.rest| <= |ts|
    decreases |ts|, 3
  {
    if IsMulOp(ts) then
      match ParseFactor(ts[1..])
      case None => None
      case Some(f) => ParseTermTail(Lift(ts[0].op, acc, f.value), f.rest)
    else Some(Reading(acc, ts))
  }

  /** factor := number | '(' expression ')' */
  function ParseFactor(ts: seq<Tok>): (r: Option<Reading>)
    ensures r.Some? ==> |r.value.rest| < |ts|
    decreases |ts|, 0
  {
    if |ts| == 0 then None
    else match ts[0]
      case Number(n) => Some(Reading(Some(n as real), ts[1..]))
      case Open =>
        (match ParseExpr(ts[1..])
         case None => None
         case Some(x) =>
           if |x.rest| > 0 && x.rest[0] == Close then Some(Reading(x.value, x.rest[1..]))
           else None)
      case _ => None
  }

  /** Reads infix text: none when it is not a well-formed expression;
      otherwise its value, itself none after a division by zero. */
  function ReadInfix(s: string): Option<Option<real>>
  {
    match Lex(s)
    case None => None
    case Some(ts) =>
      match ParseExpr(ts)
      case None => None
      case Some(x) => if x.rest == [] then Some(x.value) else None
  }

  // ---------------------------------------------------------------------
  // Reading the tokens of a tree.

  /** How a tree appears as an operand of `*`, or as the right operand of
      `-`: parenthesised exactly when its operator is `+` or `-`. */
  function TermTokens(e: Expr): seq<Tok>
  {
    Wrap(Tokens(e), e.Binary? && e.op.Level() == 1)
  }

  /** How a tree appears as the right operand of `/`: parenthesised exactly
      when it is not a leaf. */
  function FactorTokens(e: Expr): seq<Tok>
  {
    Wrap(Tokens(e), e.Binary?)
  }

  /** Regrouping under `+` and `*`, with missing values. */
  lemma LiftRegroup(op: Op, op2: Op, a: Option<real>, b: Option<real>, c: Option<real>)
    requires !op.IsNegative() && op2.Level() == op.Level()
    ensures Lift(op, a, Lift(op2, b, c)) == Lift(op2, Lift(op, a, b), c)
  {
    if a.Some? && b.Some? && c.Some? {
      ApplyRegroup(op, op2, a.value, b.value, c.value);
    }
  }

  // The five lemmas below call each other on the same tree in a cycle that
  // only closes through a subtree; the second component of `decreases`
  // orders the calls on one tree by the kind of its root.

  function Rank(e: Expr, leaf: int, product: int, sum: int): int
  {
    if e.Integer? then leaf else if e.op.Level() == 2 then product else sum
  }

  /** A parenthesised tree, or a leaf, is one factor. */
  lemma {:induction false} FactorReading(e: Expr, rest: seq<Tok>)
    requires Unnamed(e)
    ensures ParseFactor(FactorTokens(e) + rest) == Some(Reading(Evaluate(e), rest))
    decreases e, Rank(e, 0, 2, 1)
  {
    if e.Binary? {
      var ts := FactorTokens(e) + rest;
      assert ts[1..] == Tokens(e) + ([Close] + rest);
      ExprReading(e, [Close] + rest);
      assert ([Close] + rest)[1..] == rest;
    } else {
      assert (FactorTokens(e) + rest)[1..] == rest;
    }
  }

  /** A term position reads its tree and continues with the rest of the
      term. */
  lemma {:induction false} TermReading(e: Expr, rest: seq<Tok>)
    requires Unnamed(e)
    ensures ParseTerm(TermTokens(e) + rest) == ParseTermTail(Evaluate(e), rest)
    decreases e, Rank(e, 1, 0, 2)
  {
    if e.Integer? || e.op.Level() == 1 {
      assert TermTokens(e) == FactorTokens(e);
      FactorReading(e, rest);
      TermStart(TermTokens(e) + rest, Evaluate(e), rest);
    } else {
      var op, l, r := e.op, e.left, e.right;
      var xr := Wrap(Tokens(r), RightNeedsParens(op, r));
      var after := [OpTok(op)] + (xr + rest);
      SplitOperands(e, rest);
      TermReading(l, after);
      ProductRight(op, r, Evaluate(l), rest);
    }
  }

  /** The right operand of `*` or `/` inside a term. */
  lemma {:induction false} ProductRight(op: Op, r: Expr, acc: Option<real>, rest: seq<Tok>)
    requires Unnamed(r) && op.Level() == 2
    ensures ParseTermTail(acc, [OpTok(op)] + (Wrap(Tokens(r), RightNeedsParens(op, r)) + rest)) ==
            ParseTermTail(Lift(op, acc, Evaluate(r)), rest)
    decreases r, 4
  {
    var xr := Wrap(Tokens(r), RightNeedsParens(op, r));
    if op == Mul {
      assert xr == TermTokens(r);
      TermTailReading(r, acc, rest);
      Prefixed(OpTok(Mul), TermTokens(r), rest);
    } else {
      assert xr == FactorTokens(r);
      FactorReading(r, rest);
      TermTailStep(acc, op, xr + rest, Evaluate(r), rest);
    }
  }

  /** `acc * <tree>` read inside a term multiplies `acc` by the tree's
      value. */
  lemma {:induction false} TermTailReading(e: Expr, acc: Option<real>, rest: seq<Tok>)
    requires Unnamed(e)
    ensures ParseTermTail(acc, [OpTok(Mul)] + TermTokens(e) + rest) ==
            ParseTermTail(Lift(Mul, acc, Evaluate(e)), rest)
    decreases e, 3
  {
    if e.Integer? || e.op.Level() == 1 {
      assert TermTokens(e) == FactorTokens(e);
      FactorReading(e, rest);
      TermTailStep(acc, Mul, FactorTokens(e) + rest, Evaluate(e), rest);
      Prefixed(OpTok(Mul), TermTokens(e), rest);
    } else {
      var op, l, r := e.op, e.left, e.right;
      var xr := Wrap(Tokens(r), RightNeedsParens(op, r));
      var after := [OpTok(op)] + (xr + rest);
      SplitOperands(e, rest);
      Prefixed(OpTok(Mul), TermTokens(e), rest);
      Prefixed(OpTok(Mul), TermTokens(l), after);
      TermTailReading(l, acc, after);
      ProductRight(op, r, Lift(Mul, acc, Evaluate(l)), rest);
      LiftRegroup(Mul, op, acc, Evaluate(l), Evaluate(r));
    }
  }

  /** A whole tree read as an expression continues with the rest of the
      sum, provided the rest does not start with `*` or `/`. */
  lemma {:induction false} ExprReading(e: Expr, rest: seq<Tok>)
    requires Unnamed(e) && !IsMulOp(rest)
    ensures ParseExpr(Tokens(e) + rest) == ParseExprTail(Evaluate(e), rest)
    decreases e, Rank(e, 2, 1, 0)
  {
    if e.Integer? || e.op.Level() == 2 {
      assert TermTokens(e) == Tokens(e);
      TermReading(e, rest);
      TermTailEnd(Evaluate(e), rest);
      ExprStart(Tokens(e) + rest, Evaluate(e), rest);
    } else {
      var op, l, r := e.op, e.left, e.right;
      var xr := Wrap(Tokens(r), RightNeedsParens(op, r));
      var after := [OpTok(op)] + (xr + rest);
      SplitOperands(e, rest);
      ExprReading(l, after);
      SumRight(op, r, Evaluate(l), rest);
    }
  }

  /** The right operand of `+` or `-` inside a sum. */
  lemma {:induction false} SumRight(op: Op, r: Expr, acc: Option<real>, rest: seq<Tok>)
    requires Unnamed(r) && op.Level() == 1 && !IsMulOp(rest)
    ensures ParseExprTail(acc, [OpTok(op)] + (Wrap(Tokens(r), RightNeedsParens(op, r)) + rest)) ==
            ParseExprTail(Lift(op, acc, Evaluate(r)), rest)
    decreases r, 4
  {
    var xr := Wrap(Tokens(r), RightNeedsParens(op, r));
    if op == Add {
      assert xr == Tokens(r);
      ExprTailReading(r, acc, rest);
      Prefixed(OpTok(Add), Tokens(r), rest);
    } else {
      assert xr == TermTokens(r);
      TermReading(r, rest);
      TermTailEnd(Evaluate(r), rest);
      ExprTailStep(acc, op, xr + rest, Evaluate(r), rest);
    }
  }

  /** `acc + <tree>` read inside a sum adds the tree's value to `acc`. */
  lemma {:induction false} ExprTailReading(e: Expr, acc: Option<real>, rest: seq<Tok>)
    requires Unnamed(e) && !IsMulOp(rest)
    ensures ParseExprTail(acc, [OpTok(Add)] + Tokens(e) + rest) ==
            ParseExprTail(Lift(Add, acc, Evaluate(e)), rest)
    decreases e, 3
  {
    if e.Integer? || e.op.Level() == 2 {
      assert TermTokens(e) == Tokens(e);
      TermReading(e, rest);
      TermTailEnd(Evaluate(e), rest);
      ExprTailStep(acc, Add, Tokens(e) + rest, Evaluate(e), rest);
      Prefixed(OpTok(Add), Tokens(e), rest);
    } else {
      var op, l, r := e.op, e.left, e.right;
      var xr := Wrap(Tokens(r), RightNeedsParens(op, r));
      var after := [OpTok(op)] + (xr + rest);
      SplitOperands(e, rest);
      Prefixed(OpTok(Add), Tokens(e), rest);
      Prefixed(OpTok(Add), Tokens(l), after);
      ExprTailReading(l, acc, after);
      SumRight(op, r, Lift(Add, acc, Evaluate(l)), rest);
      LiftRegroup(Add, op, acc, Evaluate(l), Evaluate(r));
    }
  }

  /** The tokens of a node: its left operand, its operator, then its right
      operand and whatever follows. */
  lemma SplitOperands(e: Expr, rest: seq<Tok>)
    requires e.Binary?
    ensures Tokens(e) + rest ==
      Wrap(Tokens(e.left), LeftNeedsParens(e.op, e.left)) +
      ([OpTok(e.op)] + (Wrap(Tokens(e.right), RightNeedsParens(e.op, e.right)) + rest))
  {
    Regroup(Wrap(Tokens(e.left), LeftNeedsParens(e.op, e.left)), OpTok(e.op),
            Wrap(Tokens(e.right), RightNeedsParens(e.op, e.right)), rest);
  }

  lemma Regroup(a: seq<Tok>, t: Tok, b: seq<Tok>, rest: seq<Tok>)
    ensures a + [t] + b + rest == a + ([t] + (b + rest))
  {
  }

  lemma Prefixed(t: Tok, a: seq<Tok>, b: seq<Tok>)
    ensures [t] + a + b == [t] + (a + b)
  {
  }

  // One step of each parsing function.

  lemma TermStart(ts: seq<Tok>, v: Option<real>, rest: seq<Tok>)
    requires ParseFactor(ts) == Some(Reading(v, rest))
    ensures ParseTerm(ts) == ParseTermTail(v, rest)
  {
  }

  lemma ExprStart(ts: seq<Tok>, v: Option<real>, rest: seq<Tok>)
    requires ParseTerm(ts) == Some(Reading(v, rest))
    ensures ParseExpr(ts) == ParseExprTail(v, rest)
  {
  }

  lemma TermTailStep(acc: Option<real>, op: Op, ts: seq<Tok>, v: Option<real>, rest: seq<Tok>)
    requires op.Level() == 2 && ParseFactor(ts) == Some(Reading(v, rest))
    ensures ParseTermTail(acc, [OpTok(op)] + ts) == ParseTermTail(Lift(op, acc, v), rest)
  {
    assert ([OpTok(op)] + ts)[1..] == ts;
  }

  lemma ExprTailStep(acc: Option<real>, op: Op, ts: seq<Tok>, v: Option<real>, rest: seq<Tok>)
    requires op.Level() == 1 && ParseTerm(ts) == Some(Reading(v, rest))
    ensures ParseExprTail(acc, [OpTok(op)] + ts) == ParseExprTail(Lift(op, acc, v), rest)
  {
    assert ([OpTok(op)] + ts)[1..] == ts;
  }

  lemma TermTailEnd(acc: Option<real>, rest: seq<Tok>)
    requires !IsMulOp(rest)
    ensures ParseTermTail(acc, rest) == Some(Reading(acc, rest))
  {
  }

  /** Parsing the tokens of a tree without names gives its value and
      consumes them all. */
  lemma TokensRead(e: Expr)
    requires Unnamed(e)
    ensures ParseExpr(Tokens(e)) == Some(Reading(Evaluate(e), []))
  {
    ExprReading(e, []);
    assert Tokens(e) + [] == Tokens(e);
  }

  /** The infix text of a tree without names, read back with the usual
      precedence and left grouping, has exactly the tree's value (including
      none when it divides by zero): the minimal parentheses of
      `to_string()` lose nothing. */
  lemma InfixReadBack(e: Expr)
    requires Unnamed(e)
    ensures ReadInfix(ToString(e)) == Some(Evaluate(e))
    ensures Format(e, "") == Ok(ToString(e))
  {
    TextIsLayout(e);
    LexLayout(Tokens(e));
    TokensRead(e);
  }
}
