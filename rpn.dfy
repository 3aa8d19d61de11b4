/** Reverse Polish notation as a token sequence: an independent account of
    `to_reverse_polish` in `arithgen/expr.py`. The RPN text is the tree's
    postfix tokens joined by single spaces, and running those tokens on a
    stack machine computes the tree's value. */
module Rpn {
  import opened Wrappers
  import opened Decimal
  import opened ExprTree

  datatype Token = Num(n: int) | Operator(op: Op) | Label(text: string)

  function TokenText(t: Token): string
  {
    match t
    case Num(n) => IntToString(n)
    case Operator(op) => op.Symbol()
    case Label(text) => text
  }

  /** The tokens of the tree in postfix order; a named node is one opaque
      token. */
  function Postfix(e: Expr): (ts: seq<Token>)
    ensures |ts| >= 1
  {
    if e.name.Some? then [Label(e.name.value)]
    else match e
      case Integer(n, _) => [Num(n)]
      case Binary(op, l, r, _) => Postfix(l) + Postfix(r) + [Operator(op)]
  }

  /** Token texts separated by single spaces. */
  function Join(ts: seq<Token>): string
  {
    if |ts| == 0 then ""
    else if |ts| == 1 then TokenText(ts[0])
    else TokenText(ts[0]) + " " + Join(ts[1..])
  }

  lemma {:induction false} JoinAppend(a: seq<Token>, b: seq<Token>)
    requires |a| >= 1 && |b| >= 1
    ensures Join(a + b) == Join(a) + " " + Join(b)
  {
    if |a| == 1 {
      assert (a + b)[1..] == b;
    } else {
      assert (a + b)[1..] == a[1..] + b;
      JoinAppend(a[1..], b);
    }
  }

  /** The RPN text is the postfix token sequence joined by spaces. */
  lemma {:induction false} ReversePolishIsJoinedPostfix(e: Expr)
    ensures RpnStr(e) == Join(Postfix(e))
  {
    if e.name.None? {
      match e
      case Integer(n, _) =>
      case Binary(op, l, r, _) =>
        ReversePolishIsJoinedPostfix(l);
        ReversePolishIsJoinedPostfix(r);
        JoinAppend(Postfix(l), Postfix(r));
        JoinAppend(Postfix(l) + Postfix(r), [Operator(op)]);
    }
  }

  /** A stack machine for postfix tokens: a number is pushed; an operator
      pops its right then its left operand and pushes the result. Too few
      operands, a label, or a division by zero stops it. */
  function Exec(ts: seq<Token>, st: seq<real>): Option<seq<real>>
    decreases |ts|
  {
    if |ts| == 0 then Some(st)
    else match ts[0]
      case Num(n) => Exec(ts[1..], st + [n as real])
      case Label(_) => None
      case Operator(op) =>
        if |st| < 2 then None
        else match Apply(op, st[|st| - 2], st[|st| - 1])
          case None => None
          case Some(v) => Exec(ts[1..], st[..|st| - 2] + [v])
  }

  /** Running a tree's tokens pushes its value, or stops exactly when the
      tree divides by zero. */
  lemma {:induction false} ExecPostfix(e: Expr, rest: seq<Token>, st: seq<real>)
    requires Unnamed(e)
    ensures Exec(Postfix(e) + rest, st) ==
            (match Evaluate(e) case None => None case Some(v) => Exec(rest, st + [v]))
  {
    match e
    case Integer(n, _) =>
      assert (Postfix(e) + rest)[1..] == rest;
    case Binary(op, l, r, _) =>
      assert Postfix(e) + rest == Postfix(l) + (Postfix(r) + ([Operator(op)] + rest));
      ExecPostfix(l, Postfix(r) + ([Operator(op)] + rest), st);
      if Evaluate(l).Some? {
        var a := Evaluate(l).value;
        ExecPostfix(r, [Operator(op)] + rest, st + [a]);
        if Evaluate(r).Some? {
          var b := Evaluate(r).value;
          var st2 := st + [a] + [b];
          assert st2[..|st2| - 2] == st;
          assert ([Operator(op)] + rest)[1..] == rest;
        }
      }
  }

  /** The RPN of a tree without names, run on an empty stack, leaves just
      the tree's value. */
  lemma ReversePolishComputesValue(e: Expr)
    requires Unnamed(e)
    ensures Exec(Postfix(e), []) ==
            (match Evaluate(e) case None => None case Some(v) => Some([v]))
  {
    ExecPostfix(e, [], []);
    assert Postfix(e) + [] == Postfix(e);
    if Evaluate(e).Some? {
      var v := Evaluate(e).value;
      assert [] + [v] == [v];
    }
  }
}
