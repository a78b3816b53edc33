/** The expression trees of the calculator example, test/calculator/index.ts:
    the printer `showExpr`, the structural comparison `compare` and the node
    builder of `parseOperation`. */
module Calculator {
  import opened Decimal
  import opened Brackets

  datatype Operator = Plus | Minus | Times | Divide

  function OperatorChar(op: Operator): char {
    match op
    case Plus => '+'
    case Minus => '-'
    case Times => '*'
    case Divide => '/'
  }

  /** Values are the integers `integer` reads; the source's numbers are floats. */
  datatype Expr = Operation(operator: Operator, left: Expr, right: Expr) | Primitive(value: int)

  /** The number of operation nodes. */
  function Operations(e: Expr): nat {
    match e
    case Primitive(_) => 0
    case Operation(_, l, r) => 1 + Operations(l) + Operations(r)
  }

  /** Fully parenthesised rendering: "(left op right)" per operation. */
  function ShowExpr(e: Expr): string {
    match e
    case Primitive(v) => IntToString(v)
    case Operation(op, l, r) => "(" + ShowExpr(l) + " " + [OperatorChar(op)] + " " + ShowExpr(r) + ")"
  }

  /** A number's rendering holds no parenthesis. */
  lemma NumberHasNoParentheses(x: int)
    ensures '(' !in IntToString(x) && ')' !in IntToString(x)
  {
    if x >= 0 {
      NatToStringHasNoPunctuation(x);
    } else {
      NatToStringHasNoPunctuation(-x);
      assert IntToString(x) == "-" + NatToString(-x);
    }
  }

  /** One operation node adds one balanced pair around its operands' renderings. */
  lemma OperationBalanced(op: Operator, l: string, r: string)
    requires Balanced('(', ')', l) && Balanced('(', ')', r)
    ensures var w := "(" + l + " " + [OperatorChar(op)] + " " + r + ")";
      Balanced('(', ')', w) && Count('(', w) == Count('(', l) + Count('(', r) + 1
  {
    var mid := " " + [OperatorChar(op)] + " ";
    assert '(' !in mid && ')' !in mid;
    FreeIsBalanced('(', ')', mid);
    BalancedConcat('(', ')', l, mid);
    BalancedConcat('(', ')', l + mid, r);
    CountAppend('(', l, mid);
    CountAppend('(', l + mid, r);
    BalancedWrap('(', ')', l + mid + r);
    assert "(" + l + " " + [OperatorChar(op)] + " " + r + ")" == ['('] + (l + mid + r) + [')'];
  }

  /** The rendering's parentheses are balanced, one pair per operation node. */
  lemma {:induction false} ShowExprBalanced(e: Expr)
    ensures Balanced('(', ')', ShowExpr(e))
    ensures Count('(', ShowExpr(e)) == Operations(e)
  {
    match e
    case Primitive(v) =>
      NumberHasNoParentheses(v);
      FreeIsBalanced('(', ')', IntToString(v));
    case Operation(op, l, r) =>
      ShowExprBalanced(l);
      ShowExprBalanced(r);
      OperationBalanced(op, ShowExpr(l), ShowExpr(r));
  }

  /** Primitives compare by value, operations by operator and both children. */
  function Compare(a: Expr, b: Expr): bool {
    if a.Primitive? && b.Primitive? then a.value == b.value
    else if a.Operation? && b.Operation? then
      a.operator == b.operator && Compare(a.left, b.left) && Compare(a.right, b.right)
    else false
  }

  /** With integer values, `compare` is structural equality. */
  lemma {:induction false} CompareIsEquality(a: Expr, b: Expr)
    ensures Compare(a, b) <==> a == b
  {
    if a.Operation? && b.Operation? {
      CompareIsEquality(a.left, b.left);
      CompareIsEquality(a.right, b.right);
    }
  }

  /** Hence `compare` is reflexive and symmetric. */
  lemma CompareReflexiveSymmetric(a: Expr, b: Expr)
    ensures Compare(a, a)
    ensures Compare(a, b) == Compare(b, a)
  {
    CompareIsEquality(a, a);
    CompareIsEquality(a, b);
    CompareIsEquality(b, a);
  }

  /** The value of `parseOperation(op)`: the builder of an operation node. */
  function MakeOperation(op: Operator): (Expr, Expr) -> Expr {
    (left: Expr, right: Expr) => Operation(op, left, right)
  }

  /** The built node has the operator and both operands, and adds one
      parenthesised layer around the operands' renderings. */
  lemma MakeOperationBuilds(op: Operator, left: Expr, right: Expr)
    ensures var e := MakeOperation(op)(left, right);
      && e.Operation? && e.operator == op && e.left == left && e.right == right
      && Operations(e) == Operations(left) + Operations(right) + 1
      && ShowExpr(e) == "(" + ShowExpr(left) + " " + [OperatorChar(op)] + " " + ShowExpr(right) + ")"
  {
  }
}
