/** The second calculator example, test/parser/calculator.ts: its expression
    trees and printer `printExpr`, and `operationSet`, which reads an operand
    followed by any number of (operator, operand) steps and folds them from
    the left. */
module ParserCalculator {
  import opened Replies
  import opened Combinators
  import opened Sequencing
  import opened Primitives
  import opened Alternatives
  import opened Repetition
  import opened Lexical
  import opened Decimal
  import opened Brackets
  import opened Utils
  import Calculator

  type Operator = Calculator.Operator

  /** Values are integers here; the source reads them with `float`. */
  datatype Expr = Operation(op: Operator, a: Expr, b: Expr) | Primitive(value: int)

  function PrintExpr(e: Expr): string {
    match e
    case Primitive(v) => IntToString(v)
    case Operation(op, a, b) => "(" + PrintExpr(a) + " " + [Calculator.OperatorChar(op)] + " " + PrintExpr(b) + ")"
  }

  /** The same tree in the other example's shape. */
  function ToCalculator(e: Expr): Calculator.Expr {
    match e
    case Primitive(v) => Calculator.Primitive(v)
    case Operation(op, a, b) => Calculator.Operation(op, ToCalculator(a), ToCalculator(b))
  }

  /** The two printers agree, so `printExpr` is balanced too, with one pair per operation. */
  lemma {:induction false} PrintExprIsShowExpr(e: Expr)
    ensures PrintExpr(e) == Calculator.ShowExpr(ToCalculator(e))
    ensures Balanced('(', ')', PrintExpr(e))
    ensures Count('(', PrintExpr(e)) == Calculator.Operations(ToCalculator(e))
  {
    match e {
      case Primitive(v) =>
      case Operation(op, a, b) =>
        PrintExprIsShowExpr(a);
        PrintExprIsShowExpr(b);
    }
    Calculator.ShowExprBalanced(ToCalculator(e));
  }

  /** `compose(char, lexeme)`: the character, then any white space. */
  function Symbol(c: char): Parser<char> {
    Lexeme(Char(c))
  }

  function MakeOperation(op: Operator): (Expr, Expr) -> Expr {
    (a: Expr, b: Expr) => Operation(op, a, b)
  }

  /** `operation(op)`: the operator's symbol, yielding the node builder. */
  function OperationParser(op: Operator): Parser<(Expr, Expr) -> Expr> {
    Then(Symbol(Calculator.OperatorChar(op)), Pure(MakeOperation(op)))
  }

  function OperationParsers(operators: seq<Operator>): seq<Parser<(Expr, Expr) -> Expr>> {
    if operators == [] then [] else [OperationParser(operators[0])] + OperationParsers(operators[1..])
  }

  /** The step `a => f(a, b)` left waiting for its left operand. */
  function Partial(f: (Expr, Expr) -> Expr, b: Expr): Expr -> Expr {
    (a: Expr) => f(a, b)
  }

  /** `rexpr`: an operator, then the right operand. */
  function Rexpr(operators: seq<Operator>, operand: Parser<Expr>): Parser<Expr -> Expr> {
    Bind(Choices(OperationParsers(operators)), (f: (Expr, Expr) -> Expr) =>
      Bind(operand, (b: Expr) => Pure(Partial(f, b))))
  }

  /** `fs.reduce((f, g) => a => g(f(a)))` on a non-empty list. */
  function ComposeAll(fs: seq<Expr -> Expr>): Expr -> Expr
    requires |fs| >= 1
  {
    if |fs| == 1 then fs[0]
    else
      var f, g := ComposeAll(fs[..|fs| - 1]), fs[|fs| - 1];
      (a: Expr) => g(f(a))
  }

  /** `rhs`: one or more steps, composed.  `some` never yields an empty list
      (Repetition.SomeFirstStep), so the first branch is never taken; in the
      source `reduce` would throw there. */
  function Rhs(operators: seq<Operator>, operand: Parser<Expr>): Parser<Expr -> Expr> {
    Bind(Some(Rexpr(operators, operand)), (fs: seq<Expr -> Expr>) =>
      if |fs| == 0 then Pure(Id<Expr>) else Pure(ComposeAll(fs)))
  }

  function OperationSet(operators: seq<Operator>, operand: Parser<Expr>): Parser<Expr> {
    Bind(operand, (a: Expr) => Bind(Option(Rhs(operators, operand), Id<Expr>), (f: Expr -> Expr) => Pure(f(a))))
  }

  /** `term`: a number, or else a parenthesised sum; the sum is a parameter
      because the source ties the knot through `lazy`. */
  function Term(number: Parser<Expr>, sum: Parser<Expr>): Parser<Expr> {
    Choice(number, Between(Symbol('('), Symbol(')'), sum))
  }

  /** The functions applied one after the other from the first: an independent reference for ComposeAll. */
  function ApplyInOrder(fs: seq<Expr -> Expr>, a: Expr): Expr {
    if fs == [] then a else ApplyInOrder(fs[1..], fs[0](a))
  }

  lemma {:induction false} ApplyInOrderSnoc(fs: seq<Expr -> Expr>, g: Expr -> Expr, a: Expr)
    ensures ApplyInOrder(fs + [g], a) == g(ApplyInOrder(fs, a))
    decreases |fs|
  {
    if fs == [] {
      assert ([g])[1..] == [];
    } else {
      ApplyInOrderSnoc(fs[1..], g, fs[0](a));
      assert (fs + [g])[1..] == fs[1..] + [g];
    }
  }

  lemma ComposeAllLast(fs: seq<Expr -> Expr>, a: Expr)
    requires |fs| >= 2
    ensures ComposeAll(fs)(a) == fs[|fs| - 1](ComposeAll(fs[..|fs| - 1])(a))
  {
  }

  /** The fold composes left to right: the first function is applied first. */
  lemma {:induction false} ComposeAllAppliesInOrder(fs: seq<Expr -> Expr>, a: Expr)
    requires |fs| >= 1
    ensures ComposeAll(fs)(a) == ApplyInOrder(fs, a)
    decreases |fs|
  {
    if |fs| == 1 {
      assert fs[1..] == [];
    } else {
      var init := fs[..|fs| - 1];
      ComposeAllLast(fs, a);
      ComposeAllAppliesInOrder(init, a);
      ApplyInOrderSnoc(init, fs[|fs| - 1], a);
      assert init + [fs[|fs| - 1]] == fs;
    }
  }

  /** Two steps (op1, b1) (op2, b2) after `a` give op2(op1(a, b1), b2). */
  lemma TwoStepsFoldLeft(f1: (Expr, Expr) -> Expr, b1: Expr, f2: (Expr, Expr) -> Expr, b2: Expr, a: Expr)
    ensures ComposeAll([Partial(f1, b1), Partial(f2, b2)])(a) == f2(f1(a, b1), b2)
  {
    ComposeAllAppliesInOrder([Partial(f1, b1), Partial(f2, b2)], a);
  }

  /** A step that reads an operator and then an operand yields the partial
      function waiting for the left operand, at the operand's end. */
  lemma RexprReply(operators: seq<Operator>, operand: Parser<Expr>, input: seq<char>, i: nat)
    requires var o := Choices(OperationParsers(operators))(input, i); IsSuccess(o) && IsSuccess(operand(input, o.index))
    ensures var o := Choices(OperationParsers(operators))(input, i);
      var t := operand(input, o.index);
      var r := Rexpr(operators, operand)(input, i);
      IsSuccess(r) && r.value == Partial(o.value, t.value) && r.index == t.index && (r.Ok? <==> o.Ok? || t.Ok?)
  {
    var o := Choices(OperationParsers(operators))(input, i);
    BindSuccess(Choices(OperationParsers(operators)), (f: (Expr, Expr) -> Expr) =>
      Bind(operand, (b: Expr) => Pure(Partial(f, b))), input, i);
    BindSuccess(operand, (b: Expr) => Pure(Partial(o.value, b)), input, o.index);
  }

  /** Where no operator matches, `rhs` fails without consuming, so its `option` gives the identity. */
  lemma RhsWithoutOperator(operators: seq<Operator>, operand: Parser<Expr>, input: seq<char>, j: nat)
    requires Choices(OperationParsers(operators))(input, j).Fail?
    ensures Rhs(operators, operand)(input, j).Fail?
    ensures Option(Rhs(operators, operand), Id<Expr>)(input, j) == Epsilon(Id<Expr>, j)
  {
    var rexpr := Rexpr(operators, operand);
    BindCases(Choices(OperationParsers(operators)), (f: (Expr, Expr) -> Expr) =>
      Bind(operand, (b: Expr) => Pure(Partial(f, b))), input, j);
    SomeFirstStep(rexpr, input, j);
    BindCases(Some(rexpr), (fs: seq<Expr -> Expr>) =>
      if |fs| == 0 then Pure(Id<Expr>) else Pure(ComposeAll(fs)), input, j);
    OptionReply(Rhs(operators, operand), Id<Expr>, input, j);
  }

  /** With no operator after the first operand, the operand's reply is the result. */
  lemma OperationSetWithoutOperator(operators: seq<Operator>, operand: Parser<Expr>, input: seq<char>, i: nat)
    requires IsSuccess(operand(input, i))
    requires Choices(OperationParsers(operators))(input, operand(input, i).index).Fail?
    ensures OperationSet(operators, operand)(input, i) == operand(input, i)
  {
    var t := operand(input, i);
    var j := t.index;
    RhsWithoutOperator(operators, operand, input, j);
    BindCases(Option(Rhs(operators, operand), Id<Expr>), (f: Expr -> Expr) => Pure(f(t.value)), input, j);
    BindCases(operand, (a: Expr) => Bind(Option(Rhs(operators, operand), Id<Expr>), (f: Expr -> Expr) => Pure(f(a))), input, i);
  }

  /** `term` tries a number first: a number that consumes or errs decides; a
      number that does not match gives way to the parenthesised sum; after a
      number that succeeds without consuming, the sum wins only if it consumes. */
  lemma TermTriesNumberFirst(number: Parser<Expr>, sum: Parser<Expr>, input: seq<char>, i: nat)
    ensures var n, r := number(input, i), Term(number, sum)(input, i);
      var b := Between(Symbol('('), Symbol(')'), sum)(input, i);
      && (n.Ok? || n.Error? ==> r == n)
      && (n.Fail? ==> r == b)
      && (n.Epsilon? ==> r == if IsConsumed(b) then b else n)
  {
    ChoiceCases(number, Between(Symbol('('), Symbol(')'), sum), input, i);
  }
}
