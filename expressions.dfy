/** The operator-table helpers of src/parser/expr.ts: the operator types,
    splitOperators, parseTerm, parseInfixL and parseInfixR. */
module Expressions {
  import opened Replies
  import opened Combinators
  import opened Sequencing
  import opened Alternatives
  import opened Utils

  /** An operator: its fixity and the parser that yields its function. */
  datatype Operator<!T> =
    | Prefix(unary: Parser<T -> T>)
    | InfixL(binary: Parser<(T, T) -> T>)
    | InfixR(binary: Parser<(T, T) -> T>)
    | Postfix(unary: Parser<T -> T>)

  /** Rows of operators, one row per precedence level. */
  type OperatorTable<!T> = seq<seq<Operator<T>>>

  /** The operators' parsers, one list per fixity. */
  datatype Split<!T> = Split(
    prefix: seq<Parser<T -> T>>,
    infixL: seq<Parser<(T, T) -> T>>,
    infixR: seq<Parser<(T, T) -> T>>,
    postfix: seq<Parser<T -> T>>)

  /** The rows of a table, one after the other (row-major order). */
  function Flatten<T>(table: seq<seq<T>>): seq<T> {
    if table == [] then [] else Flatten(table[..|table| - 1]) + table[|table| - 1]
  }

  /** The parsers of the operators of each fixity, in order. */
  function Prefixes<T>(ops: seq<Operator<T>>): seq<Parser<T -> T>> {
    if ops == [] then []
    else Prefixes(ops[..|ops| - 1]) + (if ops[|ops| - 1].Prefix? then [ops[|ops| - 1].unary] else [])
  }

  function InfixLs<T>(ops: seq<Operator<T>>): seq<Parser<(T, T) -> T>> {
    if ops == [] then []
    else InfixLs(ops[..|ops| - 1]) + (if ops[|ops| - 1].InfixL? then [ops[|ops| - 1].binary] else [])
  }

  function InfixRs<T>(ops: seq<Operator<T>>): seq<Parser<(T, T) -> T>> {
    if ops == [] then []
    else InfixRs(ops[..|ops| - 1]) + (if ops[|ops| - 1].InfixR? then [ops[|ops| - 1].binary] else [])
  }

  function Postfixes<T>(ops: seq<Operator<T>>): seq<Parser<T -> T>> {
    if ops == [] then []
    else Postfixes(ops[..|ops| - 1]) + (if ops[|ops| - 1].Postfix? then [ops[|ops| - 1].unary] else [])
  }

  /** What splitting a list of operators should give. */
  function SplitOf<T>(ops: seq<Operator<T>>): Split<T> {
    Split(Prefixes(ops), InfixLs(ops), InfixRs(ops), Postfixes(ops))
  }

  /** Adding one operator adds its parser to the list of its fixity and to no other. */
  lemma SplitOfSnoc<T>(ops: seq<Operator<T>>, op: Operator<T>)
    ensures var s, t := SplitOf(ops), SplitOf(ops + [op]);
      && t.prefix == s.prefix + (if op.Prefix? then [op.unary] else [])
      && t.infixL == s.infixL + (if op.InfixL? then [op.binary] else [])
      && t.infixR == s.infixR + (if op.InfixR? then [op.binary] else [])
      && t.postfix == s.postfix + (if op.Postfix? then [op.unary] else [])
  {
    assert (ops + [op])[..|ops|] == ops;
  }

  /** splitOperators: four empty lists, then each operator of each row pushed
      onto the list of its fixity. */
  method SplitOperators<T>(table: OperatorTable<T>) returns (s: Split<T>)
    ensures s == SplitOf(Flatten(table))
  {
    s := Split([], [], [], []);
    for r := 0 to |table|
      invariant s == SplitOf(Flatten(table[..r]))
    {
      var row := table[r];
      assert Flatten(table[..r]) + row[..0] == Flatten(table[..r]);
      for c := 0 to |row|
        invariant s == SplitOf(Flatten(table[..r]) + row[..c])
      {
        var op := row[c];
        SplitOfSnoc(Flatten(table[..r]) + row[..c], op);
        assert Flatten(table[..r]) + row[..c + 1] == Flatten(table[..r]) + row[..c] + [op];
        match op
        case Prefix(parse) => s := s.(prefix := s.prefix + [parse]);
        case Postfix(parse) => s := s.(postfix := s.postfix + [parse]);
        case InfixL(parse) => s := s.(infixL := s.infixL + [parse]);
        case InfixR(parse) => s := s.(infixR := s.infixR + [parse]);
      }
      assert table[..r + 1][..r] == table[..r];
      assert row[..|row|] == row;
    }
    assert table[..|table|] == table;
  }

  /** Splitting starts from four empty lists. */
  lemma SplitOfNothing<T>()
    ensures SplitOf<T>([]) == Split([], [], [], [])
  {
  }

  /** Every operator lands in exactly one list: the four lengths add up to the number of operators. */
  lemma {:induction false} SplitCount<T>(ops: seq<Operator<T>>)
    ensures var s := SplitOf(ops); |s.prefix| + |s.infixL| + |s.infixR| + |s.postfix| == |ops|
  {
    if ops != [] {
      SplitCount(ops[..|ops| - 1]);
      SplitOfSnoc(ops[..|ops| - 1], ops[|ops| - 1]);
      assert ops[..|ops| - 1] + [ops[|ops| - 1]] == ops;
    }
  }

  /** Splitting distributes over concatenation: order is kept, and where one
      row ends and the next begins is not retained. */
  lemma {:induction false} SplitOfAppend<T>(xs: seq<Operator<T>>, ys: seq<Operator<T>>)
    ensures var s, t, u := SplitOf(xs), SplitOf(ys), SplitOf(xs + ys);
      u == Split(s.prefix + t.prefix, s.infixL + t.infixL, s.infixR + t.infixR, s.postfix + t.postfix)
    decreases |ys|
  {
    if ys == [] {
      assert xs + ys == xs;
    } else {
      var init, last := ys[..|ys| - 1], ys[|ys| - 1];
      SplitOfAppend(xs, init);
      SplitOfSnoc(xs + init, last);
      SplitOfSnoc(init, last);
      assert xs + init + [last] == xs + ys;
      assert init + [last] == ys;
    }
  }

  /** Splitting a table is splitting its rows one after the other. */
  lemma SplitOfRows<T>(table: OperatorTable<T>, row: seq<Operator<T>>)
    ensures var s, t, u := SplitOf(Flatten(table)), SplitOf(row), SplitOf(Flatten(table + [row]));
      u == Split(s.prefix + t.prefix, s.infixL + t.infixL, s.infixR + t.infixR, s.postfix + t.postfix)
  {
    assert (table + [row])[..|table|] == table;
    SplitOfAppend(Flatten(table), row);
  }

  /** An optional prefix or postfix operator: the first that matches, or the identity `id`. */
  function OptionalOperator<T>(ops: seq<Parser<T -> T>>): Parser<T -> T> {
    Option(Choices(ops), Id<T>)
  }

  /** What follows the term: the optional postfix, then the combined value post(pre(a)). */
  function AfterTerm<T>(postfixes: seq<Parser<T -> T>>, pre: T -> T, a: T): Parser<T> {
    Bind(OptionalOperator(postfixes), (post: T -> T) => Pure(post(pre(a))))
  }

  /** What follows the prefix: the term, then the rest. */
  function AfterPrefix<T>(term: Parser<T>, postfixes: seq<Parser<T -> T>>, pre: T -> T): Parser<T> {
    Bind(term, (a: T) => AfterTerm(postfixes, pre, a))
  }

  /** parseTerm: an optional prefix, the term, an optional postfix, combined as post(pre(a)). */
  function ParseTerm<T>(term: Parser<T>, prefixes: seq<Parser<T -> T>>, postfixes: seq<Parser<T -> T>>): Parser<T> {
    Bind(OptionalOperator(prefixes), (pre: T -> T) => AfterPrefix(term, postfixes, pre))
  }

  /** A missing operator is the identity, found without consuming. */
  lemma OptionalOperatorReply<T>(ops: seq<Parser<T -> T>>, input: seq<char>, i: nat)
    ensures var o := OptionalOperator(ops)(input, i);
      o == if Choices(ops)(input, i).Fail? then Epsilon(Id<T>, i) else Choices(ops)(input, i)
  {
    OptionReply(Choices(ops), Id<T>, input, i);
  }

  lemma AfterTermReply<T>(postfixes: seq<Parser<T -> T>>, pre: T -> T, a: T, input: seq<char>, i: nat)
    ensures var po := OptionalOperator(postfixes)(input, i);
      var r := AfterTerm(postfixes, pre, a)(input, i);
      && (IsSuccess(r) <==> IsSuccess(po))
      && (IsSuccess(r) ==> r.value == po.value(pre(a)) && r.index == po.index && (r.Ok? <==> po.Ok?))
  {
    BindSuccess(OptionalOperator(postfixes), (post: T -> T) => Pure(post(pre(a))), input, i);
  }

  lemma AfterPrefixReply<T>(term: Parser<T>, postfixes: seq<Parser<T -> T>>, pre: T -> T, input: seq<char>, i: nat)
    ensures var t := term(input, i);
      var po := OptionalOperator(postfixes)(input, t.index);
      var r := AfterPrefix(term, postfixes, pre)(input, i);
      && (IsSuccess(r) <==> IsSuccess(t) && IsSuccess(po))
      && (IsSuccess(r) ==> r.value == po.value(pre(t.value)) && r.index == po.index && (r.Ok? <==> t.Ok? || po.Ok?))
  {
    var t := term(input, i);
    BindSuccess(term, (a: T) => AfterTerm(postfixes, pre, a), input, i);
    if IsSuccess(t) {
      AfterTermReply(postfixes, pre, t.value, input, t.index);
    }
  }

  /** A term with a prefix and a postfix, each found or defaulted to the
      identity, yields post(pre(a)) at the postfix's end, and has consumed if
      any of the three did. */
  lemma ParseTermSuccess<T>(term: Parser<T>, prefixes: seq<Parser<T -> T>>, postfixes: seq<Parser<T -> T>>, input: seq<char>, i: nat)
    ensures var pr := OptionalOperator(prefixes)(input, i);
      var t := term(input, pr.index);
      var po := OptionalOperator(postfixes)(input, t.index);
      var r := ParseTerm(term, prefixes, postfixes)(input, i);
      && (IsSuccess(r) <==> IsSuccess(pr) && IsSuccess(t) && IsSuccess(po))
      && (IsSuccess(r) ==> r.value == po.value(pr.value(t.value)) && r.index == po.index &&
                           (r.Ok? <==> pr.Ok? || t.Ok? || po.Ok?))
  {
    var pr := OptionalOperator(prefixes)(input, i);
    BindSuccess(OptionalOperator(prefixes), (pre: T -> T) => AfterPrefix(term, postfixes, pre), input, i);
    if IsSuccess(pr) {
      AfterPrefixReply(term, postfixes, pr.value, input, pr.index);
    }
  }

  /** A missing prefix and postfix never make parseTerm fail: it fails exactly when the term does. */
  lemma ParseTermFailsWithTerm<T>(term: Parser<T>, prefixes: seq<Parser<T -> T>>, postfixes: seq<Parser<T -> T>>, input: seq<char>, i: nat)
    requires Choices(prefixes)(input, i).Fail?
    requires !IsSuccess(term(input, i))
    ensures ParseTerm(term, prefixes, postfixes)(input, i) == term(input, i).Propagate()
  {
    OptionalOperatorReply(prefixes, input, i);
    BindCases(OptionalOperator(prefixes), (pre: T -> T) => AfterPrefix(term, postfixes, pre), input, i);
    BindCases(term, (a: T) => AfterTerm(postfixes, Id<T>, a), input, i);
  }

  /** With no prefix and no postfix operators, parseTerm is the term parser itself. */
  lemma ParseTermWithoutOperators<T>(term: Parser<T>, input: seq<char>, i: nat)
    ensures ParseTerm(term, [], [])(input, i) == term(input, i)
  {
    var t := term(input, i);
    OptionalOperatorReply<T>([], input, i);
    if IsSuccess(t) {
      OptionalOperatorReply<T>([], input, t.index);
      ParseTermSuccess(term, [], [], input, i);
    } else {
      ParseTermFailsWithTerm(term, [], [], input, i);
    }
  }

  /** When no prefix matches at the cursor, the prefix defaults to the identity:
      the reply is the one without prefix operators. */
  lemma ParseTermNoPrefix<T>(term: Parser<T>, prefixes: seq<Parser<T -> T>>, postfixes: seq<Parser<T -> T>>, input: seq<char>, i: nat)
    requires Choices(prefixes)(input, i).Fail?
    ensures ParseTerm(term, prefixes, postfixes)(input, i) == ParseTerm(term, [], postfixes)(input, i)
  {
    OptionalOperatorReply(prefixes, input, i);
    OptionalOperatorReply<T>([], input, i);
  }

  // ---------------------------------------------------------------------
  // Infix chains.  The source's parseInfixL and parseInfixR call themselves
  // inside the closures they build; here the closure calls the run function
  // of the next link, guarded so that it runs only from a later cursor on the
  // same input (a chain that does not move forward recurses forever in the
  // source).

  function ContinueL<T>(expr: T, term: Parser<T>, operators: seq<Parser<(T, T) -> T>>, input: seq<char>, i: nat): Parser<T>
    decreases |input| - i, 0
  {
    (inp: seq<char>, j: nat) =>
      if inp == input && i < j <= |input| then InfixLAt(expr, term, operators, input, j) else FailAt(j)
  }

  /** parseInfixL(left, term, operators) run at cursor `i`. */
  function InfixLAt<T>(left: T, term: Parser<T>, operators: seq<Parser<(T, T) -> T>>, input: seq<char>, i: nat): Reply<T>
    decreases |input| - i, 1
  {
    Bind(Choices(operators), (op: (T, T) -> T) => Bind(term, (right: T) =>
      Choice(ContinueL(op(left, right), term, operators, input, i), Pure(op(left, right)))))(input, i)
  }

  function InfixLeft<T>(left: T, term: Parser<T>, operators: seq<Parser<(T, T) -> T>>): Parser<T> {
    (input: seq<char>, i: nat) => InfixLAt(left, term, operators, input, i)
  }

  function ContinueR<T>(value: T, term: Parser<T>, operators: seq<Parser<(T, T) -> T>>, input: seq<char>, i: nat): Parser<T>
    decreases |input| - i, 0
  {
    (inp: seq<char>, j: nat) =>
      if inp == input && i < j <= |input| then InfixRAt(value, term, operators, input, j) else FailAt(j)
  }

  /** parseInfixR(left, term, operators) run at cursor `i`. */
  function InfixRAt<T>(left: T, term: Parser<T>, operators: seq<Parser<(T, T) -> T>>, input: seq<char>, i: nat): Reply<T>
    decreases |input| - i, 1
  {
    Bind(Choices(operators), (op: (T, T) -> T) =>
      Fmap(Bind(term, (value: T) => Choice(ContinueR(value, term, operators, input, i), Pure(value))),
           (right: T) => op(left, right)))(input, i)
  }

  function InfixRight<T>(left: T, term: Parser<T>, operators: seq<Parser<(T, T) -> T>>): Parser<T> {
    (input: seq<char>, i: nat) => InfixRAt(left, term, operators, input, i)
  }

  /** With no operators, both chains fail at the cursor without consuming. */
  lemma InfixWithoutOperators<T>(left: T, term: Parser<T>, input: seq<char>, i: nat)
    ensures InfixLeft(left, term, [])(input, i) == Fail(i, Nothing)
    ensures InfixRight(left, term, [])(input, i) == Fail(i, Nothing)
  {
    assert Choices<(T, T) -> T>([])(input, i) == Fail(i, Nothing);
  }

  /** One link of a chain that consumes: an operator, then a term, both `Ok`,
      ending later in the input. */
  ghost predicate Link<T>(term: Parser<T>, operators: seq<Parser<(T, T) -> T>>, input: seq<char>, i: nat) {
    var o := Choices(operators)(input, i);
    o.Ok? && var t := term(input, o.index); t.Ok? && i < t.index <= |input|
  }

  ghost function LinkOp<T>(term: Parser<T>, operators: seq<Parser<(T, T) -> T>>, input: seq<char>, i: nat): (T, T) -> T
    requires Link(term, operators, input, i)
  {
    Choices(operators)(input, i).value
  }

  ghost function LinkTerm<T>(term: Parser<T>, operators: seq<Parser<(T, T) -> T>>, input: seq<char>, i: nat): T
    requires Link(term, operators, input, i)
  {
    term(input, Choices(operators)(input, i).index).value
  }

  ghost function LinkEnd<T>(term: Parser<T>, operators: seq<Parser<(T, T) -> T>>, input: seq<char>, i: nat): nat
    requires Link(term, operators, input, i)
  {
    term(input, Choices(operators)(input, i).index).index
  }

  /** `n` consuming links in a row from cursor `i`. */
  ghost predicate Chain<T>(term: Parser<T>, operators: seq<Parser<(T, T) -> T>>, input: seq<char>, i: nat, n: nat)
    decreases n
  {
    n == 0 || (Link(term, operators, input, i) && Chain(term, operators, input, LinkEnd(term, operators, input, i), n - 1))
  }

  ghost function ChainEnd<T>(term: Parser<T>, operators: seq<Parser<(T, T) -> T>>, input: seq<char>, i: nat, n: nat): nat
    requires Chain(term, operators, input, i, n)
    decreases n
  {
    if n == 0 then i else ChainEnd(term, operators, input, LinkEnd(term, operators, input, i), n - 1)
  }

  /** The chain's operators applied from the left: op_n(... op_1(left, t_1) ..., t_n). */
  ghost function FoldLeftChain<T>(left: T, term: Parser<T>, operators: seq<Parser<(T, T) -> T>>, input: seq<char>, i: nat, n: nat): T
    requires Chain(term, operators, input, i, n)
    decreases n
  {
    if n == 0 then left
    else
      var expr := LinkOp(term, operators, input, i)(left, LinkTerm(term, operators, input, i));
      FoldLeftChain(expr, term, operators, input, LinkEnd(term, operators, input, i), n - 1)
  }

  /** The chain's operators applied from the right: op_1(left, op_2(t_1, ... op_n(t_{n-1}, t_n))). */
  ghost function FoldRightChain<T>(left: T, term: Parser<T>, operators: seq<Parser<(T, T) -> T>>, input: seq<char>, i: nat, n: nat): T
    requires n >= 1 && Chain(term, operators, input, i, n)
    decreases n
  {
    var op, t := LinkOp(term, operators, input, i), LinkTerm(term, operators, input, i);
    if n == 1 then op(left, t)
    else op(left, FoldRightChain(t, term, operators, input, LinkEnd(term, operators, input, i), n - 1))
  }

  /** One consuming link of a left chain, followed by the rest of the chain. */
  lemma InfixLLink<T>(left: T, term: Parser<T>, operators: seq<Parser<(T, T) -> T>>, input: seq<char>, i: nat)
    requires Link(term, operators, input, i)
    ensures var expr := LinkOp(term, operators, input, i)(left, LinkTerm(term, operators, input, i));
      var c := InfixLAt(expr, term, operators, input, LinkEnd(term, operators, input, i));
      InfixLAt(left, term, operators, input, i) ==
        if c.Fail? then Ok(expr, LinkEnd(term, operators, input, i))
        else if c.Error? then Error(i, c.message)
        else Ok(c.value, c.index)
  {
    var o := Choices(operators)(input, i);
    var t := term(input, o.index);
    var expr := o.value(left, t.value);
    var k := t.index;
    var cont := (right: T) => Choice(ContinueL(o.value(left, right), term, operators, input, i), Pure(o.value(left, right)));
    var c := InfixLAt(expr, term, operators, input, k);
    assert ContinueL(expr, term, operators, input, i)(input, k) == c;
    ChoiceCases(ContinueL(expr, term, operators, input, i), Pure(expr), input, k);
    BindCases(term, cont, input, o.index);
    BindCases(Choices(operators), (op: (T, T) -> T) => Bind(term, (right: T) =>
      Choice(ContinueL(op(left, right), term, operators, input, i), Pure(op(left, right)))), input, i);
  }

  /** A left chain of consuming links that ends where no operator matches
      yields the left fold of its operators, ending after the last term. */
  lemma {:induction false} InfixLFoldsLeft<T>(left: T, term: Parser<T>, operators: seq<Parser<(T, T) -> T>>, input: seq<char>, i: nat, n: nat)
    requires n >= 1 && Chain(term, operators, input, i, n)
    requires Choices(operators)(input, ChainEnd(term, operators, input, i, n)).Fail?
    ensures InfixLeft(left, term, operators)(input, i) ==
      Ok(FoldLeftChain(left, term, operators, input, i, n), ChainEnd(term, operators, input, i, n))
    decreases n
  {
    InfixLLink(left, term, operators, input, i);
    var expr := LinkOp(term, operators, input, i)(left, LinkTerm(term, operators, input, i));
    var k := LinkEnd(term, operators, input, i);
    if n == 1 {
      assert InfixLAt(expr, term, operators, input, k).Fail?;
    } else {
      InfixLFoldsLeft(expr, term, operators, input, k, n - 1);
    }
  }

  /** Two links: left op1 t1 op2 t2 gives op2(op1(left, t1), t2). */
  lemma InfixLTwoLinks<T>(left: T, term: Parser<T>, operators: seq<Parser<(T, T) -> T>>, input: seq<char>, i: nat)
    requires Chain(term, operators, input, i, 2)
    requires Choices(operators)(input, ChainEnd(term, operators, input, i, 2)).Fail?
    ensures var op1, t1, k1 := LinkOp(term, operators, input, i), LinkTerm(term, operators, input, i), LinkEnd(term, operators, input, i);
      var op2, t2, k2 := LinkOp(term, operators, input, k1), LinkTerm(term, operators, input, k1), LinkEnd(term, operators, input, k1);
      InfixLeft(left, term, operators)(input, i) == Ok(op2(op1(left, t1), t2), k2)
  {
    InfixLFoldsLeft(left, term, operators, input, i, 2);
  }

  /** An operator that consumes but is not followed by a term, anywhere in a
      left chain, turns the whole chain into an error at the chain's start. */
  lemma {:induction false} InfixLIncomplete<T>(left: T, term: Parser<T>, operators: seq<Parser<(T, T) -> T>>, input: seq<char>, i: nat, n: nat)
    requires Chain(term, operators, input, i, n)
    requires var m := ChainEnd(term, operators, input, i, n); var o := Choices(operators)(input, m);
      o.Ok? && !IsSuccess(term(input, o.index))
    ensures var o := Choices(operators)(input, ChainEnd(term, operators, input, i, n));
      InfixLeft(left, term, operators)(input, i) == Error(i, term(input, o.index).message)
    decreases n
  {
    if n == 0 {
      var o := Choices(operators)(input, i);
      var cont := (op: (T, T) -> T) => Bind(term, (right: T) =>
        Choice(ContinueL(op(left, right), term, operators, input, i), Pure(op(left, right))));
      BindCases(Choices(operators), cont, input, i);
      BindCases(term, (right: T) => Choice(ContinueL(o.value(left, right), term, operators, input, i), Pure(o.value(left, right))), input, o.index);
    } else {
      InfixLLink(left, term, operators, input, i);
      var expr := LinkOp(term, operators, input, i)(left, LinkTerm(term, operators, input, i));
      InfixLIncomplete(expr, term, operators, input, LinkEnd(term, operators, input, i), n - 1);
    }
  }

  /** One consuming link of a right chain, with the rest of the chain as its right operand. */
  lemma InfixRLink<T>(left: T, term: Parser<T>, operators: seq<Parser<(T, T) -> T>>, input: seq<char>, i: nat)
    requires Link(term, operators, input, i)
    ensures var op, t := LinkOp(term, operators, input, i), LinkTerm(term, operators, input, i);
      var c := InfixRAt(t, term, operators, input, LinkEnd(term, operators, input, i));
      InfixRAt(left, term, operators, input, i) ==
        if c.Fail? then Ok(op(left, t), LinkEnd(term, operators, input, i))
        else if c.Error? then Error(i, c.message)
        else Ok(op(left, c.value), c.index)
  {
    var o := Choices(operators)(input, i);
    var t := term(input, o.index);
    var k := t.index;
    var rhsCont := (value: T) => Choice(ContinueR(value, term, operators, input, i), Pure(value));
    var rhs := Bind(term, rhsCont);
    var c := InfixRAt(t.value, term, operators, input, k);
    assert ContinueR(t.value, term, operators, input, i)(input, k) == c;
    ChoiceCases(ContinueR(t.value, term, operators, input, i), Pure(t.value), input, k);
    BindCases(term, rhsCont, input, o.index);
    FmapReply(rhs, (right: T) => o.value(left, right), input, o.index);
    BindCases(Choices(operators), (op: (T, T) -> T) =>
      Fmap(Bind(term, (value: T) => Choice(ContinueR(value, term, operators, input, i), Pure(value))),
           (right: T) => op(left, right)), input, i);
  }

  /** A right chain of consuming links that ends where no operator matches
      yields the right fold of its operators. */
  lemma {:induction false} InfixRFoldsRight<T>(left: T, term: Parser<T>, operators: seq<Parser<(T, T) -> T>>, input: seq<char>, i: nat, n: nat)
    requires n >= 1 && Chain(term, operators, input, i, n)
    requires Choices(operators)(input, ChainEnd(term, operators, input, i, n)).Fail?
    ensures InfixRight(left, term, operators)(input, i) ==
      Ok(FoldRightChain(left, term, operators, input, i, n), ChainEnd(term, operators, input, i, n))
    decreases n
  {
    InfixRLink(left, term, operators, input, i);
    var t := LinkTerm(term, operators, input, i);
    var k := LinkEnd(term, operators, input, i);
    if n == 1 {
      assert InfixRAt(t, term, operators, input, k).Fail?;
    } else {
      InfixRFoldsRight(t, term, operators, input, k, n - 1);
    }
  }

  /** Two links: left op1 t1 op2 t2 gives op1(left, op2(t1, t2)). */
  lemma InfixRTwoLinks<T>(left: T, term: Parser<T>, operators: seq<Parser<(T, T) -> T>>, input: seq<char>, i: nat)
    requires Chain(term, operators, input, i, 2)
    requires Choices(operators)(input, ChainEnd(term, operators, input, i, 2)).Fail?
    ensures var op1, t1, k1 := LinkOp(term, operators, input, i), LinkTerm(term, operators, input, i), LinkEnd(term, operators, input, i);
      var op2, t2, k2 := LinkOp(term, operators, input, k1), LinkTerm(term, operators, input, k1), LinkEnd(term, operators, input, k1);
      InfixRight(left, term, operators)(input, i) == Ok(op1(left, op2(t1, t2)), k2)
  {
    InfixRFoldsRight(left, term, operators, input, i, 2);
  }
}
