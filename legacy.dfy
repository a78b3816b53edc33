/** The first version of the library, src/reply.ts: a reply carries the
    rest of the input instead of a cursor, and failures carry nothing. */
module LegacyReplies {
  datatype Reply<+T> = Ok(value: T, input: string) | Epsilon(value: T, input: string) | Fail | Error

  predicate Empty<T>(r: Reply<T>) {
    r.Epsilon? || r.Fail?
  }

  predicate Consumed<T>(r: Reply<T>) {
    r.Ok? || r.Error?
  }

  /** Every reply is either empty or consumed, never both. */
  lemma EmptyIsNotConsumed<T>(r: Reply<T>)
    ensures Empty(r) <==> !Consumed(r)
  {
  }
}

/** The first version's parsers, src/parser.ts: a parser maps the remaining
    input to a reply. */
module LegacyParsers {
  import opened LegacyReplies

  type Parser<T> = string -> Reply<T>

  function Pure<T>(t: T): Parser<T> {
    (input: string) => Epsilon(t, input)
  }

  /** Sequencing without escalation: the continuation's reply is returned as is. */
  function Bind<A, B>(pa: Parser<A>, pb: A -> Parser<B>): Parser<B> {
    (input: string) =>
      var a := pa(input);
      if a.Epsilon? || a.Ok? then pb(a.value)(a.input)
      else if a.Fail? then Fail else Error
  }

  function Then<A, B>(pa: Parser<A>, pb: Parser<B>): Parser<B> {
    Bind(pa, (_: A) => pb)
  }

  /** The first character, when there is one and it passes the test. */
  function Satisfy(pred: char -> bool): Parser<char> {
    (input: string) =>
      if input == [] || !pred(input[0]) then Fail else Ok(input[0], input[1..])
  }

  function Char(c: char): Parser<char> {
    Satisfy((x: char) => x == c)
  }

  /** The literal `a` at the front of the input. */
  function Word(a: string): Parser<string> {
    (input: string) =>
      if |input| < |a| then Fail
      else
        var b := input[..|a|];
        if b != a then Fail else Ok(b, input[|a|..])
  }

  function Choice<T>(pa: Parser<T>, pb: Parser<T>): Parser<T> {
    (input: string) =>
      var a := pa(input);
      if Consumed(a) then a
      else if a.Fail? then pb(input)
      else
        var b := pb(input);
        if Empty(b) then a else b
  }

  /** `ps.reduce(choice)` has no initial value: the list must not be empty. */
  function Choices<T>(ps: seq<Parser<T>>): Parser<T>
    requires |ps| >= 1
  {
    if |ps| == 1 then ps[0] else Choice(Choices(ps[..|ps| - 1]), ps[|ps| - 1])
  }

  /** The loop of `some` after a first `Ok`: collects each `Ok` value, stops at
      a failure; a later epsilon ends the loop, its value dropped and its rest
      kept; an error is passed on.  A step that succeeds without shortening
      the input loops forever in the source and ends the loop here. */
  function SomeFrom<T>(p: Parser<T>, a: Reply<T>, out: seq<T>): Reply<seq<T>>
    requires a.Ok?
    decreases |a.input|
  {
    var output := out + [a.value];
    var x := p(a.input);
    if x.Fail? then Ok(output, a.input)
    else if x.Error? then Error
    else if x.Epsilon? then Ok(output, x.input)
    else if |x.input| < |a.input| then SomeFrom(p, x, output)
    else Ok(output, a.input)
  }

  /** One or more: a first reply that is not `Ok` gives `Fail`, or `Error` for an error. */
  function Some<T>(p: Parser<T>): Parser<seq<T>> {
    (input: string) =>
      var a := p(input);
      if a.Ok? then SomeFrom(p, a, []) else if a.Error? then Error else Fail
  }

  function Many<T>(p: Parser<T>): Parser<seq<T>> {
    Choice(Some(p), Pure([]))
  }

  /** Every `Ok` reply of `p` is shorter than its input. */
  ghost predicate Shrinks<T>(p: Parser<T>) {
    forall s: string :: p(s).Ok? ==> |p(s).input| < |s|
  }

  /** The `while` loop of `some`, proved to compute `Some`. */
  method RunSome<T>(p: Parser<T>, input: string) returns (r: Reply<seq<T>>)
    requires Shrinks(p)
    ensures r == Some(p)(input)
  {
    var a := p(input);
    if !a.Ok? {
      if a.Error? {
        return Error;
      }
      return Fail;
    }
    ghost var first := a;
    var output: seq<T> := [];
    while a.Ok?
      invariant a.Ok? ==> SomeFrom(p, first, []) == SomeFrom(p, a, output)
      invariant a.Error? ==> SomeFrom(p, first, []) == Error
      invariant a.Epsilon? ==> SomeFrom(p, first, []) == Ok(output, a.input)
      invariant !a.Fail?
      decreases if a.Ok? then |a.input| + 1 else 0
    {
      output := output + [a.value];
      var x := p(a.input);
      if x.Fail? {
        break;
      }
      a := x;
    }
    if a.Error? {
      return Error;
    }
    r := Ok(output, a.input);
  }

  /** The legacy bind never escalates: after a consuming first step, the
      continuation's failure comes back unchanged. */
  lemma BindReply<A, B>(pa: Parser<A>, pb: A -> Parser<B>, input: string)
    ensures var a := pa(input); var r := Bind(pa, pb)(input);
      && (a.Ok? || a.Epsilon? ==> r == pb(a.value)(a.input))
      && (a.Fail? ==> r.Fail?)
      && (a.Error? ==> r.Error?)
      && (a.Ok? && pb(a.value)(a.input).Fail? ==> r.Fail?)
  {
  }

  lemma SatisfyReply(pred: char -> bool, input: string)
    ensures var r := Satisfy(pred)(input);
      && (r.Ok? <==> input != [] && pred(input[0]))
      && (r.Ok? ==> r.value == input[0] && r.input == input[1..])
      && (!r.Ok? ==> r.Fail?)
  {
  }

  /** `word(a)` matches exactly when the input starts with `a`, and leaves the rest. */
  lemma WordReply(a: string, input: string)
    ensures var r := Word(a)(input);
      && (r.Ok? <==> |a| <= |input| && input[..|a|] == a)
      && (r.Ok? ==> r.value == a && r.input == input[|a|..] && a + r.input == input)
      && (!r.Ok? ==> r.Fail?)
  {
    if |a| <= |input| && input[..|a|] == a {
      assert a + input[|a|..] == input;
    }
  }

  /** A consuming alternative is final; a failing one gives way to the next. */
  lemma ChoiceReply<T>(pa: Parser<T>, pb: Parser<T>, input: string)
    ensures var a, b, r := pa(input), pb(input), Choice(pa, pb)(input);
      && (Consumed(a) ==> r == a)
      && (a.Fail? ==> r == b)
      && (a.Epsilon? ==> r == if Empty(b) then a else b)
  {
  }

  /** With a single parser, `choices` is that parser; otherwise the last
      parser is tried only when all the others fail. */
  lemma {:induction false} ChoicesAllFail<T>(ps: seq<Parser<T>>, input: string)
    requires |ps| >= 1
    requires forall k :: 0 <= k < |ps| - 1 ==> ps[k](input).Fail?
    ensures Choices(ps)(input) == ps[|ps| - 1](input)
    decreases |ps|
  {
    if |ps| > 1 {
      var init := ps[..|ps| - 1];
      ChoicesAllFail(init, input);
      if |init| > 1 {
        assert init[|init| - 1] == ps[|ps| - 2];
      }
    }
  }

  /** The first `Ok` of `p` must consume; a first epsilon makes `some` fail. */
  lemma SomeFirstStep<T>(p: Parser<T>, input: string)
    ensures var a, r := p(input), Some(p)(input);
      && (a.Epsilon? || a.Fail? ==> r == Fail)
      && (a.Error? ==> r == Error)
      && (a.Ok? ==> r.Ok? || r.Error?)
  {
    var a := p(input);
    if a.Ok? {
      SomeFromSucceedsOrErrs(p, a, []);
    }
  }

  lemma {:induction false} SomeFromSucceedsOrErrs<T>(p: Parser<T>, a: Reply<T>, out: seq<T>)
    requires a.Ok?
    ensures var r := SomeFrom(p, a, out); r.Ok? || r.Error?
    ensures var r := SomeFrom(p, a, out); r.Ok? ==> |r.value| > |out|
    decreases |a.input|
  {
    var x := p(a.input);
    if x.Ok? && |x.input| < |a.input| {
      SomeFromSucceedsOrErrs(p, x, out + [a.value]);
    }
  }

  /** An epsilon as the second step ends the loop: its value is dropped but
      the cursor moves to its rest (SomeChain states this for any later step). */
  lemma SomeDropsLaterEpsilon<T>(p: Parser<T>, input: string)
    requires p(input).Ok? && p(p(input).input).Epsilon?
    ensures Some(p)(input) == Ok([p(input).value], p(p(input).input).input)
  {
    assert [] + [p(input).value] == [p(input).value];
  }

  /** `vs` are the values of consecutive `Ok` replies of `p`, each shorter than
      the input it was given, leading from `input` to `rest`. */
  ghost predicate OkChain<T>(p: Parser<T>, input: string, vs: seq<T>, rest: string)
    decreases |vs|
  {
    if vs == [] then rest == input
    else
      var a := p(input);
      a.Ok? && |a.input| < |input| && a.value == vs[0] && OkChain(p, a.input, vs[1..], rest)
  }

  /** The loop after a first `Ok` follows a chain of shrinking `Ok` steps and
      ends by the reply that comes next: a failure keeps the chain's rest, an
      epsilon moves to its own rest with its value dropped, an error is passed on. */
  lemma {:induction false} SomeFromChain<T>(p: Parser<T>, a: Reply<T>, out: seq<T>, ws: seq<T>, rest: string)
    requires a.Ok? && OkChain(p, a.input, ws, rest)
    ensures var x, r, vs := p(rest), SomeFrom(p, a, out), out + [a.value] + ws;
      && (x.Fail? ==> r == Ok(vs, rest))
      && (x.Epsilon? ==> r == Ok(vs, x.input))
      && (x.Error? ==> r == Error)
    decreases |ws|
  {
    if ws != [] {
      var x := p(a.input);
      SomeFromChain(p, x, out + [a.value], ws[1..], rest);
      assert out + [a.value] + [x.value] + ws[1..] == out + [a.value] + ws;
    } else {
      assert out + [a.value] + ws == out + [a.value];
    }
  }

  /** `some` on a chain of `Ok` steps (all but the first shrinking the input)
      collects their values and ends as the following reply decides. */
  lemma SomeChain<T>(p: Parser<T>, input: string, vs: seq<T>, rest: string)
    requires |vs| >= 1 && p(input).Ok? && p(input).value == vs[0]
    requires OkChain(p, p(input).input, vs[1..], rest)
    ensures var x, r := p(rest), Some(p)(input);
      && (x.Fail? ==> r == Ok(vs, rest))
      && (x.Epsilon? ==> r == Ok(vs, x.input))
      && (x.Error? ==> r == Error)
  {
    SomeFromChain(p, p(input), [], vs[1..], rest);
    assert [] + [vs[0]] + vs[1..] == vs;
  }

  /** The number of characters at the front of `s` that pass the test. */
  function Span(pred: char -> bool, s: string): (k: nat)
    ensures k <= |s|
    ensures forall j :: 0 <= j < k ==> pred(s[j])
    ensures k < |s| ==> !pred(s[k])
  {
    if s != [] && pred(s[0]) then 1 + Span(pred, s[1..]) else 0
  }

  lemma {:induction false} SomeFromSatisfy(pred: char -> bool, c: char, t: string, out: seq<char>)
    ensures var k := Span(pred, t);
      SomeFrom(Satisfy(pred), Ok(c, t), out) == Ok(out + [c] + t[..k], t[k..])
    decreases |t|
  {
    var k := Span(pred, t);
    SatisfyReply(pred, t);
    if t != [] && pred(t[0]) {
      SomeFromSatisfy(pred, t[0], t[1..], out + [c]);
      assert [t[0]] + t[1..][..k - 1] == t[..k];
      assert out + [c] + [t[0]] + t[1..][..k - 1] == out + [c] + t[..k];
      assert t[1..][k - 1..] == t[k..];
    } else {
      assert t[..k] == [] && t[k..] == t;
      assert out + [c] + t[..k] == out + [c];
      assert SomeFrom(Satisfy(pred), Ok(c, t), out) == Ok(out + [c], t);
    }
  }

  /** `some(satisfy(pred))` takes the longest run of passing characters, and
      fails when there is none. */
  lemma SomeSatisfy(pred: char -> bool, input: string)
    ensures var k, r := Span(pred, input), Some(Satisfy(pred))(input);
      (k == 0 ==> r == Fail) && (k > 0 ==> r == Ok(input[..k], input[k..]))
  {
    var k := Span(pred, input);
    SatisfyReply(pred, input);
    if k > 0 {
      SomeFromSatisfy(pred, input[0], input[1..], []);
      assert [] + [input[0]] + input[1..][..k - 1] == [input[0]] + input[1..][..k - 1];
      assert [input[0]] + input[1..][..k - 1] == input[..k];
      assert input[1..][k - 1..] == input[k..];
    }
  }

  /** `many` turns the failure of `some` into an empty list without consuming. */
  lemma ManyReply<T>(p: Parser<T>, input: string)
    ensures var s, r := Some(p)(input), Many(p)(input);
      r == if s.Fail? then Epsilon([], input) else s
  {
    SomeFirstStep(p, input);
  }
}

/** How the first version relates to the current one on the same text: a
    legacy parser run on `input[i..]` against a current parser run on
    `input` at cursor `i`. */
module Versions {
  import L = LegacyReplies
  import LP = LegacyParsers
  import opened Replies
  import opened Combinators
  import opened Sequencing
  import opened Primitives
  import opened Alternatives
  import opened Intended

  /** Same kind of reply, same value, and the legacy rest is the input after the current cursor. */
  ghost predicate Corresponds<T>(first: L.Reply<T>, current: Reply<T>, input: seq<char>) {
    match current
    case Ok(v, j) => first.Ok? && first.value == v && j <= |input| && first.input == input[j..]
    case Epsilon(v, j) => first.Epsilon? && first.value == v && j <= |input| && first.input == input[j..]
    case Fail(_, _) => first.Fail?
    case Error(_, _) => first.Error?
  }

  lemma SatisfyCorresponds(pred: char -> bool, input: seq<char>, i: nat)
    requires i <= |input|
    ensures Corresponds(LP.Satisfy(pred)(input[i..]), Satisfy(pred)(input, i), input)
  {
    SatisfyReply(pred, input, i);
    LP.SatisfyReply(pred, input[i..]);
    if i < |input| {
      assert input[i..][1..] == input[i + 1..];
    }
  }

  /** The legacy `word` reads the literal at the front of the rest: it is the
      corrected literal of the current version, not the as-written `word`. */
  lemma WordCorrespondsToLiteral(a: string, input: seq<char>, i: nat)
    requires i <= |input|
    ensures Corresponds(LP.Word(a)(input[i..]), Literal(a)(input, i), input)
  {
    LiteralReply(a, input, i);
    LP.WordReply(a, input[i..]);
    if i + |a| <= |input| {
      assert input[i..][..|a|] == input[i..i + |a|];
      assert input[i..][|a|..] == input[i + |a|..];
    }
  }

  /** After a consuming first step, the legacy bind backtracks where the
      current one commits: "a" then "b" on "ac", or else "a". */
  lemma BindEscalationIsNew()
    ensures LP.Choice(LP.Then(LP.Char('a'), LP.Char('b')), LP.Char('a'))("ac") == L.Ok('a', "c")
    ensures Choice(Then(Char('a'), Char('b')), Char('a'))("ac", 0) == Error(0, Nothing)
  {
    LP.SatisfyReply((x: char) => x == 'a', "ac");
    LP.SatisfyReply((x: char) => x == 'b', "c");
    assert "ac"[1..] == "c";
    CharReply('a', "ac", 0);
    CharReply('b', "ac", 1);
    BindCases(Char('a'), (_: char) => Char('b'), "ac", 0);
  }
}
