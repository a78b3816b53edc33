/** The corrected forms of two primitives of src/parser/index.ts whose code
    does not do what their names and messages say: `word` and `endOfInput`,
    with `boolean` and `parse` rebuilt on top of them. */
module Intended {
  import opened Replies
  import opened Combinators
  import opened Sequencing
  import opened Primitives
  import opened Alternatives
  import opened Lexical
  import opened Driver

  /** `word` with the slice ending at `i + |a|`: the literal `a` at the cursor. */
  function Literal(a: string): Parser<string> {
    (input: seq<char>, i: nat) =>
      if |input| < |a| then FailAt(i)
      else
        var b := JsSlice(input, i, i + |a|);
        if b != a then FailAt(i) else Ok(b, i + |a|)
  }

  /** The literal matches exactly where the input continues with it (the
      empty literal matches at every cursor). */
  lemma LiteralReply(a: string, input: seq<char>, i: nat)
    ensures var r := Literal(a)(input, i);
      (r.Ok? <==> a == [] || (i + |a| <= |input| && input[i..i + |a|] == a)) &&
      (r.Ok? ==> r.value == a && r.index == i + |a|) &&
      (!r.Ok? ==> r == Fail(i, Nothing))
  {
    assert Literal(a)(input, i) ==
      if |input| < |a| then FailAt(i)
      else if JsSlice(input, i, i + |a|) != a then FailAt(i) else Ok(JsSlice(input, i, i + |a|), i + |a|);
    if |a| <= |input| && a != [] {
      if i + |a| > |input| {
        assert |JsSlice(input, i, i + |a|)| < |a|;
      } else {
        assert JsSlice(input, i, i + |a|) == input[i..i + |a|];
      }
    }
  }

  /** At the start of the input the two agree: the defect shows only later. */
  lemma LiteralAgreesAtStart(a: string, input: seq<char>)
    ensures Literal(a)(input, 0) == Word(a)(input, 0)
  {
    LiteralReply(a, input, 0);
    WordReply(a, input, 0);
  }

  /** As written, `word("b")` does not find the "b" of "ab" at cursor 1;
      the corrected literal does. */
  lemma WordMissesLaterMatch()
    ensures Word("b")("ab", 1) == Fail(1, Nothing)
    ensures Literal("b")("ab", 1) == Ok("b", 2)
  {
    WordReply("b", "ab", 1);
    LiteralReply("b", "ab", 1);
    assert "ab"[1..2] == "b";
  }

  /** `boolean` on the corrected literal. */
  function BooleanAnywhere(): Parser<bool> {
    Choice(Then(Literal("true"), Pure(true)), Then(Literal("false"), Pure(false)))
  }

  /** "true" or "false" is recognised at any cursor. */
  lemma BooleanAnywhereReply(input: seq<char>, i: nat)
    ensures BooleanAnywhere()(input, i) ==
      if i + 4 <= |input| && input[i..i + 4] == "true" then Ok(true, i + 4)
      else if i + 5 <= |input| && input[i..i + 5] == "false" then Ok(false, i + 5)
      else Fail(i, Nothing)
  {
    LiteralReply("true", input, i);
    LiteralReply("false", input, i);
    BindCases(Literal("true"), (_: string) => Pure(true), input, i);
    BindCases(Literal("false"), (_: string) => Pure(false), input, i);
    ChoiceCases(Then(Literal("true"), Pure(true)), Then(Literal("false"), Pure(false)), input, i);
    if i + 5 <= |input| && input[i..i + 5] == "false" {
      assert input[i..i + 4] != "true" by { assert input[i..i + 5][0] == input[i] == input[i..i + 4][0]; }
    }
  }

  /** As written, `boolean` reads "true" only at the start of the input. */
  lemma BooleanMissesLaterMatch()
    ensures Boolean()(" true", 1) == Fail(1, Nothing)
    ensures BooleanAnywhere()(" true", 1) == Ok(true, 5)
  {
    BooleanReply(" true", 1);
    BooleanAnywhereReply(" true", 1);
    assert " true"[1..5] == "true";
  }

  /** `endOfInput` with the test the message describes: an error while input remains. */
  function EndOfInputIntended(): Parser<()> {
    (input: seq<char>, i: nat) =>
      if i < |input| then Error(i, Just(EndOfInputMessage(input)))
      else Epsilon((), i)
  }

  lemma EndOfInputIntendedReply(input: seq<char>, i: nat)
    ensures var r := EndOfInputIntended()(input, i);
      (r.Epsilon? <==> i >= |input|) &&
      (r.Epsilon? ==> r == Epsilon((), i)) &&
      (!r.Epsilon? ==> r == Error(i, Just(EndOfInputMessage(input))))
  {
  }

  /** The corrected endOfInput answers the opposite of the written one at every cursor. */
  lemma EndOfInputIsInverted(input: seq<char>, i: nat)
    ensures EndOfInput()(input, i).Error? <==> !EndOfInputIntended()(input, i).Error?
  {
  }

  /** `parse` on the corrected endOfInput. */
  function ParseIntended<T>(parser: Parser<T>, input: seq<char>, config: Config): ParserResult<T> {
    var text := Transform(config, input);
    var run := if config.allowLeftovers then parser else After(parser, EndOfInputIntended());
    ToResult(run(text, 0))
  }

  /** Without leftovers allowed, the corrected parse succeeds exactly when the
      parser succeeds and reaches the end of the text, and reports leftovers
      as an error (at 0 if the parser consumed). */
  lemma ParseIntendedWithoutLeftovers<T>(parser: Parser<T>, input: seq<char>, config: Config)
    requires !config.allowLeftovers
    ensures var text := Transform(config, input); var r := parser(text, 0); var res := ParseIntended(parser, input, config);
      && (res.Success? <==> IsSuccess(r) && r.index >= |text|)
      && (res.Success? ==> res.value == r.value)
      && (!IsSuccess(r) ==> res == Failure(r.index, r.message))
      && (IsSuccess(r) && r.index < |text| ==>
            res == Failure(if r.Ok? then 0 else r.index, Just(EndOfInputMessage(text))))
  {
    var text := Transform(config, input);
    var r := parser(text, 0);
    BindCases(parser, (a: T) => Then(EndOfInputIntended(), Pure(a)), text, 0);
    if IsSuccess(r) {
      EndOfInputIntendedReply(text, r.index);
      BindCases(EndOfInputIntended(), (_: ()) => Pure(r.value), text, r.index);
    }
  }

  /** With leftovers allowed the two parse functions agree. */
  lemma ParseIntendedWithLeftovers<T>(parser: Parser<T>, input: seq<char>, config: Config)
    requires config.allowLeftovers
    ensures ParseIntended(parser, input, config) == Parse(parser, input, config)
  {
  }

  /** As written, `parse(anyChar, "a")` fails and `parse(anyChar, "ab")`
      succeeds; the corrected parse answers the other way round. */
  lemma ParseAcceptsLeftovers()
    ensures Parse(AnyChar(), "a", DefaultConfig()).Failure?
    ensures Parse(AnyChar(), "ab", DefaultConfig()) == Success('a')
    ensures ParseIntended(AnyChar(), "a", DefaultConfig()) == Success('a')
    ensures ParseIntended(AnyChar(), "ab", DefaultConfig()).Failure?
  {
    AnyCharReply("a", 0);
    AnyCharReply("ab", 0);
    ParseWithoutLeftovers(AnyChar(), "a", DefaultConfig());
    ParseWithoutLeftovers(AnyChar(), "ab", DefaultConfig());
    ParseIntendedWithoutLeftovers(AnyChar(), "a", DefaultConfig());
    ParseIntendedWithoutLeftovers(AnyChar(), "ab", DefaultConfig());
  }
}
