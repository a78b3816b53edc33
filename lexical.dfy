/** The lexical helpers of src/parser/utils.ts: isDigit, integer, boolean,
    isWhitespace, whitespace, newline and lexeme. */
module Lexical {
  import opened Replies
  import opened Combinators
  import opened Sequencing
  import opened Primitives
  import opened Alternatives
  import opened Repetition
  import opened Decimal

  /** `/^[0-9]$/`: one decimal digit. */
  predicate IsDigit(c: char) {
    '0' <= c <= '9'
  }

  /** `/^\s$/`: one character of JavaScript's white-space class (white space
      and line terminators), by code point. */
  predicate IsWhitespace(c: char) {
    var n := c as int;
    || n == 0x20 || 0x09 <= n <= 0x0D || n == 0xA0 || n == 0x1680
    || 0x2000 <= n <= 0x200A || n == 0x2028 || n == 0x2029 || n == 0x202F
    || n == 0x205F || n == 0x3000 || n == 0xFEFF
  }

  /** The run of digits at the cursor, read as a decimal number (the
      argument order of the source's `fmap` call is corrected here). */
  function Integer(): Parser<nat> {
    Fmap(Many(Satisfy(IsDigit)), (digits: seq<char>) => DigitsValue(digits))
  }

  /** "true" is tried before "false". */
  function Boolean(): Parser<bool> {
    Choice(Then(Word("true"), Pure(true)), Then(Word("false"), Pure(false)))
  }

  function Whitespace(): Parser<()> {
    Skip(Satisfy(IsWhitespace))
  }

  function Newline(): Parser<()> {
    Void(Char('\n'))
  }

  /** `p` followed by any white space, keeping `p`'s value. */
  function Lexeme<T>(p: Parser<T>): Parser<T> {
    After(p, Whitespace())
  }

  /** The character classes of the two predicates. */
  lemma CharacterClasses(c: char)
    ensures IsDigit(c) <==> c in "0123456789"
    ensures IsDigit(c) <==> IsDecimalDigit(c)
    ensures IsWhitespace(c) ==> !IsDigit(c)
    ensures c == ' ' || c == '\t' || c == '\n' || c == '\r' ==> IsWhitespace(c)
  {
  }

  /** `integer` never fails: it reads the maximal run of digits at the cursor
      (possibly empty, which reads as 0 without consuming). */
  lemma IntegerReply(input: seq<char>, i: nat)
    ensures var e := SpanEnd(IsDigit, input, i);
      Integer()(input, i) == if e == i then Epsilon(0, i) else Ok(DigitsValue(input[i..e]), e)
  {
    ManySatisfySpan(IsDigit, input, i);
    FmapReply(Many(Satisfy(IsDigit)), (digits: seq<char>) => DigitsValue(digits), input, i);
  }

  lemma {:induction false} SpanOfDigitsThenOther(s: seq<char>, rest: seq<char>, i: nat)
    requires AllDigits(s) && i <= |s|
    requires rest == [] || !IsDigit(rest[0])
    ensures SpanEnd(IsDigit, s + rest, i) == |s|
    decreases |s| - i
  {
    if i < |s| {
      SpanOfDigitsThenOther(s, rest, i + 1);
    }
  }

  /** Print-then-parse round trip: `integer` reads back the rendering of any
      number that is not followed by another digit. */
  lemma IntegerReadsRendering(n: nat, rest: seq<char>)
    requires rest == [] || !IsDigit(rest[0])
    ensures Integer()(NatToString(n) + rest, 0) == Ok(n, |NatToString(n)|)
  {
    var s := NatToString(n);
    SpanOfDigitsThenOther(s, rest, 0);
    IntegerReply(s + rest, 0);
    assert (s + rest)[0..|s|] == s;
    NatToStringRoundTrip(n);
  }

  /** `boolean` yields true for "true" and false for "false", each consuming
      the word; because of `word`'s slicing it can match only at cursor 0. */
  lemma BooleanReply(input: seq<char>, i: nat)
    ensures Boolean()(input, i) ==
      if i == 0 && |input| >= 4 && input[..4] == "true" then Ok(true, 4)
      else if i == 0 && |input| >= 5 && input[..5] == "false" then Ok(false, 5)
      else Fail(i, Nothing)
  {
    WordReply("true", input, i);
    WordReply("false", input, i);
    BindCases(Word("true"), (_: string) => Pure(true), input, i);
    BindCases(Word("false"), (_: string) => Pure(false), input, i);
    ChoiceCases(Then(Word("true"), Pure(true)), Then(Word("false"), Pure(false)), input, i);
    if i == 0 && |input| >= 5 && input[..5] == "false" {
      assert input[..4] != "true" by { assert input[0] == 'f'; }
    }
  }

  /** `whitespace` never fails: it moves past the maximal run of white space
      at the cursor and reports no consumption. */
  lemma WhitespaceReply(input: seq<char>, i: nat)
    ensures var e := SpanEnd(IsWhitespace, input, i);
      && Whitespace()(input, i) == Epsilon((), e)
      && (forall j :: i <= j < e ==> j < |input| && IsWhitespace(input[j]))
      && (e < |input| ==> !IsWhitespace(input[e]))
  {
    SkipSatisfySpan(IsWhitespace, input, i);
  }

  /** `newline` consumes exactly one line feed. */
  lemma NewlineReply(input: seq<char>, i: nat)
    ensures Newline()(input, i) == if i < |input| && input[i] == '\n' then Ok((), i + 1) else Fail(i, Nothing)
  {
    CharReply('\n', input, i);
    FmapReply(Char('\n'), (_: char) => (), input, i);
  }

  /** `lexeme(p)` fails exactly as `p` does; otherwise it keeps `p`'s value and
      its consumption flag and ends after the white space that follows. */
  lemma LexemeReply<T>(p: Parser<T>, input: seq<char>, i: nat)
    ensures var a, r := p(input, i), Lexeme(p)(input, i);
      && (!IsSuccess(a) ==> r == a)
      && (IsSuccess(a) ==> var e := SpanEnd(IsWhitespace, input, a.index);
            r == if a.Ok? then Ok(a.value, e) else Epsilon(a.value, e))
  {
    var a := p(input, i);
    BindCases(p, (x: T) => Then(Whitespace(), Pure(x)), input, i);
    if IsSuccess(a) {
      WhitespaceReply(input, a.index);
      BindCases(Whitespace(), (_: ()) => Pure(a.value), input, a.index);
    }
  }
}
