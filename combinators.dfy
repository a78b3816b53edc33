/** The combinator engine (src/parser/index.ts).

    A parser is a total function from the input and a cursor to a reply.  The
    combinators below build new parsers from old ones, branch for branch as the
    source does; the properties they promise are stated as lemmas in the
    modules Sequencing, Alternatives and Repetition.
 */
module Combinators {
  import opened Replies

  type Parser<T> = (seq<char>, nat) -> Reply<T>

  /** A parser that fails at the cursor with no message. */
  function FailAt<T>(i: nat): Reply<T> {
    Fail(i, Nothing)
  }

  function Pure<T>(t: T): Parser<T> {
    (input: seq<char>, i: nat) => Epsilon(t, i)
  }

  /** Sequencing.  After a consuming first step, any failure of the
      continuation becomes an error at the original cursor. */
  function Bind<A, B>(p: Parser<A>, f: A -> Parser<B>): Parser<B> {
    (input: seq<char>, i: nat) =>
      var a := p(input, i);
      if a.Epsilon? then f(a.value)(input, a.index)
      else if a.Fail? then a.Propagate()
      else if a.Ok? then
        var b := f(a.value)(input, a.index);
        if b.Fail? || b.Error? then Error(i, b.message) else Ok(b.value, b.index)
      else a.Propagate()
  }

  function Then<A, B>(pa: Parser<A>, pb: Parser<B>): Parser<B> {
    Bind(pa, (_: A) => pb)
  }

  /** The source's argument order: the parser first, the function second. */
  function Fmap<A, B>(pa: Parser<A>, f: A -> B): Parser<B> {
    Bind(pa, (a: A) => Pure(f(a)))
  }

  function Apply<A, B>(pf: Parser<A -> B>, pa: Parser<A>): Parser<B> {
    Bind(pf, (f: A -> B) => Bind(pa, (a: A) => Pure(f(a))))
  }

  function After<A, B>(pa: Parser<A>, pb: Parser<B>): Parser<A> {
    Bind(pa, (a: A) => Then(pb, Pure(a)))
  }

  function Compose<A, B, C>(f: A -> B, g: B -> C): A -> C {
    (t: A) => g(f(t))
  }

  function Satisfy(pred: char -> bool): Parser<char> {
    (input: seq<char>, i: nat) =>
      if i >= |input| || !pred(input[i]) then FailAt(i)
      else Ok(input[i], i + 1)
  }

  function Char(c: char): Parser<char> {
    Satisfy((x: char) => x == c)
  }

  function AnyChar(): Parser<char> {
    Satisfy((_: char) => true)
  }

  /** JavaScript's `s.slice(start, end)` for non-negative arguments: both ends
      are clamped to the length, and an empty range gives the empty string. */
  function JsSlice(s: seq<char>, start: nat, end: nat): (r: seq<char>)
    ensures |r| <= |s|
    ensures start < end <= |s| ==> r == s[start..end]
    ensures |s| <= start || end <= start ==> r == []
  {
    var st := if start < |s| then start else |s|;
    var en := if end < |s| then end else |s|;
    if st < en then s[st..en] else []
  }

  /** As written: the slice ends at `|a|`, not at `i + |a|`. */
  function Word(a: string): Parser<string> {
    (input: seq<char>, i: nat) =>
      if |input| < |a| then FailAt(i)
      else
        var b := JsSlice(input, i, |a|);
        if b != a then FailAt(i) else Ok(b, i + |a|)
  }

  /** Left-biased choice that commits once its first alternative has consumed. */
  function Choice<T>(pa: Parser<T>, pb: Parser<T>): Parser<T> {
    (input: seq<char>, i: nat) =>
      var a := pa(input, i);
      if a.Ok? || a.Error? then a
      else if a.Fail? then pb(input, i)
      else
        var b := pb(input, i);
        if b.Epsilon? || b.Fail? then a else b
  }

  /** `ps.reduce((a, b) => choice(a, b))` for a non-empty list. */
  function ChoiceFold<T>(ps: seq<Parser<T>>): Parser<T>
    requires |ps| > 0
  {
    if |ps| == 1 then ps[0] else Choice(ChoiceFold(ps[..|ps| - 1]), ps[|ps| - 1])
  }

  /** With no alternatives the result fails gracefully at the cursor. */
  function Choices<T>(ps: seq<Parser<T>>): Parser<T> {
    if |ps| == 0 then (input: seq<char>, i: nat) => FailAt(i)
    else ChoiceFold(ps)
  }

  /** The parser makes progress on `input`: every success moves the cursor
      forward and stays within the input.  `some` and `skipSome` terminate
      exactly on such parsers. */
  ghost predicate Advances<T>(p: Parser<T>, input: seq<char>) {
    forall j: nat :: IsSuccess(p(input, j)) ==> j < p(input, j).index <= |input|
  }

  /** The loop of `some` once `a` has succeeded and `out` holds the values
      collected before it.  A step that succeeds without moving forward (or
      moves past the input) makes the source loop forever; the model stops
      there and returns what it has collected, a case that `Advances` rules out. */
  function SomeLoop<T>(p: Parser<T>, input: seq<char>, a: Reply<T>, out: seq<T>): Reply<seq<T>>
    requires IsSuccess(a)
    decreases |input| - a.index
  {
    var output := out + [a.value];
    var x := p(input, a.index);
    if x.Fail? then Ok(output, a.index)
    else if x.Error? then x.Propagate()
    else if a.index < x.index <= |input| then SomeLoop(p, input, x, output)
    else Ok(output, a.index)
  }

  /** One or more; stops at the first `Fail`, even when every step was an epsilon. */
  function Some<T>(p: Parser<T>): Parser<seq<T>> {
    (input: seq<char>, i: nat) =>
      var a := p(input, i);
      if !IsSuccess(a) then a.Propagate() else SomeLoop(p, input, a, [])
  }

  function Many<T>(p: Parser<T>): Parser<seq<T>> {
    Choice(Some(p), Pure([]))
  }

  /** The loop of `skipSome`: like `SomeLoop`, without collecting values. */
  function SkipLoop<T>(p: Parser<T>, input: seq<char>, a: Reply<T>): Reply<()>
    requires IsSuccess(a)
    decreases |input| - a.index
  {
    var x := p(input, a.index);
    if x.Fail? then Epsilon((), a.index)
    else if x.Error? then x.Propagate()
    else if a.index < x.index <= |input| then SkipLoop(p, input, x)
    else Epsilon((), a.index)
  }

  /** As written: reports `Epsilon` even after consuming input. */
  function SkipSome<T>(p: Parser<T>): Parser<()> {
    (input: seq<char>, i: nat) =>
      var a := p(input, i);
      if !IsSuccess(a) then a.Propagate() else SkipLoop(p, input, a)
  }

  function Skip<T>(p: Parser<T>): Parser<()> {
    Choice(SkipSome(p), Pure(()))
  }

  function Between<A, B, C>(open: Parser<A>, close: Parser<B>, pa: Parser<C>): Parser<C> {
    Then(open, Bind(pa, (a: C) => Then(close, Pure(a))))
  }

  function Option<T>(p: Parser<T>, def: T): Parser<T> {
    Choice(p, Pure(def))
  }

  /** Runs the thunk's parser each time the parser runs. */
  function Lazy<T>(thunk: () -> Parser<T>): Parser<T> {
    (input: seq<char>, i: nat) => thunk()(input, i)
  }

  function Void<T>(p: Parser<T>): Parser<()> {
    Fmap(p, (_: T) => ())
  }

  /** The snippet the end-of-input message quotes: the last 30 characters of
      the whole input, or all of it when it is no longer than that. */
  function Snippet(input: seq<char>): string {
    if |input| > 30 then input[|input| - 30..] else input
  }

  function EndOfInputMessage(input: seq<char>): string {
    "Expected end of input. got: " + Snippet(input) + (if |input| > 30 then " (...)" else "")
  }

  /** As written: the test is inverted relative to the message, so the error
      is reported AT the end of the input and `Epsilon` everywhere before it. */
  function EndOfInput(): Parser<()> {
    (input: seq<char>, i: nat) =>
      if i >= |input| then Error(i, Just(EndOfInputMessage(input)))
      else Epsilon((), i)
  }

  function SepBy1<A, B>(p: Parser<A>, sep: Parser<B>): Parser<seq<A>> {
    Bind(p, (a: A) => Fmap(Many(Then(sep, p)), (rest: seq<A>) => [a] + rest))
  }

  function SepBy<A, B>(p: Parser<A>, sep: Parser<B>): Parser<seq<A>> {
    Choice(SepBy1(p, sep), Pure([]))
  }

  /** The source's `error(message)`. */
  function Raise(message: string): Parser<()> {
    (input: seq<char>, i: nat) => Error(i, Just(message))
  }

  /** Turns an error into a message-less failure at the original cursor. */
  function Attempt<T>(p: Parser<T>): Parser<T> {
    (input: seq<char>, i: nat) =>
      var a := p(input, i);
      if a.Error? then FailAt(i) else a
  }

  /** On an error, runs the parser the catcher builds from its message, from the original cursor. */
  function TryCatch<T>(p: Parser<T>, catcher: Maybe<string> -> Parser<T>): Parser<T> {
    (input: seq<char>, i: nat) =>
      var a := p(input, i);
      if a.Error? then catcher(a.message)(input, i) else a
  }
}
