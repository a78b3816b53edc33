/** The entry point of src/index.ts: `parse` with its configuration (trimming
    of the input, and whether leftovers are allowed). */
module Driver {
  import opened Replies
  import opened Combinators
  import opened Sequencing
  import opened Primitives
  import opened Lexical

  /** Which end of the input to trim. */
  datatype Side = Start | End | Both

  /** The `trim` option.  `how` (a regular expression or a character test)
      is accepted but never consulted. */
  datatype TrimConfig = TrimConfig(where: Maybe<Side>, how: Maybe<char -> bool>)

  /** The configuration; the source's absent `allowLeftovers` reads as false. */
  datatype Config = Config(allowLeftovers: bool, trim: Maybe<TrimConfig>)

  /** The default configuration `{}`. */
  function DefaultConfig(): Config {
    Config(false, Nothing)
  }

  datatype ParserResult<+T> = Success(value: T) | Failure(index: nat, message: Maybe<string>)

  /** `trimStart`: the input without its leading whitespace. */
  function TrimStart(s: seq<char>): (r: seq<char>)
    ensures |r| <= |s| && r == s[|s| - |r|..]
    ensures forall j :: 0 <= j < |s| - |r| ==> IsWhitespace(s[j])
    ensures r != [] ==> !IsWhitespace(r[0])
  {
    if s != [] && IsWhitespace(s[0]) then TrimStart(s[1..]) else s
  }

  /** `trimEnd`: the input without its trailing whitespace. */
  function TrimEnd(s: seq<char>): (r: seq<char>)
    ensures |r| <= |s| && r == s[..|r|]
    ensures forall j :: |r| <= j < |s| ==> IsWhitespace(s[j])
    ensures r != [] ==> !IsWhitespace(r[|r| - 1])
  {
    if s != [] && IsWhitespace(s[|s| - 1]) then TrimEnd(s[..|s| - 1]) else s
  }

  /** `trim`: whitespace removed at both ends. */
  function Trim(s: seq<char>): seq<char> {
    TrimEnd(TrimStart(s))
  }

  /** What TrimStart states of its result determines that result. */
  lemma TrimStartUnique(s: seq<char>, r: seq<char>)
    requires |r| <= |s| && r == s[|s| - |r|..]
    requires forall j :: 0 <= j < |s| - |r| ==> IsWhitespace(s[j])
    requires r != [] ==> !IsWhitespace(r[0])
    ensures r == TrimStart(s)
  {
  }

  /** What TrimEnd states of its result determines that result. */
  lemma TrimEndUnique(s: seq<char>, r: seq<char>)
    requires |r| <= |s| && r == s[..|r|]
    requires forall j :: |r| <= j < |s| ==> IsWhitespace(s[j])
    requires r != [] ==> !IsWhitespace(r[|r| - 1])
    ensures r == TrimEnd(s)
  {
  }

  /** Trimming is idempotent at either end and at both. */
  lemma TrimStartIdempotent(s: seq<char>)
    ensures TrimStart(TrimStart(s)) == TrimStart(s)
  {
    var a := TrimStart(s);
    TrimStartUnique(a, a);
  }

  lemma TrimEndIdempotent(s: seq<char>)
    ensures TrimEnd(TrimEnd(s)) == TrimEnd(s)
  {
    var b := TrimEnd(s);
    TrimEndUnique(b, b);
  }

  lemma TrimIdempotent(s: seq<char>)
    ensures Trim(Trim(s)) == Trim(s)
  {
    var a := TrimStart(s);
    var c := TrimEnd(a);
    assert TrimStart(c) == c by {
      if c != [] {
        assert c[0] == a[0];
      }
      TrimStartUnique(c, c);
    }
    TrimEndIdempotent(a);
  }

  /** Trimming the end of a longer input: the first character stays unless
      everything is whitespace. */
  lemma TrimEndCons(c: char, t: seq<char>)
    ensures TrimEnd([c] + t) == if TrimEnd(t) == [] && IsWhitespace(c) then [] else [c] + TrimEnd(t)
  {
    var s := [c] + t;
    var e := TrimEnd(t);
    if e == [] && IsWhitespace(c) {
      TrimEndUnique(s, []);
    } else {
      var r := [c] + e;
      assert r == s[..|r|];
      forall j | |r| <= j < |s|
        ensures IsWhitespace(s[j])
      {
        assert s[j] == t[j - 1];
      }
      TrimEndUnique(s, r);
    }
  }

  /** Trimming both ends does not depend on which end goes first. */
  lemma {:induction false} TrimEitherOrder(s: seq<char>)
    ensures Trim(s) == TrimStart(TrimEnd(s))
    decreases |s|
  {
    if s != [] {
      var t := s[1..];
      assert s == [s[0]] + t;
      TrimEndCons(s[0], t);
      if IsWhitespace(s[0]) {
        TrimEitherOrder(t);
        if TrimEnd(t) != [] {
          assert ([s[0]] + TrimEnd(t))[1..] == TrimEnd(t);
        }
      } else {
        assert TrimStart([s[0]] + TrimEnd(t)) == [s[0]] + TrimEnd(t);
      }
    }
  }

  /** The input after the configured transformation: trimmed at the chosen
      end, both when `where` is absent, untouched without `trim`. */
  function Transform(config: Config, input: seq<char>): seq<char> {
    match config.trim
    case Nothing => input
    case Just(t) =>
      match t.where
      case Just(Start) => TrimStart(input)
      case Just(End) => TrimEnd(input)
      case _ => Trim(input)
  }

  /** The reply of the run, as the caller sees it. */
  function ToResult<T>(reply: Reply<T>): (r: ParserResult<T>)
    ensures r.Success? <==> IsSuccess(reply)
    ensures r.Success? ==> r.value == reply.value
    ensures r.Failure? ==> r.index == reply.index && r.message == reply.message
  {
    match reply
    case Ok(v, _) => Success(v)
    case Epsilon(v, _) => Success(v)
    case Fail(i, m) => Failure(i, m)
    case Error(i, m) => Failure(i, m)
  }

  /** parse: transform the input, run the parser (followed by endOfInput
      unless leftovers are allowed) from index 0, and report. */
  function Parse<T>(parser: Parser<T>, input: seq<char>, config: Config): ParserResult<T> {
    var text := Transform(config, input);
    var run := if config.allowLeftovers then parser else After(parser, EndOfInput());
    ToResult(run(text, 0))
  }

  /** The `how` field of the trim option makes no difference. */
  lemma TrimHowIgnored<T>(parser: Parser<T>, input: seq<char>, allowLeftovers: bool, where: Maybe<Side>,
                          how1: Maybe<char -> bool>, how2: Maybe<char -> bool>)
    ensures Parse(parser, input, Config(allowLeftovers, Just(TrimConfig(where, how1)))) ==
            Parse(parser, input, Config(allowLeftovers, Just(TrimConfig(where, how2))))
  {
  }

  /** With leftovers allowed, the result is the parser's own reply on the transformed input. */
  lemma ParseWithLeftovers<T>(parser: Parser<T>, input: seq<char>, config: Config)
    requires config.allowLeftovers
    ensures var r := parser(Transform(config, input), 0); var res := Parse(parser, input, config);
      && (res.Success? <==> IsSuccess(r))
      && (res.Success? ==> res.value == r.value)
      && (res.Failure? ==> res.index == r.index && res.message == r.message)
  {
  }

  /** Without leftovers allowed, as written: a failing parser is reported as
      is; a parser that stops before the end of the text succeeds; a parser
      that reaches the end of the text is reported as a failure with the
      end-of-input message, at 0 if it consumed and at its end otherwise. */
  lemma ParseWithoutLeftovers<T>(parser: Parser<T>, input: seq<char>, config: Config)
    requires !config.allowLeftovers
    ensures var text := Transform(config, input); var r := parser(text, 0); var res := Parse(parser, input, config);
      && (!IsSuccess(r) ==> res == Failure(r.index, r.message))
      && (IsSuccess(r) && r.index < |text| ==> res == Success(r.value))
      && (IsSuccess(r) && r.index >= |text| ==>
            res == Failure(if r.Ok? then 0 else r.index, Just(EndOfInputMessage(text))))
  {
    var text := Transform(config, input);
    var r := parser(text, 0);
    var cont := (a: T) => Then(EndOfInput(), Pure(a));
    BindCases(parser, cont, text, 0);
    if IsSuccess(r) {
      EndOfInputReply(text, r.index);
      BindCases(EndOfInput(), (_: ()) => Pure(r.value), text, r.index);
    }
  }

  /** With the default configuration, a parser that consumes the whole
      input is reported as a failure at index 0. */
  lemma DefaultRejectsFullMatch<T>(parser: Parser<T>, input: seq<char>)
    requires parser(input, 0).Ok? && parser(input, 0).index == |input|
    ensures Parse(parser, input, DefaultConfig()) == Failure(0, Just(EndOfInputMessage(input)))
  {
    ParseWithoutLeftovers(parser, input, DefaultConfig());
  }
}
