/** The token trees of the brainfck example, test/brainfck/index.ts: the
    comment test, and the printers `showToken` and `showTokens`. */
module Brainfck {
  import opened Replies
  import opened Combinators
  import opened Primitives
  import opened Brackets

  datatype Instruction = Increment | Decrement | MoveLeft | MoveRight | Input | Output

  function InstructionChar(ins: Instruction): char {
    match ins
    case Increment => '+'
    case Decrement => '-'
    case MoveLeft => '<'
    case MoveRight => '>'
    case Input => ','
    case Output => '.'
  }

  datatype Token = Command(value: Instruction) | Loop(tokens: seq<Token>)

  /** The eight characters that are code. */
  const CodeChars: string := "+-<>,.[]"

  /** `notValid.test(c)`: a comment character is any character outside the eight. */
  predicate IsComment(c: char) {
    c !in CodeChars
  }

  function Comment(): Parser<char> {
    Satisfy(IsComment)
  }

  /** `comment` consumes exactly one character outside the eight, and fails at the cursor on them. */
  lemma CommentReply(input: seq<char>, i: nat)
    ensures Comment()(input, i) ==
      if i < |input| && input[i] !in "+-<>,.[]" then Ok(input[i], i + 1) else Fail(i, Nothing)
  {
    SatisfyReply(IsComment, input, i);
  }

  function ShowToken(t: Token): string
    decreases t, 1
  {
    match t
    case Command(ins) => [InstructionChar(ins)]
    case Loop(ts) => "[" + ShowTokens(ts) + "]"
  }

  /** The tokens' renderings joined in order. */
  function ShowTokens(ts: seq<Token>): string
    decreases ts, 0
  {
    if ts == [] then "" else ShowToken(ts[0]) + ShowTokens(ts[1..])
  }

  /** The number of loops in a token and in a list of tokens. */
  function Loops(t: Token): nat
    decreases t, 1
  {
    match t
    case Command(_) => 0
    case Loop(ts) => 1 + LoopsIn(ts)
  }

  function LoopsIn(ts: seq<Token>): nat
    decreases ts, 0
  {
    if ts == [] then 0 else Loops(ts[0]) + LoopsIn(ts[1..])
  }

  /** Rendering a concatenation renders the parts one after the other. */
  lemma {:induction false} ShowTokensAppend(xs: seq<Token>, ys: seq<Token>)
    ensures ShowTokens(xs + ys) == ShowTokens(xs) + ShowTokens(ys)
    ensures LoopsIn(xs + ys) == LoopsIn(xs) + LoopsIn(ys)
    decreases |xs|
  {
    if xs != [] {
      ShowTokensAppend(xs[1..], ys);
      assert (xs + ys)[1..] == xs[1..] + ys;
      assert (xs + ys)[0] == xs[0];
    } else {
      assert xs + ys == ys;
    }
  }

  /** Every rendered character is one of the eight code characters. */
  lemma {:induction false} ShowTokenAlphabet(t: Token)
    ensures forall k :: 0 <= k < |ShowToken(t)| ==> ShowToken(t)[k] in CodeChars
    decreases t, 1
  {
    match t
    case Command(ins) =>
    case Loop(ts) =>
      ShowTokensAlphabet(ts);
  }

  lemma {:induction false} ShowTokensAlphabet(ts: seq<Token>)
    ensures forall k :: 0 <= k < |ShowTokens(ts)| ==> ShowTokens(ts)[k] in CodeChars
    decreases ts, 0
  {
    if ts != [] {
      ShowTokenAlphabet(ts[0]);
      ShowTokensAlphabet(ts[1..]);
      var a, b := ShowToken(ts[0]), ShowTokens(ts[1..]);
      forall k | 0 <= k < |a + b|
        ensures (a + b)[k] in CodeChars
      {
        if k >= |a| {
          assert (a + b)[k] == b[k - |a|];
        }
      }
    }
  }

  /** A rendered program holds no comment character, so printing drops all comments. */
  lemma ShowTokensHasNoComment(ts: seq<Token>)
    ensures forall k :: 0 <= k < |ShowTokens(ts)| ==> !IsComment(ShowTokens(ts)[k])
  {
    ShowTokensAlphabet(ts);
  }

  /** The brackets of a rendering are balanced and properly nested, one pair per loop. */
  lemma {:induction false} ShowTokenBalanced(t: Token)
    ensures Balanced('[', ']', ShowToken(t))
    ensures Count('[', ShowToken(t)) == Loops(t)
    decreases t, 1
  {
    match t
    case Command(ins) =>
      FreeIsBalanced('[', ']', [InstructionChar(ins)]);
    case Loop(ts) =>
      ShowTokensBalanced(ts);
      BalancedWrap('[', ']', ShowTokens(ts));
      assert ShowToken(t) == ['['] + ShowTokens(ts) + [']'];
  }

  lemma {:induction false} ShowTokensBalanced(ts: seq<Token>)
    ensures Balanced('[', ']', ShowTokens(ts))
    ensures Count('[', ShowTokens(ts)) == LoopsIn(ts)
    decreases ts, 0
  {
    if ts == [] {
      FreeIsBalanced('[', ']', []);
    } else {
      ShowTokenBalanced(ts[0]);
      ShowTokensBalanced(ts[1..]);
      BalancedConcat('[', ']', ShowToken(ts[0]), ShowTokens(ts[1..]));
      CountAppend('[', ShowToken(ts[0]), ShowTokens(ts[1..]));
    }
  }
}
