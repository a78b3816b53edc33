/** Properties of the character-level matchers of src/parser/index.ts:
    satisfy, char, anyChar, word and endOfInput. */
module Primitives {
  import opened Replies
  import opened Combinators

  /** `satisfy` consumes exactly one character when there is one and the
      predicate accepts it, and otherwise fails at the cursor. */
  lemma SatisfyReply(pred: char -> bool, input: seq<char>, i: nat)
    ensures var r := Satisfy(pred)(input, i);
      (r.Ok? <==> i < |input| && pred(input[i])) &&
      (r.Ok? ==> r.value == input[i] && r.index == i + 1) &&
      (!r.Ok? ==> r == Fail(i, Nothing))
  {
    assert Satisfy(pred)(input, i) == if i >= |input| || !pred(input[i]) then FailAt(i) else Ok(input[i], i + 1);
  }

  /** `char(c)` is `satisfy` for the one character `c`. */
  lemma CharReply(c: char, input: seq<char>, i: nat)
    ensures Char(c)(input, i) == if i < |input| && input[i] == c then Ok(c, i + 1) else Fail(i, Nothing)
  {
    SatisfyReply((x: char) => x == c, input, i);
  }

  /** `anyChar` consumes any one character and fails only at or past the end. */
  lemma AnyCharReply(input: seq<char>, i: nat)
    ensures AnyChar()(input, i) == if i < |input| then Ok(input[i], i + 1) else Fail(i, Nothing)
  {
    SatisfyReply((_: char) => true, input, i);
  }

  /** `word(a)` as written compares `input.slice(i, |a|)` with `a`: a non-empty
      word matches only at cursor 0, at the start of the input, and the empty
      word matches everywhere without moving the cursor although it answers `Ok`. */
  lemma WordReply(a: string, input: seq<char>, i: nat)
    ensures var r := Word(a)(input, i);
      (r.Ok? <==> a == [] || (i == 0 && |a| <= |input| && input[..|a|] == a)) &&
      (r.Ok? ==> r.value == a && r.index == i + |a|) &&
      (!r.Ok? ==> r == Fail(i, Nothing))
  {
    assert Word(a)(input, i) ==
      if |input| < |a| then FailAt(i)
      else if JsSlice(input, i, |a|) != a then FailAt(i) else Ok(JsSlice(input, i, |a|), i + |a|);
    if |a| <= |input| {
      var b := JsSlice(input, i, |a|);
      if i > 0 && a != [] {
        assert |b| < |a|;
      }
    }
  }

  /** As written, `endOfInput` reports an error exactly when the cursor is at or
      past the end, and succeeds without consuming everywhere before it. */
  lemma EndOfInputReply(input: seq<char>, i: nat)
    ensures var r := EndOfInput()(input, i);
      (r.Error? <==> i >= |input|) &&
      (r.Error? ==> r == Error(i, Just(EndOfInputMessage(input)))) &&
      (!r.Error? ==> r == Epsilon((), i))
  {
  }

  /** The message quotes at most the last 30 characters of the whole input,
      marked with " (...)" exactly when the input is longer than that. */
  lemma EndOfInputMessageShape(input: seq<char>)
    ensures var m := EndOfInputMessage(input); var prefix := "Expected end of input. got: ";
      && m[..|prefix|] == prefix
      && |Snippet(input)| == (if |input| > 30 then 30 else |input|)
      && m[|prefix|..|prefix| + |Snippet(input)|] == Snippet(input)
      && (|input| > 30 ==> m[|m| - 6..] == " (...)" && Snippet(input) == input[|input| - 30..])
      && (|input| <= 30 ==> m == prefix + input)
  {
    var m := EndOfInputMessage(input);
    var prefix := "Expected end of input. got: ";
    assert m == prefix + Snippet(input) + (if |input| > 30 then " (...)" else "");
  }
}
