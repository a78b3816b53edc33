/** Properties of choice and recovery in src/parser/index.ts:
    choice, choices, option, attempt and tryCatch. */
module Alternatives {
  import opened Replies
  import opened Combinators

  /** The three cases of `choice`: a consuming first reply is final, a
      failure backtracks to the second parser at the same cursor, and after an
      epsilon the second reply wins only if it consumed. */
  lemma ChoiceCases<T>(pa: Parser<T>, pb: Parser<T>, input: seq<char>, i: nat)
    ensures var a, b := pa(input, i), pb(input, i);
      && (IsConsumed(a) ==> Choice(pa, pb)(input, i) == a)
      && (a.Fail? ==> Choice(pa, pb)(input, i) == b)
      && (a.Epsilon? ==> Choice(pa, pb)(input, i) == if IsConsumed(b) then b else a)
  {
  }

  /** Once the first alternative has consumed, the second is never looked at:
      any two second alternatives give the same reply. */
  lemma ChoiceCommits<T>(pa: Parser<T>, pb: Parser<T>, pc: Parser<T>, input: seq<char>, i: nat)
    requires IsConsumed(pa(input, i))
    ensures Choice(pa, pb)(input, i) == Choice(pa, pc)(input, i) == pa(input, i)
  {
  }

  /** `choice` is associative, so the left fold of `choices` could equally be a right fold. */
  lemma ChoiceAssociative<T>(pa: Parser<T>, pb: Parser<T>, pc: Parser<T>, input: seq<char>, i: nat)
    ensures Choice(Choice(pa, pb), pc)(input, i) == Choice(pa, Choice(pb, pc))(input, i)
  {
    ChoiceCases(pa, pb, input, i);
    ChoiceCases(pb, pc, input, i);
    ChoiceCases(Choice(pa, pb), pc, input, i);
    ChoiceCases(pa, Choice(pb, pc), input, i);
  }

  /** `choices()` with no parsers fails at the cursor; it is a left identity of `choice`. */
  lemma ChoicesEmpty<T>(p: Parser<T>, input: seq<char>, i: nat)
    ensures Choices<T>([])(input, i) == Fail(i, Nothing)
    ensures Choice(Choices([]), p)(input, i) == p(input, i)
  {
  }

  /** `choices` is the left fold of `choice`: one parser is itself, and
      appending a parser chooses between the shorter list and it. */
  lemma ChoicesFold<T>(ps: seq<Parser<T>>, q: Parser<T>, input: seq<char>, i: nat)
    ensures Choices([q])(input, i) == q(input, i)
    ensures Choices(ps + [q])(input, i) == Choice(Choices(ps), q)(input, i)
  {
    if ps != [] {
      assert (ps + [q])[..|ps + [q]| - 1] == ps;
    }
  }

  /** When every alternative fails, `choices` fails with the last one's reply. */
  lemma {:induction false} ChoicesAllFail<T>(ps: seq<Parser<T>>, input: seq<char>, i: nat)
    requires forall k :: 0 <= k < |ps| ==> ps[k](input, i).Fail?
    ensures Choices(ps)(input, i) == if ps == [] then Fail(i, Nothing) else ps[|ps| - 1](input, i)
  {
    if |ps| > 1 {
      var init := ps[..|ps| - 1];
      ChoicesAllFail(init, input, i);
      ChoicesFold(init, ps[|ps| - 1], input, i);
      assert init + [ps[|ps| - 1]] == ps;
    }
  }

  /** The first alternative that consumes decides, provided every one before it failed. */
  lemma {:induction false} ChoicesFirstConsumed<T>(ps: seq<Parser<T>>, k: nat, input: seq<char>, i: nat)
    requires k < |ps|
    requires forall m :: 0 <= m < k ==> ps[m](input, i).Fail?
    requires IsConsumed(ps[k](input, i))
    ensures Choices(ps)(input, i) == ps[k](input, i)
  {
    var n := |ps|;
    if n > 1 {
      var init := ps[..n - 1];
      ChoicesFold(init, ps[n - 1], input, i);
      assert init + [ps[n - 1]] == ps;
      if k < n - 1 {
        ChoicesFirstConsumed(init, k, input, i);
      } else {
        ChoicesAllFail(init, input, i);
      }
    }
  }

  /** `option(p, d)` never fails: a failure of `p` becomes `d` without consuming. */
  lemma OptionReply<T>(p: Parser<T>, def: T, input: seq<char>, i: nat)
    ensures Option(p, def)(input, i) == if p(input, i).Fail? then Epsilon(def, i) else p(input, i)
  {
  }

  /** `attempt` turns an error into a failure at the original cursor and passes every other reply. */
  lemma AttemptReply<T>(p: Parser<T>, input: seq<char>, i: nat)
    ensures Attempt(p)(input, i) == if p(input, i).Error? then Fail(i, Nothing) else p(input, i)
    ensures !Attempt(p)(input, i).Error?
    ensures Attempt(Attempt(p))(input, i) == Attempt(p)(input, i)
  {
  }

  /** `tryCatch` runs the catcher's parser from the original cursor only on an error. */
  lemma TryCatchReply<T>(p: Parser<T>, catcher: Maybe<string> -> Parser<T>, input: seq<char>, i: nat)
    ensures var a := p(input, i);
      TryCatch(p, catcher)(input, i) == if a.Error? then catcher(a.message)(input, i) else a
  {
  }

  /** `attempt` is `tryCatch` with a catcher that fails. */
  lemma AttemptIsTryCatch<T>(p: Parser<T>, input: seq<char>, i: nat)
    ensures Attempt(p)(input, i) == TryCatch(p, (_: Maybe<string>) => Choices([]))(input, i)
  {
  }
}
