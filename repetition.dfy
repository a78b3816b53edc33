/** Repetition in src/parser/index.ts: some, many, skipSome, skip, sepBy1 and
    sepBy.  `some` and `skipSome` are while-loops in the source; RunSome and
    RunSkipSome are those loops, proved to compute the recursive definitions
    Combinators.Some and Combinators.SkipSome, about which the lemmas speak. */
module Repetition {
  import opened Replies
  import opened Combinators
  import opened Sequencing
  import opened Primitives

  /** `vs` are the values of consecutive successes of `p` that lead from cursor `i` to cursor `k`. */
  ghost predicate Steps<T>(p: Parser<T>, input: seq<char>, i: nat, vs: seq<T>, k: nat)
    decreases |vs|
  {
    if vs == [] then i == k
    else
      var a := p(input, i);
      IsSuccess(a) && a.value == vs[0] && Steps(p, input, a.index, vs[1..], k)
  }

  /** The loop of `some` ends with `Ok` or with an error; it never reports a
      plain failure nor an epsilon, and it keeps what was collected before. */
  lemma {:induction false} SomeLoopConsumes<T>(p: Parser<T>, input: seq<char>, a: Reply<T>, out: seq<T>)
    requires IsSuccess(a)
    ensures var r := SomeLoop(p, input, a, out);
      (r.Ok? || r.Error?) && (r.Ok? ==> |r.value| > |out| && r.value[..|out| + 1] == out + [a.value])
    decreases |input| - a.index
  {
    var output := out + [a.value];
    var x := p(input, a.index);
    if !x.Fail? && !x.Error? && a.index < x.index <= |input| {
      SomeLoopConsumes(p, input, x, output);
      var r := SomeLoop(p, input, x, output);
      if r.Ok? {
        assert r.value[..|out| + 1] == r.value[..|output| + 1][..|out| + 1];
      }
    }
  }

  /** `some` fails exactly when its first step fails, and then with that
      step's reply; it never answers with an epsilon. */
  lemma SomeFirstStep<T>(p: Parser<T>, input: seq<char>, i: nat)
    ensures var a, r := p(input, i), Some(p)(input, i);
      && (!IsSuccess(a) ==> r == a.Propagate())
      && (r.Fail? <==> a.Fail?)
      && !r.Epsilon?
      && (r.Ok? ==> |r.value| >= 1 && r.value[0] == a.value)
  {
    var a := p(input, i);
    if IsSuccess(a) {
      SomeLoopConsumes(p, input, a, []);
    }
  }

  lemma {:induction false} SomeLoopStops<T>(p: Parser<T>, input: seq<char>, a: Reply<T>, out: seq<T>)
    requires Advances(p, input)
    requires IsSuccess(a) && a.index <= |input|
    requires SomeLoop(p, input, a, out).Ok?
    ensures var r := SomeLoop(p, input, a, out);
      && |r.value| > |out| && r.value[..|out| + 1] == out + [a.value]
      && Steps(p, input, a.index, r.value[|out| + 1..], r.index)
      && p(input, r.index).Fail? && a.index <= r.index <= |input|
    decreases |input| - a.index
  {
    var output := out + [a.value];
    var x := p(input, a.index);
    var r := SomeLoop(p, input, a, out);
    if x.Fail? {
      assert r == Ok(output, a.index);
    } else {
      assert IsSuccess(x) && a.index < x.index <= |input|;
      SomeLoopStops(p, input, x, output);
      assert r == SomeLoop(p, input, x, output);
      var tail := r.value[|output| + 1..];
      assert r.value[|out| + 1..] == [x.value] + tail by {
        assert r.value[..|output| + 1] == output + [x.value];
      }
      assert r.value[..|out| + 1] == r.value[..|output| + 1][..|out| + 1];
    }
  }

  /** A successful `some` on a parser that advances has collected the values
      of the steps from the cursor, in order, and stopped where the next step
      fails. */
  lemma SomeOkStopsAtFailure<T>(p: Parser<T>, input: seq<char>, i: nat)
    requires Advances(p, input)
    requires Some(p)(input, i).Ok?
    ensures var r := Some(p)(input, i);
      |r.value| >= 1 && Steps(p, input, i, r.value, r.index) && p(input, r.index).Fail? && i < r.index <= |input|
  {
    var a := p(input, i);
    SomeLoopStops(p, input, a, []);
    var r := Some(p)(input, i);
    assert r.value == [a.value] + r.value[1..] by {
      assert r.value[..1] == [a.value];
    }
  }

  lemma {:induction false} StepsSomeLoop<T>(p: Parser<T>, input: seq<char>, a: Reply<T>, out: seq<T>, ws: seq<T>, k: nat)
    requires Advances(p, input)
    requires IsSuccess(a)
    requires Steps(p, input, a.index, ws, k) && p(input, k).Fail?
    ensures SomeLoop(p, input, a, out) == Ok(out + [a.value] + ws, k)
    decreases |ws|
  {
    var x := p(input, a.index);
    if ws == [] {
      assert a.index == k && x.Fail?;
      assert out + [a.value] + ws == out + [a.value];
    } else {
      assert IsSuccess(x) && x.value == ws[0];
      assert a.index < x.index <= |input|;
      StepsSomeLoop(p, input, x, out + [a.value], ws[1..], k);
      assert out + [a.value] + [x.value] + ws[1..] == out + [a.value] + ws;
    }
  }

  /** Conversely, any run of successes that ends where the parser fails is
      exactly what `some` returns: it is deterministic and runs to the first failure. */
  lemma StepsAreSome<T>(p: Parser<T>, input: seq<char>, i: nat, vs: seq<T>, k: nat)
    requires Advances(p, input)
    requires |vs| >= 1 && Steps(p, input, i, vs, k) && p(input, k).Fail?
    ensures Some(p)(input, i) == Ok(vs, k)
  {
    StepsSomeLoop(p, input, p(input, i), [], vs[1..], k);
    assert [] + [vs[0]] + vs[1..] == vs;
  }

  lemma {:induction false} SomeLoopError<T>(p: Parser<T>, input: seq<char>, a: Reply<T>, out: seq<T>)
    requires IsSuccess(a)
    requires SomeLoop(p, input, a, out).Error?
    ensures var r := SomeLoop(p, input, a, out);
      exists vs: seq<T>, k: nat :: Steps(p, input, a.index, vs, k) && p(input, k) == Error(r.index, r.message)
    decreases |input| - a.index
  {
    var x := p(input, a.index);
    var r := SomeLoop(p, input, a, out);
    if x.Error? {
      assert Steps(p, input, a.index, [], a.index);
    } else {
      SomeLoopError(p, input, x, out + [a.value]);
      var vs: seq<T>, k: nat :| Steps(p, input, x.index, vs, k) && p(input, k) == Error(r.index, r.message);
      assert ([x.value] + vs)[1..] == vs;
      assert Steps(p, input, a.index, [x.value] + vs, k);
    }
  }

  /** An error from a later step is returned as it is, with its own cursor
      and message: no escalation to the start of the repetition. */
  lemma SomeErrorIsStepError<T>(p: Parser<T>, input: seq<char>, i: nat)
    requires Some(p)(input, i).Error?
    ensures var r := Some(p)(input, i);
      exists vs: seq<T>, k: nat :: Steps(p, input, i, vs, k) && p(input, k) == Error(r.index, r.message)
  {
    var a := p(input, i);
    var r := Some(p)(input, i);
    if a.Error? {
      assert Steps(p, input, i, [], i);
    } else {
      SomeLoopError(p, input, a, []);
      var vs: seq<T>, k: nat :| Steps(p, input, a.index, vs, k) && p(input, k) == Error(r.index, r.message);
      assert ([a.value] + vs)[1..] == vs;
      assert Steps(p, input, i, [a.value] + vs, k);
    }
  }

  /** `many` is `some` except that a failing first step gives an empty list
      without consuming; it never fails. */
  lemma ManyReply<T>(p: Parser<T>, input: seq<char>, i: nat)
    ensures Many(p)(input, i) == if p(input, i).Fail? then Epsilon([], i) else Some(p)(input, i)
    ensures !Many(p)(input, i).Fail?
  {
    SomeFirstStep(p, input, i);
  }

  /** The reply of `skipSome` is that of `some` with the values dropped and `Ok` turned into `Epsilon`. */
  function Voided<T>(r: Reply<seq<T>>): Reply<()> {
    if IsSuccess(r) then Epsilon((), r.index) else r.Propagate()
  }

  lemma {:induction false} SkipLoopIsVoidedSomeLoop<T>(p: Parser<T>, input: seq<char>, a: Reply<T>, out: seq<T>)
    requires IsSuccess(a)
    ensures SkipLoop(p, input, a) == Voided(SomeLoop(p, input, a, out))
    decreases |input| - a.index
  {
    var x := p(input, a.index);
    if !x.Fail? && !x.Error? && a.index < x.index <= |input| {
      SkipLoopIsVoidedSomeLoop(p, input, x, out + [a.value]);
    }
  }

  /** `skipSome` runs the same loop as `some` and reports `Epsilon` at the
      cursor where `some` would report `Ok`, even after consuming. */
  lemma SkipSomeIsVoidedSome<T>(p: Parser<T>, input: seq<char>, i: nat)
    ensures SkipSome(p)(input, i) == Voided(Some(p)(input, i))
  {
    var a := p(input, i);
    if IsSuccess(a) {
      SkipLoopIsVoidedSomeLoop(p, input, a, []);
    }
  }

  /** `skip` succeeds without consuming where `p` fails at once, and is `skipSome` otherwise. */
  lemma SkipReply<T>(p: Parser<T>, input: seq<char>, i: nat)
    ensures Skip(p)(input, i) == if p(input, i).Fail? then Epsilon((), i) else SkipSome(p)(input, i)
    ensures !Skip(p)(input, i).Fail?
  {
    SkipSomeIsVoidedSome(p, input, i);
    SomeFirstStep(p, input, i);
  }

  /** `sepBy1` fails exactly when the first item fails. After a first item it
      errs exactly when the separated repetition `many(then(sep, p))` errs (a
      separator followed by no item, say), and otherwise yields the first
      value followed by the repetition's values, ending where it ends. */
  lemma SepBy1Reply<A, B>(p: Parser<A>, sep: Parser<B>, input: seq<char>, i: nat)
    ensures var a, r := p(input, i), SepBy1(p, sep)(input, i);
      && (!IsSuccess(a) ==> r == a.Propagate())
      && (r.Fail? <==> a.Fail?)
      && (IsSuccess(a) ==> (r.Error? <==> Many(Then(sep, p))(input, a.index).Error?))
      && (IsSuccess(r) ==> var rest := Many(Then(sep, p))(input, a.index);
            IsSuccess(a) && |r.value| >= 1 && r.value[0] == a.value && r.value[1..] == rest.value &&
            r.index == rest.index)
  {
    var a := p(input, i);
    var f := (x: A) => Fmap(Many(Then(sep, p)), (rest: seq<A>) => [x] + rest);
    BindCases(p, f, input, i);
    if IsSuccess(a) {
      ManyReply(Then(sep, p), input, a.index);
      FmapReply(Many(Then(sep, p)), (rest: seq<A>) => [a.value] + rest, input, a.index);
    }
  }

  /** `sepBy` never fails: without a first item it gives the empty list. */
  lemma SepByReply<A, B>(p: Parser<A>, sep: Parser<B>, input: seq<char>, i: nat)
    ensures SepBy(p, sep)(input, i) == if p(input, i).Fail? then Epsilon([], i) else SepBy1(p, sep)(input, i)
    ensures !SepBy(p, sep)(input, i).Fail?
  {
    SepBy1Reply(p, sep, input, i);
  }

  /** The end of the run of characters from `i` that `pred` accepts. */
  function SpanEnd(pred: char -> bool, input: seq<char>, i: nat): (e: nat)
    ensures i <= e && (i <= |input| ==> e <= |input|)
    ensures forall j :: i <= j < e ==> j < |input| && pred(input[j])
    ensures e < |input| ==> !pred(input[e])
    ensures e == i || (i < |input| && pred(input[i]))
    decreases |input| - i
  {
    if i < |input| && pred(input[i]) then SpanEnd(pred, input, i + 1) else i
  }

  lemma SatisfyAdvances(pred: char -> bool, input: seq<char>)
    ensures Advances(Satisfy(pred), input)
  {
    forall j: nat | IsSuccess(Satisfy(pred)(input, j))
      ensures j < Satisfy(pred)(input, j).index <= |input|
    {
      SatisfyReply(pred, input, j);
    }
  }

  lemma {:induction false} SatisfySteps(pred: char -> bool, input: seq<char>, i: nat)
    requires i <= |input|
    ensures Steps(Satisfy(pred), input, i, input[i..SpanEnd(pred, input, i)], SpanEnd(pred, input, i))
    ensures Satisfy(pred)(input, SpanEnd(pred, input, i)).Fail?
    decreases |input| - i
  {
    var e := SpanEnd(pred, input, i);
    SatisfyReply(pred, input, i);
    SatisfyReply(pred, input, e);
    if e > i {
      SatisfySteps(pred, input, i + 1);
      assert input[i..e][1..] == input[i + 1..e];
    }
  }

  /** `some(satisfy(pred))` takes the maximal run of accepted characters and
      fails where the run is empty. */
  lemma SomeSatisfySpan(pred: char -> bool, input: seq<char>, i: nat)
    ensures var e := SpanEnd(pred, input, i);
      Some(Satisfy(pred))(input, i) == if e == i then Fail(i, Nothing) else Ok(input[i..e], e)
  {
    var e := SpanEnd(pred, input, i);
    SatisfyReply(pred, input, i);
    if e > i {
      SatisfyAdvances(pred, input);
      SatisfySteps(pred, input, i);
      StepsAreSome(Satisfy(pred), input, i, input[i..e], e);
    }
  }

  /** `many(satisfy(pred))` never fails: it takes the maximal run, possibly empty. */
  lemma ManySatisfySpan(pred: char -> bool, input: seq<char>, i: nat)
    ensures var e := SpanEnd(pred, input, i);
      Many(Satisfy(pred))(input, i) == if e == i then Epsilon([], i) else Ok(input[i..e], e)
  {
    SomeSatisfySpan(pred, input, i);
    ManyReply(Satisfy(pred), input, i);
    SatisfyReply(pred, input, i);
  }

  /** `skip(satisfy(pred))` never fails and moves past the maximal run without
      reporting consumption. */
  lemma SkipSatisfySpan(pred: char -> bool, input: seq<char>, i: nat)
    ensures Skip(Satisfy(pred))(input, i) == Epsilon((), SpanEnd(pred, input, i))
  {
    SomeSatisfySpan(pred, input, i);
    SkipSomeIsVoidedSome(Satisfy(pred), input, i);
    SkipReply(Satisfy(pred), input, i);
    SatisfyReply(pred, input, i);
  }

  /** The loop of `some` as the source writes it: `output` grows by one value per
      success and the loop stops at the first failure. */
  method RunSome<T>(p: Parser<T>, input: seq<char>, i: nat) returns (r: Reply<seq<T>>)
    requires Advances(p, input)
    ensures r == Some(p)(input, i)
  {
    var a := p(input, i);
    if !IsSuccess(a) {
      return a.Propagate();
    }
    ghost var first := a;
    var output: seq<T> := [];
    while IsSuccess(a)
      invariant IsSuccess(a) ==> a.index <= |input| && SomeLoop(p, input, first, []) == SomeLoop(p, input, a, output)
      invariant !IsSuccess(a) ==> a.Error? && SomeLoop(p, input, first, []) == a.Propagate()
      decreases if IsSuccess(a) then |input| - a.index + 1 else 0
    {
      output := output + [a.value];
      var x := p(input, a.index);
      if x.Fail? {
        break;
      }
      a := x;
    }
    if a.Error? {
      return a.Propagate();
    }
    r := Ok(output, a.index);
  }

  /** The loop of `skipSome`, which keeps no values and reports `Epsilon`. */
  method RunSkipSome<T>(p: Parser<T>, input: seq<char>, i: nat) returns (r: Reply<()>)
    requires Advances(p, input)
    ensures r == SkipSome(p)(input, i)
  {
    var a := p(input, i);
    if !IsSuccess(a) {
      return a.Propagate();
    }
    ghost var first := a;
    while IsSuccess(a)
      invariant IsSuccess(a) ==> a.index <= |input| && SkipLoop(p, input, first) == SkipLoop(p, input, a)
      invariant !IsSuccess(a) ==> a.Error? && SkipLoop(p, input, first) == a.Propagate()
      decreases if IsSuccess(a) then |input| - a.index + 1 else 0
    {
      var x := p(input, a.index);
      if x.Fail? {
        break;
      }
      a := x;
    }
    if a.Error? {
      return a.Propagate();
    }
    r := Epsilon((), a.index);
  }
}
