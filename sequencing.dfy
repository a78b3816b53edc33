/** Properties of the sequencing combinators of src/parser/index.ts:
    pure, bind, then, fmap, apply, after, compose, between, void_, lazy, error. */
module Sequencing {
  import opened Replies
  import opened Combinators

  /** `pure` succeeds without consuming and `error` fails as consumed, both at the cursor, on every input. */
  lemma PureAndRaise<T>(t: T, message: string, input: seq<char>, i: nat)
    ensures Pure(t)(input, i) == Epsilon(t, i)
    ensures Raise(message)(input, i) == Error(i, Just(message))
  {
  }

  /** The four cases of `bind`. */
  lemma BindCases<A, B>(p: Parser<A>, f: A -> Parser<B>, input: seq<char>, i: nat)
    ensures var a := p(input, i);
      !IsSuccess(a) ==> Bind(p, f)(input, i) == a.Propagate()
    ensures var a := p(input, i);
      a.Epsilon? ==> Bind(p, f)(input, i) == f(a.value)(input, a.index)
    ensures var a := p(input, i);
      a.Ok? ==> var b := f(a.value)(input, a.index);
        Bind(p, f)(input, i) == if IsSuccess(b) then Ok(b.value, b.index) else Error(i, b.message)
  {
  }

  /** The consumption rule: once the first parser has consumed, `bind` can no
      longer fail without consuming, so no alternative will be tried. */
  lemma BindCommitsAfterConsumption<A, B>(p: Parser<A>, f: A -> Parser<B>, input: seq<char>, i: nat)
    requires p(input, i).Ok?
    ensures IsConsumed(Bind(p, f)(input, i))
    ensures Bind(p, f)(input, i).Error? ==> Bind(p, f)(input, i).index == i
  {
  }

  /** A sequence succeeds exactly when both steps do; it then has the second
      step's value and cursor, and has consumed when either step has. */
  lemma BindSuccess<A, B>(p: Parser<A>, f: A -> Parser<B>, input: seq<char>, i: nat)
    ensures var a := p(input, i);
      IsSuccess(Bind(p, f)(input, i)) <==> IsSuccess(a) && IsSuccess(f(a.value)(input, a.index))
    ensures var a, r := p(input, i), Bind(p, f)(input, i);
      IsSuccess(r) ==> var b := f(a.value)(input, a.index);
        r.value == b.value && r.index == b.index && (r.Ok? <==> a.Ok? || b.Ok?)
  {
  }

  /** `pure` is a left identity of `bind`. */
  lemma BindLeftIdentity<A, B>(a: A, f: A -> Parser<B>, input: seq<char>, i: nat)
    ensures Bind(Pure(a), f)(input, i) == f(a)(input, i)
  {
  }

  /** `pure` is a right identity of `bind`. */
  lemma BindRightIdentity<A>(p: Parser<A>, input: seq<char>, i: nat)
    ensures Bind(p, (a: A) => Pure(a))(input, i) == p(input, i)
  {
  }

  /** `bind` is associative at a cursor where the first parser does not answer
      with an epsilon at a moved cursor (which `skipSome` does). */
  lemma BindAssociative<A, B, C>(p: Parser<A>, f: A -> Parser<B>, g: B -> Parser<C>, input: seq<char>, i: nat)
    requires p(input, i).Epsilon? ==> p(input, i).index == i
    ensures Bind(Bind(p, f), g)(input, i) == Bind(p, (a: A) => Bind(f(a), g))(input, i)
  {
    var a := p(input, i);
    if a.Ok? {
      var b := f(a.value)(input, a.index);
      BindCases(p, f, input, i);
      BindCases(f(a.value), g, input, a.index);
      BindCases(p, (a: A) => Bind(f(a), g), input, i);
      if IsSuccess(b) {
        BindCases(Bind(p, f), g, input, i);
      } else {
        BindCases(Bind(p, f), g, input, i);
      }
    } else {
      BindCases(p, f, input, i);
      BindCases(p, (a: A) => Bind(f(a), g), input, i);
      BindCases(Bind(p, f), g, input, i);
    }
  }

  /** Without that condition associativity fails: an epsilon at a moved cursor
      followed by a consuming step and a failure reports the error at
      different places depending on how the sequence is bracketed. */
  lemma BindNotAssociative()
    ensures var p: Parser<int> := (input: seq<char>, i: nat) => Epsilon(0, i + 1);
      var f: int -> Parser<char> := (_: int) => AnyChar();
      var g: char -> Parser<char> := (_: char) => (input: seq<char>, i: nat) => FailAt(i);
      Bind(Bind(p, f), g)("ab", 0) == Error(0, Nothing) &&
      Bind(p, (a: int) => Bind(f(a), g))("ab", 0) == Error(1, Nothing)
  {
    var p: Parser<int> := (input: seq<char>, i: nat) => Epsilon(0, i + 1);
    var f: int -> Parser<char> := (_: int) => AnyChar();
    var g: char -> Parser<char> := (_: char) => (input: seq<char>, i: nat) => FailAt(i);
    assert AnyChar()("ab", 1) == Ok('b', 2);
    assert Bind(p, f)("ab", 0) == Ok('b', 2);
    assert Bind(f(0), g)("ab", 1) == Error(1, Nothing);
  }

  /** `then` runs both parsers and keeps the second value. */
  lemma ThenSuccess<A, B>(pa: Parser<A>, pb: Parser<B>, input: seq<char>, i: nat)
    ensures var a := pa(input, i); var r := Then(pa, pb)(input, i);
      IsSuccess(r) <==> IsSuccess(a) && IsSuccess(pb(input, a.index))
    ensures var a := pa(input, i); var r := Then(pa, pb)(input, i);
      IsSuccess(r) ==> r.value == pb(input, a.index).value && r.index == pb(input, a.index).index
  {
  }

  /** `fmap` keeps the variant, the cursor and any failure; it maps the value. */
  lemma FmapReply<A, B>(p: Parser<A>, f: A -> B, input: seq<char>, i: nat)
    ensures var a, r := p(input, i), Fmap(p, f)(input, i);
      r.Ok? == a.Ok? && r.Epsilon? == a.Epsilon? && r.Fail? == a.Fail? && r.Error? == a.Error? &&
      r.index == a.index &&
      (IsSuccess(a) ==> r.value == f(a.value)) &&
      (!IsSuccess(a) ==> r.message == a.message)
  {
  }

  /** Functor identity law. */
  lemma FmapIdentity<A>(p: Parser<A>, input: seq<char>, i: nat)
    ensures Fmap(p, (a: A) => a)(input, i) == p(input, i)
  {
    FmapReply(p, (a: A) => a, input, i);
  }

  /** Functor composition law. */
  lemma FmapCompose<A, B, C>(p: Parser<A>, f: A -> B, g: B -> C, input: seq<char>, i: nat)
    ensures Fmap(Fmap(p, f), g)(input, i) == Fmap(p, Compose(f, g))(input, i)
  {
    FmapReply(p, f, input, i);
    FmapReply(Fmap(p, f), g, input, i);
    FmapReply(p, Compose(f, g), input, i);
  }

  /** `apply` of a pure function is `fmap`. */
  lemma ApplyPure<A, B>(f: A -> B, pa: Parser<A>, input: seq<char>, i: nat)
    ensures Apply(Pure(f), pa)(input, i) == Fmap(pa, f)(input, i)
  {
  }

  /** `apply` succeeds when both the function and its argument are parsed, and applies one to the other. */
  lemma ApplySuccess<A, B>(pf: Parser<A -> B>, pa: Parser<A>, input: seq<char>, i: nat)
    ensures var f := pf(input, i); var r := Apply(pf, pa)(input, i);
      IsSuccess(r) <==> IsSuccess(f) && IsSuccess(pa(input, f.index))
    ensures var f := pf(input, i); var r := Apply(pf, pa)(input, i);
      IsSuccess(r) ==> var a := pa(input, f.index);
        r.value == f.value(a.value) && r.index == a.index && (r.Ok? <==> f.Ok? || a.Ok?)
  {
  }

  /** `after` keeps the first value but ends where the second parser ends. */
  lemma AfterSuccess<A, B>(pa: Parser<A>, pb: Parser<B>, input: seq<char>, i: nat)
    ensures var a := pa(input, i); var r := After(pa, pb)(input, i);
      IsSuccess(r) <==> IsSuccess(a) && IsSuccess(pb(input, a.index))
    ensures var a := pa(input, i); var r := After(pa, pb)(input, i);
      IsSuccess(r) ==> var b := pb(input, a.index);
        r.value == a.value && r.index == b.index && (r.Ok? <==> a.Ok? || b.Ok?)
  {
    var a := pa(input, i);
    if IsSuccess(a) {
      ThenSuccess(pb, Pure(a.value), input, a.index);
    }
  }

  /** Composition is associative and applies `f` first. */
  lemma ComposeAssociative<A, B, C, D>(f: A -> B, g: B -> C, h: C -> D, x: A)
    ensures Compose(f, g)(x) == g(f(x))
    ensures Compose(Compose(f, g), h)(x) == Compose(f, Compose(g, h))(x)
  {
  }

  /** `between` yields the inner value when opener, inner parser and closer all
      succeed in turn, and has consumed when any of them has. */
  lemma BetweenSuccess<A, B, C>(open: Parser<A>, close: Parser<B>, pa: Parser<C>, input: seq<char>, i: nat)
    ensures var o := open(input, i); var v := pa(input, o.index); var c := close(input, v.index);
      var r := Between(open, close, pa)(input, i);
      IsSuccess(r) <==> IsSuccess(o) && IsSuccess(v) && IsSuccess(c)
    ensures var o := open(input, i); var v := pa(input, o.index); var c := close(input, v.index);
      var r := Between(open, close, pa)(input, i);
      IsSuccess(r) ==> r.value == v.value && r.index == c.index && (r.Ok? <==> o.Ok? || v.Ok? || c.Ok?)
  {
    var o := open(input, i);
    if IsSuccess(o) {
      var v := pa(input, o.index);
      if IsSuccess(v) {
        ThenSuccess(close, Pure(v.value), input, v.index);
      }
      BindSuccess(pa, (a: C) => Then(close, Pure(a)), input, o.index);
    }
    ThenSuccess(open, Bind(pa, (a: C) => Then(close, Pure(a))), input, i);
  }

  /** `void_` keeps everything but the value. */
  lemma VoidReply<T>(p: Parser<T>, input: seq<char>, i: nat)
    ensures var a, r := p(input, i), Void(p)(input, i);
      r.Ok? == a.Ok? && r.Epsilon? == a.Epsilon? && r.Fail? == a.Fail? && r.Error? == a.Error? &&
      r.index == a.index && (!IsSuccess(a) ==> r.message == a.message)
  {
    FmapReply(p, (_: T) => (), input, i);
  }

  /** `lazy` runs the thunk's parser at call time. */
  lemma LazyRunsThunk<T>(thunk: () -> Parser<T>, input: seq<char>, i: nat)
    ensures Lazy(thunk)(input, i) == thunk()(input, i)
  {
  }
}
