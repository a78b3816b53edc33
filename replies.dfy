/** The four-way reply every parser returns (src/reply/index.ts).

    A reply says whether the parser succeeded and whether it consumed input:

    |            | consumed | not consumed |
    |------------|----------|--------------|
    | succeeded  | Ok       | Epsilon      |
    | failed     | Error    | Fail         |

    The declared type gives the two failures no index, but every producer
    attaches one and the driver reads it, so both carry an index here.
 */
module Replies {

  /** An optional value; `Nothing` stands for JavaScript's `undefined`. */
  datatype Maybe<+T> = Nothing | Just(value: T)

  datatype Reply<+T> =
    | Ok(value: T, index: nat)
    | Epsilon(value: T, index: nat)
    | Fail(index: nat, message: Maybe<string>)
    | Error(index: nat, message: Maybe<string>)
  {
    /** The same failure at another value type: what the source does when it
        hands a failure of one parser on as the reply of another. */
    function Propagate<U>(): (r: Reply<U>)
      requires Fail? || Error?
      ensures r.Fail? == Fail? && r.Error? == Error?
      ensures r.index == index && r.message == message
    {
      if Fail? then Fail(index, message) else Error(index, message)
    }
  }

  predicate IsEmpty<T>(r: Reply<T>) {
    r.Epsilon? || r.Fail?
  }

  predicate IsConsumed<T>(r: Reply<T>) {
    r.Ok? || r.Error?
  }

  predicate IsSuccess<T>(r: Reply<T>) {
    r.Ok? || r.Epsilon?
  }

  predicate IsError<T>(r: Reply<T>) {
    r.Error?
  }

  /** The two consumption predicates are complements of each other. */
  lemma EmptyIsNotConsumed<T>(r: Reply<T>)
    ensures IsEmpty(r) == !IsConsumed(r)
    ensures IsEmpty(r) <==> r.Epsilon? || r.Fail?
    ensures IsConsumed(r) <==> r.Ok? || r.Error?
  {
  }

  /** Exactly the two successes carry a value; the two failures carry a message instead. */
  lemma SuccessCarriesValue<T>(r: Reply<T>)
    ensures IsSuccess(r) <==> r.Ok? || r.Epsilon?
    ensures IsSuccess(r) <==> !(r.Fail? || r.Error?)
  {
  }

  /** An error is a failure after consumption. */
  lemma ErrorIsConsumedFailure<T>(r: Reply<T>)
    ensures IsError(r) <==> r.Error?
    ensures IsError(r) <==> IsConsumed(r) && !IsSuccess(r)
  {
  }

  /** Success and consumption together name the variant:
      Ok = (true, true), Epsilon = (true, false), Fail = (false, false), Error = (false, true). */
  lemma FlagsIdentifyVariant<T, U>(r: Reply<T>, s: Reply<U>)
    ensures r.Ok? <==> IsSuccess(r) && IsConsumed(r)
    ensures r.Epsilon? <==> IsSuccess(r) && !IsConsumed(r)
    ensures r.Fail? <==> !IsSuccess(r) && !IsConsumed(r)
    ensures r.Error? <==> !IsSuccess(r) && IsConsumed(r)
    ensures (IsSuccess(r) == IsSuccess(s) && IsConsumed(r) == IsConsumed(s)) <==>
            (r.Ok? == s.Ok? && r.Epsilon? == s.Epsilon? && r.Fail? == s.Fail? && r.Error? == s.Error?)
  {
  }
}
