/** The higher-order helpers of src/utils.ts. */
module Utils {
  function Id<T>(t: T): T {
    t
  }

  /** The function that ignores its argument and returns `a`. */
  function Constant<A, B>(a: A): B -> A {
    (_: B) => a
  }

  /** `id` returns its argument, so applying it twice is applying it once. */
  lemma IdIsIdentity<T>(t: T)
    ensures Id(t) == t
    ensures Id(Id(t)) == Id(t)
  {
  }

  /** `constant(a)` gives `a` whatever it is applied to. */
  lemma ConstantIgnoresArgument<A, B>(a: A, x: B, y: B)
    ensures Constant<A, B>(a)(x) == a
    ensures Constant<A, B>(a)(x) == Constant<A, B>(a)(y)
  {
  }
}
