/** Bracket balance of printed text, shared by the printers of the example
    grammars: every prefix closes no more brackets than it opens, and the
    whole text closes all it opens. */
module Brackets {
  /** The number of occurrences of `c` in `s`: none exactly when `c` does not occur. */
  function Count(c: char, s: string): (n: nat)
    ensures n == 0 <==> c !in s
  {
    if s == [] then 0 else Count(c, s[..|s| - 1]) + (if s[|s| - 1] == c then 1 else 0)
  }

  lemma {:induction false} CountAppend(c: char, a: string, b: string)
    ensures Count(c, a + b) == Count(c, a) + Count(c, b)
    decreases |b|
  {
    if b == [] {
      assert a + b == a;
    } else {
      CountAppend(c, a, b[..|b| - 1]);
      assert (a + b)[..|a + b| - 1] == a + b[..|b| - 1];
    }
  }

  ghost predicate Balanced(open: char, close: char, s: string) {
    && Count(open, s) == Count(close, s)
    && forall k :: 0 <= k <= |s| ==> Count(close, s[..k]) <= Count(open, s[..k])
  }

  /** Text without brackets is balanced. */
  lemma FreeIsBalanced(open: char, close: char, s: string)
    requires open !in s && close !in s
    ensures Balanced(open, close, s)
  {
    forall k | 0 <= k <= |s|
      ensures Count(close, s[..k]) <= Count(open, s[..k])
    {
    }
  }

  lemma BalancedConcat(open: char, close: char, a: string, b: string)
    requires Balanced(open, close, a) && Balanced(open, close, b)
    ensures Balanced(open, close, a + b)
  {
    CountAppend(open, a, b);
    CountAppend(close, a, b);
    forall k | 0 <= k <= |a + b|
      ensures Count(close, (a + b)[..k]) <= Count(open, (a + b)[..k])
    {
      if k <= |a| {
        assert (a + b)[..k] == a[..k];
      } else {
        assert (a + b)[..k] == a + b[..k - |a|];
        CountAppend(open, a, b[..k - |a|]);
        CountAppend(close, a, b[..k - |a|]);
      }
    }
  }

  /** Wrapping balanced text in one more pair keeps it balanced. */
  lemma BalancedWrap(open: char, close: char, s: string)
    requires open != close
    requires Balanced(open, close, s)
    ensures Balanced(open, close, [open] + s + [close])
    ensures Count(open, [open] + s + [close]) == Count(open, s) + 1
  {
    var w := [open] + s + [close];
    CountAppend(open, [open] + s, [close]);
    CountAppend(close, [open] + s, [close]);
    CountAppend(open, [open], s);
    CountAppend(close, [open], s);
    forall k | 0 <= k <= |w|
      ensures Count(close, w[..k]) <= Count(open, w[..k])
    {
      if 1 <= k <= |s| + 1 {
        assert w[..k] == [open] + s[..k - 1];
        CountAppend(open, [open], s[..k - 1]);
        CountAppend(close, [open], s[..k - 1]);
      } else if k == |w| {
        assert w[..k] == w;
      }
    }
  }
}
