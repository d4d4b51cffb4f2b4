/**
 * Sequences built from others: `append`, `prepend` (primitives of the
 * sequence contract), their bulk forms `appendAll` and `prependAll`, which
 * behave as repeated single-element steps, and `reverse`. Every operation
 * returns a new value; the receiver is a value and stays what it was.
 */
module Reorder {
  import opened Wrappers
  import opened Access

  /** A new sequence with `x` added at the end. */
  function Append<T>(s: seq<T>, x: T): seq<T> {
    s + [x]
  }

  /** A new sequence with `x` added at the front. */
  function Prepend<T>(x: T, s: seq<T>): seq<T> {
    [x] + s
  }

  /** After an append the old elements come first, unchanged, and the new one is last. */
  lemma AppendThenLast<T>(s: seq<T>, x: T)
    ensures Last(Append(s, x)) == Some(x)
    ensures Append(s, x)[..|s|] == s
  {
  }

  /** After a prepend the new element is the head and the tail is the old sequence. */
  lemma PrependThenTail<T>(x: T, s: seq<T>)
    ensures Head(Prepend(x, s)) == Some(x)
    ensures Tail(Prepend(x, s)) == Some(s)
  {
  }

  /** Indexed access after a prepend is shifted by one. */
  lemma GetAfterPrepend<T>(x: T, s: seq<T>, i: int)
    ensures Get(Prepend(x, s), i) == if i == 0 then Some(x) else Get(s, i - 1)
  {
  }

  /** Appends the elements of `xs`, one at a time from the first, consuming `xs` once. */
  function AppendAll<T>(s: seq<T>, xs: seq<T>): (r: seq<T>)
    ensures r == s + xs
    decreases |xs|
  {
    if xs == [] then s
    else
      assert s + xs == Append(s, xs[0]) + xs[1..];
      AppendAll(Append(s, xs[0]), xs[1..])
  }

  /** Prepends the elements of `xs`, one at a time from the last, so that they keep their order. */
  function PrependAll<T>(s: seq<T>, xs: seq<T>): (r: seq<T>)
    ensures r == xs + s
    decreases |xs|
  {
    if xs == [] then s
    else
      assert xs + s == xs[..|xs| - 1] + Prepend(xs[|xs| - 1], s);
      PrependAll(Prepend(xs[|xs| - 1], s), xs[..|xs| - 1])
  }

  /** The elements in the opposite order. */
  function Reverse<T>(s: seq<T>): (r: seq<T>)
    ensures |r| == |s|
  {
    if s == [] then [] else Reverse(s[1..]) + [s[0]]
  }

  /** Element `k` of the reversal is element `|s| - 1 - k` of the input. */
  lemma {:induction false} ReverseAt<T>(s: seq<T>, k: int)
    requires 0 <= k < |s|
    ensures Reverse(s)[k] == s[|s| - 1 - k]
  {
    if k < |s| - 1 {
      ReverseAt(s[1..], k);
    }
  }

  /** Reversing a concatenation reverses and swaps the parts. */
  lemma {:induction false} ReverseConcat<T>(a: seq<T>, b: seq<T>)
    ensures Reverse(a + b) == Reverse(b) + Reverse(a)
  {
    if a == [] {
      assert a + b == b;
    } else {
      assert (a + b)[1..] == a[1..] + b;
      ReverseConcat(a[1..], b);
    }
  }

  /** Reversing twice gives back the original sequence, for every input. */
  lemma {:induction false} ReverseInvolution<T>(s: seq<T>)
    ensures Reverse(Reverse(s)) == s
  {
    if s != [] {
      ReverseConcat(Reverse(s[1..]), [s[0]]);
      ReverseInvolution(s[1..]);
      assert Reverse([s[0]]) == [s[0]];
    }
  }

  /** The head of a prepend-all is the head of the prepended part, its last element the old last. */
  lemma PrependAllEnds<T>(s: seq<T>, xs: seq<T>)
    requires s != [] && xs != []
    ensures Head(PrependAll(s, xs)) == Head(xs)
    ensures Last(PrependAll(s, xs)) == Last(s)
  {
  }
}
