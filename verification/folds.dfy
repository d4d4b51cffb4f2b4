/**
 * Folds and predicates over the elements: `foldLeft`, `foldRight`,
 * `scanLeft`, `scanRight`, `allMatch` and `anyMatch`.
 */
module Folds {
  import opened Selection
  import opened Reorder

  /** Combines the elements from the left: `f(...f(f(z, s[0]), s[1])..., s[n-1])`. */
  function FoldLeft<A, T>(s: seq<T>, z: A, f: (A, T) -> A): A {
    if s == [] then z else FoldLeft(s[1..], f(z, s[0]), f)
  }

  /** Combines the elements from the right: `f(s[0], f(s[1], ... f(s[n-1], z)...))`. */
  function FoldRight<A, T>(s: seq<T>, z: A, f: (T, A) -> A): A {
    if s == [] then z else f(s[0], FoldRight(s[1..], z, f))
  }

  /** Folding from the left over one more element applies `f` once more, last. */
  lemma {:induction false} FoldLeftSnoc<A, T>(s: seq<T>, x: T, z: A, f: (A, T) -> A)
    ensures FoldLeft(s + [x], z, f) == f(FoldLeft(s, z, f), x)
  {
    if s != [] {
      assert (s + [x])[1..] == s[1..] + [x];
      FoldLeftSnoc(s[1..], x, f(z, s[0]), f);
    }
  }

  /** Folding from the right over a concatenation folds the left part onto the fold of the right part. */
  lemma {:induction false} FoldRightConcat<A, T>(a: seq<T>, b: seq<T>, z: A, f: (T, A) -> A)
    ensures FoldRight(a + b, z, f) == FoldRight(a, FoldRight(b, z, f), f)
  {
    if a == [] {
      assert a + b == b;
    } else {
      assert (a + b)[1..] == a[1..] + b;
      FoldRightConcat(a[1..], b, z, f);
    }
  }

  /** The argument-swapped form of a left-combining function. */
  function Flip<A, T>(f: (A, T) -> A): (T, A) -> A {
    (x, a) => f(a, x)
  }

  /** A left fold is the right fold, with arguments swapped, over the reversed sequence. */
  lemma {:induction false} FoldLeftIsFoldRightOfReverse<A, T>(s: seq<T>, z: A, f: (A, T) -> A)
    ensures FoldLeft(s, z, f) == FoldRight(Reverse(s), z, Flip(f))
  {
    if s != [] {
      var init := s[..|s| - 1];
      var last := s[|s| - 1];
      assert s == init + [last];
      FoldLeftSnoc(init, last, z, f);
      FoldLeftIsFoldRightOfReverse(init, z, f);
      ReverseConcat(init, [last]);
      assert Reverse([last]) == [last];
      FoldRightConcat([last], Reverse(init), z, Flip(f));
    }
  }

  /** The running left folds: one entry per prefix, the seed first and the full fold last. */
  function ScanLeft<A, T>(s: seq<T>, z: A, f: (A, T) -> A): (r: seq<A>)
    ensures |r| == |s| + 1
    ensures forall i :: 0 <= i <= |s| ==> r[i] == FoldLeft(s[..i], z, f)
  {
    if s == [] then [z]
    else
      var rest := ScanLeft(s[1..], f(z, s[0]), f);
      assert forall i :: 1 <= i <= |s| ==> s[..i][1..] == s[1..][..i - 1];
      [z] + rest
  }

  /** The running right folds: one entry per suffix, the full fold first and the seed last. */
  function ScanRight<A, T>(s: seq<T>, z: A, f: (T, A) -> A): (r: seq<A>)
    ensures |r| == |s| + 1
    ensures forall i :: 0 <= i <= |s| ==> r[i] == FoldRight(s[i..], z, f)
  {
    if s == [] then [z]
    else
      var rest := ScanRight(s[1..], z, f);
      assert forall i :: 1 <= i <= |s| ==> s[i..] == s[1..][i - 1..];
      [f(s[0], rest[0])] + rest
  }

  /** Whether every element satisfies `p`; true on the empty sequence. */
  function AllMatch<T>(s: seq<T>, p: T -> bool): (r: bool)
    ensures r <==> forall i :: 0 <= i < |s| ==> p(s[i])
  {
    s == [] || (p(s[0]) && AllMatch(s[1..], p))
  }

  /** Whether some element satisfies `p`; false on the empty sequence. */
  function AnyMatch<T>(s: seq<T>, p: T -> bool): (r: bool)
    ensures r <==> exists i :: 0 <= i < |s| && p(s[i])
  {
    s != [] && (p(s[0]) || AnyMatch(s[1..], p))
  }

  /** Some element matches exactly when not every element fails. */
  lemma AnyMatchIsNotAllMatchNot<T>(s: seq<T>, p: T -> bool)
    ensures AnyMatch(s, p) == !AllMatch(s, Not(p))
  {
  }
}
