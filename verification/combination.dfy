/**
 * Operations that combine or reshape whole sequences: `map`, `flatMap`,
 * `mapOption`, `zip` and `sliding`.
 */
module Combination {
  import opened Wrappers
  import opened Selection
  import opened Slicing

  /** The image of each element under `f`, position by position. */
  function Map<T, U>(s: seq<T>, f: T -> U): (r: seq<U>)
    ensures |r| == |s|
    ensures forall i :: 0 <= i < |s| ==> r[i] == f(s[i])
  {
    if s == [] then [] else [f(s[0])] + Map(s[1..], f)
  }

  /** Mapping distributes over concatenation. */
  lemma MapConcat<T, U>(a: seq<T>, b: seq<T>, f: T -> U)
    ensures Map(a + b, f) == Map(a, f) + Map(b, f)
  {
  }

  /** The concatenation of a sequence of sequences. */
  function Flatten<T>(ss: seq<seq<T>>): seq<T> {
    if ss == [] then [] else ss[0] + Flatten(ss[1..])
  }

  /** Flattening distributes over concatenation. */
  lemma {:induction false} FlattenConcat<T>(a: seq<seq<T>>, b: seq<seq<T>>)
    ensures Flatten(a + b) == Flatten(a) + Flatten(b)
  {
    if a == [] {
      assert a + b == b;
    } else {
      assert (a + b)[1..] == a[1..] + b;
      FlattenConcat(a[1..], b);
    }
  }

  /** The concatenation of the sequences `f` gives for each element, in order: flatten after map. */
  function FlatMap<T, U>(s: seq<T>, f: T -> seq<U>): (r: seq<U>)
    ensures r == Flatten(Map(s, f))
  {
    if s == [] then []
    else
      assert Map(s, f) == [f(s[0])] + Map(s[1..], f);
      f(s[0]) + FlatMap(s[1..], f)
  }

  /**
   * Map and drop the absent results in one pass: wrapping the result again
   * gives exactly the present results of mapping, in order.
   */
  function MapOption<T, U>(s: seq<T>, f: T -> Option<U>): (r: seq<U>)
    ensures Map(r, Wrap) == Filter(Map(s, f), IsDefined)
  {
    if s == [] then []
    else
      var head := if f(s[0]).Some? then [f(s[0]).value] else [];
      var rest := MapOption(s[1..], f);
      assert Map(s, f) == [f(s[0])] + Map(s[1..], f);
      assert Filter(Map(s, f), IsDefined) == (if IsDefined(f(s[0])) then [f(s[0])] else []) + Filter(Map(s[1..], f), IsDefined);
      MapConcat(head, rest, Wrap);
      head + rest
  }

  function Min(a: int, b: int): int {
    if a < b then a else b
  }

  /** Pairs of elements at the same index, as many as the shorter input has. */
  function Zip<T, U>(a: seq<T>, b: seq<U>): (r: seq<(T, U)>)
    ensures |r| == Min(|a|, |b|)
    ensures forall i :: 0 <= i < |r| ==> r[i] == (a[i], b[i])
  {
    if a == [] || b == [] then [] else [(a[0], b[0])] + Zip(a[1..], b[1..])
  }

  /** Taking the left components of a zip gives back the left input, cut to the shorter length. */
  lemma ZipLeft<T, U>(a: seq<T>, b: seq<U>)
    ensures Map(Zip(a, b), (p: (T, U)) => p.0) == a[..Min(|a|, |b|)]
  {
  }

  /**
   * Consecutive non-overlapping windows of `k` elements; only the last one
   * may be shorter, none is empty, and the windows put back together give
   * the input. The empty sequence has no windows.
   */
  function Sliding<T>(s: seq<T>, k: nat): (r: seq<seq<T>>)
    requires 0 < k
    ensures Flatten(r) == s
    ensures forall i :: 0 <= i < |r| ==> 0 < |r[i]| <= k
    ensures forall i :: 0 <= i < |r| - 1 ==> |r[i]| == k
    decreases |s|
  {
    if s == [] then []
    else
      var window, after := Take(s, k), Drop(s, k);
      assert window + after == s;
      var rest := Sliding(after, k);
      assert ([window] + rest)[1..] == rest;
      [window] + rest
  }
}
