/**
 * Slicing: `take`, `drop`, `dropRight`, `splitAt`, and the predicate-driven
 * `takeWhile`, `dropWhile`, `dropRightWhile` and `span`. Counts outside
 * `[0, length]` are clamped, never rejected. The predicate-driven forms work
 * on the contiguous prefix (or suffix) only: they stop at the first element
 * that fails the predicate and never resume after a later match.
 */
module Slicing {

  /** `n` clamped into `[0, len]`. */
  function Clamp(n: int, len: nat): (k: nat)
    ensures k <= len
    ensures 0 <= n <= len ==> k == n
    ensures n < 0 ==> k == 0
    ensures len < n ==> k == len
  {
    if n < 0 then 0 else if n > len then len else n
  }

  function Max(a: int, b: int): int {
    if a < b then b else a
  }

  /**
   * A host-language array slice `s.slice(start, end)`: a negative bound counts
   * from the end, and both bounds are clamped into `[0, length]`.
   */
  function ArraySlice<T>(s: seq<T>, start: int, end: int): seq<T> {
    var from := if start < 0 then Clamp(|s| + start, |s|) else Clamp(start, |s|);
    var to := if end < 0 then Clamp(|s| + end, |s|) else Clamp(end, |s|);
    if from < to then s[from..to] else []
  }

  /** The first `n` elements; empty when `n <= 0`, everything when `n` exceeds the length. */
  function Take<T>(s: seq<T>, n: int): (r: seq<T>)
    ensures r == s[..Clamp(n, |s|)]
  {
    if n <= 0 || s == [] then [] else [s[0]] + Take(s[1..], n - 1)
  }

  /** `take(n)` agrees with slicing the plain array from 0 to `max(0, n)`, for every `n`. */
  lemma TakeIsArraySlice<T>(s: seq<T>, n: int)
    ensures Take(s, n) == ArraySlice(s, 0, Max(0, n))
  {
  }

  /** All but the first `n` elements; the whole sequence when `n <= 0`, empty when `n` exceeds the length. */
  function Drop<T>(s: seq<T>, n: int): (r: seq<T>)
    ensures r == s[Clamp(n, |s|)..]
  {
    if n <= 0 || s == [] then s else Drop(s[1..], n - 1)
  }

  /** All but the last `n` elements; the whole sequence when `n <= 0`, empty when `n` exceeds the length. */
  function DropRight<T>(s: seq<T>, n: int): (r: seq<T>)
    ensures r == s[..|s| - Clamp(n, |s|)]
  {
    if n <= 0 || s == [] then s else DropRight(s[..|s| - 1], n - 1)
  }

  /** The prefix of length `n` clamped into `[0, length]`, and the rest. */
  function SplitAt<T>(s: seq<T>, n: int): (r: (seq<T>, seq<T>))
    ensures r.0 + r.1 == s
    ensures |r.0| == Clamp(n, |s|)
  {
    (Take(s, n), Drop(s, n))
  }

  /** The longest prefix whose elements all satisfy `p`. */
  function TakeWhile<T>(s: seq<T>, p: T -> bool): (r: seq<T>)
    ensures |r| <= |s| && r == s[..|r|]
    ensures forall i :: 0 <= i < |r| ==> p(s[i])
    ensures |r| < |s| ==> !p(s[|r|])
  {
    if s == [] || !p(s[0]) then [] else [s[0]] + TakeWhile(s[1..], p)
  }

  /** What remains after dropping the longest prefix whose elements all satisfy `p`. */
  function DropWhile<T>(s: seq<T>, p: T -> bool): (r: seq<T>)
    ensures |r| <= |s| && r == s[|s| - |r|..]
    ensures forall i :: 0 <= i < |s| - |r| ==> p(s[i])
    ensures r != [] ==> !p(r[0])
  {
    if s == [] || !p(s[0]) then s else DropWhile(s[1..], p)
  }

  /** What remains after dropping the longest suffix whose elements all satisfy `p`. */
  function DropRightWhile<T>(s: seq<T>, p: T -> bool): (r: seq<T>)
    ensures |r| <= |s| && r == s[..|r|]
    ensures forall i :: |r| <= i < |s| ==> p(s[i])
    ensures r != [] ==> !p(r[|r| - 1])
  {
    if s == [] || !p(s[|s| - 1]) then s else DropRightWhile(s[..|s| - 1], p)
  }

  /** In one pass: the longest prefix satisfying `p`, and the rest. */
  function Span<T>(s: seq<T>, p: T -> bool): (r: (seq<T>, seq<T>))
    ensures r.0 + r.1 == s
    ensures forall i :: 0 <= i < |r.0| ==> p(r.0[i])
    ensures r.1 != [] ==> !p(r.1[0])
  {
    if s == [] || !p(s[0]) then ([], s)
    else
      var rest := Span(s[1..], p);
      var r := ([s[0]] + rest.0, rest.1);
      assert r.0 + r.1 == s by {
        assert r.0 + r.1 == [s[0]] + (rest.0 + rest.1);
      }
      assert forall i :: 0 <= i < |r.0| ==> p(r.0[i]) by {
        forall i | 0 <= i < |r.0| ensures p(r.0[i]) {
          if 0 < i {
            assert r.0[i] == rest.0[i - 1];
          }
        }
      }
      r
  }

  /** `span` is `takeWhile` and `dropWhile` of the same predicate. */
  lemma {:induction false} SpanIsTakeDropWhile<T>(s: seq<T>, p: T -> bool)
    ensures Span(s, p) == (TakeWhile(s, p), DropWhile(s, p))
  {
    if s != [] && p(s[0]) {
      SpanIsTakeDropWhile(s[1..], p);
    }
  }

  /** When the first element fails the predicate, nothing is dropped and the matching prefix is empty. */
  lemma WhileFirstFails<T>(s: seq<T>, p: T -> bool)
    requires s != [] && !p(s[0])
    ensures DropWhile(s, p) == s && Span(s, p) == ([], s)
  {
  }

  /** When the last element fails the predicate, `dropRightWhile` drops nothing. */
  lemma WhileLastFails<T>(s: seq<T>, p: T -> bool)
    requires s != [] && !p(s[|s| - 1])
    ensures DropRightWhile(s, p) == s
  {
  }

  /** When every element matches, `dropWhile` and `dropRightWhile` leave nothing. */
  lemma {:induction false} WhileAllMatch<T>(s: seq<T>, p: T -> bool)
    requires forall i :: 0 <= i < |s| ==> p(s[i])
    ensures DropWhile(s, p) == [] && DropRightWhile(s, p) == []
  {
  }

  /** When every element matches, `span` puts the whole input in its prefix. */
  lemma {:induction false} SpanAllMatch<T>(s: seq<T>, p: T -> bool)
    requires forall i :: 0 <= i < |s| ==> p(s[i])
    ensures Span(s, p) == (s, [])
  {
    SpanIsTakeDropWhile(s, p);
    WhileAllMatch(s, p);
    var r := Span(s, p);
    assert r.0 + r.1 == r.0;
  }
}
