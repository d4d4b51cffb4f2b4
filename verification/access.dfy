/**
 * Element access on a sequence: indexed `get`, `head`, `last`, `tail` and
 * `single`. None of them fails: an absent element is reported as `None`.
 * `Get` is one of the primitives of the sequence contract; the other
 * accessors answer in terms of it.
 */
module Access {
  import opened Wrappers

  /** The element at index `i`, or `None` when `i` is negative or not below the length. */
  function Get<T>(s: seq<T>, i: int): Option<T> {
    if 0 <= i < |s| then Some(s[i]) else None
  }

  /** The first element, if any. */
  function Head<T>(s: seq<T>): (r: Option<T>)
    ensures r == Get(s, 0)
    ensures r.None? <==> s == []
  {
    if s == [] then None else Some(s[0])
  }

  /** The last element, if any. */
  function Last<T>(s: seq<T>): (r: Option<T>)
    ensures r == Get(s, |s| - 1)
    ensures r.None? <==> s == []
  {
    if s == [] then None else Some(s[|s| - 1])
  }

  /** Everything but the first element; `None` on the empty sequence. */
  function Tail<T>(s: seq<T>): (r: Option<seq<T>>)
    ensures r.None? <==> s == []
    ensures r.Some? ==> |r.value| == |s| - 1 && [s[0]] + r.value == s
  {
    if s == [] then None else Some(s[1..])
  }

  /** The only element of a one-element sequence; `None` when the length is not one. */
  function Single<T>(s: seq<T>): (r: Option<T>)
    ensures r.Some? <==> |s| == 1
    ensures r.Some? ==> s == [r.value]
  {
    if |s| == 1 then Some(s[0]) else None
  }

  /** Head and tail put back together give the sequence again. */
  lemma HeadTailRoundTrip<T>(s: seq<T>)
    requires s != []
    ensures Head(s).Some? && Tail(s).Some?
    ensures [Head(s).value] + Tail(s).value == s
  {
  }
}
