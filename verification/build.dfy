/**
 * The generative constructor `unfoldRight`: a step function maps a seed to
 * either "done" or an element and the next seed; the elements are collected
 * front to back until the step says done.
 */
module Build {
  import opened Wrappers

  /** `step` makes progress: every seed it continues from has a smaller measure. */
  ghost predicate Progresses<S(!new), U>(step: S -> Option<(U, S)>, measure: S -> nat) {
    forall x :: step(x).Some? ==> measure(step(x).value.1) < measure(x)
  }

  /**
   * The elements produced by repeatedly applying `step` from `seed`. The
   * measure bounds how many elements there can be.
   */
  function UnfoldRight<S(!new), U>(seed: S, step: S -> Option<(U, S)>, measure: S -> nat): (r: seq<U>)
    requires Progresses(step, measure)
    ensures |r| <= measure(seed)
    ensures r == [] <==> step(seed).None?
    decreases measure(seed)
  {
    match step(seed)
    case None => []
    case Some((v, next)) => [v] + UnfoldRight(next, step, measure)
  }

  /** The seed reached after `i` steps from `seed`, if the step has not said done before. */
  function SeedAfter<S, U>(seed: S, step: S -> Option<(U, S)>, i: nat): Option<S> {
    if i == 0 then Some(seed)
    else match step(seed)
      case None => None
      case Some((_, next)) => SeedAfter(next, step, i - 1)
  }

  /**
   * Element `i` of the result is what `step` produces from the seed reached
   * after `i` steps, and the step says done at the seed reached after as
   * many steps as there are elements.
   */
  lemma {:induction false} UnfoldRightTrace<S(!new), U>(seed: S, step: S -> Option<(U, S)>, measure: S -> nat)
    requires Progresses(step, measure)
    ensures var r := UnfoldRight(seed, step, measure);
      && (forall i :: 0 <= i < |r| ==>
            SeedAfter(seed, step, i).Some? && step(SeedAfter(seed, step, i).value).Some?
            && step(SeedAfter(seed, step, i).value).value.0 == r[i])
      && SeedAfter(seed, step, |r|).Some? && step(SeedAfter(seed, step, |r|).value).None?
    decreases measure(seed)
  {
    match step(seed)
    case None =>
    case Some((v, next)) =>
      UnfoldRightTrace(next, step, measure);
      var r := UnfoldRight(seed, step, measure);
      var rest := UnfoldRight(next, step, measure);
      assert r == [v] + rest;
      forall i | 0 < i < |r|
        ensures SeedAfter(seed, step, i) == SeedAfter(next, step, i - 1)
      {
      }
  }
}
