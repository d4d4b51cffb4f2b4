/** The optional value returned where the sequence API answers "found" or "absent". */
module Wrappers {

  datatype Option<+T> = None | Some(value: T)

  /** True when the option holds a value; usable as a first-class predicate. */
  predicate IsDefined<T>(o: Option<T>) {
    o.Some?
  }

  /** Wraps a value; the first-class form of the constructor `Some`. */
  function Wrap<T>(x: T): Option<T> {
    Some(x)
  }
}
