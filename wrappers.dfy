/** Optional values, standing for Java references that may be null. */
module Wrappers {

  datatype Option<+T> = None | Some(value: T)

  /** Bounded indices: the result of `random.nextInt(n)` for the table sizes the game uses. */
  type Below3 = i: nat | i < 3
  type Below4 = i: nat | i < 4
  type Below5 = i: nat | i < 5
  type Below6 = i: nat | i < 6
}
