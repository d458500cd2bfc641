/** Optional values and the outcome of a call that may throw. */
module Wrappers {

  /** A TypeScript optional (`x?: T`): either absent or present. */
  datatype Option<+T> = None | Some(value: T)

  /** What an awaited call inside a `try` block does: it returns a value, or it
      throws and control passes to the `catch` block. */
  datatype Outcome<+T> = Returned(value: T) | Threw
}
