/** Foundation blocks that may return `nil`: `None` stands for `nil`, `Some(v)` for a non-nil object `v`. */
module Nullable {

  datatype Option<+T> = None | Some(value: T)

  /** A block that never returns `nil`, seen as a nullable-result block. */
  function Lift<T, U>(f: T -> U): T -> Option<U>
  {
    x => Some(f(x))
  }

  /** A key-value block that never returns `nil`, seen as a nullable-result block. */
  function Lift2<K, V, U>(f: (K, V) -> U): (K, V) -> Option<U>
  {
    (k, v) => Some(f(k, v))
  }
}
