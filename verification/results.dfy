/** Failure-compatible wrappers used where the Go code returns an error,
    panics, or holds a possibly-nil map. */
module Results {

  /** A Success/Failure result, usable with `:-`. */
  datatype Result<+T, +E> = Success(value: T) | Failure(error: E) {

    predicate IsFailure() {
      Failure?
    }

    function PropagateFailure<U>(): Result<U, E>
      requires Failure?
    {
      Failure(error)
    }

    function Extract(): T
      requires Success?
    {
      value
    }
  }

  /** A Go map value: either the nil map (reads see no entries, writes
      panic) or a made map with its entries. */
  datatype GoMap<K, V> = Nil | Made(entries: map<K, V>)

  /** The entries a read sees: a nil map reads as empty. */
  function Entries<K, V>(m: GoMap<K, V>): map<K, V>
  {
    match m
    case Nil => map[]
    case Made(e) => e
  }
}
