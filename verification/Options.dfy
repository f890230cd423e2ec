/** Optional values, results that a panic can take the place of, and concatenation. */
module Options {
  datatype Option<+T> = None | Some(value: T)

  /** The value of a call that may panic. */
  datatype Checked<+T> = Done(value: T) | Panic {
    predicate IsFailure() {
      Panic?
    }

    function PropagateFailure<U>(): Checked<U>
      requires Panic?
    {
      Panic
    }

    function Extract(): T
      requires Done?
    {
      value
    }
  }

  lemma Assoc<T>(a: seq<T>, b: seq<T>, c: seq<T>)
    ensures (a + b) + c == a + (b + c)
  {
  }
}
