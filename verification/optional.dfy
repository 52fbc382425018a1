/** A failure-compatible optional value, used wherever the decoder's Python
    counterpart would raise (a `ValueError` from `int(text, 16)`). */
module Optional {

  datatype Option<+T> = None | Some(value: T) {

    predicate IsFailure() {
      None?
    }

    function PropagateFailure<U>(): Option<U>
      requires None?
    {
      None
    }

    function Extract(): T
      requires Some?
    {
      value
    }
  }
}
