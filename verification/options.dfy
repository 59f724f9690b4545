/** An answer that may be missing.

    The model uses `None` for two things: the source's own `Option` (the result of
    `Rect::intersect` and a quadtree node's `children`), and, in the fuelled insertion
    functions, "the call has not returned within the fuel". */
module Options {

  datatype Option<T> = None | Some(value: T) {

    // Dafny's `:-` protocol: a `None` stops the enclosing computation and is passed on,
    // a `Some` hands its value to the next step.

    predicate IsFailure() {
      !Some?
    }

    function PropagateFailure<U>(): Option<U>
      requires !Some?
    {
      None
    }

    function Extract(): T
      requires Some?
    {
      value
    }
  }
}
