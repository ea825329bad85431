/** Option and Result types for the tree operations, and the ways an operation
    of the tree package can end without producing its value. */
module Results {

  datatype Option<+T> = None | Some(value: T)

  /** Why an operation ends without a value. The first three are the errors the
      Go code returns; the last two stand for the Go code never returning. */
  datatype TreeError =
    | NeedRoot            // a root-only operation was given a node that has a parent
    | AlreadyInitialized  // initial sizes requested for a tree whose root already has a positive size
    | InvalidTree         // the built tree did not pass validation
    | NilRoot             // no self-edge in the input: validation dereferences a nil root and panics
    | Unbounded           // a recursive traversal meets a cycle of child links and never returns

  datatype Result<+T> = Success(value: T) | Failure(error: TreeError) {

    predicate IsFailure() {
      Failure?
    }

    function PropagateFailure<U>(): Result<U>
      requires Failure?
    {
      Failure(error)
    }

    function Extract(): T
      requires Success?
    {
      value
    }
  }
}
