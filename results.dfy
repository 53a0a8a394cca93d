/** Option and Result values for the tool's two outcomes: a value, or the reason it was refused. */
module Results {

  datatype Option<+T> = None | Some(value: T)

  /** Why a patch of the model file is refused. */
  datatype PatchError =
    | EmptyInput          // no file path, or no tangent space to write
    | MalformedDocument   // a marker the rewrite relies on is not in the text

  datatype Result<+T> = Success(value: T) | Failure(error: PatchError) {

    predicate IsFailure() {
      Failure?
    }

    function PropagateFailure<U>(): Result<U>
      requires Failure?
    {
      Failure(error)
    }

    function Extract(): T
      requires Success?
    {
      value
    }
  }
}
