/** The ways an action of the component can abort. */
module Errors {

  datatype Failure =
    | ValidationFailed(message: string)  // a validator threw; its first message is shown to the operator
    | UndefinedArrayKey(index: int)      // `$this->files[$fileIndex]` on a missing index
    | DeleteOnNull(path: string)         // `->delete()` called on the null that `first()` returned

  datatype Outcome = Done | Aborted(failure: Failure)
}
