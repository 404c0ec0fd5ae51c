/** Failure-carrying result types shared by every module of the model.
    Python exceptions raised by the modelled code become `Err` values. */
module Outcomes {

  /** The exceptions the modelled code raises (or lets escape). */
  datatype Error =
    | KeyError        // a key (or key pair) is not in a table
    | ValueError      // `list.remove` of an absent element; removing a missing computer
    | AttributeError  // reading `hacking_difficulty` of a series that holds no computer
    | StackEmpty      // popping an empty `LinkedStack`

  datatype Option<+T> = None | Some(value: T)

  datatype Result<+T> = Ok(value: T) | Err(error: Error) {
    predicate IsFailure() {
      Err?
    }

    function PropagateFailure<U>(): Result<U>
      requires Err?
    {
      Err(error)
    }

    function Extract(): T
      requires Ok?
    {
      value
    }
  }
}
