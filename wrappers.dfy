/** Option and Result, and the exceptions that the pipeline's code raises. */
module Wrappers {

  datatype Option<+T> = None | Some(value: T)

  /** The Python exceptions that the modelled code can raise (and does not catch). */
  datatype Error =
    | ValueError                               // `range()` with a zero step, `list.index` of a missing item, `random.sample` of more items than the population holds
    | IndexError                               // a list index out of range, `random.choice` on an empty list
    | AssertionError                           // a failed `assert` statement
    | NodeNotInGraph(node: string)             // networkx refuses a node the graph does not have
    | RecursionLimit                           // Python's recursion limit was reached
    | UnknownOperator(op: string)              // `raise Exception("Unknown operator : ...")`
    | UnknownTermType(termType: string)        // `raise Exception("Unrecongnized term type : ...")`
    | NoRowFor(source: string, target: string) // `raise Exception("No row for : ...")`
    | AxisError                                // `np.concatenate(..., axis=1)` of one-dimensional rows

  datatype Result<+T> = Success(value: T) | Failure(error: Error) {
    predicate IsFailure() {
      Failure?
    }

    function PropagateFailure<U>(): Result<U>
      requires Failure?
    {
      Failure(error)
    }

    function Extract(): T
      requires Success?
    {
      value
    }
  }
}
