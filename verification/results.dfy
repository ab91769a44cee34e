/** The error taxonomy shared by every engine, and the Result and Option
    wrappers that carry either a value or the reason an operation refused. */
module Results {

  /** Why an operation raised instead of returning. Each constructor names the
      condition the source checks (or the library call that fails on it). */
  datatype Error =
    | UnknownAttribute          // a requested attribute is not a column
    | NoGroupKeys               // grouping by an empty attribute list
    | MissingColumn(name: string)
    | EmptyTable
    | NotAList                  // the target set X is not passed as a list
    | EmptyData                 // no samples: the mode of an empty column, an empty training set
    | ThresholdUnset
    | InvalidThreshold
    | EmptyTransactions
    | DuplicateColumn(name: string)
    | NoFrequentItemsets
    | EmptyItemsets
    | MissingSubsetSupport      // a rule needs the support of an itemset not in the table
    | SizeMismatch
    | NotTrained
    | DataNotLoaded             // an operation on data before any was loaded
    | MissingKey                // a lookup in a learned table fails
    | EmptyMax                  // max() over an empty collection
    | InvalidK
    | NoIterations
    | NotRun
    | IndexOutOfRange
    | UnsetAttribute            // an attribute read before the step that assigns it

  datatype Result<+T> = Ok(value: T) | Err(error: Error)

  datatype Option<+T> = None | Some(value: T)
}
