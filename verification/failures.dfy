/** Failure-compatible wrappers shared by the whole model.

    The program reports every failure through `anyhow::Result` or by
    panicking on an `unwrap` or an out-of-range array index; both end the
    command, so the model folds them into one `Err` carrying what went wrong.
 */
module Failures {

  /** A value that may be absent, as returned by a lookup or a decode. */
  datatype Option<T> = None | Some(value: T)

  /** Everything that aborts preparation or inference in the model. */
  datatype Error =
    | MalformedRecord                 // a manifest row the CSV reader could not deserialise
    | UnknownDataSet(token: string)   // a `data set` token other than train/test/valid
    | ImageUnreadable(path: string)   // the image file could not be opened or decoded
    | ImageOutOfBounds(path: string)  // a pixel lies outside the fixed array extent
    | EmptyStatistic                  // the normalisation statistic of an array with no observation
    | LabelMissing(name: string)      // a label has no id in the label map
    | PredictionMissing(index: int)   // a predicted class index has no label

  datatype Result<T> = Ok(value: T) | Err(error: Error) {

    predicate IsFailure() {
      Err?
    }

    function PropagateFailure<U>(): Result<U>
      requires Err?
    {
      Err(error)
    }

    function Extract(): T
      requires Ok?
    {
      value
    }
  }
}
