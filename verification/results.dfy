/** Failure-compatible results for the operations that throw in the modelled code. */
module Results {

  /** The conventional Some/None datatype, used where the source returns null. */
  datatype Option<+T> = None | Some(value: T)

  /** The exceptions the modelled operations can raise. */
  datatype Error =
    | NoLandmarksModel      // addFrame before a landmarks model file is set
    | TrackerUnavailable    // the LBP tracker requested in a build without OpenCV's extra modules
    | InvalidRegion         // OpenCV rejects an empty or out-of-image region of interest

  /** Either the value of an operation or the error that aborted it. */
  datatype Result<+T> = Success(value: T) | Failure(error: Error) {

    predicate IsFailure() {
      Failure?
    }

    function PropagateFailure<U>(): Result<U>
      requires Failure?
    {
      Failure(error)
    }

    function Extract(): T
      requires Success?
    {
      value
    }
  }
}
