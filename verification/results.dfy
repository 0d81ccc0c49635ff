/** Error and result types of the descriptor computation. */
module Results {

  /** The ways the descriptor computation can fail. */
  datatype Error =
    | IndexError        // the central atom id is outside the configuration
    | NegativePadWidth  // padding to a target smaller than the image
    | EmptyRankList     // no rank to query: empty neighbourhood or target size below 1

  datatype Option<+T> = None | Some(value: T)

  datatype Result<+T> = Success(value: T) | Failure(error: Error)
}
