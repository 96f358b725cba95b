/** Error and result values standing in for the exceptions the container throws. */
module Outcomes {

  /** The exceptions thrown by the modelled operations. */
  datatype Error =
    | OutOfRange        // std::out_of_range from at()
    | EmptyContainer    // std::logic_error("Empty") from front()/back()
    | InvalidIterator   // std::exception from decrementing a const iterator at index 0

  datatype Option<+T> = None | Some(value: T)

  /** Either a returned value or the exception that was thrown instead. */
  datatype Result<+T> = Ok(value: T) | Err(error: Error)
}
