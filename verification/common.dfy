/** Identifiers, optional values and the error replies shared by every part of the model. */
module Common {

  /** Record identifiers. The storage layer generates them; the model only compares them. */
  type UserId = nat
  type ItemId = nat
  type SwapId = nat
  type RequestId = nat

  /** A value that may be absent: a missing request field, an unset reference or timestamp. */
  datatype Option<+T> = None | Some(value: T) {

    /** The value, or `default` when absent. */
    function GetOr(default: T): T {
      match this
      case Some(v) => v
      case None => default
    }
  }

  /** The failures the handlers and model methods report, one per distinct reply of the backend. */
  datatype Error =
    | NotFound                                     // 404: the item, swap or user id does not resolve
    | Forbidden                                    // 403: the caller does not own the record
    | MissingFields                                // 400: a required request field is absent or empty
    | NoImages                                     // 400: images is not a non-empty array
    | TooManyImages                                // 400: more than five images
    | ValidationError(paths: set<string>)          // 400: the schema validators that failed, by path
    | NotEditable                                  // 400: item status forbids an edit
    | HasPendingRequests                           // 400: owner delete while a request is pending
    | NotAvailable                                 // 400: item is not available for swap or redemption
    | OwnItem                                      // 400: caller tries to swap or redeem their own item
    | InvalidOfferedItem                           // 400: offered item missing or not the caller's
    | DuplicateRequest                             // 400: a pending request from this requester exists
    | InsufficientPoints(required: int, available: int) // 400: balance below the price
    | RequestNotFound                              // embedded swap request id does not resolve
    | InvalidAction                                // 400: respond action other than accept or reject
    | NotPending                                   // 400: item or swap is no longer pending
    | HasActiveSwaps                               // 400: admin delete while a swap is pending or accepted
    | InvalidRole                                  // 400: role other than user or admin
    | LastAdmin                                    // 400: demoting the only admin
    | ServerError                                  // 500: any other exception

  /** The outcome of an operation: a value, or the error it reports. */
  datatype Result<+T> = Ok(value: T) | Err(error: Error)
}
