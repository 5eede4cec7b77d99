/** Shared vocabulary of the shop backend model: optional values, results with the
    error conditions the services report, and the time constants they use. */
module Common {

  datatype Option<T> = None | Some(value: T)

  /** Outcome of one store operation: a value or one of the errors below. */
  datatype Result<T> = Ok(value: T) | Err(error: Error) {
    predicate IsFailure() { Err? }
  }

  /** Every error condition the modelled services can surface. Storage errors
      other than "no row" and "duplicate primary key" are not modelled. */
  datatype Error =
    | NoRows                          // pgx.ErrNoRows surfaced by a Scan
    | DuplicateKey                    // insert of an id that is already present
    | ProductNotFound
    | SkuExists
    | InsufficientForReservation
    | InsufficientStock
    | InsufficientForAdditional
    | CartItemNotFound
    | CartEmpty
    | CartValidationFailed(problems: seq<string>)
    | StockUpdateFailed(product: nat)
    | OrderNotFound
    | NotOrderOwner                   // "unauthorized to ... this order"
    | NotCancellable
    | CannotCancelOrNotFound          // the repository-level cancel guard
    | InvalidTransition
    | PaymentExists
    | InvalidTransactionId
    | RefundNotCompleted
    | RefundTooLarge
    | NotReturnable
    | ReturnPeriodExpired
    | ReturnAlreadyRequested
    | NilOrder                        // dereference of an absent order (a panic in the source)

  /** Times in the store are Unix seconds. */
  const Minute: int := 60
  const Day: int := 24 * 60 * Minute
}
