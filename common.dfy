/** Failure-carrying values shared by the whole model. */
module Common {

  /** A nullable Java reference: `None` stands for `null`. */
  datatype Option<+T> = None | Some(value: T)

  /** The exceptions the service layer raises. */
  datatype Error =
    | BadRequest       // com.game.exception.HTTPException: malformed client input
    | PlayerNotFound   // com.game.exception.PlayerNotFoundException
    | NoSuchElement    // java.util.NoSuchElementException from Optional.get() on an absent id

  /** A value, or the exception thrown instead of producing it. */
  datatype Result<+T> = Success(value: T) | Failure(error: Error)

  /** The outcome of a `void` check that either returns or throws. */
  datatype Outcome = Pass | Fail(error: Error)
}
