/** Optional values, results, and the exceptions the authorization code can raise. */
module Outcomes {

  datatype Option<+T> = None | Some(value: T)

  /** The exceptions that reach the caller of the authorization service. */
  datatype Error =
    /** The identity provider returned something that is not an identity (a RuntimeException). */
    | InvalidIdentity
    /** The assertion is neither a callable nor an assertion object, or it accepted (an InvalidArgumentException). */
    | InvalidAssertion
    /** The container was asked for a role it does not hold. */
    | RoleNotFound(name: string)

  /** A value, or the exception that was raised instead. */
  datatype Result<+T> = Ok(value: T) | Err(error: Error)
}
