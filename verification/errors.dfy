/** The errors the two services return, with the message each one carries. */
module ServiceErrors {
  import Validation
  import Stores

  /** What a wrapped error wraps. */
  datatype Cause = StoreFailure(e: Stores.StoreError) | HashFailure

  datatype Error =
    | InvalidApiKey                          // "invalid API Key"
    | InvalidRequestUser                     // "invalid request-user"
    | NotAuthorised                          // "user is not authorised"
    | Invalid(e: Validation.FieldError)      // one validation failure
    | Wrapped(context: string, cause: Cause) // "<context>: <cause>"

  /** Validation failures as service errors, one for one and in order. */
  function AsInvalid(errs: seq<Validation.FieldError>): (r: seq<Error>)
    ensures |r| == |errs|
    ensures forall i | 0 <= i < |r| :: r[i] == Invalid(errs[i])
  {
    seq(|errs|, i requires 0 <= i < |errs| => Invalid(errs[i]))
  }
}
