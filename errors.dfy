/**
 * The small, closed error taxonomy of the credential helper, and the
 * Option/Result wrappers every other module returns.
 *
 * The repository's own error type wraps many foreign error types; only the
 * kinds the core itself raises or propagates are kept here, each carrying
 * just enough to tell the cases apart.
 */
module Errors {

  datatype Option<T> = None | Some(value: T)

  datatype Result<T> = Ok(value: T) | Err(error: Error)

  /** Why `u64::from_str` rejected its input. */
  datatype IntErrorKind = Empty | InvalidDigit | PosOverflow

  /** What the JSON decoder of the secret backend's response can object to. */
  datatype JsonErrorKind =
    | MissingField(name: string)
    | InvalidType(field: string)
    | InvalidValue(field: string)
    | I64OutOfRange(value: int)   // the custom "i64 out of range: <value>" message

  datatype Error =
    | InvalidCredentialType
    | InvalidVaultPath
    | InvalidAwsRegion(region: string)
    | ParseIntError(intKind: IntErrorKind)
    | JsonError(jsonKind: JsonErrorKind)
    | VaultError(cause: string)      // opaque failure of the secret backend
}
