/** The error taxonomy of MCP-S and the failure-compatible types that carry it. */
module Outcome {

  datatype McpsError =
    | MissingEnvelope
    | UnsupportedVersion
    | InvalidSignature
    | CanonicalizationFailed
    | ExpiredRequest
    | ReplayDetected
    | InvalidAudience
    | ActorBindingFailed
    | AuthorizationHashMissing
    | OnBehalfOfMissing
    | OnBehalfOfInvalidFormat
    | ResponseSigInvalid
    | ResponseHashMismatch
    | DowngradeForbidden
    | BatchForbidden
    | NotificationForbidden
    | UnknownEnvelopeField
    | TrustResolverUnavailable
    | ReplayCacheUnavailable
    | CanonicalizationIdMissing
    | CanonicalizationIdUnknown
    | CanonicalizationIdNotAllowed
    | CanonicalizationIdMismatch
    | AuthorizationBindingMissing
    | AuthorizationBindingTypeUnsupported
    | AuthorizationBindingMalformed
    | AuthorizationBindingAmbiguousBytes

  datatype Option<+T> = None | Some(value: T)

  datatype Result<+T> = Ok(value: T) | Err(error: McpsError)
  {
    predicate IsFailure() { Err? }

    function PropagateFailure<U>(): Result<U>
      requires Err?
    {
      Err(error)
    }

    function Extract(): T
      requires Ok?
    {
      value
    }
  }

  /** Rust's `ok_or`. */
  function OkOr<T>(o: Option<T>, e: McpsError): Result<T> {
    match o
    case Some(x) => Ok(x)
    case None => Err(e)
  }

  /** Rust's `?` on a check that returns no value. */
  function Need(condition: bool, e: McpsError): Result<()> {
    if condition then Ok(()) else Err(e)
  }

  // The range of a Rust i64, and its saturating arithmetic.
  const I64_MIN: int := -0x8000_0000_0000_0000
  const I64_MAX: int := 0x7FFF_FFFF_FFFF_FFFF

  predicate IsI64(n: int) { I64_MIN <= n <= I64_MAX }

  function Saturate(n: int): int {
    if n < I64_MIN then I64_MIN else if n > I64_MAX then I64_MAX else n
  }
}
