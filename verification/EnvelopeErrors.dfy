/** The typed errors of the envelope package. */
module EnvelopeErrors {

  datatype Error =
    | ErrSchema
    | ErrFloatValue
    | ErrIntegerDomain
    | ErrExpired
    | ErrTooFarFuture
    | ErrSignature
    | ErrReplayNonce
    | ErrReplaySeq
    | ErrPolicyStale
    | ErrNoReplayGuard
    | ErrNoBundle
    | ErrOther

  /** The `agent.error` code a caller reports. */
  function Code(e: Error): string {
    match e
    case ErrSchema | ErrFloatValue | ErrIntegerDomain => "envelope-malformed"
    case ErrExpired | ErrTooFarFuture => "envelope-expired"
    case ErrSignature => "envelope-signature-invalid"
    case ErrReplayNonce | ErrReplaySeq => "envelope-replayed"
    case ErrPolicyStale => "policy-bundle-stale"
    case ErrNoReplayGuard | ErrNoBundle | ErrOther => "envelope-rejected"
  }
}
