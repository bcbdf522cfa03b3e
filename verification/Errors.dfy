/** The error model of the core package: a stable code and the layer that produced it. */
module Errors {

  datatype Code =
    | MALFORMED | BAD_SIGNATURE | EXPIRED | NOT_YET_VALID
    | REVOKED | PATH_MISMATCH | NAME_NOT_PERMITTED | SCOPE_EXCEEDED
    | AUDIENCE_NOT_PERMITTED | TTL_EXCEEDED | CHAIN_INCOMPLETE
    | SUBJECT_MISMATCH | SESSION_OUTLIVES_ATTESTATION
    | MAX_DEPTH_EXCEEDED | DISPOSED

  datatype Level = ROOT | HANDLE_ATTESTATION | SUB_ATTESTATION | SESSION | FORMAT

  /** A JavaScript TypeError stands apart: it is thrown before the error model applies. */
  datatype Error = AttestationError(code: Code, level: Level) | TypeError

  const MALFORMED_ERROR := AttestationError(MALFORMED, FORMAT)
}
