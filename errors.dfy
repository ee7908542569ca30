/** The exceptions that leave the authentication service, as values. */
module Errors {

  /** The application error codes the service raises through AppException. */
  datatype ErrorCode = UserNotExisted | Unauthenticated

  datatype Failure =
    | ParseException               // the token text is not a signed JWT with a readable claim set
    | JoseException                // the MAC verifier refused the token's algorithm or key
    | NullPointerException         // a verified claim set without "exp" dereferenced during introspection
    | AppException(code: ErrorCode)
    | RuntimeException             // a signing failure, rethrown unchecked by the token issuer
}
