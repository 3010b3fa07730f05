/** Shared vocabulary of the model: bytes, instants, the error kinds the services return, and
    Option/Result wrappers for Go's `(value, error)` pairs. */
module Common {

  /** One octet of a Go `[]byte`. */
  type byte = x: int | 0 <= x < 256

  /** A wall-clock instant, in whole seconds since Go's zero `time.Time` (so `time.Time{}` is 0). */
  type Instant = int

  const ZeroTime: Instant := 0
  const Minute: int := 60
  const Hour: int := 60 * Minute

  datatype Option<+T> = None | Some(value: T)

  /** Every error value the modelled code can return, one constructor per distinct message or cause. */
  datatype Error =
    // authentication.go
    | InvalidCredentials          // "invalid credentials"
    | ErrorVerifyingPassword      // "error verifying password"
    | MfaRequired                 // "multi factor authentication required"
    | InvalidRefreshToken         // "invalid refresh token"
    | RefreshTokenExpired         // "refresh token expired"
    | UserNotFound                // "user not found"
    | TemporaryTokenExpired       // "temporary token expired"
    | InvalidHashFormat           // "invalid hash format"
    | IncompatibleVersion         // "incompatible version"
    | ScanFailure                 // an error from fmt.Sscanf
    | CorruptBase64               // base64.CorruptInputError
    | TokenDecryptFailure         // an error from PASETO Decrypt
    | TokenEncryptFailure         // an error from PASETO Encrypt
    | InvalidUuid                 // an error from uuid.Parse
    // authorization.go
    | RoleNotFound                // "role not found"
    | PermissionNotFound          // "permission not found"
    // repositories (gorm)
    | RecordNotFound              // gorm.ErrRecordNotFound
    | DuplicateKey                // a unique-index or primary-key violation
    | ValueTooLong                // a string longer than its varchar column
    | StoreFailure                // any other database error
    // multi_factor_authentication.go
    | RandomnessFailure           // an error from crypto/rand.Read
    | DispatchFailure             // Twilio or SMTP delivery failed
    | MfaNotSetUp                 // "MFA not set up for user"
    | MfaSecretNotSet             // "MFA secret not set for user"
    | HotpNotSetUp                // "HOTP not set up for user"
    | HotpSecretUndecodable       // "failed to decode HOTP secret: ..."
    | HotpValidationFailure       // "failed to validate HOTP: ..."
    | SmsCodeExpiredOrNotSet      // "SMS code expired or not set"
    | EmailCodeExpiredOrNotSet    // "email code expired or not set"
    | MfaStatusNotSaved           // "failed to update user MFA status: ..."
    | BackupCodesNotSaved         // "failed to update user backup codes: ..."
    | QrCodeFailure               // an error from totp.Generate

  datatype Result<+T> = Ok(value: T) | Err(error: Error)
}
