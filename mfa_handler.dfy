/** MFAHandler of multi_factor_authentication_handler.go: the HTTP responses the MFA endpoints give for
    each service outcome, and DisableMFA's reset of the MFA fields. Request binding is reduced to whether
    the JSON body bound (`Option`), and gin's rendering to a status and a body. */
module MfaHandler {
  import opened Common
  import opened Models
  import opened Repositories
  import opened Mfa

  datatype Body =
    | ErrorBody(error: string)
    | MessageBody(message: string)
    | TotpSetupBody(secret: string, qrCode: string)
    | BackupCodesBody(codes: seq<string>)

  datatype Response = Response(status: int, body: Body)

  const StatusOK: int := 200
  const StatusBadRequest: int := 400
  const StatusUnauthorized: int := 401
  const StatusInternalServerError: int := 500

  /** The branch table the three verify handlers share: the service error is looked at before validity. */
  function VerifyResponse(valid: bool, err: Option<Error>, failed: string, invalid: string, verified: string): (r: Response)
    ensures r.status == 500 <==> err.Some?
    ensures r.status == 401 <==> err == None && !valid
    ensures r.status == 200 <==> err == None && valid
    ensures r.status == 500 ==> r.body == ErrorBody(failed)
    ensures r.status == 401 ==> r.body == ErrorBody(invalid)
    ensures r.status == 200 ==> r.body == MessageBody(verified)
  {
    if err.Some? then Response(StatusInternalServerError, ErrorBody(failed))
    else if !valid then Response(StatusUnauthorized, ErrorBody(invalid))
    else Response(StatusOK, MessageBody(verified))
  }

  /** A body that did not bind is refused with 400 before the service is called. */
  function BindFailure(bindError: string): Response
  {
    Response(StatusBadRequest, ErrorBody(bindError))
  }

  /** `VerifyTOTP`'s response to the service's `(valid, err)`. */
  function VerifyTotpResponse(valid: bool, err: Option<Error>): Response
  {
    VerifyResponse(valid, err, "Failed to verify MFA token", "Invalid MFA token", "MFA verified successfully")
  }

  /** `VerifySMS`'s response. */
  function VerifySmsResponse(valid: bool, err: Option<Error>): Response
  {
    VerifyResponse(valid, err, "Failed to verify SMS code", "Invalid SMS code", "SMS code verified successfully")
  }

  /** `VerifyBackupCode`'s response. */
  function VerifyBackupCodeResponse(valid: bool, err: Option<Error>): Response
  {
    VerifyResponse(valid, err, "Failed to verify backup code", "Invalid backup code", "Backup code verified successfully")
  }

  /** `SetupSMS`'s response. */
  function SetupSmsResponse(err: Option<Error>): (r: Response)
    ensures r.status == 200 <==> err == None
    ensures err.Some? ==> r == Response(500, ErrorBody("Failed to generate SMS code"))
    ensures err == None ==> r.body == MessageBody("SMS code sent successfully")
  {
    if err.Some? then Response(StatusInternalServerError, ErrorBody("Failed to generate SMS code"))
    else Response(StatusOK, MessageBody("SMS code sent successfully"))
  }

  /** `GenerateBackupCodes`'s response. */
  function BackupCodesResponse(codes: seq<string>, err: Option<Error>): (r: Response)
    ensures r.status == 200 <==> err == None
    ensures r.status == 200 ==> r.body == BackupCodesBody(codes)
    ensures err.Some? ==> r == Response(500, ErrorBody("Failed to generate backup codes"))
  {
    if err.Some? then Response(StatusInternalServerError, ErrorBody("Failed to generate backup codes"))
    else Response(StatusOK, BackupCodesBody(codes))
  }

  /** `SetupTOTP`'s response: a failed secret ends the request; only then does the QR code count. */
  function SetupTotpResponse(secret: string, err: Option<Error>, qr: Result<string>): (r: Response)
    ensures err.Some? ==> r == Response(500, ErrorBody("Failed to generate MFA secret"))
    ensures r.status == 200 <==> err == None && qr.Ok?
    ensures r.status == 200 ==> r.body == TotpSetupBody(secret, qr.value)
    ensures err == None && qr.Err? ==> r == Response(500, ErrorBody("Failed to generate QR code"))
  {
    if err.Some? then Response(StatusInternalServerError, ErrorBody("Failed to generate MFA secret"))
    else
      match qr
      case Err(_) => Response(StatusInternalServerError, ErrorBody("Failed to generate QR code"))
      case Ok(uri) => Response(StatusOK, TotpSetupBody(secret, uri))
  }

  /** DisableMFA's four assignments. */
  function Disable(m: MfaState): (r: MfaState)
    ensures !r.enabled && r.secret == "" && r.kind == NoMethod && r.backupCodes == []
    ensures r.(enabled := m.enabled, secret := m.secret, kind := m.kind, backupCodes := m.backupCodes) == m
  {
    m.(enabled := false, secret := "", kind := NoMethod, backupCodes := [])
  }

  class MfaHandler {
    const mfa: MfaService
    const users: UserStore

    constructor (mfa: MfaService, users: UserStore)
      ensures this.mfa == mfa && this.users == users
    {
      this.mfa, this.users := mfa, users;
    }

    /** `SetupTOTP`: the secret first; the QR code, as GenerateTOTPQRCode writes it, is built only once
        the secret was saved. */
    method SetupTotp(user: User, random: Option<seq<byte>>, storeOk: bool) returns (r: Response)
      requires mfa.users.Valid() && (random.Some? ==> |random.value| == 32)
      modifies user, mfa.users
      ensures mfa.users.Valid()
      ensures random.None? ==>
        r == Response(500, ErrorBody("Failed to generate MFA secret")) &&
        user.Row() == old(user.Row()) && mfa.users.rows == old(mfa.users.rows)
      ensures random.Some? ==>
        user.Row() == old(user.Row()).(mfa := EnrolTotp(old(user.mfa), mfa.encode(random.value))) &&
        var w := UpdateOutcome(old(mfa.users.rows), user.Row(), mfa.users.secretWidth, storeOk);
        mfa.users.rows == w.rows &&
        if w.error.Some? then r == Response(500, ErrorBody("Failed to generate MFA secret"))
        else r == SetupTotpResponse(mfa.encode(random.value), None, mfa.GenerateTotpQrCodeAsWritten(user))
    {
      var secret, err := mfa.GenerateTotpSecret(user, random, storeOk);
      if err.Some? {
        return SetupTotpResponse(secret, err, Err(QrCodeFailure));
      }
      r := SetupTotpResponse(secret, None, mfa.GenerateTotpQrCodeAsWritten(user));
    }

    /** `DisableMFA`: four fields reset and the user saved. */
    method DisableMfa(user: User, storeOk: bool) returns (r: Response)
      requires users.Valid()
      modifies user, users
      ensures users.Valid()
      ensures user.Row() == old(user.Row()).(mfa := Disable(old(user.mfa)))
      ensures var w := UpdateOutcome(old(users.rows), user.Row(), users.secretWidth, storeOk);
        users.rows == w.rows &&
        r == if w.error.Some? then Response(500, ErrorBody("Failed to disable MFA"))
             else Response(200, MessageBody("MFA disabled successfully"))
    {
      user.mfa := user.mfa.(enabled := false, secret := "", kind := NoMethod, backupCodes := []);
      var err := users.Update(user.Row(), storeOk);
      r := if err.Some? then Response(StatusInternalServerError, ErrorBody("Failed to disable MFA"))
           else Response(StatusOK, MessageBody("MFA disabled successfully"));
    }
  }

  // ---------------------------------------------------------------------------------------------
  // Lemmas

  /** A backup code that was consumed but whose removal was not saved (`(true, err)`) is answered 500, not
      success; the same holds for the other verify handlers. */
  lemma ConsumedButUnsavedIsFailure(e: Error)
    ensures VerifyBackupCodeResponse(true, Some(e)) == Response(500, ErrorBody("Failed to verify backup code"))
    ensures VerifySmsResponse(true, Some(e)).status == 500 && VerifyTotpResponse(true, Some(e)).status == 500
  {
  }

  /** DisableMFA leaves the SMS and email codes, their expiries and the HOTP counter as they were. */
  lemma DisableKeepsPendingCodes(m: MfaState)
    ensures Disable(m).smsCode == m.smsCode && Disable(m).smsExpiry == m.smsExpiry
    ensures Disable(m).emailCode == m.emailCode && Disable(m).emailExpiry == m.emailExpiry
    ensures Disable(m).hotpCounter == m.hotpCounter
  {
  }

  /** So an SMS or email code issued before DisableMFA still verifies after it, and turns MFA back on. */
  lemma PendingCodeReenables(m: MfaState, now: Instant, code: string)
    requires CheckCode(m.smsCode, m.smsExpiry, now, code) == Matched
    ensures CheckCode(Disable(m).smsCode, Disable(m).smsExpiry, now, code) == Matched
    ensures ConsumeSms(Disable(m)).enabled
  {
    DisableKeepsPendingCodes(m);
  }
}
