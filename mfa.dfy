/** MFAService of multi_factor_authentication.go: each operation assigns MFA fields of a `*models.User`
    in place and saves the user. The random source, the clock, delivery of SMS and email, base32 and the
    one-time-password libraries are inputs: random bytes and outcomes are parameters, the libraries are
    function-valued fields of the service. */
module Mfa {
  import opened Common
  import opened Models
  import opened Repositories

  // ---------------------------------------------------------------------------------------------
  // Random codes

  /** The `charset` of `generateRandomCode`. */
  const Charset: string := "ABCDEFGHIJKLMNOPQRSTUVWXYZ0123456789"

  predicate IsCodeChar(c: char)
  {
    'A' <= c <= 'Z' || '0' <= c <= '9'
  }

  /** `charset[int(b) % len(charset)]` as a byte: residues 0 to 25 are the letters, 26 to 35 the digits. */
  function CodeByte(b: byte): (c: byte)
    ensures c as char == Charset[b % 36]
  {
    var k := b % 36;
    if k < 26 then 65 + k else 48 + (k - 26)
  }

  /** The buffer `generateRandomCode` ends with, given the random bytes it read. */
  function CodeOf(random: seq<byte>): (code: seq<byte>)
  {
    seq(|random|, i requires 0 <= i < |random| => CodeByte(random[i]))
  }

  /** `string(buf)` of a byte buffer: one character per byte. */
  function AsString(buf: seq<byte>): (s: string)
  {
    seq(|buf|, i requires 0 <= i < |buf| => buf[i] as char)
  }

  /** `[]byte(s)` of a string of single-byte characters, such as base32 text. */
  function AsBytes(s: string): (buf: seq<byte>)
    ensures |buf| == |s|
  {
    seq(|s|, i requires 0 <= i < |s| => (s[i] as int) % 256)
  }

  /** `generateRandomCode(length)`: `random` is what `rand.Read` filled the buffer with, or None when it
      failed; each byte is then overwritten in place by its charset character. */
  method GenerateRandomCode(length: nat, random: Option<seq<byte>>) returns (r: Result<string>)
    requires random.Some? ==> |random.value| == length
    ensures random.None? ==> r == Err(RandomnessFailure)
    ensures random.Some? ==> r == Ok(AsString(CodeOf(random.value)))
  {
    if random.None? {
      return Err(RandomnessFailure);
    }
    var bytes := random.value;
    var code := new byte[length];
    forall i | 0 <= i < length {
      code[i] := bytes[i];
    }
    for i := 0 to length
      invariant forall j :: 0 <= j < i ==> code[j] == CodeByte(bytes[j])
      invariant forall j :: i <= j < length ==> code[j] == bytes[j]
    {
      code[i] := CodeByte(code[i]);
    }
    assert code[..] == CodeOf(bytes);
    r := Ok(AsString(code[..]));
  }

  /** Every code has one character per random byte, each from the charset. */
  lemma CodeShape(random: seq<byte>)
    ensures |AsString(CodeOf(random))| == |random|
    ensures forall i :: 0 <= i < |random| ==> AsString(CodeOf(random))[i] == Charset[random[i] % 36]
    ensures forall c :: c in AsString(CodeOf(random)) ==> IsCodeChar(c)
  {
    var s := AsString(CodeOf(random));
    forall c | c in s ensures IsCodeChar(c) {
      var i :| 0 <= i < |s| && s[i] == c;
      var k := random[i] % 36;
      assert c == CodeByte(random[i]) as char;
    }
  }

  /** Different residues give different characters: the mapping loses only the quotient by 36. */
  lemma CodeByteInjectiveModulo(a: byte, b: byte)
    ensures CodeByte(a) == CodeByte(b) <==> a % 36 == b % 36
  {
  }

  // ---------------------------------------------------------------------------------------------
  // The MFA fields, operation by operation

  /** `GenerateTOTPSecret` after the draw: a new secret, not yet enabled, method TOTP. */
  function EnrolTotp(m: MfaState, secret: string): (r: MfaState)
    ensures r.secret == secret && !r.enabled && r.kind == Totp
    ensures r.(secret := m.secret, enabled := m.enabled, kind := m.kind) == m
  {
    m.(secret := secret, enabled := false, kind := Totp)
  }

  /** `GenerateHOTP` after the draw: as for TOTP, with method HOTP and the counter restarted. */
  function EnrolHotp(m: MfaState, secret: string): (r: MfaState)
    ensures r.secret == secret && !r.enabled && r.kind == Hotp && r.hotpCounter == 0
    ensures r.(secret := m.secret, enabled := m.enabled, kind := m.kind, hotpCounter := m.hotpCounter) == m
  {
    m.(secret := secret, enabled := false, kind := Hotp, hotpCounter := 0)
  }

  /** Go's `counter++` on a uint64. */
  function NextCounter(c: uint64): (r: uint64)
    ensures r == (c + 1) % 0x1_0000_0000_0000_0000
  {
    if c == 0xFFFF_FFFF_FFFF_FFFF then 0 else c + 1
  }

  /** An accepted HOTP code enables MFA and moves the counter on. */
  function AcceptHotp(m: MfaState): (r: MfaState)
    ensures r.enabled && r.hotpCounter == NextCounter(m.hotpCounter)
    ensures r.(enabled := m.enabled, hotpCounter := m.hotpCounter) == m
  {
    m.(enabled := true, hotpCounter := NextCounter(m.hotpCounter))
  }

  /** Five minutes for SMS codes, fifteen for email codes. */
  const SmsCodeLifetime: int := 5 * Minute
  const EmailCodeLifetime: int := 15 * Minute

  /** `GenerateSMSCode` after the draw. */
  function IssueSms(m: MfaState, code: string, now: Instant): (r: MfaState)
    ensures r.smsCode == code && r.smsExpiry == now + 5 * 60 && r.kind == Sms
    ensures r.(smsCode := m.smsCode, smsExpiry := m.smsExpiry, kind := m.kind) == m
  {
    m.(smsCode := code, smsExpiry := now + SmsCodeLifetime, kind := Sms)
  }

  /** `GenerateEmailCode` after the draw. */
  function IssueEmail(m: MfaState, code: string, now: Instant): (r: MfaState)
    ensures r.emailCode == code && r.emailExpiry == now + 15 * 60 && r.kind == Email
    ensures r.(emailCode := m.emailCode, emailExpiry := m.emailExpiry, kind := m.kind) == m
  {
    m.(emailCode := code, emailExpiry := now + EmailCodeLifetime, kind := Email)
  }

  /** How a one-time code is judged against the stored code and its expiry. */
  datatype CodeCheck = ExpiredOrNotSet | Matched | Mismatched

  /** The shared test of VerifySMSCode and VerifyEmailCode: no code, or `now` after the expiry, is an
      error; otherwise the code matches exactly or not at all. */
  function CheckCode(stored: string, expiry: Instant, now: Instant, code: string): (c: CodeCheck)
  {
    if stored == "" || now > expiry then ExpiredOrNotSet
    else if stored == code then Matched
    else Mismatched
  }

  /** A matched SMS code enables MFA and is cleared, with the zero time as its expiry. */
  function ConsumeSms(m: MfaState): (r: MfaState)
    ensures r.enabled && r.smsCode == "" && r.smsExpiry == ZeroTime
    ensures r.(enabled := m.enabled, smsCode := m.smsCode, smsExpiry := m.smsExpiry) == m
  {
    m.(enabled := true, smsCode := "", smsExpiry := ZeroTime)
  }

  function ConsumeEmail(m: MfaState): (r: MfaState)
    ensures r.enabled && r.emailCode == "" && r.emailExpiry == ZeroTime
    ensures r.(enabled := m.enabled, emailCode := m.emailCode, emailExpiry := m.emailExpiry) == m
  {
    m.(enabled := true, emailCode := "", emailExpiry := ZeroTime)
  }

  /** The backup codes after `code` is used: the first equal entry is spliced out. */
  function RemoveFirst(codes: seq<string>, code: string): (r: seq<string>)
    ensures code !in codes ==> r == codes
    ensures code in codes ==> |r| == |codes| - 1 && multiset(r) == multiset(codes) - multiset{code}
  {
    if codes == [] then []
    else
      assert codes == [codes[0]] + codes[1..];
      if codes[0] == code then codes[1..] else [codes[0]] + RemoveFirst(codes[1..], code)
  }

  /** Ten backup codes of eight characters. */
  const BackupCodeCount: nat := 10
  const BackupCodeLength: nat := 8
  /** SMS and email codes have six characters. */
  const OneTimeCodeLength: nat := 6

  predicate AllDrawn(draws: seq<Option<seq<byte>>>)
  {
    forall i :: 0 <= i < |draws| ==> draws[i].Some?
  }

  /** The backup codes GenerateBackupCodes makes when every draw succeeded. */
  function BackupCodesOf(draws: seq<Option<seq<byte>>>): (codes: seq<string>)
    requires AllDrawn(draws)
    ensures |codes| == |draws|
  {
    seq(|draws|, i requires 0 <= i < |draws| && AllDrawn(draws) => AsString(CodeOf(draws[i].value)))
  }

  // ---------------------------------------------------------------------------------------------
  // The libraries

  /** `base32.StdEncoding.EncodeToString`. */
  type Base32Encoder = seq<byte> -> string
  /** `base32.StdEncoding.DecodeString`. */
  type Base32Decoder = string -> Result<seq<byte>>
  /** `totp.Validate(token, secret)` at instant `now`. */
  type TotpValidator = (string, string, Instant) -> bool
  /** `hotp.ValidateCustom(token, counter, secret, opts)` with six SHA-1 digits. */
  type HotpValidator = (string, uint64, string) -> Result<bool>
  /** `totp.Generate` for issuer, account and raw key bytes, then `key.URL()`. */
  type KeyUri = (string, string, seq<byte>) -> Result<string>

  /** The codec's contract: padded base32 (RFC 4648 section 6) is eight characters per started group of
      five bytes, and decoding inverts encoding. */
  ghost predicate Base32Laws(encode: Base32Encoder, decode: Base32Decoder)
  {
    forall b {:trigger encode(b)} :: |encode(b)| == (|b| + 4) / 5 * 8 && decode(encode(b)) == Ok(b)
  }

  /** The string `string(secretBytes)` VerifyHOTP hands to the HOTP library: one character per byte. */
  function RawString(bs: seq<byte>): string
  {
    seq(|bs|, i requires 0 <= i < |bs| => bs[i] as char)
  }

  class MfaService {
    const users: UserStore
    const encode: Base32Encoder
    const decode: Base32Decoder
    const totpValid: TotpValidator
    const hotpValid: HotpValidator
    const keyUri: KeyUri

    constructor (users: UserStore, encode: Base32Encoder, decode: Base32Decoder, totpValid: TotpValidator,
                 hotpValid: HotpValidator, keyUri: KeyUri)
      ensures this.users == users && this.encode == encode && this.decode == decode
      ensures this.totpValid == totpValid && this.hotpValid == hotpValid && this.keyUri == keyUri
    {
      this.users, this.encode, this.decode := users, encode, decode;
      this.totpValid, this.hotpValid, this.keyUri := totpValid, hotpValid, keyUri;
    }

    /** `GenerateTOTPSecret`: 32 random bytes (None: the read failed), stored as base32 text. */
    method GenerateTotpSecret(user: User, random: Option<seq<byte>>, storeOk: bool) returns (secret: string, err: Option<Error>)
      requires users.Valid() && (random.Some? ==> |random.value| == 32)
      modifies user, users
      ensures users.Valid()
      ensures random.None? ==>
        secret == "" && err == Some(RandomnessFailure) && user.Row() == old(user.Row()) && users.rows == old(users.rows)
      ensures random.Some? ==>
        user.Row() == old(user.Row()).(mfa := EnrolTotp(old(user.mfa), encode(random.value))) &&
        var w := UpdateOutcome(old(users.rows), user.Row(), users.secretWidth, storeOk);
        users.rows == w.rows &&
        (if w.error.Some? then secret == "" && err == w.error else secret == encode(random.value) && err == None)
    {
      if random.None? {
        return "", Some(RandomnessFailure);
      }
      var text := encode(random.value);
      user.mfa := user.mfa.(secret := text, enabled := false, kind := Totp);
      err := users.Update(user.Row(), storeOk);
      secret := if err.Some? then "" else text;
    }

    /** `GenerateTOTPQRCode` AS WRITTEN: the key handed to totp.Generate is `[]byte(MFASecret)`, the
        bytes of the base32 text, not the key the text encodes. */
    function GenerateTotpQrCodeAsWritten(user: User): (r: Result<string>)
      reads user
      ensures user.mfa.secret == "" ==> r == Err(MfaSecretNotSet)
    {
      if user.mfa.secret == "" then Err(MfaSecretNotSet)
      else keyUri("AdminSuite", user.email, AsBytes(user.mfa.secret))
    }

    /** `GenerateTOTPQRCode` as evidently intended: the authenticator gets the key the secret encodes,
        the key totp.Validate decodes from the same text. The handler uses the version as written. */
    function GenerateTotpQrCode(user: User): (r: Result<string>)
      reads user
      ensures user.mfa.secret == "" ==> r == Err(MfaSecretNotSet)
    {
      if user.mfa.secret == "" then Err(MfaSecretNotSet)
      else
        match decode(user.mfa.secret)
        case Err(_) => Err(QrCodeFailure)
        case Ok(key) => keyUri("AdminSuite", user.email, key)
    }

    /** `VerifyTOTP(user, token)` at instant `now`. */
    method VerifyTotp(user: User, token: string, now: Instant, storeOk: bool) returns (valid: bool, err: Option<Error>)
      requires users.Valid()
      modifies user, users
      ensures users.Valid()
      ensures old(user.mfa.secret) == "" ==>
        !valid && err == Some(MfaNotSetUp) && user.Row() == old(user.Row()) && users.rows == old(users.rows)
      ensures old(user.mfa.secret) != "" ==> valid == totpValid(token, old(user.mfa.secret), now)
      ensures old(user.mfa.secret) != "" && !valid ==>
        err == None && user.Row() == old(user.Row()) && users.rows == old(users.rows)
      ensures old(user.mfa.secret) != "" && valid ==>
        user.Row() == old(user.Row()).(mfa := old(user.mfa).(enabled := true)) &&
        var w := UpdateOutcome(old(users.rows), user.Row(), users.secretWidth, storeOk);
        users.rows == w.rows && err == (if w.error.Some? then Some(MfaStatusNotSaved) else None)
    {
      if user.mfa.secret == "" {
        return false, Some(MfaNotSetUp);
      }
      valid := totpValid(token, user.mfa.secret, now);
      err := None;
      if valid {
        user.mfa := user.mfa.(enabled := true);
        var e := users.Update(user.Row(), storeOk);
        if e.Some? {
          err := Some(MfaStatusNotSaved);
        }
      }
    }

    /** `GenerateBackupCodes`: ten codes of eight characters from ten draws; a failed draw returns before
        any field is touched. The whole list is replaced. */
    method GenerateBackupCodes(user: User, draws: seq<Option<seq<byte>>>, storeOk: bool)
      returns (codes: seq<string>, err: Option<Error>)
      requires users.Valid()
      requires |draws| == 10 && forall i :: 0 <= i < 10 && draws[i].Some? ==> |draws[i].value| == 8
      modifies user, users
      ensures users.Valid()
      ensures !AllDrawn(draws) ==>
        codes == [] && err == Some(RandomnessFailure) && user.Row() == old(user.Row()) && users.rows == old(users.rows)
      ensures AllDrawn(draws) ==>
        user.Row() == old(user.Row()).(mfa := old(user.mfa).(backupCodes := BackupCodesOf(draws))) &&
        var w := UpdateOutcome(old(users.rows), user.Row(), users.secretWidth, storeOk);
        users.rows == w.rows &&
        (if w.error.Some? then codes == [] && err == w.error else codes == BackupCodesOf(draws) && err == None)
    {
      var made := new string[10];
      for i := 0 to 10
        modifies made
        invariant forall j :: 0 <= j < i ==> draws[j].Some? && made[j] == AsString(CodeOf(draws[j].value))
      {
        var code := GenerateRandomCode(8, draws[i]);
        if code.Err? {
          return [], Some(RandomnessFailure);
        }
        made[i] := code.value;
      }
      assert made[..] == BackupCodesOf(draws);
      user.mfa := user.mfa.(backupCodes := made[..]);
      err := users.Update(user.Row(), storeOk);
      codes := if err.Some? then [] else made[..];
    }

    /** `VerifyBackupCode`: the first stored code equal to `code` is removed; MFAEnabled is not touched.
        A failed save still reports the code as valid, with an error. */
    method VerifyBackupCode(user: User, code: string, storeOk: bool) returns (valid: bool, err: Option<Error>)
      requires users.Valid()
      modifies user, users
      ensures users.Valid()
      ensures valid <==> code in old(user.mfa.backupCodes)
      ensures !valid ==> err == None && user.Row() == old(user.Row()) && users.rows == old(users.rows)
      ensures valid ==>
        user.Row() == old(user.Row()).(mfa := old(user.mfa).(backupCodes := RemoveFirst(old(user.mfa.backupCodes), code))) &&
        var w := UpdateOutcome(old(users.rows), user.Row(), users.secretWidth, storeOk);
        users.rows == w.rows && err == (if w.error.Some? then Some(BackupCodesNotSaved) else None)
    {
      var codes := user.mfa.backupCodes;
      for i := 0 to |codes|
        invariant forall j :: 0 <= j < i ==> codes[j] != code
      {
        if codes[i] == code {
          RemoveFirstAt(codes, code, i);
          user.mfa := user.mfa.(backupCodes := codes[..i] + codes[i + 1..]);
          var e := users.Update(user.Row(), storeOk);
          return true, if e.Some? then Some(BackupCodesNotSaved) else None;
        }
      }
      return false, None;
    }

    /** `GenerateSMSCode` at instant `now`: a six-byte draw, the new code saved, then sent. The user is
        saved before delivery, so a failed delivery (`delivered` false) leaves the new code stored. */
    method GenerateSmsCode(user: User, random: Option<seq<byte>>, now: Instant, storeOk: bool, delivered: bool)
      returns (code: string, err: Option<Error>)
      requires users.Valid() && (random.Some? ==> |random.value| == 6)
      modifies user, users
      ensures users.Valid()
      ensures random.None? ==>
        code == "" && err == Some(RandomnessFailure) && user.Row() == old(user.Row()) && users.rows == old(users.rows)
      ensures random.Some? ==>
        var c := AsString(CodeOf(random.value));
        user.Row() == old(user.Row()).(mfa := IssueSms(old(user.mfa), c, now)) &&
        var w := UpdateOutcome(old(users.rows), user.Row(), users.secretWidth, storeOk);
        users.rows == w.rows &&
        (if w.error.Some? then code == "" && err == w.error
         else if !delivered then code == "" && err == Some(DispatchFailure)
         else code == c && err == None)
    {
      var r := GenerateRandomCode(6, random);
      if r.Err? {
        return "", Some(r.error);
      }
      user.mfa := user.mfa.(smsCode := r.value, smsExpiry := now + SmsCodeLifetime, kind := Sms);
      err := users.Update(user.Row(), storeOk);
      if err.Some? {
        return "", err;
      }
      if !delivered {
        return "", Some(DispatchFailure);
      }
      code := r.value;
    }

    /** `VerifySMSCode` at instant `now`. */
    method VerifySmsCode(user: User, code: string, now: Instant, storeOk: bool) returns (valid: bool, err: Option<Error>)
      requires users.Valid()
      modifies user, users
      ensures users.Valid()
      ensures match CheckCode(old(user.mfa.smsCode), old(user.mfa.smsExpiry), now, code)
        case ExpiredOrNotSet =>
          !valid && err == Some(SmsCodeExpiredOrNotSet) && user.Row() == old(user.Row()) && users.rows == old(users.rows)
        case Mismatched =>
          !valid && err == None && user.Row() == old(user.Row()) && users.rows == old(users.rows)
        case Matched =>
          valid && user.Row() == old(user.Row()).(mfa := ConsumeSms(old(user.mfa))) &&
          var w := UpdateOutcome(old(users.rows), user.Row(), users.secretWidth, storeOk);
          users.rows == w.rows && err == (if w.error.Some? then Some(MfaStatusNotSaved) else None)
    {
      if user.mfa.smsCode == "" || now > user.mfa.smsExpiry {
        return false, Some(SmsCodeExpiredOrNotSet);
      }
      if user.mfa.smsCode == code {
        user.mfa := user.mfa.(enabled := true, smsCode := "", smsExpiry := ZeroTime);
        var e := users.Update(user.Row(), storeOk);
        return true, if e.Some? then Some(MfaStatusNotSaved) else None;
      }
      return false, None;
    }

    /** `GenerateEmailCode` at instant `now`: as for SMS, valid fifteen minutes and sent by email. */
    method GenerateEmailCode(user: User, random: Option<seq<byte>>, now: Instant, storeOk: bool, delivered: bool)
      returns (code: string, err: Option<Error>)
      requires users.Valid() && (random.Some? ==> |random.value| == 6)
      modifies user, users
      ensures users.Valid()
      ensures random.None? ==>
        code == "" && err == Some(RandomnessFailure) && user.Row() == old(user.Row()) && users.rows == old(users.rows)
      ensures random.Some? ==>
        var c := AsString(CodeOf(random.value));
        user.Row() == old(user.Row()).(mfa := IssueEmail(old(user.mfa), c, now)) &&
        var w := UpdateOutcome(old(users.rows), user.Row(), users.secretWidth, storeOk);
        users.rows == w.rows &&
        (if w.error.Some? then code == "" && err == w.error
         else if !delivered then code == "" && err == Some(DispatchFailure)
         else code == c && err == None)
    {
      var r := GenerateRandomCode(6, random);
      if r.Err? {
        return "", Some(r.error);
      }
      user.mfa := user.mfa.(emailCode := r.value, emailExpiry := now + EmailCodeLifetime, kind := Email);
      err := users.Update(user.Row(), storeOk);
      if err.Some? {
        return "", err;
      }
      if !delivered {
        return "", Some(DispatchFailure);
      }
      code := r.value;
    }

    /** `VerifyEmailCode` at instant `now`. */
    method VerifyEmailCode(user: User, code: string, now: Instant, storeOk: bool) returns (valid: bool, err: Option<Error>)
      requires users.Valid()
      modifies user, users
      ensures users.Valid()
      ensures match CheckCode(old(user.mfa.emailCode), old(user.mfa.emailExpiry), now, code)
        case ExpiredOrNotSet =>
          !valid && err == Some(EmailCodeExpiredOrNotSet) && user.Row() == old(user.Row()) && users.rows == old(users.rows)
        case Mismatched =>
          !valid && err == None && user.Row() == old(user.Row()) && users.rows == old(users.rows)
        case Matched =>
          valid && user.Row() == old(user.Row()).(mfa := ConsumeEmail(old(user.mfa))) &&
          var w := UpdateOutcome(old(users.rows), user.Row(), users.secretWidth, storeOk);
          users.rows == w.rows && err == (if w.error.Some? then Some(MfaStatusNotSaved) else None)
    {
      if user.mfa.emailCode == "" || now > user.mfa.emailExpiry {
        return false, Some(EmailCodeExpiredOrNotSet);
      }
      if user.mfa.emailCode == code {
        user.mfa := user.mfa.(enabled := true, emailCode := "", emailExpiry := ZeroTime);
        var e := users.Update(user.Row(), storeOk);
        return true, if e.Some? then Some(MfaStatusNotSaved) else None;
      }
      return false, None;
    }

    /** `GenerateHOTP`: 32 random bytes as base32 text, the counter restarted at 0. */
    method GenerateHotp(user: User, random: Option<seq<byte>>, storeOk: bool) returns (secret: string, err: Option<Error>)
      requires users.Valid() && (random.Some? ==> |random.value| == 32)
      modifies user, users
      ensures users.Valid()
      ensures random.None? ==>
        secret == "" && err == Some(RandomnessFailure) && user.Row() == old(user.Row()) && users.rows == old(users.rows)
      ensures random.Some? ==>
        user.Row() == old(user.Row()).(mfa := EnrolHotp(old(user.mfa), encode(random.value))) &&
        var w := UpdateOutcome(old(users.rows), user.Row(), users.secretWidth, storeOk);
        users.rows == w.rows &&
        (if w.error.Some? then secret == "" && err == w.error else secret == encode(random.value) && err == None)
    {
      if random.None? {
        return "", Some(RandomnessFailure);
      }
      var text := encode(random.value);
      ghost var before := user.Row();
      user.mfa := user.mfa.(secret := text, enabled := false, kind := Hotp, hotpCounter := 0);
      ghost var row := user.Row();
      assert row == before.(mfa := EnrolHotp(before.mfa, text));
      err := users.Update(user.Row(), storeOk);
      assert user.Row() == row;
      secret := if err.Some? then "" else text;
    }

    /** `VerifyHOTP`: the secret is base32-decoded and the decoded bytes, as a string, go to the HOTP
        check with the stored counter. */
    method VerifyHotp(user: User, token: string, storeOk: bool) returns (valid: bool, err: Option<Error>)
      requires users.Valid()
      modifies user, users
      ensures users.Valid()
      ensures err == Some(HotpNotSetUp) <==> old(user.mfa.secret) == ""
      ensures var check := if old(user.mfa.secret) == "" || decode(old(user.mfa.secret)).Err? then Err(HotpNotSetUp)
          else hotpValid(token, old(user.mfa.hotpCounter), RawString(decode(old(user.mfa.secret)).value));
        if check.Err? || !check.value then
          !valid && user.Row() == old(user.Row()) && users.rows == old(users.rows) &&
          (old(user.mfa.secret) != "" ==>
            err == (if decode(old(user.mfa.secret)).Err? then Some(HotpSecretUndecodable)
                    else if check.Err? then Some(HotpValidationFailure) else None))
        else
          valid && user.Row() == old(user.Row()).(mfa := AcceptHotp(old(user.mfa))) &&
          var w := UpdateOutcome(old(users.rows), user.Row(), users.secretWidth, storeOk);
          users.rows == w.rows && err == (if w.error.Some? then Some(MfaStatusNotSaved) else None)
    {
      if user.mfa.secret == "" {
        return false, Some(HotpNotSetUp);
      }
      var secretBytes := decode(user.mfa.secret);
      if secretBytes.Err? {
        return false, Some(HotpSecretUndecodable);
      }
      var check := hotpValid(token, user.mfa.hotpCounter, RawString(secretBytes.value));
      if check.Err? {
        return false, Some(HotpValidationFailure);
      }
      valid, err := check.value, None;
      if valid {
        user.mfa := user.mfa.(enabled := true, hotpCounter := NextCounter(user.mfa.hotpCounter));
        var e := users.Update(user.Row(), storeOk);
        if e.Some? {
          err := Some(MfaStatusNotSaved);
        }
      }
    }
  }

  // ---------------------------------------------------------------------------------------------
  // Lemmas

  /** When the first equal entry is at index i, RemoveFirst is the splice at i. */
  lemma {:induction false} RemoveFirstAt(codes: seq<string>, code: string, i: nat)
    requires i < |codes| && codes[i] == code && forall j :: 0 <= j < i ==> codes[j] != code
    ensures RemoveFirst(codes, code) == codes[..i] + codes[i + 1..]
  {
    if i > 0 {
      var tail := codes[1..];
      forall j | 0 <= j < i - 1 ensures tail[j] != code {
        assert tail[j] == codes[j + 1];
      }
      RemoveFirstAt(tail, code, i - 1);
      SpliceStep(codes, i, RemoveFirst(tail, code));
    }
  }

  /** The splice at i is the head in front of the splice of the tail at i - 1. */
  lemma SpliceStep(codes: seq<string>, i: nat, rest: seq<string>)
    requires 0 < i < |codes| && rest == codes[1..][..i - 1] + codes[1..][i..]
    ensures [codes[0]] + rest == codes[..i] + codes[i + 1..]
  {
    assert codes[1..][..i - 1] == codes[1..i];
    assert codes[1..][i..] == codes[i + 1..];
    assert [codes[0]] + codes[1..i] == codes[..i];
  }

  /** Using a backup code removes exactly one entry; the others keep their order. A code held once is
      gone afterwards, so each backup code works once. */
  lemma BackupCodeSingleUse(codes: seq<string>, code: string, i: nat)
    requires i < |codes| && codes[i] == code && forall j :: 0 <= j < |codes| && j != i ==> codes[j] != code
    ensures RemoveFirst(codes, code) == codes[..i] + codes[i + 1..]
    ensures code !in RemoveFirst(codes, code)
  {
    RemoveFirstAt(codes, code, i);
    var r := codes[..i] + codes[i + 1..];
    forall k | 0 <= k < |r| ensures r[k] != code {
      if k < i { assert r[k] == codes[k]; } else { assert r[k] == codes[k + 1]; }
    }
  }

  /** An issued SMS code verifies up to five minutes after issue and is refused afterwards; any other
      code is a mismatch, which changes nothing, so the issued code stays usable. */
  lemma SmsCodeWindow(m: MfaState, random: seq<byte>, issued: Instant, now: Instant, other: string)
    requires |random| == 6
    ensures var s := IssueSms(m, AsString(CodeOf(random)), issued);
      var c := AsString(CodeOf(random));
      (now <= issued + 5 * 60 ==> CheckCode(s.smsCode, s.smsExpiry, now, c) == Matched) &&
      (now > issued + 5 * 60 ==> CheckCode(s.smsCode, s.smsExpiry, now, c) == ExpiredOrNotSet) &&
      (now <= issued + 5 * 60 && other != c ==> CheckCode(s.smsCode, s.smsExpiry, now, other) == Mismatched)
  {
    assert |AsString(CodeOf(random))| == 6;
  }

  /** The email code has the same life, fifteen minutes long. */
  lemma EmailCodeWindow(m: MfaState, random: seq<byte>, issued: Instant, now: Instant, other: string)
    requires |random| == 6
    ensures var s := IssueEmail(m, AsString(CodeOf(random)), issued);
      var c := AsString(CodeOf(random));
      (now <= issued + 15 * 60 ==> CheckCode(s.emailCode, s.emailExpiry, now, c) == Matched) &&
      (now > issued + 15 * 60 ==> CheckCode(s.emailCode, s.emailExpiry, now, c) == ExpiredOrNotSet) &&
      (now <= issued + 15 * 60 && other != c ==> CheckCode(s.emailCode, s.emailExpiry, now, other) == Mismatched)
  {
    assert |AsString(CodeOf(random))| == 6;
  }

  /** A consumed code is gone: every later check, of any code at any instant, is refused. */
  lemma ConsumedCodesAreRefused(m: MfaState, now: Instant, code: string)
    ensures CheckCode(ConsumeSms(m).smsCode, ConsumeSms(m).smsExpiry, now, code) == ExpiredOrNotSet
    ensures CheckCode(ConsumeEmail(m).emailCode, ConsumeEmail(m).emailExpiry, now, code) == ExpiredOrNotSet
  {
  }

  /** The HOTP counter moves on by exactly one, wrapping from the largest uint64 to 0. */
  lemma CounterSteps(c: uint64)
    ensures c < 0xFFFF_FFFF_FFFF_FFFF ==> NextCounter(c) == c + 1
    ensures c == 0xFFFF_FFFF_FFFF_FFFF ==> NextCounter(c) == 0
  {
  }

  /** Backup codes: ten, of eight characters each, every character from the charset. */
  lemma BackupCodesShape(draws: seq<Option<seq<byte>>>)
    requires |draws| == 10 && AllDrawn(draws) && forall i :: 0 <= i < 10 ==> |draws[i].value| == 8
    ensures |BackupCodesOf(draws)| == 10
    ensures forall i :: 0 <= i < 10 ==> |BackupCodesOf(draws)[i]| == 8
    ensures forall i, c :: 0 <= i < 10 && c in BackupCodesOf(draws)[i] ==> IsCodeChar(c)
  {
    forall i | 0 <= i < 10 ensures |BackupCodesOf(draws)[i]| == 8 &&
      forall c :: c in BackupCodesOf(draws)[i] ==> IsCodeChar(c)
    {
      CodeShape(draws[i].value);
    }
  }

  /** The base32 text of a 32-byte secret has 56 characters. */
  lemma SecretTextLength(encode: Base32Encoder, decode: Base32Decoder, random: seq<byte>)
    requires Base32Laws(encode, decode) && |random| == 32
    ensures |encode(random)| == 56
  {
  }

  /** AS WRITTEN, with the `size:32` column: no enrolment can be saved, because the 56-character secret
      does not fit. GenerateTOTPSecret and GenerateHOTP then always fail. */
  lemma EnrolmentRefusedAsWritten(rows: seq<UserRow>, row: UserRow, encode: Base32Encoder, decode: Base32Decoder, random: seq<byte>)
    requires Base32Laws(encode, decode) && |random| == 32
    ensures Save(rows, row.(mfa := EnrolTotp(row.mfa, encode(random))), MfaSecretWidthAsWritten) == Err(ValueTooLong)
    ensures Save(rows, row.(mfa := EnrolHotp(row.mfa, encode(random))), MfaSecretWidthAsWritten) == Err(ValueTooLong)
  {
    SecretTextLength(encode, decode, random);
  }

  /** With a column wide enough for the text, enrolling a stored user saves, in that user's place. */
  lemma EnrolmentSaved(rows: seq<UserRow>, i: nat, encode: Base32Encoder, decode: Base32Decoder, random: seq<byte>)
    requires ValidRows(rows, MfaSecretWidth) && i < |rows|
    requires Base32Laws(encode, decode) && |random| == 32
    ensures var row := rows[i].(mfa := EnrolTotp(rows[i].mfa, encode(random)));
      Save(rows, row, MfaSecretWidth) == Ok(rows[i := row])
    ensures var row := rows[i].(mfa := EnrolHotp(rows[i].mfa, encode(random)));
      Save(rows, row, MfaSecretWidth) == Ok(rows[i := row])
  {
    SecretTextLength(encode, decode, random);
    assert rows[i] in rows;
    OnlyMfaChanged(rows, i, EnrolTotp(rows[i].mfa, encode(random)));
    OnlyMfaChanged(rows, i, EnrolHotp(rows[i].mfa, encode(random)));
  }

  /** Changing only the MFA fields of a stored row clashes with no other row and keeps its place. */
  lemma OnlyMfaChanged(rows: seq<UserRow>, i: nat, m: MfaState)
    requires UniqueUsers(rows) && i < |rows|
    ensures Locate(rows, ById(rows[i].id)) == i
    ensures !TakenByOther(rows, rows[i].(mfa := m))
  {
    forall j | 0 <= j < |rows| && j != i
      ensures rows[j].id != rows[i].id && rows[j].email != rows[i].email && rows[j].username != rows[i].username
    {
      assert j < i || i < j;
    }
  }

  /** AS WRITTEN, the QR code carries the 56 bytes of the secret's text, while totp.Validate decodes the
      same text to the 32-byte key: the authenticator and the server hold different keys. */
  lemma QrKeyAsWrittenDiffers(s: MfaService, user: User, random: seq<byte>)
    requires Base32Laws(s.encode, s.decode) && |random| == 32
    requires user.mfa.secret == s.encode(random)
    ensures s.GenerateTotpQrCodeAsWritten(user) == s.keyUri("AdminSuite", user.email, AsBytes(s.encode(random)))
    ensures |AsBytes(s.encode(random))| == 56 && AsBytes(s.encode(random)) != random
    ensures s.decode(user.mfa.secret) == Ok(random)
  {
    SecretTextLength(s.encode, s.decode, random);
  }

  /** As intended, the QR code carries the key the secret decodes to, the key validation uses. */
  lemma QrKeyDecoded(s: MfaService, user: User, random: seq<byte>)
    requires Base32Laws(s.encode, s.decode) && |random| == 32
    requires user.mfa.secret == s.encode(random)
    ensures s.GenerateTotpQrCode(user) == s.keyUri("AdminSuite", user.email, random)
  {
    SecretTextLength(s.encode, s.decode, random);
  }
}
