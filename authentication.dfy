/** AuthenticationService of authentication.go: registration and login over the password-hash codec,
    refresh-token rotation over the token table, and the PASETO claims of access and temporary tokens.
    PASETO v2 local encryption is foreign: `Sealer` and `Opener` stand for `Encrypt` and `Decrypt`. */
module Authentication {
  import opened Common
  import opened Models
  import Uuids
  import opened PasswordHash
  import opened TokenRepository
  import opened Repositories

  // ---------------------------------------------------------------------------------------------
  // Claims

  /** paseto.JSONToken, restricted to the claims the service sets. */
  datatype JsonToken = JsonToken(
    audience: string,
    issuer: string,
    jti: string,
    subject: string,
    issuedAt: Instant,
    expiration: Instant,
    notBefore: Instant)

  const Issuer: string := "adminsuite-auth"
  const AccessAudience: string := "adminsuite"
  const TempAudience: string := "adminsuite-mfa"
  const AccessLifetime: int := 15 * Minute
  const TempLifetime: int := 5 * Minute
  const RefreshLifetime: int := 7 * 24 * Hour

  /** `paseto.V2.Encrypt(key, claims, nil)`; its nonce is drawn inside the library. */
  type Sealer = (seq<byte>, JsonToken) -> Result<string>

  /** `paseto.V2.Decrypt(token, key, &claims, nil)`. */
  type Opener = (string, seq<byte>) -> Result<JsonToken>

  /** The library's contract: a token sealed under a key opens under that key to the claims sealed. */
  ghost predicate OpensSealed(seal: Sealer, open: Opener)
  {
    forall key, c {:trigger seal(key, c)} :: seal(key, c).Ok? ==> open(seal(key, c).value, key) == Ok(c)
  }

  /** The claims both builders share: issued, and valid from, `now`, for `lifetime`. */
  function Claims(audience: string, subject: Uuid, jti: Uuid, now: Instant, lifetime: int): JsonToken
  {
    JsonToken(audience, Issuer, Uuids.ToString(jti), Uuids.ToString(subject), now, now + lifetime, now)
  }

  /** The claims of `generateAccessToken`. */
  function AccessClaims(userId: Uuid, jti: Uuid, now: Instant): (c: JsonToken)
    ensures c.audience == "adminsuite" && c.issuer == "adminsuite-auth"
    ensures c.issuedAt == now && c.notBefore == now && c.expiration == now + 15 * 60
    ensures Uuids.Parse(c.subject) == Ok(userId) && Uuids.Parse(c.jti) == Ok(jti)
  {
    Uuids.ParseToString(userId);
    Uuids.ParseToString(jti);
    Claims(AccessAudience, userId, jti, now, AccessLifetime)
  }

  /** The claims of `GenerateTempToken`. */
  function TempClaims(userId: Uuid, jti: Uuid, now: Instant): (c: JsonToken)
    ensures c.audience == "adminsuite-mfa" && c.issuer == "adminsuite-auth"
    ensures c.issuedAt == now && c.notBefore == now && c.expiration == now + 5 * 60
    ensures Uuids.Parse(c.subject) == Ok(userId) && Uuids.Parse(c.jti) == Ok(jti)
  {
    Uuids.ParseToString(userId);
    Uuids.ParseToString(jti);
    Claims(TempAudience, userId, jti, now, TempLifetime)
  }

  /** What a request draws from the clock and from `uuid.New`: one `now` for the whole request, the
      access token's jti, the refresh token's value, and the id BeforeCreate gives the refresh row. */
  datatype Draws = Draws(now: Instant, accessJti: Uuid, refreshValue: Uuid, refreshRowId: Uuid)

  /** The zero uuid a fresh `models.Token` carries before BeforeCreate. */
  const NilUuid: Uuid := [0, 0, 0, 0, 0, 0, 0, 0, 0, 0, 0, 0, 0, 0, 0, 0]

  /** The row `generateRefreshToken` stores. */
  function RefreshRow(userId: Uuid, d: Draws): (t: Token)
    ensures t.id == d.refreshRowId && t.userId == userId && t.tokenType == Refresh
    ensures t.expiresAt == d.now + 7 * 24 * 60 * 60 && Uuids.Parse(t.token) == Ok(d.refreshValue)
  {
    Uuids.ParseToString(d.refreshValue);
    BeforeCreateToken(Token(NilUuid, userId, Uuids.ToString(d.refreshValue), Refresh, d.now + RefreshLifetime), d.refreshRowId)
  }

  // ---------------------------------------------------------------------------------------------
  // The login decision

  /** How the password check of AuthenticateUser ends, before any token is made. */
  datatype Gate = Rejected(error: Error) | NeedsMfa(user: UserRow) | Admitted(user: UserRow)

  /** AuthenticateUser up to the token calls: the email lookup, the password check with the given
      verifier and the MFA check. The service decides with `AsWritten`. */
  function Decide(found: Result<UserRow>, password: string, kdf: Kdf, codec: Codec): (g: Gate)
    ensures g.Rejected? ==> g.error == InvalidCredentials || g.error == ErrorVerifyingPassword
    ensures g.Rejected? && g.error == ErrorVerifyingPassword <==>
      found.Ok? && CheckPassword(codec, found.value.password, password, kdf).Err?
    ensures !g.Rejected? <==> found.Ok? && CheckPassword(codec, found.value.password, password, kdf) == Ok(true)
    ensures !g.Rejected? ==> found == Ok(g.user) && (g.NeedsMfa? <==> g.user.mfa.enabled)
  {
    match found
    case Err(_) => Rejected(InvalidCredentials)
    case Ok(u) =>
      match CheckPassword(codec, u.password, password, kdf)
      case Err(_) => Rejected(ErrorVerifyingPassword)
      case Ok(matched) =>
        if !matched then Rejected(InvalidCredentials)
        else if u.mfa.enabled then NeedsMfa(u)
        else Admitted(u)
  }

  class AuthenticationService {
    const users: UserStore
    const tokens: TokenStore
    const key: seq<byte>
    const seal: Sealer
    const open: Opener
    const kdf: Kdf

    ghost predicate Valid()
      reads users, tokens
    {
      users.Valid() && tokens.Valid()
    }

    constructor (users: UserStore, tokens: TokenStore, key: seq<byte>, seal: Sealer, open: Opener, kdf: Kdf)
      ensures this.users == users && this.tokens == tokens && this.key == key
      ensures this.seal == seal && this.open == open && this.kdf == kdf
    {
      this.users, this.tokens, this.key := users, tokens, key;
      this.seal, this.open, this.kdf := seal, open, kdf;
    }

    /** `generateAccessToken`. */
    function GenerateAccessToken(user: UserRow, d: Draws): Result<string>
    {
      seal(key, AccessClaims(user.id, d.accessJti, d.now))
    }

    /** `GenerateTempToken`; `jti` is its own `uuid.New` draw. */
    function GenerateTempToken(userId: Uuid, jti: Uuid, now: Instant): Result<string>
    {
      seal(key, TempClaims(userId, jti, now))
    }

    /** `ValidateToken`: decryption alone, with no check of time or audience. */
    function ValidateToken(token: string): Result<JsonToken>
    {
      open(token, key)
    }

    /** `GetUserByID`: parse the id, then look it up. */
    function GetUserByID(userId: string): (r: Result<UserRow>)
      reads users
      ensures Uuids.Parse(userId).Err? ==> r == Err(InvalidUuid)
      ensures r.Ok? ==> Uuids.Parse(userId) == Ok(r.value.id) && r.value in users.rows
      ensures Uuids.Parse(userId).Ok? && r.Err? ==> r == Err(RecordNotFound)
    {
      match Uuids.Parse(userId)
      case Err(e) => Err(e)
      case Ok(id) => users.FindByID(id)
    }

    /** `GetUserByTempToken` at instant `now`: rejects an undecryptable token and one whose expiry is
        before `now`, then looks up the subject. Neither audience nor not-before is looked at. */
    function GetUserByTempToken(tempToken: string, now: Instant): (r: Result<UserRow>)
      reads users
      ensures open(tempToken, key).Err? ==> r == Err(open(tempToken, key).error)
      ensures open(tempToken, key).Ok? ==>
        (r == Err(TemporaryTokenExpired) <==> now > open(tempToken, key).value.expiration)
      ensures r.Ok? ==>
        r.value in users.rows && open(tempToken, key).Ok? && Uuids.Parse(open(tempToken, key).value.subject) == Ok(r.value.id)
    {
      match open(tempToken, key)
      case Err(e) => Err(e)
      case Ok(c) =>
        if now > c.expiration then Err(TemporaryTokenExpired)
        else
          match Uuids.Parse(c.subject)
          case Err(e) => Err(e)
          case Ok(id) => users.FindByID(id)
    }

    /** `generateRefreshToken`: stores a refresh row valid for seven days and returns its value. */
    method GenerateRefreshToken(user: UserRow, d: Draws, healthy: bool) returns (r: Result<string>)
      requires tokens.Valid()
      modifies tokens
      ensures tokens.Valid()
      ensures var n := RefreshRow(user.id, d);
        if !healthy then r == Err(StoreFailure) && tokens.rows == old(tokens.rows)
        else if Clashes(old(tokens.rows), n) then r == Err(DuplicateKey) && tokens.rows == old(tokens.rows)
        else r == Ok(n.token) && tokens.rows == old(tokens.rows) + [n]
    {
      var value := Uuids.ToString(d.refreshValue);
      var t := Token(NilUuid, user.id, value, Refresh, d.now + RefreshLifetime);
      var created := tokens.Create(t, d.refreshRowId, healthy);
      match created
      case Err(e) => r := Err(e);
      case Ok(n) => r := Ok(n.token);
    }

    /** `GenerateTokens`: an access token, then a refresh token; an error leaves both strings empty. */
    method GenerateTokens(user: UserRow, d: Draws, healthy: bool) returns (access: string, refresh: string, err: Option<Error>)
      requires tokens.Valid()
      modifies tokens
      ensures tokens.Valid()
      ensures err.Some? ==> access == "" && refresh == ""
      ensures var n := RefreshRow(user.id, d);
        match GenerateAccessToken(user, d)
        case Err(e) => err == Some(e) && tokens.rows == old(tokens.rows)
        case Ok(a) =>
          if !healthy then err == Some(StoreFailure) && tokens.rows == old(tokens.rows)
          else if Clashes(old(tokens.rows), n) then err == Some(DuplicateKey) && tokens.rows == old(tokens.rows)
          else err == None && access == a && refresh == n.token && tokens.rows == old(tokens.rows) + [n]
    {
      access, refresh := "", "";
      match GenerateAccessToken(user, d)
      case Err(e) =>
        err := Some(e);
      case Ok(a) =>
        var r := GenerateRefreshToken(user, d, healthy);
        match r
        case Err(e) =>
          err := Some(e);
        case Ok(value) =>
          access, refresh, err := a, value, None;
    }

    /** `AuthenticateUser(email, password)`: the decision of Decide with the verifier as written, then
        tokens for an admitted user.
        Only an admitted user with both tokens made changes the token table. */
    method AuthenticateUser(email: string, password: string, d: Draws, healthy: bool)
      returns (user: Option<UserRow>, access: string, refresh: string, err: Option<Error>)
      requires Valid()
      modifies tokens
      ensures Valid()
      ensures err.Some? ==> access == "" && refresh == ""
      ensures err == None <==> user.Some? && tokens.rows != old(tokens.rows)
      ensures match Decide(users.FindByEmail(email), password, kdf, AsWritten)
        case Rejected(e) => user == None && err == Some(e) && tokens.rows == old(tokens.rows)
        case NeedsMfa(u) => user == Some(u) && err == Some(MfaRequired) && tokens.rows == old(tokens.rows)
        case Admitted(u) =>
          var n := RefreshRow(u.id, d);
          match GenerateAccessToken(u, d)
          case Err(e) => user == None && err == Some(e) && tokens.rows == old(tokens.rows)
          case Ok(a) =>
            if !healthy then user == None && err == Some(StoreFailure) && tokens.rows == old(tokens.rows)
            else if Clashes(old(tokens.rows), n) then user == None && err == Some(DuplicateKey) && tokens.rows == old(tokens.rows)
            else user == Some(u) && err == None && access == a && refresh == n.token && tokens.rows == old(tokens.rows) + [n]
    {
      user, access, refresh := None, "", "";
      match Decide(users.FindByEmail(email), password, kdf, AsWritten)
      case Rejected(e) =>
        err := Some(e);
      case NeedsMfa(u) =>
        user, err := Some(u), Some(MfaRequired);
      case Admitted(u) =>
        access, refresh, err := GenerateTokens(u, d, healthy);
        if err == None {
          user := Some(u);
        }
    }

    /** `RefreshToken(value)`: look the token up, refuse it when its expiry is before `now`, find its
        user, make new tokens, then delete the old row. The row's type is not checked. The new row is
        created before the old one is deleted, so a failed delete leaves both. */
    method RefreshToken(refreshToken: string, d: Draws, createOk: bool, deleteOk: bool)
      returns (access: string, refresh: string, err: Option<Error>)
      requires Valid()
      modifies tokens
      ensures Valid()
      ensures err.Some? ==> access == "" && refresh == ""
      ensures match old(tokens.FindByToken(refreshToken))
        case Err(_) => err == Some(InvalidRefreshToken) && tokens.rows == old(tokens.rows)
        case Ok(t) =>
          if t.expiresAt < d.now then err == Some(RefreshTokenExpired) && tokens.rows == old(tokens.rows)
          else match users.FindByID(t.userId)
            case Err(_) => err == Some(UserNotFound) && tokens.rows == old(tokens.rows)
            case Ok(u) =>
              var n := RefreshRow(u.id, d);
              match GenerateAccessToken(u, d)
              case Err(e) => err == Some(e) && tokens.rows == old(tokens.rows)
              case Ok(a) =>
                if !createOk then err == Some(StoreFailure) && tokens.rows == old(tokens.rows)
                else if Clashes(old(tokens.rows), n) then err == Some(DuplicateKey) && tokens.rows == old(tokens.rows)
                else if !deleteOk then err == Some(StoreFailure) && tokens.rows == old(tokens.rows) + [n]
                else (err == None && access == a && refresh == n.token &&
                      tokens.rows == Where(old(tokens.rows) + [n], IdIs(t.id), false))
      ensures err == None ==> tokens.FindByToken(refreshToken).Err? && tokens.FindByToken(refresh).Ok?
    {
      access, refresh := "", "";
      var found := tokens.FindByToken(refreshToken);
      if found.Err? {
        return "", "", Some(InvalidRefreshToken);
      }
      var t := found.value;
      if t.expiresAt < d.now {
        return "", "", Some(RefreshTokenExpired);
      }
      var owner := users.FindByID(t.userId);
      if owner.Err? {
        return "", "", Some(UserNotFound);
      }
      ghost var before := tokens.rows;
      var a, r, e := GenerateTokens(owner.value, d, createOk);
      if e.Some? {
        return "", "", e;
      }
      var n := RefreshRow(owner.value.id, d);
      e := tokens.Delete(t.id, deleteOk);
      if e.Some? {
        return "", "", e;
      }
      RotationSingleUse(before, t, n);
      FindUnique(tokens.rows, n);
      access, refresh, err := a, r, None;
    }

    /** `RegisterUser`: hash the password with a fresh salt (None: the random source failed), then
        create the user. */
    method RegisterUser(u: UserRow, salt: Option<seq<byte>>, freshId: Uuid, healthy: bool) returns (err: Option<Error>)
      requires Valid()
      requires salt.Some? ==> |salt.value| == 16
      modifies users
      ensures Valid()
      ensures salt.None? ==> err == Some(RandomnessFailure) && users.rows == old(users.rows)
      ensures salt.Some? ==>
        var n := BeforeCreateUser(u.(password := HashPassword(u.password, salt, kdf).value), freshId);
        if !healthy then err == Some(StoreFailure) && users.rows == old(users.rows)
        else match Insert(old(users.rows), n, users.secretWidth)
          case Err(e) => err == Some(e) && users.rows == old(users.rows)
          case Ok(after) => err == None && users.rows == after
    {
      match HashPassword(u.password, salt, kdf)
      case Err(e) =>
        err := Some(e);
      case Ok(hashed) =>
        var r := users.Create(u.(password := hashed), freshId, healthy);
        err := if r.Err? then Some(r.error) else None;
    }
    /** A temporary token opens back to its user up to five minutes after issue, and is refused after. */
    lemma TempTokenWindow(u: UserRow, jti: Uuid, issued: Instant, now: Instant)
      requires OpensSealed(seal, open) && GenerateTempToken(u.id, jti, issued).Ok?
      requires UniqueUsers(users.rows) && u in users.rows
      ensures now <= issued + 5 * 60 ==> GetUserByTempToken(GenerateTempToken(u.id, jti, issued).value, now) == Ok(u)
      ensures now > issued + 5 * 60 ==>
        GetUserByTempToken(GenerateTempToken(u.id, jti, issued).value, now) == Err(TemporaryTokenExpired)
    {
      FindUniqueId(users.rows, u);
    }

    /** An access token passes the temporary-token check too, for its whole fifteen minutes: the audience
        is not looked at. */
    lemma AccessTokenPassesTempCheck(u: UserRow, d: Draws, now: Instant)
      requires OpensSealed(seal, open) && GenerateAccessToken(u, d).Ok?
      requires UniqueUsers(users.rows) && u in users.rows
      requires now <= d.now + 15 * 60
      ensures GetUserByTempToken(GenerateAccessToken(u, d).value, now) == Ok(u)
    {
      FindUniqueId(users.rows, u);
    }

    /** ValidateToken accepts every token sealed under the service key with the claims sealed, whatever
        its audience and however long expired: a temporary token validates like an access token. */
    lemma ValidateAcceptsAnySealed(c: JsonToken)
      requires OpensSealed(seal, open) && seal(key, c).Ok?
      ensures ValidateToken(seal(key, c).value) == Ok(c)
    {
    }

    /** The id a user's string form names is found again by GetUserByID. */
    lemma GetUserByIDOfString(u: UserRow)
      requires UniqueUsers(users.rows) && u in users.rows
      ensures GetUserByID(Uuids.ToString(u.id)) == Ok(u)
    {
      Uuids.ParseToString(u.id);
      FindUniqueId(users.rows, u);
    }
  }

  // ---------------------------------------------------------------------------------------------
  // Lemmas

  /** Rotation makes the presented refresh token single-use: after the new row is added and the old id
      deleted, no row holds the old value, the new row is there, and every other row survives. */
  lemma RotationSingleUse(rows: seq<Token>, t: Token, n: Token)
    requires UniqueTokens(rows) && t in rows && !Clashes(rows, n)
    ensures var after := Where(rows + [n], IdIs(t.id), false);
      (forall x :: x in after ==> x.token != t.token) && n in after && UniqueTokens(after) &&
      forall x :: x in rows && x != t ==> x in after
  {
    AppendUnique(rows, n);
    var all := rows + [n];
    WhereMembers(all, IdIs(t.id), false);
    WhereUnique(all, IdIs(t.id), false);
    var i :| 0 <= i < |rows| && rows[i] == t;
    assert n.id != t.id && n.token != t.token;
    forall x | x in all && x != t ensures x.id != t.id && x.token != t.token {
      if x in rows {
        Distinct(rows, x, t);
      }
    }
  }

  /** With the corrected verifier, an unknown email and a wrong password are refused with the same error. */
  lemma UnknownEmailLikeWrongPassword(found: UserRow, password: string, other: string, salt: seq<byte>, kdf: Kdf)
    requires |salt| == 16 && KdfReturnsKeyLength(kdf)
    requires found.password == HashPassword(password, Some(salt), kdf).value
    requires kdf(other, salt, 3, 65536, 4, 32) != kdf(password, salt, 3, 65536, 4, 32)
    ensures Decide(Ok(found), other, kdf, Corrected) == Decide(Err(RecordNotFound), other, kdf, Corrected)
         == Rejected(InvalidCredentials)
  {
    VerifyOtherPassword(password, other, salt, kdf);
  }

  /** With the corrected verifier, the right password gets past the check: to the MFA step when MFA is
      enabled, otherwise to tokens. */
  lemma RightPasswordPasses(found: UserRow, password: string, salt: seq<byte>, kdf: Kdf)
    requires |salt| == 16 && KdfReturnsKeyLength(kdf)
    requires found.password == HashPassword(password, Some(salt), kdf).value
    ensures Decide(Ok(found), password, kdf, Corrected) == if found.mfa.enabled then NeedsMfa(found) else Admitted(found)
  {
    VerifyHashedPassword(password, salt, kdf);
  }

  /** The login as written, when IDKey returns the empty key at keyLen 0: against a hash that
      hashPassword made, every password gets past the check, the wrong one as well as the right one. */
  lemma WrongPasswordPassesAsWritten(found: UserRow, password: string, other: string, salt: seq<byte>, kdf: Kdf)
    requires |salt| == 16 && EmptyKeyAtZero(kdf)
    requires found.password == HashPassword(password, Some(salt), kdf).value
    ensures Decide(Ok(found), other, kdf, AsWritten) == if found.mfa.enabled then NeedsMfa(found) else Admitted(found)
  {
    DecodeHashAsWrittenRoundTrip(password, salt, kdf);
    AsWrittenAcceptsAnyPassword(found.password, other, kdf);
  }

  /** The login as written, when IDKey returns a non-empty key at keyLen 0: against a hash that
      hashPassword made, no password gets past the check, the right one included. */
  lemma NoPasswordPassesAsWritten(found: UserRow, password: string, other: string, salt: seq<byte>, kdf: Kdf)
    requires |salt| == 16 && kdf(other, salt, 3, 65536, 4, 0) != []
    requires found.password == HashPassword(password, Some(salt), kdf).value
    ensures Decide(Ok(found), other, kdf, AsWritten) == Rejected(InvalidCredentials)
  {
    DecodeHashAsWrittenRoundTrip(password, salt, kdf);
    AsWrittenRefusesWhenKeyNotEmpty(found.password, other, kdf);
  }

  /** A stored password with no '$' in it, such as the plaintext "adminpassword" the seed writes, is not
      a hash string: with either verifier every login of that user ends with the verifying error,
      whatever password is offered. */
  lemma UnhashedPasswordNeverVerifies(found: UserRow, password: string, kdf: Kdf, codec: Codec)
    requires '$' !in found.password
    ensures Decide(Ok(found), password, kdf, codec) == Rejected(ErrorVerifyingPassword)
  {
    Text.NoSepIndex(found.password, '$');
    assert |Text.Split(found.password, '$')| == 1;
  }

  /** With the corrected verifier, a registered user is found by email and passes the password check
      with the password registered, whatever the width of the secret column. */
  lemma RegisteredUserPasses(rows: seq<UserRow>, u: UserRow, salt: seq<byte>, freshId: Uuid, secretWidth: nat, kdf: Kdf)
    requires |salt| == 16 && KdfReturnsKeyLength(kdf)
    requires var n := BeforeCreateUser(u.(password := HashPassword(u.password, Some(salt), kdf).value), freshId);
      Insert(rows, n, secretWidth).Ok?
    ensures var n := BeforeCreateUser(u.(password := HashPassword(u.password, Some(salt), kdf).value), freshId);
      var after := Insert(rows, n, secretWidth).value;
      Decide(Find(after, ByEmail(u.email)), u.password, kdf, Corrected) == if u.mfa.enabled then NeedsMfa(n) else Admitted(n)
  {
    var n := BeforeCreateUser(u.(password := HashPassword(u.password, Some(salt), kdf).value), freshId);
    var after := rows + [n];
    assert Locate(after, ByEmail(u.email)) == |rows| by {
      NewEmailLocated(rows, n);
    }
    RightPasswordPasses(n, u.password, salt, kdf);
  }

  /** An inserted row is the first with its email, because no earlier row holds that email. */
  lemma {:induction false} NewEmailLocated(rows: seq<UserRow>, n: UserRow)
    requires !TakenByOther(rows, n) && Locate(rows, ById(n.id)) == |rows|
    ensures Locate(rows + [n], ByEmail(n.email)) == |rows|
  {
    if rows != [] {
      assert rows[0].id != n.id;
      assert rows[0].email != n.email;
      forall i | 0 <= i < |rows[1..]|
        ensures rows[1..][i].id == n.id || (rows[1..][i].email != n.email && rows[1..][i].username != n.username)
      {
        assert rows[1..][i] == rows[i + 1];
      }
      NewEmailLocated(rows[1..], n);
      assert (rows + [n])[1..] == rows[1..] + [n];
    }
  }
}
