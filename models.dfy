/** The records of internal/models/user.go that the core reads and writes: users with their MFA
    fields, roles, permissions and tokens, plus the table constraints their gorm tags declare. */
module Models {
  import opened Common
  import Uuids

  type Uuid = Uuids.Uuid

  /** Go's uint64, the type of the HOTP counter `hotp.ValidateCustom` takes. */
  type uint64 = x: int | 0 <= x < 0x1_0000_0000_0000_0000

  // ---------------------------------------------------------------------------------------------
  // Tokens

  /** `TokenType`: the three declared constants. */
  datatype TokenType = Refresh | Access | PasswordReset

  /** The string each constant stands for, as stored in the `type` column. */
  function TokenTypeName(t: TokenType): (s: string)
    ensures 0 < |s| <= 20
  {
    match t
    case Refresh => "refresh"
    case Access => "access"
    case PasswordReset => "password_reset"
  }

  /** Reads a stored `type` value back; any other string is none of the three constants. */
  function ParseTokenType(s: string): Option<TokenType>
  {
    if s == "refresh" then Some(Refresh)
    else if s == "access" then Some(Access)
    else if s == "password_reset" then Some(PasswordReset)
    else None
  }

  /** A row of the tokens table (the `Token` struct without its timestamps). */
  datatype Token = Token(id: Uuid, userId: Uuid, token: string, tokenType: TokenType, expiresAt: Instant)

  /** `BaseModel.BeforeCreate`: the id is replaced by a fresh uuid whatever the caller set. */
  function BeforeCreateToken(t: Token, freshId: Uuid): (r: Token)
    ensures r.id == freshId
    ensures r.userId == t.userId && r.token == t.token && r.tokenType == t.tokenType && r.expiresAt == t.expiresAt
  {
    t.(id := freshId)
  }

  /** Ids and token values are unique across the table: `id` is the primary key and `token` has a
      unique index. */
  predicate UniqueTokens(rows: seq<Token>)
  {
    forall i, j :: 0 <= i < j < |rows| ==> rows[i].id != rows[j].id && rows[i].token != rows[j].token
  }

  // ---------------------------------------------------------------------------------------------
  // Roles and permissions

  datatype Permission = Permission(id: Uuid, name: string)

  datatype Role = Role(id: Uuid, name: string, permissions: seq<Permission>)

  // ---------------------------------------------------------------------------------------------
  // Users

  /** `user.MFAMethod`: empty, or one of the methods the MFA service sets. */
  datatype MfaMethod = NoMethod | Totp | Hotp | Sms | Email

  /** The MFA fields of a user, which the MFA service and DisableMFA change. */
  datatype MfaState = MfaState(
    enabled: bool,
    secret: string,
    kind: MfaMethod,
    backupCodes: seq<string>,
    smsCode: string,
    smsExpiry: Instant,
    emailCode: string,
    emailExpiry: Instant,
    hotpCounter: uint64)

  /** A row of the users table, restricted to the fields the core uses. */
  datatype UserRow = UserRow(
    id: Uuid,
    email: string,
    username: string,
    password: string,
    phoneNumber: string,
    isActive: bool,
    roles: seq<Role>,
    mfa: MfaState)

  /** A user as the services hold it: a `*models.User` whose fields they assign in place. The MFA
      columns are grouped into one record, which the MFA service updates a few columns at a time. */
  class User {
    var id: Uuid
    var email: string
    var username: string
    var password: string
    var phoneNumber: string
    var isActive: bool
    var roles: seq<Role>
    var mfa: MfaState

    /** What `userRepo.Update(user)` writes. */
    function Row(): UserRow
      reads this
    {
      UserRow(id, email, username, password, phoneNumber, isActive, roles, mfa)
    }

    /** A user loaded from a row. */
    constructor (r: UserRow)
      ensures Row() == r
    {
      id, email, username, password := r.id, r.email, r.username, r.password;
      phoneNumber, isActive, roles, mfa := r.phoneNumber, r.isActive, r.roles, r.mfa;
    }
  }

  /** `BeforeCreate` on a user, then the column defaults gorm applies on insert: a zero (false)
      `IsActive` is left to the column default, true; `MFAEnabled` defaults to false, its zero value. */
  function BeforeCreateUser(u: UserRow, freshId: Uuid): (r: UserRow)
    ensures r.id == freshId && r.isActive
    ensures r.mfa == u.mfa && r.email == u.email && r.username == u.username && r.password == u.password
    ensures r.phoneNumber == u.phoneNumber && r.roles == u.roles
  {
    u.(id := freshId, isActive := true)
  }

  /** Ids, emails and usernames are unique across users (`primary_key` and the two `uniqueIndex` tags). */
  predicate UniqueUsers(rows: seq<UserRow>)
  {
    forall i, j :: 0 <= i < j < |rows| ==>
      rows[i].id != rows[j].id && rows[i].email != rows[j].email && rows[i].username != rows[j].username
  }

  /** The column widths the `size` tags give: email 255, username 50, password 255, and the MFA secret
      `secretWidth` (32 in user.go). */
  predicate FitsColumns(u: UserRow, secretWidth: nat)
  {
    |u.email| <= 255 && |u.username| <= 50 && |u.password| <= 255 && |u.mfa.secret| <= secretWidth
  }

  /** The `size:32` user.go gives `MFASecret`: narrower than the 56-character base32 text the MFA service
      stores there. */
  const MfaSecretWidthAsWritten: nat := 32

  /** A secret column wide enough for the base32 text of a 32-byte secret; the rest of the model uses it. */
  const MfaSecretWidth: nat := 56

  // ---------------------------------------------------------------------------------------------
  // Lemmas

  /** The three token types are stored as three distinct strings, and each reads back as itself. */
  lemma TokenTypeRoundTrip(t: TokenType)
    ensures ParseTokenType(TokenTypeName(t)) == Some(t)
  {
  }

  lemma TokenTypeNamesDistinct(a: TokenType, b: TokenType)
    ensures TokenTypeName(a) == TokenTypeName(b) <==> a == b
  {
    TokenTypeRoundTrip(a);
    TokenTypeRoundTrip(b);
  }

  /** No string other than the three names is a token type. */
  lemma ParseTokenTypeOnlyNames(s: string)
    ensures ParseTokenType(s).Some? <==> s in {"refresh", "access", "password_reset"}
  {
  }

  /** Whatever id the caller set, two creations under the same freshId uuid give the same row. */
  lemma BeforeCreateIgnoresCallerId(t: Token, u: Token, freshId: Uuid)
    requires t.(id := u.id) == u
    ensures BeforeCreateToken(t, freshId) == BeforeCreateToken(u, freshId)
  {
  }
}
