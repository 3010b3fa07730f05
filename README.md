# AdminSuite authentication core in Dafny

This project models the user-management core of the AdminSuite backend. It covers:

- **Registration and login** (`AuthenticationService`): the Argon2id password-hash string that `hashPassword` writes and `decodeHash` reads back, the login decision of `AuthenticateUser`, the PASETO claims of access and temporary tokens, and refresh-token rotation.
- **The refresh-token table** (`TokenRepository`), as an in-memory table.
- **Role-based access checks and assignments** (`AuthorizationService`).
- **The MFA state machine** (`MFAService`): TOTP and HOTP enrolment, SMS and email one-time codes with their expiry, and backup codes.
- **The MFA HTTP handler**: how a service outcome becomes a response, and `DisableMFA`'s reset.

Modules follow the Go packages:

| module | models |
|---|---|
| `Common` | shared types: bytes, instants, `Option`, `Result`, errors |
| `Uuids` | the parts of github.com/google/uuid the core uses |
| `Text` | the parts of `strings.Split` and `fmt.Sscanf("%d")` the core uses |
| `Base64` | `base64.RawStdEncoding` (RFC 4648 section 4, no padding) |
| `PasswordHash` | `hashPassword`, `decodeHash` and `verifyPassword` |
| `Models` | the records of internal/models/user.go |
| `TokenRepository` | token_repository.go |
| `Repositories` | the user, role and permission tables |
| `Authentication` | authentication.go |
| `Authorization` | authorization.go |
| `Mfa` | multi_factor_authentication.go |
| `MfaHandler` | multi_factor_authentication_handler.go |

How the model represents each kind of input and state:

- **Time.** Wall-clock time is an integer instant in seconds, passed in as a parameter. `now.After(x)` is `now > x` and `x.Before(now)` is `x < now`, both strict as in the source.
- **Randomness.** `crypto/rand` draws and `uuid.New` results are parameters. `None` stands for a failed read.
- **Foreign libraries.** These are function-typed parameters or fields:
  - Argon2id (RFC 9106);
  - PASETO v2 local encryption;
  - base32 (RFC 4648 section 6);
  - `totp.Validate` (RFC 6238);
  - `hotp.ValidateCustom` (RFC 4226);
  - `totp.Generate`/`key.URL`.

  A lemma that needs a law of one of these (decryption inverts encryption, IDKey returns keyLen bytes, base32 decoding inverts encoding) takes that law as a `requires`.
- **Outcomes of the database, SMS and SMTP.** Each is a boolean parameter.
- **State.** The user is a class whose fields the services assign in place, as `*models.User` is. Its MFA columns are grouped into one record (`MfaState`), so each operation's update is a single field write. Each MFA operation's new state is a named transition function of the old state (`EnrolTotp`, `IssueSms`, `ConsumeSms`, `RemoveFirst`, …). The token, user and role tables are classes holding sequences of rows.

The user repository's source, backend/internal/repositories/user_management/user_repository.go, is not part of this model. Its `FindByEmail`, `FindByID` and `Create` are modelled as gorm `First` and `Create`, and its `Update` as gorm `Save`, which is an UPDATE of the row with the same id, or an INSERT when there is none. All of them are checked against the unique indexes and the `size` column widths that internal/models/user.go declares. A value wider than its column is an error, as it is on PostgreSQL. The width of the MFA secret column is a parameter of the user store: user.go declares 32 (`Models.MfaSecretWidthAsWritten`), and the second finding below explains why the MFA lemmas use 56 (`Models.MfaSecretWidth`). The authentication service holds for a store of any width.

The login is modelled as written. `decodeHash` never decodes the digest field, so `verifyPassword` compares the empty digest with the key IDKey derives at key length 0 (first finding below). `PasswordHash.Codec` names the verifier a login uses: `AsWritten` is the code, `Corrected` decodes the digest. `AuthenticateUser` decides with `AsWritten`. The lemmas that a right password passes and a wrong one is refused are stated for `Corrected`, and the lemmas named `…AsWritten` state what the code does instead.

user.go does not declare the MFA fields the service assigns beyond `MFAEnabled` and `MFASecret`. Their types are taken from their uses: strings, a list of strings, instants and a uint64 counter.

`VerifyHOTP` passes `string(secretBytes)` to the HOTP library. These are the raw decoded bytes, not the base32 text `totp.Validate` receives. The model keeps this (`Mfa.RawString`). The library's behaviour on such a string is not modelled.

## Model

| member | source | states |
|---|---|---|
| Uuids.HexDigit | backend/internal/services/user_management/authentication.go:278 | each nibble becomes a lower-case hexadecimal digit that reads back as that nibble |
| Uuids.ParseToString | backend/internal/services/user_management/authentication.go:247-252 | parsing the canonical string of a UUID gives that UUID back, so a subject written by the token builders is read back as the user's id |
| Uuids.ToStringInjective | backend/internal/services/user_management/authentication.go:290 | two UUIDs print the same exactly when they are equal, so token values drawn as distinct UUIDs are distinct strings |
| Uuids.UnhexHex | backend/internal/services/user_management/authentication.go:211 | decoding the hexadecimal text of a byte string gives the bytes back |
| Text.DecimalValue | backend/internal/services/user_management/authentication.go:145 | the decimal text `%d` writes for n has digit value n |
| Text.ScanDecimal | backend/internal/services/user_management/authentication.go:177 | `%d` scanning reads the decimal text of an in-range value back as that value and stops at the first non-digit |
| Text.ScanLiteral | backend/internal/services/user_management/authentication.go:177 | a literal in the format matches exactly when the input starts with it, and the scan continues after it |
| Text.ScanInt | backend/internal/services/user_management/authentication.go:186 | a scanned integer lies in the range of the operand type (64-bit int, uint32 or uint8) |
| Text.SplitJoin | backend/internal/services/user_management/authentication.go:171 | splitting on '$' the join of '$'-free fields gives back exactly those fields |
| Text.SplitCount | backend/internal/services/user_management/authentication.go:171-172 | `strings.Split` gives one more field than there are separators, so a hash string has six fields exactly when it holds five '$' |
| Text.SplitPieces | backend/internal/services/user_management/authentication.go:171 | no field returned by `strings.Split` contains the separator |
| Base64.EncodeLength | backend/internal/services/user_management/authentication.go:142-143 | unpadded base64 of n bytes has (8n + 5) / 6 characters: 22 for the salt, 43 for a 32-byte digest |
| Base64.EncodeInAlphabet | backend/internal/services/user_management/authentication.go:142-143 | every character written is from the standard base64 alphabet, so none is '$' |
| Base64.DecodeEncode | backend/internal/services/user_management/authentication.go:191 | `RawStdEncoding.DecodeString` inverts `EncodeToString` on every byte string |
| Base64.EncodeInjective | backend/internal/services/user_management/authentication.go:158 | two digests have the same base64 text exactly when they are equal, so the text comparison is a digest comparison |
| Base64.DecodeGroups | backend/internal/services/user_management/authentication.go:191 | a string that does not decode is refused with the corrupt-input error |
| PasswordHash.HashPassword | backend/internal/services/user_management/authentication.go:134-148 | fails exactly when the salt could not be drawn, with the randomness error |
| PasswordHash.HashPasswordFormat | backend/internal/services/user_management/authentication.go:134-148 | the hash is exactly `$argon2id$v=19$m=65536,t=3,p=4$<salt>$<digest>` with unpadded base64 salt (22 characters) and digest (43 characters for a 32-byte key) |
| PasswordHash.WrittenParams | backend/internal/services/user_management/authentication.go:53-59 | the version and parameter fields read `v=19` and `m=65536,t=3,p=4` |
| PasswordHash.ScanVersionWritten | backend/internal/services/user_management/authentication.go:177 | the written version field scans back as argon2.Version |
| PasswordHash.ScanParamsWritten | backend/internal/services/user_management/authentication.go:186 | the written parameter field scans back as memory, iterations and parallelism for any values their operand types hold |
| PasswordHash.PrefixOfFields | backend/internal/services/user_management/authentication.go:171-194 | the checks before the digest accept what hashPassword's format holds and return its parameters and salt |
| PasswordHash.DecodeHashAsWritten | backend/internal/services/user_management/authentication.go:170-199 | fewer or more than six fields is an invalid-format error; success needs version 19; the digest returned is empty and the key length 0 |
| PasswordHash.DecodeHashAsWrittenRoundTrip | backend/internal/services/user_management/authentication.go:185-198 | decoding what hashPassword wrote recovers memory, iterations, parallelism and salt, but not the digest |
| PasswordHash.DecodeFields | backend/internal/services/user_management/authentication.go:185-198 | the corrected decoder succeeds only on six fields of the right version, and sets the key length to the decoded digest's length |
| PasswordHash.DecodeHash | backend/internal/services/user_management/authentication.go:170-199 | the corrected decodeHash: wrong field count is invalid format, success needs the right version, and the key length is the digest's length |
| PasswordHash.DecodeFieldsRoundTrip | backend/internal/services/user_management/authentication.go:145 | the corrected decoder reads back every field of the format, the digest included, for any parameters in range |
| PasswordHash.DecodeHashRoundTrip | backend/internal/services/user_management/authentication.go:145 | the corrected decodeHash recovers parameters, salt and digest of what hashPassword wrote |
| PasswordHash.DecodeIgnoresTag | backend/internal/services/user_management/authentication.go:171-183 | the algorithm tag in field 1 is never checked: replacing it changes neither decoder's result |
| PasswordHash.SameFieldsSamePrefix | backend/internal/services/user_management/authentication.go:171-194 | the checks before the digest read only the field count and fields 2 to 4 |
| PasswordHash.AsWrittenIgnoresDigest | backend/internal/services/user_management/authentication.go:191-198 | as written, replacing the digest field changes neither decodeHash's nor verifyPassword's result |
| PasswordHash.AsWrittenAcceptsAnyPassword | backend/internal/services/user_management/authentication.go:156-158 | as written, when IDKey returns the empty key at key length 0, every password verifies against every hash that decodes |
| PasswordHash.AsWrittenRefusesWhenKeyNotEmpty | backend/internal/services/user_management/authentication.go:156-158 | as written, when IDKey returns a non-empty key at key length 0, every password is refused against every hash that decodes |
| PasswordHash.AsWrittenWrongPasswordAccepted | backend/internal/services/user_management/authentication.go:150-158 | a concrete case, when IDKey returns the empty key at key length 0: the hash of one password verifies a different password |
| PasswordHash.VerifyHashedPassword | backend/internal/services/user_management/authentication.go:150-158 | the corrected verifier accepts a password against its own hash |
| PasswordHash.VerifyOtherPassword | backend/internal/services/user_management/authentication.go:150-158 | the corrected verifier accepts another password exactly when Argon2id derives the same key for it |
| PasswordHash.VerifyDependsOnDigest | backend/internal/services/user_management/authentication.go:156-158 | the corrected verifier reads the digest: a hash whose digest is other bytes refuses the password |
| Models.TokenTypeName | backend/internal/models/user.go:67-73 | each token type is stored as a non-empty string that fits the `size:20` column |
| Models.TokenTypeRoundTrip | backend/internal/models/user.go:67-73 | each stored type name reads back as its own type |
| Models.TokenTypeNamesDistinct | backend/internal/models/user.go:67-73 | the three types have three distinct names |
| Models.ParseTokenTypeOnlyNames | backend/internal/models/user.go:67-73 | exactly the strings refresh, access and password_reset are token types |
| Models.BeforeCreateToken | backend/internal/models/user.go:19-22 | the id is replaced by the fresh uuid and every other column kept |
| Models.BeforeCreateIgnoresCallerId | backend/internal/models/user.go:19-22 | two tokens that differ only in the caller-set id are created as the same row |
| Models.BeforeCreateUser | backend/internal/models/user.go:19-22 | a created user gets the fresh id and is active; its MFA fields, email, username, password, phone and roles are kept |
| TokenRepository.Where | backend/internal/repositories/user_management/token_repository.go:42-54 | a selection or a deletion never adds rows |
| TokenRepository.WhereMembers | backend/internal/repositories/user_management/token_repository.go:42-54 | a row is selected exactly when it is in the table and the condition has the asked-for truth |
| TokenRepository.WhereUnique | backend/internal/repositories/user_management/token_repository.go:48-54 | deleting rows keeps ids and token values unique |
| TokenRepository.WhereNone | backend/internal/repositories/user_management/token_repository.go:42-46 | when no row meets the condition the selection is empty |
| TokenRepository.ConsUnique | backend/internal/models/user.go:78 | a row that differs in id and token value from every row of a valid table can head it |
| TokenRepository.AppendUnique | backend/internal/repositories/user_management/token_repository.go:29-31 | appending a row that clashes with none keeps the table valid |
| TokenRepository.Distinct | backend/internal/models/user.go:78 | two different rows of a valid table differ in id and in token value |
| TokenRepository.FindUnique | backend/internal/repositories/user_management/token_repository.go:33-40 | in a valid table a token value selects exactly its own row |
| TokenRepository.TokenStore.Create | backend/internal/repositories/user_management/token_repository.go:29-31 | the new row, with a fresh id, is appended and nothing else changes; an index clash or a database failure leaves the table as it was |
| TokenRepository.TokenStore.FindByToken | backend/internal/repositories/user_management/token_repository.go:33-40 | returns a row of the table holding the value, or record-not-found when no row holds it |
| TokenRepository.TokenStore.FindByUserID | backend/internal/repositories/user_management/token_repository.go:42-46 | returns exactly the rows of that user; none gives an empty result |
| TokenRepository.TokenStore.Delete | backend/internal/repositories/user_management/token_repository.go:48-50 | removes exactly the row with that id and keeps every other row; a failure changes nothing |
| TokenRepository.TokenStore.DeleteExpired | backend/internal/repositories/user_management/token_repository.go:52-54 | removes exactly the rows whose expiry is before now; rows expiring at or after now survive |
| Repositories.Locate | backend/internal/services/user_management/authentication.go:72 | the index of the first row the key selects, no row before it selected |
| Repositories.Find | backend/internal/services/user_management/authentication.go:112 | the row found is in the table under the key; not found means no row has the key |
| Repositories.Insert | backend/internal/models/user.go:36-44 | an insert fails only with a too-long value or a taken key, and otherwise appends the row |
| Repositories.Save | backend/internal/models/user.go:36-44 | a save fails only with a too-long value or a taken key |
| Repositories.UpdateOutcome | backend/internal/services/user_management/multi_factor_authentication.go:53-56 | an update succeeds exactly when the database is healthy and the save is accepted; it then writes the saved table, and otherwise leaves the table as it was |
| Repositories.UserStore.FindByEmail | backend/internal/services/user_management/authentication.go:72-75 | the user found has that email; not found means no user has it |
| Repositories.UserStore.FindByID | backend/internal/services/user_management/authentication.go:112-115 | the user found has that id; not found means no user has it |
| Repositories.UserStore.Create | backend/internal/services/user_management/authentication.go:68 | BeforeCreate then an insert: the new row is appended, or an error leaves the table as it was; the unique indexes and widths are kept |
| Repositories.UserStore.Update | backend/internal/services/user_management/multi_factor_authentication.go:53 | the error and table are those of UpdateOutcome, and the unique indexes and widths are kept |
| Repositories.InsertValid | backend/internal/models/user.go:36-37 | an accepted insert keeps ids, emails and usernames unique and every value within its column |
| Repositories.SaveValid | backend/internal/models/user.go:36-37 | an accepted save keeps ids, emails and usernames unique and every value within its column |
| Repositories.SaveThenFind | backend/internal/services/user_management/multi_factor_authentication.go:53 | after an accepted save the row saved is found under its id |
| Repositories.SaveKeepsOthers | backend/internal/services/user_management/multi_factor_authentication.go:53 | an accepted save leaves every row with another id where it was |
| Repositories.FindUniqueId | backend/internal/models/user.go:13 | in a valid table an id names one row |
| Repositories.CreatedUsersAreActive | backend/internal/models/user.go:41-43 | a created user is active, carries the fresh id and keeps the MFA fields it was given |
| Repositories.FirstRole | backend/internal/repositories/user_management/role_repository.go:30-37 | the role found has that id; not found means no role has it |
| Repositories.SaveRole | backend/internal/repositories/user_management/role_repository.go:45-47 | after the save the role is found under its id, every role with another id is kept, and no other row appears |
| Repositories.RoleStore.FindByID | backend/internal/repositories/user_management/role_repository.go:30-37 | the role found, with its permissions, has that id; not found means no role has it |
| Repositories.RoleStore.Update | backend/internal/repositories/user_management/role_repository.go:45-47 | a healthy save writes SaveRole of the table; a failure changes nothing |
| Repositories.FirstPermission | backend/internal/repositories/user_management/permission_repository.go:31-38 | the permission found has that id; not found means no permission has it |
| Repositories.PermissionStore.FindByID | backend/internal/repositories/user_management/permission_repository.go:31-38 | the permission found has that id; not found means no permission has it |
| Authentication.AccessClaims | backend/internal/services/user_management/authentication.go:269-285 | audience adminsuite, issuer adminsuite-auth, issued and valid from now, expiring 15 minutes later; subject and jti parse back to the user id and the draw |
| Authentication.TempClaims | backend/internal/services/user_management/authentication.go:218-234 | audience adminsuite-mfa, issuer adminsuite-auth, issued and valid from now, expiring 5 minutes later; subject and jti parse back |
| Authentication.RefreshRow | backend/internal/services/user_management/authentication.go:287-293 | the refresh row has the fresh id, the user, type refresh, expiry now plus seven days and a value that parses back to the drawn uuid |
| Authentication.Decide | backend/internal/services/user_management/authentication.go:71-87 | for either verifier: refusals are invalid-credentials or the distinct verifying error; the verifying error exactly when the password check errs; past the check exactly when the user exists and the password check says it matches, with the MFA step exactly when MFA is enabled |
| Authentication.AuthenticationService.GetUserByID | backend/internal/services/user_management/authentication.go:210-216 | a malformed id is a parse error; a user is returned only if it is stored under the parsed id; otherwise record-not-found |
| Authentication.AuthenticationService.GetUserByTempToken | backend/internal/services/user_management/authentication.go:236-253 | an undecryptable token gives the decryption error; a decrypted one is refused as expired exactly when now is after its expiry; a user returned is stored under the token's subject |
| Authentication.AuthenticationService.GenerateRefreshToken | backend/internal/services/user_management/authentication.go:287-300 | the refresh row is appended and its value returned, or a store error leaves the table as it was |
| Authentication.AuthenticationService.GenerateTokens | backend/internal/services/user_management/authentication.go:255-267 | an access token, then a refresh row; each failure ends the call with both strings empty, and only success adds the row |
| Authentication.AuthenticationService.AuthenticateUser | backend/internal/services/user_management/authentication.go:71-100 | outcome by outcome of Decide with the verifier as written, then of the token calls: refused and MFA-pending logins change no row; only full success adds the refresh row and returns the user |
| Authentication.AuthenticationService.RefreshToken | backend/internal/services/user_management/authentication.go:102-132 | lookup miss, expiry before now or missing user: an error and no change; the type is not checked; success deletes the old id after adding the new row; a failed delete leaves both; after success the old value is gone and the new one found |
| Authentication.AuthenticationService.RegisterUser | backend/internal/services/user_management/authentication.go:61-69 | a failed salt draw is an error with no change; otherwise the user with the hashed password is created or refused as Create decides |
| Authentication.AuthenticationService.TempTokenWindow | backend/internal/services/user_management/authentication.go:243 | a temporary token gives its user back up to five minutes after issue and is refused as expired after |
| Authentication.AuthenticationService.AccessTokenPassesTempCheck | backend/internal/services/user_management/authentication.go:236-253 | an access token passes the temporary-token check for fifteen minutes, because the audience is not checked |
| Authentication.AuthenticationService.ValidateAcceptsAnySealed | backend/internal/services/user_management/authentication.go:201-208 | any token sealed under the key validates to its claims, whatever its audience or expiry |
| Authentication.AuthenticationService.GetUserByIDOfString | backend/internal/services/user_management/authentication.go:210-216 | the string form of a stored user's id finds that user |
| Authentication.RotationSingleUse | backend/internal/services/user_management/authentication.go:122-129 | after rotation no row holds the old value, the new row is present, the table is still valid and every other row survives |
| Authentication.UnknownEmailLikeWrongPassword | backend/internal/services/user_management/authentication.go:72-83 | with the corrected verifier, an unknown email and a wrong password give the same invalid-credentials refusal |
| Authentication.RightPasswordPasses | backend/internal/services/user_management/authentication.go:77-87 | with the corrected verifier, the right password gets past the check, to the MFA step exactly when MFA is enabled |
| Authentication.WrongPasswordPassesAsWritten | backend/internal/services/user_management/authentication.go:71-87 | as written, when IDKey returns the empty key at key length 0, any password gets past the check against a hash hashPassword made |
| Authentication.NoPasswordPassesAsWritten | backend/internal/services/user_management/authentication.go:71-87 | as written, when IDKey returns a non-empty key at key length 0, every password is refused against a hash hashPassword made, the right one included |
| Authentication.UnhashedPasswordNeverVerifies | backend/internal/services/user_management/authentication.go:171-174 | with either verifier, a stored password with no '$', such as the seeded plaintext, ends every login with the verifying error |
| Authentication.RegisteredUserPasses | backend/internal/services/user_management/authentication.go:61-87 | with the corrected verifier and any secret-column width, a user just registered is found by email and passes the check with the registered password |
| Authentication.NewEmailLocated | backend/internal/services/user_management/authentication.go:72 | an inserted user is the first with its email |
| Authorization.AuthorizationService.CheckUserPermission | backend/internal/services/user_management/authorization.go:46-61 | a missing user gives false and user-not-found; otherwise no error, and true exactly when some role of the user holds a permission with that exact name |
| Authorization.AuthorizationService.AssignRoleToUser | backend/internal/services/user_management/authorization.go:31-44 | user-not-found, then role-not-found, each with no change; otherwise the user saved with the role appended to its roles, as Update decides |
| Authorization.AuthorizationService.AssignPermissionToRole | backend/internal/services/user_management/authorization.go:71-84 | role-not-found, then permission-not-found, each with no change; otherwise the role saved with the permission appended, or a store error and no change |
| Authorization.GrantsAppend | backend/internal/services/user_management/authorization.go:52-58 | after appending a role the user is granted exactly what was granted before plus what that role holds |
| Authorization.AssignedRoleGrants | backend/internal/services/user_management/authorization.go:42 | an assigned role's permissions are granted, and the earlier roles are unchanged |
| Authorization.NoRolesNoGrant | backend/internal/services/user_management/authorization.go:60 | a user with no roles is granted nothing |
| Authorization.AssignedPermissionHeld | backend/internal/services/user_management/authorization.go:82 | an appended permission is held by the role, and the earlier permissions keep their places |
| Mfa.CodeByte | backend/internal/services/user_management/multi_factor_authentication.go:298 | the byte's character is `charset[b % 36]` |
| Mfa.AsBytes | backend/internal/services/user_management/multi_factor_authentication.go:69 | `[]byte(s)` of base32 text, which is ASCII, has one byte per character |
| Mfa.GenerateRandomCode | backend/internal/services/user_management/multi_factor_authentication.go:290-301 | a failed read is the randomness error; otherwise the code is the charset mapping of the bytes read |
| Mfa.CodeShape | backend/internal/services/user_management/multi_factor_authentication.go:290-301 | a code has one character per random byte, character i is `charset[b_i % 36]`, and every character is in A-Z or 0-9 |
| Mfa.CodeByteInjectiveModulo | backend/internal/services/user_management/multi_factor_authentication.go:298 | two bytes map to the same character exactly when they agree modulo 36 |
| Mfa.EnrolTotp | backend/internal/services/user_management/multi_factor_authentication.go:48-51 | the new secret is set, MFA disabled and the method TOTP; nothing else changes |
| Mfa.EnrolHotp | backend/internal/services/user_management/multi_factor_authentication.go:218-222 | the new secret is set, MFA disabled, the method HOTP and the counter 0; nothing else changes |
| Mfa.NextCounter | backend/internal/services/user_management/multi_factor_authentication.go:252 | `counter++` on a uint64: one more, modulo 2^64 |
| Mfa.AcceptHotp | backend/internal/services/user_management/multi_factor_authentication.go:250-252 | MFA enabled and the counter moved on; nothing else changes |
| Mfa.IssueSms | backend/internal/services/user_management/multi_factor_authentication.go:135-137 | the code is set, the expiry is now plus 5 minutes and the method SMS; nothing else changes |
| Mfa.IssueEmail | backend/internal/services/user_management/multi_factor_authentication.go:176-178 | the code is set, the expiry is now plus 15 minutes and the method email; nothing else changes |
| Mfa.ConsumeSms | backend/internal/services/user_management/multi_factor_authentication.go:157-159 | MFA enabled, the SMS code cleared and its expiry zeroed; nothing else changes |
| Mfa.ConsumeEmail | backend/internal/services/user_management/multi_factor_authentication.go:198-200 | MFA enabled, the email code cleared and its expiry zeroed; nothing else changes |
| Mfa.RemoveFirst | backend/internal/services/user_management/multi_factor_authentication.go:115-118 | with no equal entry the list is unchanged; otherwise exactly one occurrence of the code is removed |
| Mfa.BackupCodesOf | backend/internal/services/user_management/multi_factor_authentication.go:96-103 | one code per draw |
| Mfa.RemoveFirstAt | backend/internal/services/user_management/multi_factor_authentication.go:115-118 | when the first equal entry is at index i, the list afterwards is the splice at i |
| Mfa.BackupCodeSingleUse | backend/internal/services/user_management/multi_factor_authentication.go:115-118 | using a code held once removes it, keeping the others in order, and it is refused afterwards |
| Mfa.SmsCodeWindow | backend/internal/services/user_management/multi_factor_authentication.go:152-156 | an issued SMS code matches up to five minutes after issue and is refused after; any other code is a mismatch |
| Mfa.EmailCodeWindow | backend/internal/services/user_management/multi_factor_authentication.go:193-197 | an issued email code matches up to fifteen minutes after issue and is refused after; any other code is a mismatch |
| Mfa.ConsumedCodesAreRefused | backend/internal/services/user_management/multi_factor_authentication.go:152-159 | after a code is consumed every later check of any code at any instant is refused |
| Mfa.CounterSteps | backend/internal/services/user_management/multi_factor_authentication.go:252 | the HOTP counter rises by one, wrapping from the largest uint64 to 0 |
| Mfa.BackupCodesShape | backend/internal/services/user_management/multi_factor_authentication.go:95-103 | ten backup codes of eight characters, every character from the charset |
| Mfa.SecretTextLength | backend/internal/services/user_management/multi_factor_authentication.go:42-48 | the base32 text of a 32-byte secret has 56 characters |
| Mfa.EnrolmentRefusedAsWritten | backend/internal/models/user.go:44 | as written, with the `size:32` column, no TOTP or HOTP enrolment can be saved |
| Mfa.EnrolmentSaved | backend/internal/services/user_management/multi_factor_authentication.go:48-53 | with a 56-character column, enrolling a stored user saves the row in that user's place |
| Mfa.OnlyMfaChanged | backend/internal/services/user_management/multi_factor_authentication.go:53 | changing only the MFA fields of a stored row clashes with no other row |
| Mfa.QrKeyAsWrittenDiffers | backend/internal/services/user_management/multi_factor_authentication.go:66-70 | as written, the QR code carries the 56 bytes of the secret's text, which differ from the 32-byte key the text decodes to |
| Mfa.QrKeyDecoded | backend/internal/services/user_management/multi_factor_authentication.go:66-70 | as intended, the QR code carries the key the stored secret decodes to |
| Mfa.MfaService.GenerateTotpSecret | backend/internal/services/user_management/multi_factor_authentication.go:41-59 | a failed draw is an error with no change; otherwise the user is enrolled for TOTP and saved, and the secret is returned unless the save failed |
| Mfa.MfaService.GenerateTotpQrCodeAsWritten | backend/internal/services/user_management/multi_factor_authentication.go:61-76 | as written: a user with no secret is refused with the secret-not-set error; otherwise the key given to totp.Generate is the bytes of the secret's text, which `Mfa.QrKeyAsWrittenDiffers` shows is not the key validation uses |
| Mfa.MfaService.GenerateTotpQrCode | backend/internal/services/user_management/multi_factor_authentication.go:61-64 | as intended, the corrected half of the third finding: a user with no secret is refused with the secret-not-set error; otherwise the key given is the one the secret decodes to (`Mfa.QrKeyDecoded`) |
| Mfa.MfaService.VerifyTotp | backend/internal/services/user_management/multi_factor_authentication.go:78-93 | no secret is an error with no change; the result is the library check; only a valid code enables MFA and saves, and a failed save returns true with an error |
| Mfa.MfaService.GenerateBackupCodes | backend/internal/services/user_management/multi_factor_authentication.go:95-112 | a failed draw returns an error before any field is touched; otherwise the whole list is replaced by the ten codes and saved |
| Mfa.MfaService.VerifyBackupCode | backend/internal/services/user_management/multi_factor_authentication.go:114-127 | valid exactly when the code is stored; a match removes the first equal entry only, leaves MFAEnabled alone, and a failed save returns true with an error; no match returns false, no error, no change |
| Mfa.MfaService.GenerateSmsCode | backend/internal/services/user_management/multi_factor_authentication.go:129-149 | the code, expiry now plus 5 minutes and method are saved before sending, so a failed delivery returns an error with the new code stored |
| Mfa.MfaService.VerifySmsCode | backend/internal/services/user_management/multi_factor_authentication.go:151-168 | no code or now after the expiry is an error with no change; a match consumes the code and saves; a mismatch returns false and changes nothing |
| Mfa.MfaService.GenerateEmailCode | backend/internal/services/user_management/multi_factor_authentication.go:170-190 | as for SMS, with a 15-minute expiry and delivery by email |
| Mfa.MfaService.VerifyEmailCode | backend/internal/services/user_management/multi_factor_authentication.go:192-209 | as for SMS, over the email code and its expiry |
| Mfa.MfaService.GenerateHotp | backend/internal/services/user_management/multi_factor_authentication.go:211-230 | a failed draw is an error with no change; otherwise the user is enrolled for HOTP with counter 0 and saved |
| Mfa.MfaService.VerifyHotp | backend/internal/services/user_management/multi_factor_authentication.go:232-260 | the not-set-up error exactly for an empty secret; an undecodable secret, a library error or an invalid code changes nothing; a valid code enables MFA and raises the counter by one |
| MfaHandler.VerifyResponse | backend/api/handlers/user_management/multi_factor_authentication_handler.go:81-91 | 500 exactly when the service erred, checked first; 401 exactly for (false, nil); 200 exactly for (true, nil) |
| MfaHandler.SetupSmsResponse | backend/api/handlers/user_management/multi_factor_authentication_handler.go:108-114 | 200 with the sent message exactly when the service did not err; otherwise 500 with "Failed to generate SMS code" |
| MfaHandler.BackupCodesResponse | backend/api/handlers/user_management/multi_factor_authentication_handler.go:165-171 | 200 with the codes exactly when the service did not err; otherwise 500 with "Failed to generate backup codes" |
| MfaHandler.SetupTotpResponse | backend/api/handlers/user_management/multi_factor_authentication_handler.go:41-56 | a failed secret is answered 500 whatever the QR outcome; a failed QR code after a saved secret is answered 500 with "Failed to generate QR code"; 200 exactly when both succeeded, with secret and QR code |
| MfaHandler.Disable | backend/api/handlers/user_management/multi_factor_authentication_handler.go:222-225 | MFA disabled, secret empty, method empty and no backup codes; every other MFA field kept |
| MfaHandler.MfaHandler.SetupTotp | backend/api/handlers/user_management/multi_factor_authentication_handler.go:38-57 | the user gets the TOTP enrolment and the table the outcome of saving it; without randomness neither changes; the QR code, built as written from the bytes of the secret's text, is built only after the secret was saved; any failure before that is answered 500 |
| MfaHandler.MfaHandler.DisableMfa | backend/api/handlers/user_management/multi_factor_authentication_handler.go:219-233 | the four fields reset, the user saved, and 200 or 500 as the save went |
| MfaHandler.ConsumedButUnsavedIsFailure | backend/api/handlers/user_management/multi_factor_authentication_handler.go:196-200 | a consumed code whose save failed, (true, err), is answered 500, not success |
| MfaHandler.DisableKeepsPendingCodes | backend/api/handlers/user_management/multi_factor_authentication_handler.go:222-225 | DisableMFA leaves the SMS and email codes, their expiries and the HOTP counter as they were |
| MfaHandler.PendingCodeReenables | backend/api/handlers/user_management/multi_factor_authentication_handler.go:222-225 | an SMS code issued before DisableMFA still matches after it, and consuming it turns MFA back on |

## Left out

- Twilio SMS and SMTP delivery (multi_factor_authentication.go:262-288) are network I/O. Each is a `delivered` outcome parameter.
- Argon2id, PASETO encryption and decryption, base32, and the TOTP and HOTP libraries are foreign. They are uninterpreted functions, and their laws are lemma preconditions. The PASETO nonce is drawn inside the library and is not modelled.
- `time.Now` is read once per request. Each method takes a single `now`, so two reads within one request are taken to be equal.
- gorm soft deletion (`DeletedAt`) is modelled as removal from the visible table.
- Database read failures other than record-not-found are not modelled. Write failures are one `healthy`/`storeOk` flag per write.
- A user's roles are stored in the user row. The `user_roles` and `role_permissions` join tables and gorm's association handling are not modelled. `AssignRoleToUser` saves the user with the role appended, as the code does.
- Columns the core never reads or writes are omitted: tenant, names, timestamps, profile and preferences.
- `uuid.MustParse` panics on a malformed id. The Authorization methods require a well-formed id instead of modelling the panic.
- `CreateRole` and `CreatePermission` (authorization.go:63-69) are pass-through calls to `Create` and are not modelled.
- Seeding (database/seed.go), configuration, startup, routes and the login handler are wiring and I/O. The seed stores a plaintext password. `Authentication.UnhashedPasswordNeverVerifies` states what logging in as that user then gives.
- Request binding in the handlers is reduced to `MfaHandler.BindFailure`, which answers 400. The gin context is not modelled.
- The code has no concurrency of its own, so races on backup codes or on refresh rotation are not modelled.
- `GenerateAccessToken`, `GenerateTempToken` and `ValidateToken` are the foreign sealer and opener applied to the claims. What they promise is stated through `AccessClaims`, `TempClaims` and the lemmas that assume `OpensSealed`.
- Mfa.MfaService.GenerateTotpQrCode: its contract fixes only the missing-secret case. The URI itself is the foreign `totp.Generate`, and `Mfa.QrKeyDecoded` states which key it is given.
- Mfa.MfaService.GenerateTotpQrCodeAsWritten: the same, with `Mfa.QrKeyAsWrittenDiffers` stating which key it is given.
- PasswordHash.AsWrittenAcceptsAnyPassword: what argon2.IDKey does at key length 0 is outside its contract and not modelled. The as-written lemmas take each outcome (empty key, non-empty key) as a hypothesis. If IDKey panics there instead, gin's recovery middleware answers the login with 500 and no login succeeds; panics are not modelled.
- Authentication.UnknownEmailLikeWrongPassword: holds of the corrected verifier only. As written a wrong password is not refused (`Authentication.WrongPasswordPassesAsWritten`) or the right one is refused too (`Authentication.NoPasswordPassesAsWritten`).
- Authentication.RightPasswordPasses: holds of the corrected verifier only, for the same reason.
- Authentication.RegisteredUserPasses: holds of the corrected verifier only, for the same reason.
- Mfa.BackupCodesOf: its contract states only the count. The shape of each code is `Mfa.BackupCodesShape`.

## Findings

| source | as written | input that shows it | evidently intended | confidence | as-written member | corrected member |
|---|---|---|---|---|---|---|
| backend/internal/services/user_management/authentication.go:191-198 | `decodeHash` never decodes field 5: the digest is nil and `keyLength` is `len(hash)`, which is 0, so `verifyPassword` compares the empty digest with the key IDKey derives at key length 0: if that key is empty every password is accepted, otherwise no login against a stored hash succeeds | the hash of "correcthorsebattery" with a zero salt, checked against "wrong" (accepted if the key at length 0 is empty; `Authentication.NoPasswordPassesAsWritten` gives the other outcome) | decode field 5 as the digest, and use its length as the key length | not executed | PasswordHash.AsWrittenWrongPasswordAccepted | PasswordHash.VerifyOtherPassword |
| backend/internal/models/user.go:44 | `MFASecret` has `size:32`, but the MFA service stores the 56-character base32 text of a 32-byte secret, so every TOTP and HOTP enrolment is refused by the column | any 32-byte secret: its base32 text has 56 characters | a secret column at least 56 characters wide | not executed | Mfa.EnrolmentRefusedAsWritten | Mfa.EnrolmentSaved |
| backend/internal/services/user_management/multi_factor_authentication.go:66-70 | the QR code is built from `[]byte(user.MFASecret)`, the 56 bytes of the base32 text, while `totp.Validate` decodes the same text to the 32-byte key, so the authenticator and the server hold different keys | any enrolled secret `encode(random)` with a 32-byte `random` | build the QR code from the key the stored secret decodes to | not executed | Mfa.QrKeyAsWrittenDiffers | Mfa.QrKeyDecoded |
