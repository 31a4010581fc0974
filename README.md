# Authentication and token lifecycle of an administrative backend

This project models, in Dafny, the authentication core of a small admin
backend: how it issues, checks, revokes and expires credentials. Two stores
are involved:

- **users**: each user has a password, an `isActive` flag, an
  `isEmailVerified` flag, a raw email-verification token with its expiry,
  and a hashed password-reset token with its expiry;
- **refresh tokens**: each record has an owning user id, a unique token
  value, `expiresAt`, `isRevoked` and `rememberMe`.

Both stores live in one `Store.Database` object, as sequences in store
order. A `findOne` query returns the first match in that order. The
handlers that write to the store (`GenerateTokens`, `SetPassword`, `Login`,
`Logout`, `ForgotPassword`, `ResetPassword`, `CreateUser`) are methods that take
that object and modify it. Their postconditions give the response and the whole new state
for every branch of the source. The read-only handlers (`Refresh`,
`VerifyToken`, `GetCurrentUser`) and login's rejection cascade
(`Authenticate`) are functions of the store contents. Lemmas state the
lifecycle properties:

- single-use tokens;
- strict expiry (`$gt`, and `expiresAt > now` in `isValid`);
- the 7-day, 30-day, 1-hour and 24-hour windows;
- revoke-all-on-reset, which leaves other users' tokens alone;
- idempotent logout;
- unchanged stores on every rejection;
- answers that do not reveal whether an account exists.

Modules, one per source file or component:

| module | file | models |
|---|---|---|
| `Basics` | basics.dfy | options and results, bytes, clock constants, JavaScript truthiness, `toLowerCase` |
| `Hex` | hex.dfy | `toString('hex')` / `digest('hex')` |
| `Http` | http.dfy | the `{success, message, data}` envelope and the access-token claim |
| `RefreshTokenModel` | refresh_token.dfy | src/models/RefreshToken.js and the collection operations run on it |
| `UserModel` | user_model.dfy | the user document as the controllers use it, the user query filters, the reset-token digest |
| `Store` | store.dfy | the shared database and its write operations |
| `AuthController` | auth_controller.dfy | src/controllers/authController.js |
| `UserController` | user_controller.dfy | src/controllers/userController.js |
| `Walkthrough` | walkthrough.dfy | a client run: create a user, set the password, replay, log in, refresh, log out, refresh refused |

How the outside world is abstracted:

- The clock (`Date.now()`) is a parameter `now`, in milliseconds.
- `crypto.randomBytes(n)` becomes a parameter: `n` bytes, rendered in hex.
- SHA-256 becomes a parameter `sha256: string -> seq<byte>`. The lemmas
  that need it to be injective say so (`Injective(sha256)`).
- The password comparison `comparePassword` becomes a parameter
  `(candidate, stored) -> bool`.
- Each email send becomes a boolean outcome parameter.
- In request bodies, an absent field is written `""`. In JavaScript, both
  an absent field and `""` are falsy.

Three behaviours of the code worth knowing:

- `createUser` attaches the verification token before its single save. It
  does not persist the user first and attach the token afterwards.
- Both `forgotPassword`'s rollback and a successful reset set the reset
  fields to undefined. So the rollback also erases any reset link that was
  still valid from an earlier request.
- The "account deactivated" and "set your password first" answers come
  before the password is checked. They therefore show that an account
  exists to anyone who knows the email, without its password
  (`DeactivatedRefusedWhateverPassword`).

## Model

| member | source | states |
|---|---|---|
| `Basics.LowerIdempotent` | src/controllers/authController.js:112 | lower-casing twice is lower-casing once, so a stored (lower-cased) email is found by the lower-cased lookup of itself |
| `Basics.Lower` | src/controllers/authController.js:112 | `toLowerCase` on ASCII letters keeps the length; login and forgot-password look the email up in this folded form |
| `Hex.Encode` | src/controllers/authController.js:19 | a hex rendering has two lower-case hex digits per byte, so a 64-byte refresh token is 128 characters and never empty |
| `Hex.EncodeInjective` | src/controllers/authController.js:19 | distinct byte strings render to distinct token strings |
| `RefreshTokenModel.NewRecord` | src/models/RefreshToken.js:20-23 | a newly created record is not revoked (schema default) |
| `RefreshTokenModel.NewRecordValidUntilExpiry` | src/models/RefreshToken.js:28-42 | a fresh record is valid at `now` iff `now < expiresAt` (strict, so the expiry instant is already invalid); `rememberMe` defaults to false |
| `RefreshTokenModel.Create` | src/models/RefreshToken.js:4-14 | create appends exactly the new record; it refuses an empty token (required) or a token value already stored (unique index); the unique-token and required invariants are preserved |
| `RefreshTokenModel.IsValid` | src/models/RefreshToken.js:40-42 | a record is usable iff it is not revoked and its expiry is strictly after the clock |
| `RefreshTokenModel.FindToken` | src/controllers/authController.js:207 | findOne returns the first record the filter selects, and None only when no record is selected |
| `RefreshTokenModel.RevokeFirst` | src/controllers/authController.js:249-252 | updateOne keeps the length and changes each record at most by revoking it |
| `RefreshTokenModel.RevokeAll` | src/controllers/authController.js:377-380 | updateMany keeps the store's length |
| `RefreshTokenModel.RevokeAllAt` | src/controllers/authController.js:377-380 | updateMany revokes exactly the selected records and leaves every other record unchanged |
| `RefreshTokenModel.RevokeKeepsWellFormed` | src/models/RefreshToken.js:10-14 | neither update breaks token uniqueness or the required token |
| `UserModel.FindUser` | src/controllers/authController.js:64-67 | User.findOne/findById returns the first matching user, and None only when no user matches (an expiry matches only when present and strictly after `now`) |
| `UserModel.ResetDigest` | src/controllers/authController.js:355 | the stored form of a reset token is the hex rendering of its SHA-256 digest, the same at issue (line 296), redemption and pre-check (line 418) |
| `UserModel.ResetDigestInjective` | src/controllers/authController.js:355-361 | with an injective SHA-256, two raw tokens with the same stored hex digest are equal |
| `Store.Database.SaveUser` | src/controllers/authController.js:81 | save replaces exactly the document read, keeps both keys, leaves refresh tokens alone and keeps the invariants |
| `Store.Database.InsertUser` | src/controllers/userController.js:20 | inserting a user is refused (E11000) exactly when its id or email is taken; otherwise it appends the user |
| `Store.Database.CreateRefreshToken` | src/controllers/authController.js:26-31 | RefreshToken.create appends the record iff validation and the unique index accept it, and users are unchanged |
| `Store.Database.UpdateOneRevoked` | src/controllers/authController.js:249-252 | updateOne with `{isRevoked: true}` leaves users unchanged and keeps the invariants |
| `Store.Database.UpdateManyRevoked` | src/controllers/authController.js:377-380 | updateMany with `{isRevoked: true}` leaves users unchanged and keeps the invariants |
| `AuthController.RefreshExpiry` | src/controllers/authController.js:21-23 | a refresh token expires 30 days after issue with remember-me, else 7 days, a day taken as 86400000 ms |
| `AuthController.RefreshLifetime` | src/controllers/authController.js:21-23 | an issued refresh token is usable for exactly 7 days, or 30 with remember-me |
| `AuthController.GenerateTokens` | src/controllers/authController.js:10-38 | inserts exactly one non-revoked record (value = hex of the random bytes, expiry now + 7 or 30 days, the given rememberMe), returns both tokens and expiresIn = 900; a duplicate value inserts nothing |
| `AuthController.SetPassword` | src/controllers/authController.js:48-86 | missing fields, then a short password, are refused before any lookup; success iff an unexpired raw verification token matches; success sets the password, marks the email verified and clears both verification fields; every refusal leaves the store unchanged |
| `AuthController.SetPasswordSingleUse` | src/controllers/authController.js:76-81 | once redeemed, the same verification token is refused at any later time (when no other user holds it) |
| `AuthController.Authenticate` | src/controllers/authController.js:104-155 | the cascade passes only for present fields and a user found by the lower-cased email who is active, has a password that compares equal and is verified; a missing email or password gives 400 "Email and password are required"; every refusal is a failure without data, and 401 once both fields are present |
| `AuthController.LoginSucceedsIff` | src/controllers/authController.js:112-155 | with unique emails, login passes the cascade iff some account with that email can log in |
| `AuthController.UnknownEmailLooksLikeWrongPassword` | src/controllers/authController.js:116-147 | an unknown email and a wrong password for an existing account get the identical 401 "Invalid email or password" |
| `AuthController.DeactivatedRefusedWhateverPassword` | src/controllers/authController.js:123-129 | a deactivated account is refused with "Account is deactivated" whatever password is given |
| `AuthController.PasswordNotSetRefusedWhateverPassword` | src/controllers/authController.js:131-137 | an active account whose password was never set is refused with "Please set your password first..." whatever password is given, before any comparison |
| `AuthController.UnverifiedEmailRefusedLast` | src/controllers/authController.js:149-155 | an active account given its right password but with an unverified email gets 401 "Please verify your email first" |
| `AuthController.Login` | src/controllers/authController.js:100-188 | users never change; each refusal returns the cascade's answer with the refresh store unchanged; success appends exactly one new record and returns the session; a duplicate refresh value yields 500 with nothing inserted |
| `AuthController.Refresh` | src/controllers/authController.js:199-229 | a missing token gives 400; success only for a stored record with that exact value that is valid now, and returns an access token for its user with expiresIn 900; every other case gives 401 |
| `AuthController.RefreshSucceedsIff` | src/controllers/authController.js:207-214 | with unique token values, refresh succeeds iff a record with exactly that value is not revoked and not expired |
| `AuthController.IssuedTokenRefreshes` | src/controllers/authController.js:207-214 | a refresh token that login just issued refreshes exactly until its expiry |
| `AuthController.Logout` | src/controllers/authController.js:247-258 | always answers "Logout successful"; with a token, revokes its record; without one, changes nothing |
| `AuthController.LogoutRevokesOnlyThatToken` | src/controllers/authController.js:247-252 | with unique token values, logout revokes the record holding that value and no other |
| `AuthController.LogoutIdempotent` | src/controllers/authController.js:249-252 | logging out twice with one token leaves the same store as logging out once |
| `AuthController.LoggedOutTokenRefused` | src/controllers/authController.js:207-214 | after logout, that token never refreshes again |
| `AuthController.ForgotPassword` | src/controllers/authController.js:276-321 | an unknown email gets the same success answer as a delivered link and changes nothing; a found user gets the digest of the raw token with expiry now + 3600000; a failed send clears both reset fields and answers 500 |
| `AuthController.ResetLinkLastsAnHour` | src/controllers/authController.js:298-300 | the stored digest matches the emailed token exactly while `now < issue time + 1 hour` |
| `AuthController.OnlyTheMailedTokenResets` | src/controllers/authController.js:355-361 | with an injective SHA-256, no raw token other than the emailed one matches the stored digest |
| `AuthController.ResetPassword` | src/controllers/authController.js:339-384 | missing fields or a short password are refused before any lookup; success iff the digest of the token matches an unexpired reset token; success sets the password, clears the reset fields and revokes every live refresh token of that user; refusals change nothing |
| `AuthController.ResetRevokesOnlyThatUser` | src/controllers/authController.js:376-380 | after a reset, every record of that user is revoked and every other user's record is unchanged |
| `AuthController.TokensIssuedBeforeResetRefused` | src/controllers/authController.js:376-380 | after a reset, no refresh token the user held before it refreshes |
| `AuthController.ResetPasswordSingleUse` | src/controllers/authController.js:370-374 | once redeemed, the same reset token is refused at any later time (when no other user holds its digest) |
| `AuthController.VerifyToken` | src/controllers/authController.js:403-440 | missing token or type gives 400; success iff the type is "email" and the raw token matches an unexpired verification token, or "reset" and its digest matches an unexpired reset token; any other type is "Invalid or expired token"; success returns that user's email and names |
| `AuthController.VerifyTokenPredictsRedemption` | src/controllers/authController.js:412-422 | the pre-check succeeds exactly when set-password's (email) or reset-password's (reset) lookup finds a user |
| `AuthController.GetCurrentUser` | src/controllers/authController.js:456-481 | success iff a user with that id exists, returning that user's id, email, names and both flags; otherwise 404 "User not found" |
| `UserController.CreateUser` | src/controllers/userController.js:8-49 | stores the user with the raw verification token and an expiry now + 86400000; a duplicate id or email gives 400 "User with this email already exists"; any other save failure gives 500; success gives 201 whether or not the email was delivered |
| `UserController.NewUserCanSetPasswordForADay` | src/controllers/userController.js:16-20 | set-password's lookup finds a newly created user's token for exactly 24 hours (when no other user holds it) |

## Left out

- JWT signing and verification (RFC 7519): the access token is the claim `AccessToken(userId)`. The signature, the secret and the 15-minute check at resource access are not modelled; only `expiresIn = 900` is.
- SHA-256 (FIPS 180-4) and `crypto.randomBytes`: SHA-256 is an arbitrary function parameter, injective where a lemma says so. Random bytes are parameters of the right length.
- Password hashing and comparison: the User model's save hook and `comparePassword` are not part of this model. The stored password is abstract, and the comparison is a parameter.
- Email delivery: src/services/emailService.js is not part of this model (transport selection, templates, links). Each send is a boolean outcome.
- The User schema: src/models/User.js is not part of this model. The model assumes unique indexes on `_id` and `email` and an email lower-cased on save.
- Store faults: each handler's `catch` answer 500 for an unexpected database error is not modelled. Exceptions: a duplicate refresh-token value in login, and `createUser`'s save failures.
- The TTL index (src/models/RefreshToken.js:37): expired records are never physically removed. `isValid` refuses them anyway.
- Timestamps and device info: the `createdAt`/`updatedAt` timestamps and `deviceInfo` are not modelled. No handler writes `deviceInfo`.
- Calendar days: `setDate(getDate() + N)` is taken as N × 86400000 ms. This ignores daylight-saving transitions in local time.
- Concurrency: the model is sequential. Two concurrent redemptions of one token (read-then-write, no atomic guard) are not modelled.
- Response bodies: login's profile is reduced to id and email. The profile of `getCurrentUser` is reduced to id, email, names and the two flags. `createUser`'s 201 body, the populated user document, is reduced to id and email and marked successful. `populate('companyId')` is not modelled.
- `toLowerCase` is modelled on ASCII letters only. `password.length` counts Unicode scalar values, not UTF-16 code units.
- Request fields that are not strings, such as an object standing for a query operator, are not modelled. Every field is a string, and an absent one is `""`.
- `SetPasswordSingleUse`, `ResetPasswordSingleUse` and `NewUserCanSetPasswordForADay` assume that no other user holds the same token. No index enforces this; with random tokens a collision is only improbable.
- src/api/index.js (generated CRUD routes), src/models/Company.js (schema only) and index.js (startup) are not part of this model.
