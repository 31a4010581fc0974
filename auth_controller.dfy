/**
 * The authentication handlers: token issuance, set-password, login,
 * refresh, logout, forgot-password, reset-password, verify-token and the
 * current-user lookup. Handlers that only read the store are functions of
 * its contents; handlers that write it are methods on the shared Database.
 *
 * The clock (Date.now()) is the parameter `now`, in milliseconds; random
 * bytes, the SHA-256 function, the password comparison and the outcome of
 * an email send are parameters too.
 */
module AuthController {
  import opened Basics
  import opened Http
  import opened UserModel
  import opened RefreshTokenModel
  import opened Store
  import Hex

  const MinPasswordLength: int := 8
  const AccessTokenSeconds: int := 900
  const RefreshTokenBytes: int := 64
  const ResetTokenBytes: int := 32

  const MsgTokenAndPasswordRequired := "Token and password are required"
  const MsgPasswordTooShort := "Password must be at least 8 characters long"
  const MsgInvalidOrExpiredToken := "Invalid or expired token"
  const MsgPasswordSet := "Password set successfully. You can now login."
  const MsgEmailAndPasswordRequired := "Email and password are required"
  const MsgInvalidCredentials := "Invalid email or password"
  const MsgDeactivated := "Account is deactivated"
  const MsgPasswordNotSet := "Please set your password first. Check your email for the setup link."
  const MsgEmailNotVerified := "Please verify your email first"
  const MsgLoginOk := "Login successful"
  const MsgLoginError := "An error occurred during login"
  const MsgRefreshRequired := "Refresh token is required"
  const MsgInvalidRefresh := "Invalid or expired refresh token"
  const MsgLogoutOk := "Logout successful"
  const MsgEmailRequired := "Email is required"
  const MsgResetLinkSent := "If the email exists, a password reset link has been sent"
  const MsgEmailSendFailed := "Error sending email. Please try again later."
  const MsgPasswordResetOk := "Password reset successful. Please login with your new password."
  const MsgTokenAndTypeRequired := "Token and type are required"
  const MsgTokenValid := "Token is valid"
  const MsgUserNotFound := "User not found"

  // ---------------------------------------------------------------------
  // Token issuance
  // ---------------------------------------------------------------------

  datatype TokenPair = TokenPair(accessToken: AccessToken, refreshToken: string, expiresIn: int)

  /** 30 calendar days with remember-me, else 7, each taken as 86400000 ms. */
  function RefreshExpiry(now: int, rememberMe: bool): int {
    now + (if rememberMe then 30 else 7) * DayMs
  }

  /** A refresh token issued at `now` stays usable for exactly 7 days, or 30 with remember-me. */
  lemma RefreshLifetime(userId: UserId, value: string, now: int, rememberMe: bool, t: int)
    ensures IsValid(NewRecord(userId, value, RefreshExpiry(now, rememberMe), rememberMe), t)
            <==> t - now < (if rememberMe then 30 else 7) * DayMs
  {
  }

  /**
   * generateTokens: signs the access token, renders the 64 random bytes
   * as the refresh-token value and inserts exactly one new record; the
   * insert throws when the value is already stored.
   */
  method GenerateTokens(db: Database, userId: UserId, rememberMe: bool, randomBytes: seq<byte>, now: int)
    returns (tokens: Option<TokenPair>)
    requires db.Valid() && |randomBytes| == RefreshTokenBytes
    modifies db
    ensures db.Valid() && db.users == old(db.users)
    ensures var value := Hex.Encode(randomBytes);
      if TokenInUse(old(db.refreshTokens), value) then
        tokens.None? && db.refreshTokens == old(db.refreshTokens)
      else
        && tokens == Some(TokenPair(AccessToken(userId), value, AccessTokenSeconds))
        && db.refreshTokens == old(db.refreshTokens) + [NewRecord(userId, value, RefreshExpiry(now, rememberMe), rememberMe)]
  {
    var accessToken := AccessToken(userId);
    var value := Hex.Encode(randomBytes);
    var expiresAt := RefreshExpiry(now, rememberMe);
    var created := db.CreateRefreshToken(NewRecord(userId, value, expiresAt, rememberMe));
    if !created {
      return None;
    }
    tokens := Some(TokenPair(accessToken, value, AccessTokenSeconds));
  }

  // ---------------------------------------------------------------------
  // Set password (first time)
  // ---------------------------------------------------------------------

  /** The fields setPassword assigns before saving. */
  function Activated(u: User, password: string): User {
    u.(password := Some(password), isEmailVerified := true,
       emailVerificationToken := None, emailVerificationExpires := None)
  }

  method SetPassword(db: Database, token: string, password: string, now: int) returns (resp: Response)
    requires db.Valid()
    modifies db
    ensures db.Valid() && db.refreshTokens == old(db.refreshTokens)
    ensures !Present(token) || !Present(password) ==>
      resp == Fail(400, MsgTokenAndPasswordRequired) && db.users == old(db.users)
    ensures Present(token) && Present(password) && |password| < MinPasswordLength ==>
      resp == Fail(400, MsgPasswordTooShort) && db.users == old(db.users)
    ensures Present(token) && |password| >= MinPasswordLength ==>
      var found := FindUser(old(db.users), ByVerificationToken(token, now));
      if found.None? then
        resp == Fail(400, MsgInvalidOrExpiredToken) && db.users == old(db.users)
      else
        resp == Done(MsgPasswordSet) &&
        db.users == old(db.users)[found.value := Activated(old(db.users)[found.value], password)]
  {
    if !Present(token) || !Present(password) {
      return Fail(400, MsgTokenAndPasswordRequired);
    }
    if |password| < MinPasswordLength {
      return Fail(400, MsgPasswordTooShort);
    }
    var found := FindUser(db.users, ByVerificationToken(token, now));
    if found.None? {
      return Fail(400, MsgInvalidOrExpiredToken);
    }
    var i := found.value;
    var user := db.users[i];
    user := user.(password := Some(password));
    user := user.(isEmailVerified := true);
    user := user.(emailVerificationToken := None);
    user := user.(emailVerificationExpires := None);
    db.SaveUser(i, user);
    resp := Done(MsgPasswordSet);
  }

  /**
   * A redeemed verification token cannot be redeemed again, at any later
   * time, provided no other user holds the same token value.
   */
  lemma SetPasswordSingleUse(users: seq<User>, token: string, password: string, now: int, later: int)
    requires FindUser(users, ByVerificationToken(token, now)).Some?
    requires forall j :: 0 <= j < |users| && users[j].emailVerificationToken == Some(token) ==>
               j == FindUser(users, ByVerificationToken(token, now)).value
    ensures var i := FindUser(users, ByVerificationToken(token, now)).value;
      FindUser(users[i := Activated(users[i], password)], ByVerificationToken(token, later)).None?
  {
  }

  // ---------------------------------------------------------------------
  // Login
  // ---------------------------------------------------------------------

  /** What login demands of the account found for the email. */
  predicate CanLogIn(u: User, password: string, comparePassword: (string, string) -> bool) {
    u.isActive && HasPassword(u) && comparePassword(password, u.password.value) && u.isEmailVerified
  }

  /**
   * login's rejection cascade, in the source's order: missing fields,
   * unknown email, deactivated, password never set, wrong password, email
   * not verified. Ok(i) is the index of the user to issue tokens for.
   */
  function Authenticate(users: seq<User>, email: string, password: string,
                        comparePassword: (string, string) -> bool): (r: Result<nat, Response>)
    ensures !Present(email) || !Present(password) ==> r == Err(Fail(400, MsgEmailAndPasswordRequired))
    ensures r.Ok? ==> Present(email) && Present(password)
    ensures r.Ok? ==> r.value < |users| && users[r.value].email == Lower(email)
    ensures r.Ok? ==> CanLogIn(users[r.value], password, comparePassword)
    ensures r.Err? ==> !r.error.success && r.error.data == NoData
    ensures r.Err? && Present(email) && Present(password) ==> r.error.status == 401
  {
    if !Present(email) || !Present(password) then
      Err(Fail(400, MsgEmailAndPasswordRequired))
    else match FindUser(users, ByEmail(Lower(email)))
      case None => Err(Fail(401, MsgInvalidCredentials))
      case Some(i) =>
        var user := users[i];
        if !user.isActive then Err(Fail(401, MsgDeactivated))
        else if !HasPassword(user) then Err(Fail(401, MsgPasswordNotSet))
        else if !comparePassword(password, user.password.value) then Err(Fail(401, MsgInvalidCredentials))
        else if !user.isEmailVerified then Err(Fail(401, MsgEmailNotVerified))
        else Ok(i)
  }

  /** With unique emails, login gets past the cascade iff an account with the folded email can log in. */
  lemma LoginSucceedsIff(users: seq<User>, email: string, password: string,
                         comparePassword: (string, string) -> bool)
    requires WellKeyed(users)
    ensures Authenticate(users, email, password, comparePassword).Ok? <==>
      Present(email) && Present(password) &&
      exists i :: 0 <= i < |users| && users[i].email == Lower(email) && CanLogIn(users[i], password, comparePassword)
  {
  }

  /**
   * An email with no account and an existing account given the wrong
   * password get the same answer, so the answer does not reveal whether
   * the account exists.
   */
  lemma UnknownEmailLooksLikeWrongPassword(
    unknown: seq<User>, known: seq<User>, email: string, password: string,
    comparePassword: (string, string) -> bool)
    requires Present(email) && Present(password)
    requires forall j :: 0 <= j < |unknown| ==> unknown[j].email != Lower(email)
    requires var found := FindUser(known, ByEmail(Lower(email)));
      found.Some? && known[found.value].isActive && HasPassword(known[found.value]) &&
      !comparePassword(password, known[found.value].password.value)
    ensures Authenticate(unknown, email, password, comparePassword)
         == Authenticate(known, email, password, comparePassword)
         == Err(Fail(401, MsgInvalidCredentials))
  {
  }

  /**
   * A deactivated account is refused before its password is looked at:
   * the answer is the same whatever password is given.
   */
  lemma DeactivatedRefusedWhateverPassword(users: seq<User>, email: string, p1: string, p2: string,
                                           comparePassword: (string, string) -> bool)
    requires Present(email) && Present(p1) && Present(p2)
    requires exists i :: 0 <= i < |users| && users[i].email == Lower(email) && !users[i].isActive
    requires WellKeyed(users)
    ensures Authenticate(users, email, p1, comparePassword)
         == Authenticate(users, email, p2, comparePassword)
         == Err(Fail(401, MsgDeactivated))
  {
  }

  /**
   * An active account whose password was never set is refused before any
   * password comparison: the answer is the same whatever password is given.
   */
  lemma PasswordNotSetRefusedWhateverPassword(users: seq<User>, email: string, p1: string, p2: string,
                                              comparePassword: (string, string) -> bool)
    requires Present(email) && Present(p1) && Present(p2)
    requires exists i :: 0 <= i < |users| && users[i].email == Lower(email) &&
                         users[i].isActive && !HasPassword(users[i])
    requires WellKeyed(users)
    ensures Authenticate(users, email, p1, comparePassword)
         == Authenticate(users, email, p2, comparePassword)
         == Err(Fail(401, MsgPasswordNotSet))
  {
  }

  /**
   * The email-verification check comes last: an active account given its
   * right password but whose email is not verified gets its own answer.
   */
  lemma UnverifiedEmailRefusedLast(users: seq<User>, email: string, password: string,
                                   comparePassword: (string, string) -> bool)
    requires Present(email) && Present(password)
    requires exists i :: 0 <= i < |users| && users[i].email == Lower(email) &&
                         users[i].isActive && HasPassword(users[i]) &&
                         comparePassword(password, users[i].password.value) && !users[i].isEmailVerified
    requires WellKeyed(users)
    ensures Authenticate(users, email, password, comparePassword) == Err(Fail(401, MsgEmailNotVerified))
  {
  }

  /**
   * login: the rejection cascade, then generateTokens. Users are never
   * changed; every rejection leaves the refresh store as it was; success
   * adds exactly one record. A refresh-token value already stored makes
   * the insert throw, which login answers with 500.
   */
  method Login(db: Database, email: string, password: string, rememberMe: bool,
               comparePassword: (string, string) -> bool, randomBytes: seq<byte>, now: int)
    returns (resp: Response)
    requires db.Valid() && |randomBytes| == RefreshTokenBytes
    modifies db
    ensures db.Valid() && db.users == old(db.users)
    ensures var verdict := Authenticate(old(db.users), email, password, comparePassword);
      verdict.Err? ==> resp == verdict.error && db.refreshTokens == old(db.refreshTokens)
    ensures var verdict := Authenticate(old(db.users), email, password, comparePassword);
      verdict.Ok? ==>
        var user := old(db.users)[verdict.value];
        var value := Hex.Encode(randomBytes);
        if TokenInUse(old(db.refreshTokens), value) then
          resp == Fail(500, MsgLoginError) && db.refreshTokens == old(db.refreshTokens)
        else
          && resp == Response(200, true, MsgLoginOk,
                              Session(user.id, user.email, AccessToken(user.id), value, AccessTokenSeconds))
          && db.refreshTokens == old(db.refreshTokens) + [NewRecord(user.id, value, RefreshExpiry(now, rememberMe), rememberMe)]
  {
    var verdict := Authenticate(db.users, email, password, comparePassword);
    if verdict.Err? {
      return verdict.error;
    }
    var user := db.users[verdict.value];
    var tokens := GenerateTokens(db, user.id, rememberMe, randomBytes, now);
    if tokens.None? {
      return Fail(500, MsgLoginError);
    }
    resp := Response(200, true, MsgLoginOk,
                     Session(user.id, user.email, tokens.value.accessToken, tokens.value.refreshToken, tokens.value.expiresIn));
  }

  // ---------------------------------------------------------------------
  // Refresh
  // ---------------------------------------------------------------------

  /**
   * refreshToken: findOne({token, isRevoked: false}) then isValid(); only
   * a new access token is issued and the store is only read.
   */
  function Refresh(tokens: seq<RefreshToken>, token: string, now: int): (r: Response)
    ensures !Present(token) ==> r == Fail(400, MsgRefreshRequired)
    ensures Present(token) && !r.success ==> r == Fail(401, MsgInvalidRefresh)
    ensures r.success ==> exists i :: 0 <= i < |tokens| && tokens[i].token == token && IsValid(tokens[i], now) &&
                                      r.data == Renewed(AccessToken(tokens[i].userId), AccessTokenSeconds)
  {
    if !Present(token) then Fail(400, MsgRefreshRequired)
    else match FindToken(tokens, ActiveByValue(token))
      case None => Fail(401, MsgInvalidRefresh)
      case Some(i) =>
        if !IsValid(tokens[i], now) then Fail(401, MsgInvalidRefresh)
        else Response(200, true, "", Renewed(AccessToken(tokens[i].userId), AccessTokenSeconds))
  }

  /** With unique token values, refresh succeeds iff a record with exactly that value is valid now. */
  lemma RefreshSucceedsIff(tokens: seq<RefreshToken>, token: string, now: int)
    requires UniqueTokens(tokens)
    ensures Refresh(tokens, token, now).success <==>
      Present(token) && exists i :: 0 <= i < |tokens| && tokens[i].token == token && IsValid(tokens[i], now)
  {
  }

  /** The refresh token a login just issued refreshes until it expires. */
  lemma IssuedTokenRefreshes(tokens: seq<RefreshToken>, userId: UserId, value: string, now: int,
                             rememberMe: bool, t: int)
    requires Present(value) && !TokenInUse(tokens, value)
    ensures Refresh(tokens + [NewRecord(userId, value, RefreshExpiry(now, rememberMe), rememberMe)], value, t).success
            <==> t < RefreshExpiry(now, rememberMe)
  {
    var after := tokens + [NewRecord(userId, value, RefreshExpiry(now, rememberMe), rememberMe)];
    assert Selects(ActiveByValue(value), after[|tokens|]);
    assert forall j :: 0 <= j < |tokens| ==> after[j] == tokens[j];
    assert FindToken(after, ActiveByValue(value)) == Some(|tokens|);
  }

  // ---------------------------------------------------------------------
  // Logout
  // ---------------------------------------------------------------------

  /** logout: always answers success; with a token, revokes its record (revoked or not); without, does nothing. */
  method Logout(db: Database, token: string) returns (resp: Response)
    requires db.Valid()
    modifies db
    ensures db.Valid() && db.users == old(db.users)
    ensures resp == Done(MsgLogoutOk)
    ensures db.refreshTokens == if Present(token) then RevokeFirst(old(db.refreshTokens), ByValue(token))
                                else old(db.refreshTokens)
  {
    if Present(token) {
      db.UpdateOneRevoked(ByValue(token));
    }
    resp := Done(MsgLogoutOk);
  }

  /** With unique token values, logout revokes the record holding the value and changes nothing else. */
  lemma LogoutRevokesOnlyThatToken(s: seq<RefreshToken>, token: string, k: nat)
    requires UniqueTokens(s) && k < |s|
    ensures RevokeFirst(s, ByValue(token))[k] == if s[k].token == token then Revoke(s[k]) else s[k]
  {
  }

  /** Logging out twice with the same token is logging out once. */
  lemma LogoutIdempotent(s: seq<RefreshToken>, token: string)
    ensures RevokeFirst(RevokeFirst(s, ByValue(token)), ByValue(token)) == RevokeFirst(s, ByValue(token))
  {
  }

  /** After logout, the logged-out token no longer refreshes, at any time. */
  lemma LoggedOutTokenRefused(s: seq<RefreshToken>, token: string, now: int)
    requires UniqueTokens(s)
    ensures !Refresh(RevokeFirst(s, ByValue(token)), token, now).success
  {
  }

  // ---------------------------------------------------------------------
  // Forgot password
  // ---------------------------------------------------------------------

  function WithResetToken(u: User, digest: string, expires: int): User {
    u.(passwordResetToken := Some(digest), passwordResetExpires := Some(expires))
  }

  function WithoutResetToken(u: User): User {
    u.(passwordResetToken := None, passwordResetExpires := None)
  }

  /** The answer for an unknown email and for a delivered reset link alike. */
  function ResetLinkAck(): Response {
    Done(MsgResetLinkSent)
  }

  /**
   * forgotPassword: for a known email, stores the digest of the random
   * token with a one-hour expiry and saves; if the email then fails, clears
   * both fields, saves again and answers 500. An unknown email gets the
   * same answer as a delivered link and changes nothing.
   */
  method ForgotPassword(db: Database, email: string, resetBytes: seq<byte>,
                        sha256: string -> seq<byte>, delivered: bool, now: int)
    returns (resp: Response)
    requires db.Valid() && |resetBytes| == ResetTokenBytes
    modifies db
    ensures db.Valid() && db.refreshTokens == old(db.refreshTokens)
    ensures !Present(email) ==> resp == Fail(400, MsgEmailRequired) && db.users == old(db.users)
    ensures Present(email) ==>
      var found := FindUser(old(db.users), ByEmail(Lower(email)));
      if found.None? then
        resp == ResetLinkAck() && db.users == old(db.users)
      else if delivered then
        resp == ResetLinkAck() &&
        db.users == old(db.users)[found.value := WithResetToken(old(db.users)[found.value],
                                     ResetDigest(sha256, Hex.Encode(resetBytes)), now + HourMs)]
      else
        resp == Fail(500, MsgEmailSendFailed) &&
        db.users == old(db.users)[found.value := WithoutResetToken(old(db.users)[found.value])]
  {
    if !Present(email) {
      return Fail(400, MsgEmailRequired);
    }
    var found := FindUser(db.users, ByEmail(Lower(email)));
    if found.None? {
      return ResetLinkAck();
    }
    var i := found.value;
    var user := db.users[i];
    var resetToken := Hex.Encode(resetBytes);
    var hashedToken := ResetDigest(sha256, resetToken);
    user := user.(passwordResetToken := Some(hashedToken));
    user := user.(passwordResetExpires := Some(now + HourMs));
    db.SaveUser(i, user);
    if !delivered {
      user := user.(passwordResetToken := None);
      user := user.(passwordResetExpires := None);
      db.SaveUser(i, user);
      return Fail(500, MsgEmailSendFailed);
    }
    resp := ResetLinkAck();
  }

  /** The emailed link works for exactly one hour. */
  lemma ResetLinkLastsAnHour(u: User, sha256: string -> seq<byte>, raw: string, now: int, t: int)
    ensures Matches(WithResetToken(u, ResetDigest(sha256, raw), now + HourMs), ByResetToken(ResetDigest(sha256, raw), t))
            <==> t < now + HourMs
  {
  }

  /** Only the raw token that was emailed matches the stored digest. */
  lemma OnlyTheMailedTokenResets(u: User, sha256: string -> seq<byte>, raw: string, other: string, expires: int, t: int)
    requires Injective(sha256) && other != raw
    ensures !Matches(WithResetToken(u, ResetDigest(sha256, raw), expires), ByResetToken(ResetDigest(sha256, other), t))
  {
    if ResetDigest(sha256, other) == ResetDigest(sha256, raw) {
      ResetDigestInjective(sha256, other, raw);
    }
  }

  // ---------------------------------------------------------------------
  // Reset password
  // ---------------------------------------------------------------------

  /** The fields resetPassword assigns before saving. */
  function WithNewPassword(u: User, password: string): User {
    u.(password := Some(password), passwordResetToken := None, passwordResetExpires := None)
  }

  /**
   * resetPassword: redeems the digest of the given token if unexpired,
   * sets the password, clears the reset fields, then revokes every
   * non-revoked refresh token of that user.
   */
  method ResetPassword(db: Database, token: string, password: string,
                       sha256: string -> seq<byte>, now: int) returns (resp: Response)
    requires db.Valid()
    modifies db
    ensures db.Valid()
    ensures !Present(token) || !Present(password) ==>
      resp == Fail(400, MsgTokenAndPasswordRequired) &&
      db.users == old(db.users) && db.refreshTokens == old(db.refreshTokens)
    ensures Present(token) && Present(password) && |password| < MinPasswordLength ==>
      resp == Fail(400, MsgPasswordTooShort) &&
      db.users == old(db.users) && db.refreshTokens == old(db.refreshTokens)
    ensures Present(token) && |password| >= MinPasswordLength ==>
      var found := FindUser(old(db.users), ByResetToken(ResetDigest(sha256, token), now));
      if found.None? then
        resp == Fail(400, MsgInvalidOrExpiredToken) &&
        db.users == old(db.users) && db.refreshTokens == old(db.refreshTokens)
      else
        && resp == Done(MsgPasswordResetOk)
        && db.users == old(db.users)[found.value := WithNewPassword(old(db.users)[found.value], password)]
        && db.refreshTokens == RevokeAll(old(db.refreshTokens), ActiveOfUser(old(db.users)[found.value].id))
  {
    if !Present(token) || !Present(password) {
      return Fail(400, MsgTokenAndPasswordRequired);
    }
    if |password| < MinPasswordLength {
      return Fail(400, MsgPasswordTooShort);
    }
    var hashedToken := ResetDigest(sha256, token);
    var found := FindUser(db.users, ByResetToken(hashedToken, now));
    if found.None? {
      return Fail(400, MsgInvalidOrExpiredToken);
    }
    var i := found.value;
    var user := db.users[i];
    user := user.(password := Some(password));
    user := user.(passwordResetToken := None);
    user := user.(passwordResetExpires := None);
    db.SaveUser(i, user);
    db.UpdateManyRevoked(ActiveOfUser(user.id));
    resp := Done(MsgPasswordResetOk);
  }

  /** A reset revokes every record of that user and leaves every other user's records as they were. */
  lemma ResetRevokesOnlyThatUser(s: seq<RefreshToken>, userId: UserId, k: nat)
    requires k < |s|
    ensures RevokeAll(s, ActiveOfUser(userId))[k] == if s[k].userId == userId then Revoke(s[k]) else s[k]
  {
    RevokeAllAt(s, ActiveOfUser(userId), k);
  }

  /** After a reset, no refresh token the user held before it refreshes any more. */
  lemma TokensIssuedBeforeResetRefused(s: seq<RefreshToken>, userId: UserId, k: nat, now: int)
    requires WellFormed(s) && k < |s| && s[k].userId == userId
    ensures !Refresh(RevokeAll(s, ActiveOfUser(userId)), s[k].token, now).success
  {
    var after := RevokeAll(s, ActiveOfUser(userId));
    RevokeKeepsWellFormed(s, ActiveOfUser(userId));
    forall j | 0 <= j < |s| ensures after[j].token == s[k].token ==> after[j].isRevoked {
      ResetRevokesOnlyThatUser(s, userId, j);
    }
    RefreshSucceedsIff(after, s[k].token, now);
  }

  /**
   * A redeemed reset token cannot be redeemed again, at any later time,
   * provided no other user holds the same digest.
   */
  lemma ResetPasswordSingleUse(users: seq<User>, digest: string, password: string, now: int, later: int)
    requires FindUser(users, ByResetToken(digest, now)).Some?
    requires forall j :: 0 <= j < |users| && users[j].passwordResetToken == Some(digest) ==>
               j == FindUser(users, ByResetToken(digest, now)).value
    ensures var i := FindUser(users, ByResetToken(digest, now)).value;
      FindUser(users[i := WithNewPassword(users[i], password)], ByResetToken(digest, later)).None?
  {
  }

  // ---------------------------------------------------------------------
  // Verify token, current user
  // ---------------------------------------------------------------------

  /** The lookup verifyToken runs for the types it knows. */
  function TokenQuery(kind: string, token: string, sha256: string -> seq<byte>, now: int): UserFilter {
    if kind == "email" then ByVerificationToken(token, now)
    else ByResetToken(ResetDigest(sha256, token), now)
  }

  /**
   * verifyToken: type "email" looks the raw token up, type "reset" its
   * digest; any other type finds nobody. Only reads the store.
   */
  function VerifyToken(users: seq<User>, token: string, kind: string,
                       sha256: string -> seq<byte>, now: int): (r: Response)
    ensures !Present(token) || !Present(kind) ==> r == Fail(400, MsgTokenAndTypeRequired)
    ensures Present(token) && Present(kind) && !r.success ==> r == Fail(400, MsgInvalidOrExpiredToken)
    ensures r.success <==>
      Present(token) && (kind == "email" || kind == "reset") &&
      exists i :: 0 <= i < |users| && Matches(users[i], TokenQuery(kind, token, sha256, now))
    ensures r.success ==>
      exists i :: 0 <= i < |users| && Matches(users[i], TokenQuery(kind, token, sha256, now)) &&
                  r.data == TokenOwner(users[i].email, users[i].firstName, users[i].lastName)
  {
    if !Present(token) || !Present(kind) then Fail(400, MsgTokenAndTypeRequired)
    else
      var found :=
        if kind == "email" || kind == "reset" then FindUser(users, TokenQuery(kind, token, sha256, now))
        else None;
      match found
      case None => Fail(400, MsgInvalidOrExpiredToken)
      case Some(i) =>
        Response(200, true, MsgTokenValid, TokenOwner(users[i].email, users[i].firstName, users[i].lastName))
  }

  /**
   * The pre-check agrees with redemption: an email token verifies iff
   * setPassword's lookup finds a user, and a reset token verifies iff
   * resetPassword's lookup does.
   */
  lemma VerifyTokenPredictsRedemption(users: seq<User>, token: string, sha256: string -> seq<byte>, now: int)
    requires Present(token)
    ensures VerifyToken(users, token, "email", sha256, now).success <==>
            FindUser(users, ByVerificationToken(token, now)).Some?
    ensures VerifyToken(users, token, "reset", sha256, now).success <==>
            FindUser(users, ByResetToken(ResetDigest(sha256, token), now)).Some?
  {
  }

  /** getCurrentUser: findById; 404 when the user is gone. */
  function GetCurrentUser(users: seq<User>, userId: UserId): (r: Response)
    ensures r.success <==> exists i :: 0 <= i < |users| && users[i].id == userId
    ensures r.success ==> r.status == 200
    ensures r.success ==>
      exists i :: 0 <= i < |users| && users[i].id == userId &&
        r.data == Profile(userId, users[i].email, users[i].firstName, users[i].lastName,
                          users[i].isActive, users[i].isEmailVerified)
    ensures !r.success ==> r == Fail(404, MsgUserNotFound)
  {
    match FindUser(users, ById(userId))
    case None => Fail(404, MsgUserNotFound)
    case Some(i) =>
      var u := users[i];
      Response(200, true, "", Profile(u.id, u.email, u.firstName, u.lastName, u.isActive, u.isEmailVerified))
  }
}
