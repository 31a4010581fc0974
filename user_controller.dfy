/**
 * createUser: the administrative creation of a user, which issues the
 * 24-hour email-verification token that set-password later redeems and
 * sends the set-password email on a best-effort basis.
 */
module UserController {
  import opened Basics
  import opened Http
  import opened UserModel
  import opened Store
  import Hex

  const VerificationTokenBytes: int := 32

  const MsgDuplicateUser := "User with this email already exists"
  const MsgCreateUserError := "An error occurred while creating user"

  /**
   * The document createUser saves: the submitted fields with the email
   * folded to lower case by the User schema, plus the raw (unhashed)
   * verification token and an expiry 24 hours out.
   */
  function Enrolled(data: User, token: string, now: int): User {
    data.(email := Lower(data.email),
          emailVerificationToken := Some(token), emailVerificationExpires := Some(now + DayMs))
  }

  /**
   * createUser. `saveFault` stands for a save failure other than a
   * duplicate key (for instance a validation error of the User schema);
   * `delivered` is the outcome of the set-password email, which does not
   * affect the answer or the store.
   */
  method CreateUser(db: Database, data: User, randomBytes: seq<byte>, saveFault: bool, delivered: bool, now: int)
    returns (resp: Response)
    requires db.Valid() && |randomBytes| == VerificationTokenBytes
    modifies db
    ensures db.Valid() && db.refreshTokens == old(db.refreshTokens)
    ensures var user := Enrolled(data, Hex.Encode(randomBytes), now);
      if saveFault then
        resp == Fail(500, MsgCreateUserError) && db.users == old(db.users)
      else if KeyTaken(old(db.users), user) then
        resp == Fail(400, MsgDuplicateUser) && db.users == old(db.users)
      else
        resp == Response(201, true, "", CreatedUser(user.id, user.email)) && db.users == old(db.users) + [user]
  {
    var user := data.(email := Lower(data.email));
    var verificationToken := Hex.Encode(randomBytes);
    user := user.(emailVerificationToken := Some(verificationToken));
    user := user.(emailVerificationExpires := Some(now + DayMs));
    if saveFault {
      return Fail(500, MsgCreateUserError);
    }
    LowerIdempotent(data.email);
    var duplicate := db.InsertUser(user);
    if duplicate {
      return Fail(400, MsgDuplicateUser);
    }
    // the set-password email is sent here; whether it was delivered is ignored
    resp := Response(201, true, "", CreatedUser(user.id, user.email));
  }

  /**
   * A freshly created user's token is found by set-password's lookup for
   * exactly 24 hours, provided no existing user holds the same token.
   */
  lemma NewUserCanSetPasswordForADay(users: seq<User>, data: User, token: string, now: int, t: int)
    requires forall j :: 0 <= j < |users| ==> users[j].emailVerificationToken != Some(token)
    ensures FindUser(users + [Enrolled(data, token, now)], ByVerificationToken(token, t))
            == if t < now + DayMs then Some(|users|) else None
  {
    var after := users + [Enrolled(data, token, now)];
    assert forall j :: 0 <= j < |users| ==> after[j] == users[j];
    if t < now + DayMs {
      assert Matches(after[|users|], ByVerificationToken(token, t));
    }
  }
}
