/**
 * A client of the handlers: an administrator creates a user, the user sets
 * a password with the emailed token, logs in, refreshes, logs out, and the
 * logged-out refresh token is refused. Everything asserted here follows
 * from the handlers' contracts and the lemmas about them.
 */
module Walkthrough {
  import opened Basics
  import opened UserModel
  import opened RefreshTokenModel
  import opened Store
  import opened AuthController
  import opened UserController
  import Hex

  method FirstSession(data: User, verificationBytes: seq<byte>, refreshBytes: seq<byte>,
                      comparePassword: (string, string) -> bool, now: int)
    requires |verificationBytes| == VerificationTokenBytes && |refreshBytes| == RefreshTokenBytes
    requires data.isActive && Present(data.email) && Lower(data.email) == data.email
    requires comparePassword("longenough1", "longenough1")
  {
    var db := new Database();

    // the set-password email fails to go out: creation still succeeds
    var created := CreateUser(db, data, verificationBytes, false, false, now);
    assert created.status == 201;
    assert db.users == [Enrolled(data, Hex.Encode(verificationBytes), now)];

    var token := Hex.Encode(verificationBytes);
    NewUserCanSetPasswordForADay([], data, token, now, now + 1000);
    var activated := SetPassword(db, token, "longenough1", now + 1000);
    assert activated.success;

    // replaying the same token fails
    var replay := SetPassword(db, token, "longenough2", now + 2000);
    assert !replay.success;

    var login := Login(db, data.email, "longenough1", false, comparePassword, refreshBytes, now + 3000);
    assert Authenticate(db.users, data.email, "longenough1", comparePassword).Ok?;
    assert login.success;

    var refresh := Hex.Encode(refreshBytes);
    assert db.refreshTokens == [NewRecord(data.id, refresh, RefreshExpiry(now + 3000, false), false)];
    IssuedTokenRefreshes([], data.id, refresh, now + 3000, false, now + 4000);
    assert Refresh(db.refreshTokens, refresh, now + 4000).success;

    var before := db.refreshTokens;
    var logout := Logout(db, refresh);
    LoggedOutTokenRefused(before, refresh, now + 5000);
    assert !Refresh(db.refreshTokens, refresh, now + 5000).success;
  }
}
