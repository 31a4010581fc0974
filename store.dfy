/**
 * The document database the handlers share: the users collection and the
 * refresh-token collection, each in store order, with the write operations
 * the handlers issue against them.
 */
module Store {
  import opened Basics
  import opened UserModel
  import opened RefreshTokenModel

  class Database {
    var users: seq<User>
    var refreshTokens: seq<RefreshToken>

    /** The unique indexes and validators hold of both collections. */
    ghost predicate Valid()
      reads this
    {
      WellKeyed(users) && WellFormed(refreshTokens)
    }

    constructor ()
      ensures Valid() && users == [] && refreshTokens == []
    {
      users := [];
      refreshTokens := [];
    }

    /** user.save() on a document read from this store: replaces it by _id; neither key is changed. */
    method SaveUser(i: nat, u: User)
      requires Valid() && i < |users|
      requires u.id == users[i].id && u.email == users[i].email
      modifies this
      ensures Valid()
      ensures users == old(users)[i := u] && refreshTokens == old(refreshTokens)
    {
      users := users[i := u];
    }

    /** new User(...).save(): refused with E11000 when the _id or the email is already taken. */
    method InsertUser(u: User) returns (duplicate: bool)
      requires Valid() && Lower(u.email) == u.email
      modifies this
      ensures Valid() && refreshTokens == old(refreshTokens)
      ensures duplicate == KeyTaken(old(users), u)
      ensures users == if duplicate then old(users) else old(users) + [u]
    {
      duplicate := KeyTaken(users, u);
      if !duplicate {
        users := users + [u];
      }
    }

    /** RefreshToken.create(r): false when validation or the unique index refuses it. */
    method CreateRefreshToken(r: RefreshToken) returns (created: bool)
      requires Valid()
      modifies this
      ensures Valid() && users == old(users)
      ensures created == Create(old(refreshTokens), r).Ok?
      ensures refreshTokens == if created then old(refreshTokens) + [r] else old(refreshTokens)
    {
      var res := Create(refreshTokens, r);
      created := res.Ok?;
      if created {
        refreshTokens := res.value;
      }
    }

    /** RefreshToken.updateOne(f, {isRevoked: true}) */
    method UpdateOneRevoked(f: TokenFilter)
      requires Valid()
      modifies this
      ensures Valid() && users == old(users)
      ensures refreshTokens == RevokeFirst(old(refreshTokens), f)
    {
      RevokeKeepsWellFormed(refreshTokens, f);
      refreshTokens := RevokeFirst(refreshTokens, f);
    }

    /** RefreshToken.updateMany(f, {isRevoked: true}) */
    method UpdateManyRevoked(f: TokenFilter)
      requires Valid()
      modifies this
      ensures Valid() && users == old(users)
      ensures refreshTokens == RevokeAll(old(refreshTokens), f)
    {
      RevokeKeepsWellFormed(refreshTokens, f);
      refreshTokens := RevokeAll(refreshTokens, f);
    }
  }
}
