/**
 * The user document as the handlers read and write it, the query filters
 * they pass to User.findOne / User.findById, and the digest under which a
 * password-reset token is stored.
 */
module UserModel {
  import opened Basics
  import Hex

  /**
   * A user. `password` is whatever the storage layer keeps for the
   * plaintext assigned to it (its save hook hashes it); the two token
   * pairs are cleared by setting them to None (undefined).
   */
  datatype User = User(
    id: UserId,
    email: string,
    firstName: string,
    lastName: string,
    password: Option<string>,
    isActive: bool,
    isEmailVerified: bool,
    emailVerificationToken: Option<string>,
    emailVerificationExpires: Option<int>,
    passwordResetToken: Option<string>,
    passwordResetExpires: Option<int>)

  /** `!user.password` is false: the field is present and not empty. */
  predicate HasPassword(u: User) {
    u.password.Some? && u.password.value != ""
  }

  /** { $gt: now } on an expiry field: a missing field never matches. */
  predicate After(expires: Option<int>, now: int) {
    expires.Some? && expires.value > now
  }

  datatype UserFilter =
    | ById(id: UserId)
    | ByEmail(email: string)
    | ByVerificationToken(token: string, now: int)   // { emailVerificationToken: token, emailVerificationExpires: { $gt: now } }
    | ByResetToken(digest: string, now: int)         // { passwordResetToken: digest, passwordResetExpires: { $gt: now } }

  predicate Matches(u: User, f: UserFilter) {
    match f
    case ById(id) => u.id == id
    case ByEmail(e) => u.email == e
    case ByVerificationToken(t, now) => u.emailVerificationToken == Some(t) && After(u.emailVerificationExpires, now)
    case ByResetToken(d, now) => u.passwordResetToken == Some(d) && After(u.passwordResetExpires, now)
  }

  /** findOne(filter) / findById(id): the first matching user in store order, if any. */
  function FindUser(users: seq<User>, f: UserFilter): (r: Option<nat>)
    ensures r.Some? ==> r.value < |users| && Matches(users[r.value], f)
    ensures r.Some? ==> forall j :: 0 <= j < r.value ==> !Matches(users[j], f)
    ensures r.None? ==> forall j :: 0 <= j < |users| ==> !Matches(users[j], f)
  {
    if users == [] then None
    else if Matches(users[0], f) then Some(0)
    else match FindUser(users[1..], f)
      case None => None
      case Some(k) => Some(k + 1)
  }

  /**
   * The unique indexes on _id and email, and the email folded to lower
   * case on save.
   */
  ghost predicate WellKeyed(users: seq<User>) {
    && (forall i, j :: 0 <= i < |users| && 0 <= j < |users| && i != j ==>
          users[i].id != users[j].id && users[i].email != users[j].email)
    && (forall i :: 0 <= i < |users| ==> Lower(users[i].email) == users[i].email)
  }

  /** Inserting u would violate a unique index (E11000). */
  predicate KeyTaken(users: seq<User>, u: User) {
    exists j :: 0 <= j < |users| && (users[j].id == u.id || users[j].email == u.email)
  }

  /** createHash('sha256').update(raw).digest('hex'), with the SHA-256 function a parameter. */
  function ResetDigest(sha256: string -> seq<byte>, raw: string): string {
    Hex.Encode(sha256(raw))
  }

  ghost predicate Injective(sha256: string -> seq<byte>) {
    forall a, b :: sha256(a) == sha256(b) ==> a == b
  }

  /** With an injective SHA-256, only the raw token that was digested reproduces the stored digest. */
  lemma ResetDigestInjective(sha256: string -> seq<byte>, a: string, b: string)
    requires Injective(sha256)
    requires ResetDigest(sha256, a) == ResetDigest(sha256, b)
    ensures a == b
  {
    Hex.EncodeInjective(sha256(a), sha256(b));
  }
}
