/**
 * The RefreshToken collection: the document shape with its defaults and
 * required paths, the unique index on `token`, the isValid() method, and
 * the store operations the handlers run on it (create, findOne, updateOne,
 * updateMany, each with the update {isRevoked: true} where it updates).
 */
module RefreshTokenModel {
  import opened Basics

  /**
   * One document. deviceInfo is never written by any handler, and the
   * createdAt/updatedAt timestamps are not modelled.
   */
  datatype RefreshToken = RefreshToken(userId: UserId, token: string, expiresAt: int, isRevoked: bool, rememberMe: bool)

  /** isValid(): not revoked, and the expiry strictly after the clock. */
  predicate IsValid(r: RefreshToken, now: int) {
    !r.isRevoked && r.expiresAt > now
  }

  /** A document as create() builds it: isRevoked and rememberMe take the schema default false unless given. */
  function NewRecord(userId: UserId, token: string, expiresAt: int, rememberMe: bool := false): (r: RefreshToken)
    ensures !r.isRevoked
  {
    RefreshToken(userId, token, expiresAt, false, rememberMe)
  }

  /** A fresh document is valid exactly until its expiry, the expiry instant itself excluded. */
  lemma NewRecordValidUntilExpiry(userId: UserId, token: string, expiresAt: int, rememberMe: bool, now: int)
    ensures IsValid(NewRecord(userId, token, expiresAt, rememberMe), now) <==> now < expiresAt
    ensures !NewRecord(userId, token, expiresAt).rememberMe
  {
  }

  /** The `required` validator on the String path token refuses "" (userId and expiresAt are always given here). */
  predicate HasRequired(r: RefreshToken) {
    r.token != ""
  }

  /** The unique index on token. */
  ghost predicate UniqueTokens(s: seq<RefreshToken>) {
    forall i, j :: 0 <= i < |s| && 0 <= j < |s| && i != j ==> s[i].token != s[j].token
  }

  /** What the schema guarantees of every stored collection. */
  ghost predicate WellFormed(s: seq<RefreshToken>) {
    UniqueTokens(s) && forall i :: 0 <= i < |s| ==> HasRequired(s[i])
  }

  predicate TokenInUse(s: seq<RefreshToken>, token: string) {
    exists i :: 0 <= i < |s| && s[i].token == token
  }

  datatype CreateError = ValidationError | DuplicateKey

  /** create(): validation first, then the unique index (E11000), then the insert. */
  function Create(s: seq<RefreshToken>, r: RefreshToken): (res: Result<seq<RefreshToken>, CreateError>)
    ensures res.Ok? ==> res.value == s + [r]
    ensures res.Err? ==> !HasRequired(r) || TokenInUse(s, r.token)
    ensures WellFormed(s) && res.Ok? ==> WellFormed(res.value)
  {
    if !HasRequired(r) then Err(ValidationError)
    else if TokenInUse(s, r.token) then Err(DuplicateKey)
    else Ok(s + [r])
  }

  /** The query filters the handlers use. */
  datatype TokenFilter =
    | ByValue(token: string)          // { token }
    | ActiveByValue(token: string)    // { token, isRevoked: false }
    | ActiveOfUser(userId: UserId)    // { userId, isRevoked: false }

  predicate Selects(f: TokenFilter, r: RefreshToken) {
    match f
    case ByValue(t) => r.token == t
    case ActiveByValue(t) => r.token == t && !r.isRevoked
    case ActiveOfUser(u) => r.userId == u && !r.isRevoked
  }

  /** findOne(filter): the first selected document in store order, if any. */
  function FindToken(s: seq<RefreshToken>, f: TokenFilter): (r: Option<nat>)
    ensures r.Some? ==> r.value < |s| && Selects(f, s[r.value])
    ensures r.Some? ==> forall j :: 0 <= j < r.value ==> !Selects(f, s[j])
    ensures r.None? ==> forall j :: 0 <= j < |s| ==> !Selects(f, s[j])
  {
    if s == [] then None
    else if Selects(f, s[0]) then Some(0)
    else match FindToken(s[1..], f)
      case None => None
      case Some(k) => Some(k + 1)
  }

  function Revoke(r: RefreshToken): RefreshToken {
    r.(isRevoked := true)
  }

  /** updateOne(filter, {isRevoked: true}): revokes the first selected document. */
  function RevokeFirst(s: seq<RefreshToken>, f: TokenFilter): (s': seq<RefreshToken>)
    ensures |s'| == |s|
    ensures forall k :: 0 <= k < |s| ==> s'[k] == s[k] || s'[k] == Revoke(s[k])
  {
    match FindToken(s, f)
    case None => s
    case Some(i) => s[i := Revoke(s[i])]
  }

  /** updateMany(filter, {isRevoked: true}): revokes every selected document. */
  function RevokeAll(s: seq<RefreshToken>, f: TokenFilter): (s': seq<RefreshToken>)
    ensures |s'| == |s|
  {
    if s == [] then []
    else [if Selects(f, s[0]) then Revoke(s[0]) else s[0]] + RevokeAll(s[1..], f)
  }

  /** updateMany touches exactly the selected documents, and only their revoked flag. */
  lemma {:induction false} RevokeAllAt(s: seq<RefreshToken>, f: TokenFilter, k: nat)
    requires k < |s|
    ensures RevokeAll(s, f)[k] == if Selects(f, s[k]) then Revoke(s[k]) else s[k]
  {
    if k > 0 {
      RevokeAllAt(s[1..], f, k - 1);
    }
  }

  /** Neither update changes a token value, so the schema's guarantees survive both. */
  lemma RevokeKeepsWellFormed(s: seq<RefreshToken>, f: TokenFilter)
    requires WellFormed(s)
    ensures WellFormed(RevokeFirst(s, f))
    ensures WellFormed(RevokeAll(s, f))
  {
    forall k | 0 <= k < |s| ensures RevokeAll(s, f)[k].token == s[k].token {
      RevokeAllAt(s, f, k);
    }
  }
}
