/** The JSON envelope every handler answers with: {success, message?, data?} and an HTTP status. */
module Http {
  import opened Basics

  /** A signed claim {userId} that expires after 15 minutes; its signature is not modelled. */
  datatype AccessToken = AccessToken(userId: UserId)

  datatype Payload =
    | NoData
      /** login: the user's id and email, both tokens, and the access token's lifetime in seconds */
    | Session(userId: UserId, email: string, accessToken: AccessToken, refreshToken: string, expiresIn: int)
      /** refresh: a new access token only */
    | Renewed(accessToken: AccessToken, expiresIn: int)
      /** verify-token: the non-sensitive identity of the token's owner */
    | TokenOwner(email: string, firstName: string, lastName: string)
      /** me: the current user's profile */
    | Profile(userId: UserId, email: string, firstName: string, lastName: string, isActive: bool, isEmailVerified: bool)
      /** create user: the stored user document */
    | CreatedUser(userId: UserId, email: string)

  /** An absent message is written "". */
  datatype Response = Response(status: int, success: bool, message: string, data: Payload)

  function Fail(status: int, message: string): Response {
    Response(status, false, message, NoData)
  }

  function Done(message: string): Response {
    Response(200, true, message, NoData)
  }
}
