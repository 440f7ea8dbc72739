/** What one request does, as a sequence of events: the library and store
    calls it makes (with what they returned), the errors it logs, the
    response it sends and whether it hands the request on. */
module Trace {
  import opened Values
  import opened Users
  import opened Crypto

  /** The JSON bodies and text the handlers send. */
  datatype Body =
    | Failure(message: string)    // { success: false, message }
    | Document(user: User)        // a user document
    | TokenString(token: string)  // a token, as a JSON string
    | Text(text: string)          // plain text

  datatype Response = Response(status: int, body: Body)

  const AuthenticationFailed: string := "Authentication failed"
  const MissingFields: string := "Please provide all the fields"
  const UserNotFound: string := "User not found"
  const InvalidCredentials: string := "Invalid credentials"
  const ProtectedText: string := "This is a protected route"

  /** The uniform error response. */
  function Fail(status: int, message: string): Response {
    Response(status, Failure(message))
  }

  datatype Event =
    | HashPassword(plain: string, rounds: int, hashed: Option<string>)
    | ComparePassword(plain: string, digest: string, matched: Option<bool>)
    | VerifyToken(token: string, secret: string, decoded: Option<Claims>)
    | SignToken(claims: Claims, secret: string, expiresIn: string, signed: Option<string>)
    | LookupById(id: Id, found: Option<User>)
    | LookupByEmail(email: string, found: Option<User>)
    | SaveUser(user: User)
    | LogError                    // a catch block logs and does nothing else
    | Respond(response: Response)
    | CallNext(user: User)        // `req.user` is set to `user`, then `next()`

  /** How a request ends for the client: a response, a hand-over to the
      next stage with a user attached, or nothing at all (it hangs). */
  datatype Outcome = Sent(response: Response) | Next(user: User) | NoResponse

  /** Responding and handing on both end a stage's part in the request. */
  predicate Terminal(e: Event) {
    e.Respond? || e.CallNext?
  }

  /** The outcome is read off the last event. */
  function OutcomeOf(t: seq<Event>): Outcome {
    if |t| == 0 then NoResponse
    else
      match t[|t| - 1]
      case Respond(r) => Sent(r)
      case CallNext(u) => Next(u)
      case _ => NoResponse
  }

  /** The request was answered with `status`. */
  predicate Answered(t: seq<Event>, status: int) {
    OutcomeOf(t).Sent? && OutcomeOf(t).response.status == status
  }

  /** A middleware's trace: at most one terminal event, and only as the last
      event, so it never both responds and hands on, nor does either twice. */
  ghost predicate WellTerminated(t: seq<Event>) {
    forall i :: 0 <= i < |t| && Terminal(t[i]) ==> i == |t| - 1
  }

  /** A route's trace: it responds at most once, and only as its last
      event. */
  ghost predicate RespondsAtMostOnce(t: seq<Event>) {
    forall i :: 0 <= i < |t| && t[i].Respond? ==> i == |t| - 1
  }

  /** Nothing was sent and nothing was handed on. */
  ghost predicate Silent(t: seq<Event>) {
    forall i :: 0 <= i < |t| ==> !Terminal(t[i])
  }

  /** Every saved document's password is the output of an earlier hash call
      at the configured cost factor. */
  ghost predicate SavesOnlyHashes(t: seq<Event>) {
    forall i :: 0 <= i < |t| && t[i].SaveUser? ==>
      exists j :: 0 <= j < i && t[j].HashPassword? && t[j].rounds == SaltRounds
        && t[j].hashed == Some(t[i].user.password)
  }

  /** Every hand-on attaches a user that an earlier lookup found under the
      `userId` of a payload that an earlier verification decoded. */
  ghost predicate ForwardsOnlyResolvedUsers(t: seq<Event>) {
    forall i :: 0 <= i < |t| && t[i].CallNext? ==>
      exists j, k :: 0 <= k < j < i && t[k].VerifyToken? && t[k].decoded.Some?
        && t[j].LookupById? && t[j].id == t[k].decoded.value.userId
        && t[j].found == Some(t[i].user)
  }

  /** Every token sent was signed, with the one-hour lifetime, for a payload
      identifying the document the e-mail lookup found, after the password
      was compared against that document's stored hash and matched. */
  ghost predicate TokensOnlyAfterMatch(t: seq<Event>) {
    forall i :: 0 <= i < |t| && t[i].Respond? && t[i].response.body.TokenString? ==>
      exists j, k, l :: 0 <= l < k < j < i
        && t[l].LookupByEmail? && t[l].found.Some?
        && t[k].ComparePassword? && t[k].digest == t[l].found.value.password
        && t[k].matched == Some(true)
        && t[j].SignToken? && t[j].expiresIn == ExpiresIn
        && Identifies(t[j].claims, t[l].found.value)
        && t[j].signed == Some(t[i].response.body.token)
  }
}
