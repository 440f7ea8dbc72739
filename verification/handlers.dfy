/** The request handlers of the authentication layer: the guard middleware,
    the protected route behind it, registration and login. Each maps its
    input and the collection to a `Run`: the trace of what it did and the
    collection afterwards. */
module Handlers {
  import opened Values
  import opened Users
  import opened Crypto
  import opened Trace

  datatype Run = Run(trace: seq<Event>, store: Store)

  /** The fields of a registration body. */
  datatype RegisterBody = RegisterBody(username: Option<string>, email: Option<string>, password: Option<string>)

  /** The fields of a login body. */
  datatype LoginBody = LoginBody(email: Option<string>, password: Option<string>)

  /** The guard: reads the token from the `auth` header, verifies it with
      the signing secret, looks up its `userId`, and either answers 401 or
      attaches the user and hands on. A verification that throws is only
      logged, so the request then gets no response at all. */
  function AuthenticateUser(auth: Option<string>, secret: string, p: Primitives, s: Store): (r: Run)
    ensures r.store == s
    ensures WellTerminated(r.trace)
    // a missing or empty header is refused before any verification or lookup
    ensures !Truthy(auth) ==> r.trace == [Respond(Fail(401, AuthenticationFailed))]
    // every response the guard sends is the 401 refusal
    ensures OutcomeOf(r.trace).Sent? ==> OutcomeOf(r.trace).response == Fail(401, AuthenticationFailed)
    // silence exactly when the verification throws
    ensures Silent(r.trace) <==> Truthy(auth) && p.verify(auth.value, secret).None?
    ensures OutcomeOf(r.trace).NoResponse? <==> Truthy(auth) && p.verify(auth.value, secret).None?
    // hand-on exactly when the token verifies and names a stored user
    ensures OutcomeOf(r.trace).Next? <==>
      Truthy(auth) && p.verify(auth.value, secret).Some? && p.verify(auth.value, secret).value.userId in s.users
    ensures OutcomeOf(r.trace).Next? ==>
      OutcomeOf(r.trace).user == s.users[p.verify(auth.value, secret).value.userId]
    // a verified token whose user is gone is refused
    ensures Truthy(auth) && p.verify(auth.value, secret).Some? && p.verify(auth.value, secret).value.userId !in s.users
      ==> OutcomeOf(r.trace) == Sent(Fail(401, AuthenticationFailed))
  {
    if !Truthy(auth) then
      Run([Respond(Fail(401, AuthenticationFailed))], s)
    else
      var token := auth.value;
      var decoded := p.verify(token, secret);
      match decoded
      case None => Run([VerifyToken(token, secret, None), LogError], s)
      case Some(claims) =>
        var found := FindById(s, claims.userId);
        var resolved := [VerifyToken(token, secret, decoded), LookupById(claims.userId, found)];
        match found
        case None => Run(resolved + [Respond(Fail(401, AuthenticationFailed))], s)
        case Some(u) => Run(resolved + [CallNext(u)], s)
  }

  /** The protected route: the guard, then a handler that answers 200 with a
      fixed text whenever the guard hands on. */
  function ProtectedRoute(auth: Option<string>, secret: string, p: Primitives, s: Store): (r: Run)
    ensures r.store == s
    ensures RespondsAtMostOnce(r.trace)
    ensures !OutcomeOf(r.trace).Next?
    // whenever the guard does not hand on, the route is exactly the guard
    ensures !OutcomeOf(AuthenticateUser(auth, secret, p, s).trace).Next? ==> r == AuthenticateUser(auth, secret, p, s)
    ensures Answered(r.trace, 200) <==> OutcomeOf(AuthenticateUser(auth, secret, p, s).trace).Next?
    ensures Answered(r.trace, 200) ==> OutcomeOf(r.trace).response == Response(200, Text(ProtectedText))
    ensures OutcomeOf(r.trace).Sent? ==> Answered(r.trace, 200) || Answered(r.trace, 401)
    ensures !Truthy(auth) ==> OutcomeOf(r.trace) == Sent(Fail(401, AuthenticationFailed))
    ensures OutcomeOf(r.trace).NoResponse? <==> Truthy(auth) && p.verify(auth.value, secret).None?
  {
    var guard := AuthenticateUser(auth, secret, p, s);
    if OutcomeOf(guard.trace).Next? then
      Run(guard.trace + [Respond(Response(200, Text(ProtectedText)))], s)
    else
      guard
  }

  /** Registration: refuses a body missing any field with 400 before doing
      anything else; otherwise hashes the password at the configured cost,
      builds the document under the `_id` the model layer assigns (`newId`),
      starts saving it without waiting, and answers 201 with the document.
      A hash that rejects is only logged, leaving the request unanswered. */
  function Register(body: RegisterBody, newId: Id, p: Primitives, s: Store): (r: Run)
    ensures WellTerminated(r.trace)
    ensures forall i :: 0 <= i < |r.trace| ==> !r.trace[i].CallNext?
    ensures Valid(s) ==> Valid(r.store)
    ensures !(Truthy(body.username) && Truthy(body.email) && Truthy(body.password)) ==>
      r.trace == [Respond(Fail(400, MissingFields))] && r.store == s
    ensures OutcomeOf(r.trace).Sent? ==> Answered(r.trace, 400) || Answered(r.trace, 201)
    ensures Answered(r.trace, 201) <==>
      Truthy(body.username) && Truthy(body.email) && Truthy(body.password)
      && p.hash(body.password.value, SaltRounds).Some?
    ensures OutcomeOf(r.trace).NoResponse? <==>
      Truthy(body.username) && Truthy(body.email) && Truthy(body.password)
      && p.hash(body.password.value, SaltRounds).None?
    ensures !Answered(r.trace, 201) ==> r.store == s
    // the created document: the body's username and e-mail, the hash of the
    // password (never the plaintext itself) and the new `_id`; it is what the
    // collection now holds under that `_id` unless the `_id` was taken
    ensures Answered(r.trace, 201) ==>
      var sent := OutcomeOf(r.trace).response.body;
      && sent.Document?
      && sent.user.id == newId
      && sent.user.username == body.username.value
      && sent.user.email == body.email.value
      && Some(sent.user.password) == p.hash(body.password.value, SaltRounds)
      && r.store == Save(s, sent.user)
  {
    if !Truthy(body.username) || !Truthy(body.email) || !Truthy(body.password) then
      Run([Respond(Fail(400, MissingFields))], s)
    else
      var password := body.password.value;
      var hashed := p.hash(password, SaltRounds);
      match hashed
      case None => Run([HashPassword(password, SaltRounds, None), LogError], s)
      case Some(digest) =>
        var u := User(newId, body.username.value, body.email.value, digest);
        Run([HashPassword(password, SaltRounds, hashed), SaveUser(u), Respond(Response(201, Document(u)))],
            Save(s, u))
  }

  /** Login: 400 for a missing field, then 404 for an unknown e-mail, then
      401 for a password that does not match the stored hash, and only then
      200 with a token signed for the found document with a one-hour
      lifetime. A compare or sign call that throws is only logged. */
  function Login(body: LoginBody, secret: string, p: Primitives, s: Store): (r: Run)
    ensures r.store == s
    ensures WellTerminated(r.trace)
    ensures forall i :: 0 <= i < |r.trace| ==> !r.trace[i].CallNext?
    ensures !(Truthy(body.email) && Truthy(body.password)) ==> r.trace == [Respond(Fail(400, MissingFields))]
    ensures OutcomeOf(r.trace).Sent? ==>
      Answered(r.trace, 400) || Answered(r.trace, 404) || Answered(r.trace, 401) || Answered(r.trace, 200)
    ensures Answered(r.trace, 404) <==>
      Truthy(body.email) && Truthy(body.password) && FindByEmail(s, body.email.value).None?
    ensures Answered(r.trace, 404) ==> OutcomeOf(r.trace).response == Fail(404, UserNotFound)
    ensures Answered(r.trace, 401) <==>
      Truthy(body.email) && Truthy(body.password) && FindByEmail(s, body.email.value).Some?
      && p.compare(body.password.value, FindByEmail(s, body.email.value).value.password) == Some(false)
    ensures Answered(r.trace, 401) ==> OutcomeOf(r.trace).response == Fail(401, InvalidCredentials)
    ensures Answered(r.trace, 200) <==>
      && Truthy(body.email) && Truthy(body.password) && FindByEmail(s, body.email.value).Some?
      && p.compare(body.password.value, FindByEmail(s, body.email.value).value.password) == Some(true)
      && p.sign(TokenClaims(FindByEmail(s, body.email.value).value), secret, ExpiresIn).Some?
    // silence exactly when the compare throws, or the sign throws after a match
    ensures OutcomeOf(r.trace).NoResponse? <==>
      && Truthy(body.email) && Truthy(body.password) && FindByEmail(s, body.email.value).Some?
      && var matched := p.compare(body.password.value, FindByEmail(s, body.email.value).value.password);
         || matched.None?
         || (matched == Some(true)
             && p.sign(TokenClaims(FindByEmail(s, body.email.value).value), secret, ExpiresIn).None?)
    // the token sent is what the signer returned, under the secret and a
    // one-hour lifetime, for a payload identifying the document found (and
    // carrying its stored hash)
    ensures Answered(r.trace, 200) ==>
      && |r.trace| >= 2
      && var u := FindByEmail(s, body.email.value).value;
         var issued := r.trace[|r.trace| - 2];
         && issued.SignToken? && issued.secret == secret && issued.expiresIn == ExpiresIn
         && Identifies(issued.claims, u) && issued.claims.password == u.password
         && p.sign(issued.claims, secret, ExpiresIn) == issued.signed
         && OutcomeOf(r.trace).response.body.TokenString?
         && issued.signed == Some(OutcomeOf(r.trace).response.body.token)
  {
    if !Truthy(body.email) || !Truthy(body.password) then
      Run([Respond(Fail(400, MissingFields))], s)
    else
      var email := body.email.value;
      var password := body.password.value;
      var found := FindByEmail(s, email);
      match found
      case None => Run([LookupByEmail(email, None), Respond(Fail(404, UserNotFound))], s)
      case Some(u) =>
        var matched := p.compare(password, u.password);
        var checked := [LookupByEmail(email, found), ComparePassword(password, u.password, matched)];
        match matched
        case None => Run(checked + [LogError], s)
        case Some(false) => Run(checked + [Respond(Fail(401, InvalidCredentials))], s)
        case Some(true) =>
          var claims := TokenClaims(u);
          var signed := p.sign(claims, secret, ExpiresIn);
          match signed
          case None => Run(checked + [SignToken(claims, secret, ExpiresIn, None), LogError], s)
          case Some(token) =>
            Run(checked + [SignToken(claims, secret, ExpiresIn, signed), Respond(Response(200, TokenString(token)))], s)
  }
}
