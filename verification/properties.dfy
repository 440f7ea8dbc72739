/** Properties of the authentication layer that relate a handler to an
    invariant of its trace, or several handlers to one another. */
module Properties {
  import opened Values
  import opened Users
  import opened Crypto
  import opened Trace
  import opened Handlers

  /** Whatever the header, the guard only ever attaches a user that the
      collection returned for the `userId` of a payload that verified. */
  lemma GuardForwardsOnlyResolvedUsers(auth: Option<string>, secret: string, p: Primitives, s: Store)
    ensures ForwardsOnlyResolvedUsers(AuthenticateUser(auth, secret, p, s).trace)
  {
    var t := AuthenticateUser(auth, secret, p, s).trace;
    if Truthy(auth) && p.verify(auth.value, secret).Some? && p.verify(auth.value, secret).value.userId in s.users {
      assert t[0].VerifyToken? && t[1].LookupById?;
    }
  }

  /** The same holds of the whole protected route, which adds only its
      200 answer after the guard's trace. */
  lemma ProtectedRouteForwardsOnlyResolvedUsers(auth: Option<string>, secret: string, p: Primitives, s: Store)
    ensures ForwardsOnlyResolvedUsers(ProtectedRoute(auth, secret, p, s).trace)
  {
    GuardForwardsOnlyResolvedUsers(auth, secret, p, s);
    var g := AuthenticateUser(auth, secret, p, s).trace;
    var t := ProtectedRoute(auth, secret, p, s).trace;
    if OutcomeOf(g).Next? {
      assert t == g + [Respond(Response(200, Text(ProtectedText)))];
      forall i | 0 <= i < |t| && t[i].CallNext?
        ensures exists j, k :: 0 <= k < j < i && t[k].VerifyToken? && t[k].decoded.Some?
                  && t[j].LookupById? && t[j].id == t[k].decoded.value.userId && t[j].found == Some(t[i].user)
      {
        assert t[i] == g[i];
        var j, k :| 0 <= k < j < i && g[k].VerifyToken? && g[k].decoded.Some?
          && g[j].LookupById? && g[j].id == g[k].decoded.value.userId && g[j].found == Some(g[i].user);
        assert t[j] == g[j] && t[k] == g[k];
      }
    }
  }

  /** Registration only ever saves a document whose password is the output
      of the hasher at the configured cost factor. */
  lemma RegisterSavesOnlyHashes(body: RegisterBody, newId: Id, p: Primitives, s: Store)
    ensures SavesOnlyHashes(Register(body, newId, p, s).trace)
  {
    var t := Register(body, newId, p, s).trace;
    if Answered(t, 201) {
      assert t[0].HashPassword?;
    }
  }

  /** If the hasher never returns its own input, no document registration
      adds to the collection holds the plaintext password it was given. */
  lemma StoredPasswordIsNotPlaintext(body: RegisterBody, newId: Id, p: Primitives, s: Store)
    requires HashHidesPlaintext(p)
    ensures var r := Register(body, newId, p, s);
      forall id :: id in r.store.users && id !in s.users ==>
        id == newId && body.password.Some? && r.store.users[id].password != body.password.value
  {
  }

  /** Login only ever sends a token after the password matched the stored
      hash of the document found, and the token is signed for a payload
      identifying that document, with the one-hour lifetime. */
  lemma LoginIssuesTokensOnlyAfterMatch(body: LoginBody, secret: string, p: Primitives, s: Store)
    ensures TokensOnlyAfterMatch(Login(body, secret, p, s).trace)
  {
    var t := Login(body, secret, p, s).trace;
    if Answered(t, 200) {
      assert |t| == 4;
      assert t[0].LookupByEmail? && t[1].ComparePassword? && t[2].SignToken?;
      assert t[3].Respond? && t[3].response.body.TokenString?;
    } else {
      forall i | 0 <= i < |t| && t[i].Respond?
        ensures !t[i].response.body.TokenString?
      {
      }
    }
  }

  /** A fresh account can log in with the credentials it registered, and
      the token the login sends gets the account through the guard. The
      libraries are assumed to behave: a password matches its own hash and
      a signed token verifies to its payload. */
  lemma RegisterThenLoginThenAuthenticate(
    username: string, email: string, password: string, newId: Id,
    secret: string, p: Primitives, s: Store)
    requires Valid(s)
    requires username != "" && email != "" && password != ""
    requires newId !in s.users
    requires FindByEmail(s, email).None?
    requires p.hash(password, SaltRounds).Some?
    requires CompareAcceptsOwnHash(p)
    requires SignsVerifiably(p, secret)
    ensures
      var registered := Register(RegisterBody(Some(username), Some(email), Some(password)), newId, p, s);
      var loggedIn := Login(LoginBody(Some(email), Some(password)), secret, p, registered.store);
      && Answered(registered.trace, 201)
      && Answered(loggedIn.trace, 200)
      && OutcomeOf(AuthenticateUser(Some(OutcomeOf(loggedIn.trace).response.body.token), secret, p, registered.store).trace)
         == Next(OutcomeOf(registered.trace).response.body.user)
  {
  }

  /** After registering, a login with a password the hasher's compare
      rejects for the stored hash is answered 401 "Invalid credentials". */
  lemma WrongPasswordRejectedAfterRegister(
    username: string, email: string, password: string, wrong: string, newId: Id,
    secret: string, p: Primitives, s: Store)
    requires Valid(s)
    requires username != "" && email != "" && password != "" && wrong != ""
    requires newId !in s.users
    requires FindByEmail(s, email).None?
    requires p.hash(password, SaltRounds).Some?
    requires p.compare(wrong, p.hash(password, SaltRounds).value) == Some(false)
    ensures
      var registered := Register(RegisterBody(Some(username), Some(email), Some(password)), newId, p, s);
      OutcomeOf(Login(LoginBody(Some(email), Some(wrong)), secret, p, registered.store).trace)
        == Sent(Fail(401, InvalidCredentials))
  {
  }

  /** Nothing prevents a second account with an e-mail already registered,
      but login never reaches it: the lookup keeps answering the earlier
      account, so every login behaves exactly as before. */
  lemma DuplicateEmailLeavesLoginUnchanged(
    body: RegisterBody, newId: Id, login: LoginBody, secret: string, p: Primitives, s: Store)
    requires Valid(s)
    requires body.email.Some? && FindByEmail(s, body.email.value).Some?
    ensures Login(login, secret, p, Register(body, newId, p, s).store).trace == Login(login, secret, p, s).trace
  {
    var s' := Register(body, newId, p, s).store;
    if s' != s && login.email.Some? {
      var u := OutcomeOf(Register(body, newId, p, s).trace).response.body.user;
      assert s' == Save(s, u) && u.id !in s.users && u.email == body.email.value;
      FindByEmailAfterSave(s, u, login.email.value);
      assert FindByEmail(s', login.email.value) == FindByEmail(s, login.email.value);
    }
  }

  /** Registering more accounts never locks out a request the guard
      already lets through: it hands on the same user as before. */
  lemma AccessSurvivesRegistration(
    auth: Option<string>, secret: string, body: RegisterBody, newId: Id, p: Primitives, s: Store)
    requires OutcomeOf(AuthenticateUser(auth, secret, p, s).trace).Next?
    ensures OutcomeOf(AuthenticateUser(auth, secret, p, Register(body, newId, p, s).store).trace)
      == OutcomeOf(AuthenticateUser(auth, secret, p, s).trace)
  {
  }
}
