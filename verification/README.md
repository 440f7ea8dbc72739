# Authentication layer of a small Express content API, modelled in Dafny

The server in `index.js` authenticates users with three pieces of logic:

- the guard middleware `authenticateUser`, which reads a token from the `auth` header, verifies it, looks up the user it names, and then either answers 401 or attaches the user to the request and calls `next`;
- `POST /api/register`, which checks the body, hashes the password with bcrypt at cost 10, and creates a user document;
- `POST /api/login`, which checks the body, finds the user by e-mail, compares the password, and signs a one-hour JWT.

The guard sits in front of `GET /api/protected`.

This project models each of these as a pure function. Each handler takes the request's input, the signing secret, the library calls and the User collection. It returns a `Run`:

- the **trace** of what the request did: every library or store call with its result, every error a catch block logs, the response it sends, and any hand-over to `next`;
- the collection afterwards.

The outcome is read off the trace. It is a response, a hand-over with a user attached, or no response at all. The last case happens when a catch block only logs, and the client then waits until its connection times out.

bcrypt and jsonwebtoken are opaque functions (`Crypto.Primitives`). `None` stands for a call that throws or rejects. The collection (`Users.Store`) is a map from `_id` to document plus the natural order that `findOne` scans.

Modules:

- `values.dfy`: `Option`, and `Truthy`, the JavaScript truthiness of an optional string.
- `users.dfy`: the User document, the collection, `findById`, `findOne({ email })` and `save()`.
- `crypto.dfy`: the cost factor, the token lifetime, the token payload and the four library calls. It also holds the library laws that only the end-to-end lemmas assume.
- `trace.dfy`: responses, events, outcomes, and the invariants a trace should keep.
- `handlers.dfy`: the guard, the protected route, register and login.
- `properties.dfy`: lemmas that link each handler to a trace invariant, and handlers to each other.

Some behaviours of the code are questionable; the model follows the code:

- **A failed token verification gets no response.** When `jwt.verify` throws (a bad signature, a malformed or expired token), the guard only logs. It sends nothing and does not call `next`. The model has a distinct `NoResponse` outcome for this case. It is not a 401.
- **Some failures get no response instead of a 500.** This covers register when hashing rejects, and login when compare or sign throws. These catch blocks also only log.
- **The token payload carries more than identity claims.** The code signs the stored password hash and a fixed `message` and `hobbies`, besides `userId`, `email`, `username` and `isAdmin: false`. `Crypto.Claims` carries all of these fields.
- **Registration answers 201 before the document is stored.** The save is not awaited, so the 201 goes out whatever the save later does.
- **E-mail is not unique.** Nothing checks it. A second account with a registered e-mail is created, but login never reaches it. See `DuplicateEmailLeavesLoginUnchanged`.

## Model

| member | source | states |
|---|---|---|
| Users.FirstWithEmail | index.js:111 | the scan returns the position of a document with the e-mail that no earlier document has; it returns nothing only when no document in the order has it |
| Users.FindById | index.js:44 | finds a document exactly when its `_id` is stored, and in a well-formed collection the found document carries that `_id` |
| Users.FindByEmail | index.js:111 | a found document has the requested e-mail and is the stored one; in a well-formed collection nothing is found exactly when no document has that e-mail |
| Users.Save | index.js:82-89 | keeps the collection well formed, adds the new document under its fresh `_id`, and never changes or drops an existing document |
| Users.FirstWithEmailAppend | index.js:111 | appending a fresh document keeps an earlier e-mail match; without one, the new document is the match exactly when its e-mail fits |
| Users.FindByEmailAfterSave | index.js:89 | after a save, `findOne({ email })` keeps answering an existing account; without one, it answers the new document exactly when its e-mail fits |
| Handlers.AuthenticateUser | index.js:27-59 | a missing or empty `auth` header gets 401 "Authentication failed" with no verification or lookup; a token that fails verification gets no response and no `next`; a verified token whose user is absent gets 401; otherwise `next` is called with exactly the stored user; the guard never both responds and calls `next`, nor does either twice |
| Handlers.ProtectedRoute | index.js:160-162 | answers 200 "This is a protected route" exactly when the guard hands on; whenever the guard does not hand on, the route's run is exactly the guard's (its 401 "Authentication failed", or no response exactly when verification failed); the route never hands on and responds at most once |
| Handlers.Register | index.js:67-96 | a missing or empty field gets 400 "Please provide all the fields" before any hashing or write; 201 exactly when all fields are present and hashing succeeds, with a document holding the body's username and e-mail, the hash at cost 10 as password, and the new `_id`, which is then saved; a rejected hash gets no response and no write; the collection stays well formed |
| Handlers.Login | index.js:99-152 | checks in a fixed order: 400 for a missing field (no lookup), then 404 "User not found" exactly when the e-mail is unknown, then 401 "Invalid credentials" exactly when compare says no, and 200 only after a match and a successful sign; the token sent is the signer's output under the secret and "1h" for claims with the found user's `_id`, e-mail and username, `isAdmin` false, and the stored hash; no response exactly when compare or sign throws; the collection is unchanged |
| Properties.GuardForwardsOnlyResolvedUsers | index.js:41-55 | on every input, any user the guard attaches was returned by a lookup of the `userId` from a payload that verified earlier in the same request |
| Properties.ProtectedRouteForwardsOnlyResolvedUsers | index.js:160-162 | the same invariant holds for the whole protected route |
| Properties.RegisterSavesOnlyHashes | index.js:79-89 | on every input, each saved document's password is the output of an earlier hash call at cost 10 |
| Properties.StoredPasswordIsNotPlaintext | index.js:79-89 | if the hasher never returns its input, registration adds only the `newId` document, and its password is never the plaintext it was given |
| Properties.LoginIssuesTokensOnlyAfterMatch | index.js:111-148 | on every input, a token is sent only after these steps in order: an e-mail lookup found a document, compare against that document's stored hash returned true, and the signer produced exactly that token for claims identifying the document, with lifetime "1h" |
| Properties.RegisterThenLoginThenAuthenticate | index.js:27-148 | for a new e-mail, and given libraries that behave (a password matches its own hash; a signed token is non-empty and verifies to its payload), register gets 201, login with the same credentials gets 200, and the guard hands on exactly the registered document for the token login sent |
| Properties.WrongPasswordRejectedAfterRegister | index.js:111-130 | after registering, a login whose password compare rejects for the stored hash gets 401 "Invalid credentials" |
| Properties.DuplicateEmailLeavesLoginUnchanged | index.js:82-122 | registering another account with an e-mail already stored leaves every login's trace exactly as it was |
| Properties.AccessSurvivesRegistration | index.js:44-55 | a request the guard hands on still gets the same user after any registration |

## Left out

- The libraries' internals are out of scope: bcrypt salting and work factor, JWT encoding, HMAC signing and the expiry clock. Each library call is an opaque function. Token expiry is one of the ways `verify` can fail.
- The `iat` and `exp` entries that the JWT library adds to the payload are not modelled.
- Store failures in the awaited lookups are not modelled. Examples are a lost connection, or a `CastError` when a payload's `userId` is not a valid ObjectId. In the code these take the catch path of `findById` or `findOne` (logged, no response). In the model, lookups always answer.
- A rejected `save()` is an unhandled rejection outside the handler's try/catch; not modelled. The catch block never sees it, and under Node's default it ends the process. In the model the save always succeeds.
- Request fields are absent or strings. Other JSON values in the body are not modelled: numbers, booleans, and objects such as query operators passed as `email`. The same goes for Mongoose casting them to `String`. Every falsy JSON value behaves like an absent field.
- Assigning the new `_id` is a parameter (`newId`). `new User` always produces a fresh ObjectId; the model does not produce identifiers, and for an `_id` already stored `Users.Save` keeps the existing document.
- A missing `JWT_SECRET` is not modelled. The secret is a string parameter.
- Asynchrony is not modelled: `await`, and the fact that `user.save()` is not awaited. The save takes effect at once.
- Startup and I/O-only routes are left out: `mongoose.connect`, `app.listen`, `express.json`, `/api/health` and `/api/unprotected`.
- Mail sending is left out: the e-mail controller, route and schema, and the contact form.
- The timeout middleware is left out. It is disabled in `index.js` and its timer call is malformed.
- Post ownership is left out: the code has no post handlers and no ownership check.
- Users.FindByEmail: natural order is taken to be insertion order. MongoDB does not promise that for `findOne` without a sort.
