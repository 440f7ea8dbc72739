/** The password hasher and the token library, seen only through the calls
    the handlers make. Their internals (salting, work factor, signatures,
    encodings, expiry clocks) are not modelled: each call is an opaque
    function, and `None` stands for a call that throws or rejects. */
module Crypto {
  import opened Values
  import opened Users

  /** Cost factor passed to the password hasher on every registration. */
  const SaltRounds: int := 10

  /** Lifetime passed to the token signer on every login. */
  const ExpiresIn: string := "1h"

  /** The fixed `message` and `hobbies` entries of every token payload. */
  const ClaimsMessage: string := "my name is chris and I really like to eat pizza."
  const ClaimsHobbies: seq<string> := ["coding", "reading", "playing games"]

  /** The payload the login handler signs and the guard reads back. */
  datatype Claims = Claims(
    userId: Id,
    message: string,
    email: string,
    username: string,
    password: string,
    isAdmin: bool,
    hobbies: seq<string>)

  /** The four library calls of the authentication layer. */
  datatype Primitives = Primitives(
    hash: (string, int) -> Option<string>,            // password hash at a cost factor
    compare: (string, string) -> Option<bool>,        // plaintext against a stored hash
    verify: (string, string) -> Option<Claims>,       // token and secret to its payload
    sign: (Claims, string, string) -> Option<string>) // payload, secret, lifetime to a token

  /** The payload the login handler builds from the document it found. */
  function TokenClaims(u: User): Claims {
    Claims(u.id, ClaimsMessage, u.email, u.username, u.password, false, ClaimsHobbies)
  }

  /** A payload identifies `u`: its `userId`, `email` and `username` are
      those of the document, and it grants no admin rights. */
  predicate Identifies(c: Claims, u: User) {
    c.userId == u.id && c.email == u.email && c.username == u.username && !c.isAdmin
  }

  // Laws about the libraries. The handlers never rely on them; only the
  // end-to-end lemmas take them as hypotheses.

  /** A hash never equals the plaintext it was computed from. */
  ghost predicate HashHidesPlaintext(p: Primitives) {
    forall plain :: p.hash(plain, SaltRounds).Some? ==> p.hash(plain, SaltRounds).value != plain
  }

  /** A plaintext is accepted against its own hash. */
  ghost predicate CompareAcceptsOwnHash(p: Primitives) {
    forall plain :: p.hash(plain, SaltRounds).Some? ==>
      p.compare(plain, p.hash(plain, SaltRounds).value) == Some(true)
  }

  /** With `secret`, signing always succeeds, yields a non-empty token, and
      verification (within the lifetime) gives back the signed payload. */
  ghost predicate SignsVerifiably(p: Primitives, secret: string) {
    forall c :: p.sign(c, secret, ExpiresIn).Some? && p.sign(c, secret, ExpiresIn).value != ""
      && p.verify(p.sign(c, secret, ExpiresIn).value, secret) == Some(c)
  }
}
