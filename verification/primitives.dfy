/** The cryptographic collaborators of the auth controller: the bcryptjs password
    hash and the jsonwebtoken signer. Both are opaque here; the only facts the
    model relies on are collected in `Sound`. */
module Primitives {

  /** A bcrypt salt, produced from a random source. */
  type Salt(!new)
  /** The server's token-signing secret. */
  type Secret(!new)
  /** The stored output of the password hash. It is a different type from the
      plaintext `string`, so a user record cannot hold a plaintext password. */
  type Digest(==)
  /** The signature part of a signed token. */
  type Signature(==)

  /** Identifier the user store assigns to a new user. */
  type UserId = nat

  /** Number of seconds in the fixed token lifetime, `expiresIn: '7d'`. */
  const TokenLifetime: nat := 7 * 24 * 60 * 60

  /** The payload of an issued token: the `id` the server signs, plus the `iat`
      and `exp` claims the signer adds, both in whole seconds. */
  datatype Claims = Claims(id: UserId, issuedAt: int, expiresAt: int)

  /** A signed bearer token. */
  datatype Token = Token(claims: Claims, signature: Signature)

  /** The opaque primitives: bcrypt's hash and compare, the signer's sign and
      signature check. */
  datatype Crypto = Crypto(
    hash: (string, Salt) -> Digest,
    compare: (string, Digest) -> bool,
    sign: (Claims, Secret) -> Signature,
    verify: (Claims, Signature, Secret) -> bool)

  /** The behaviour the model assumes of the primitives: a password matches its
      own hash under any salt, and a signature verifies under the secret that made it. */
  ghost predicate Sound(c: Crypto) {
    && (forall password, salt :: c.compare(password, c.hash(password, salt)))
    && (forall claims, secret :: c.verify(claims, c.sign(claims, secret), secret))
  }

  /** The signer's clock: whole seconds of a millisecond timestamp, rounded down. */
  function Seconds(nowMs: nat): (r: nat) {
    nowMs / 1000
  }

  /** Signs `{ id }` with a seven-day expiry at time `nowMs`. */
  function IssueToken(c: Crypto, secret: Secret, id: UserId, nowMs: nat): (t: Token)
    ensures t.claims.id == id
    ensures t.claims.issuedAt * 1000 <= nowMs < t.claims.issuedAt * 1000 + 1000
    ensures t.claims.expiresAt == t.claims.issuedAt + TokenLifetime
    ensures t.signature == c.sign(t.claims, secret)
  {
    var claims := Claims(id, Seconds(nowMs), Seconds(nowMs) + TokenLifetime);
    Token(claims, c.sign(claims, secret))
  }

  /** The signer's verification at time `nowMs`: the signature checks out and the
      current second has not yet reached `exp`. */
  predicate Accepts(c: Crypto, secret: Secret, t: Token, nowMs: nat) {
    c.verify(t.claims, t.signature, secret) && Seconds(nowMs) < t.claims.expiresAt
  }

  /** A token issued at `issuedMs` is accepted exactly until the start of the
      second seven days after its issuing second: in particular throughout the
      first seven days less one second, and never from seven days on. */
  lemma IssuedTokenLifetime(c: Crypto, secret: Secret, id: UserId, issuedMs: nat, nowMs: nat)
    requires Sound(c)
    ensures Accepts(c, secret, IssueToken(c, secret, id, issuedMs), nowMs)
            <==> nowMs < (issuedMs / 1000 + TokenLifetime) * 1000
    ensures issuedMs <= nowMs < issuedMs + (TokenLifetime - 1) * 1000
            ==> Accepts(c, secret, IssueToken(c, secret, id, issuedMs), nowMs)
    ensures nowMs >= issuedMs + TokenLifetime * 1000
            ==> !Accepts(c, secret, IssueToken(c, secret, id, issuedMs), nowMs)
  {
  }
}
