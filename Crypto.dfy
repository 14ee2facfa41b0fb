/** The two cryptographic collaborators, as abstract functions: bcrypt
    password hashing, and JSON Web Tokens signed with a server secret.
    Hashing is modelled as collision-free (a digest remembers what it was
    computed from) and a signature as unforgeable (it can only be produced
    from the claims and the secret). */
module Crypto {
  import opened Schema

  /** The cost factor every `bcrypt.hash` call of the forum uses. */
  const BcryptCost: nat := 12

  /** `bcrypt.hash(password, 12)`. */
  function Hash(password: string): Digest {
    Bcrypt(BcryptCost, password)
  }

  /** `bcrypt.compare(password, digest)`. */
  predicate Matches(password: string, digest: Digest) {
    digest.source == password
  }

  /** A password matches its own hash and no other password's. */
  lemma HashMatches(password: string, other: string)
    ensures Matches(password, Hash(password))
    ensures Matches(other, Hash(password)) <==> other == password
  {
  }

  /** Token lifetimes in seconds: `'7d'` and `'30d'`. */
  const ShortTtl: nat := 7 * 24 * 60 * 60
  const LongTtl: nat := 30 * 24 * 60 * 60

  /** The payload `{ userId, username }` plus the `iat` and `exp`
      (seconds since the epoch) that `jwt.sign` adds. */
  datatype Claims = Claims(userId: UserId, username: string, iat: int, exp: int)

  /** The HMAC of a payload under a secret. */
  datatype Mac = Hmac(payload: Claims, key: string)

  datatype Jwt = Jwt(claims: Claims, signature: Mac)

  /** `jwt.sign({ userId, username }, secret, { expiresIn: ttl })` at time
      `now` (milliseconds): issued-at is the current second, expiry `ttl`
      seconds later. */
  function Issue(userId: UserId, username: string, ttl: nat, secret: string, now: Time): (t: Jwt)
    ensures t.claims.userId == userId && t.claims.username == username
    ensures t.claims.exp - t.claims.iat == ttl && t.claims.iat * 1000 <= now < (t.claims.iat + 1) * 1000
  {
    var iat := now / 1000;
    var c := Claims(userId, username, iat, iat + ttl);
    Jwt(c, Hmac(c, secret))
  }

  /** `jwt.verify(token, secret)`: `None` stands for the exception it throws
      on a malformed token, a bad signature or an expired one (the current
      second at or past `exp`). */
  function Verify(token: Option<Jwt>, secret: string, now: Time): (r: Option<Claims>)
    ensures r.Some? <==> token.Some? && token.value.signature == Hmac(token.value.claims, secret)
                         && now / 1000 < token.value.claims.exp
    ensures r.Some? ==> r.value == token.value.claims
  {
    match token
    case None => None
    case Some(t) =>
      if t.signature != Hmac(t.claims, secret) then None
      else if now / 1000 >= t.claims.exp then None
      else Some(t.claims)
  }

  /** A token the server issued verifies, giving back the subject it was
      issued for, exactly until its lifetime has elapsed; under any other
      secret it never verifies. */
  lemma IssuedTokenVerifies(userId: UserId, username: string, ttl: nat, secret: string,
                            issuedAt: Time, now: Time, other: string)
    requires other != secret
    ensures var t := Issue(userId, username, ttl, secret, issuedAt);
            && (Verify(Some(t), secret, now).Some? <==> now / 1000 < issuedAt / 1000 + ttl)
            && (Verify(Some(t), secret, now).Some? ==> Verify(Some(t), secret, now).value.userId == userId)
            && Verify(Some(t), other, now).None?
  {
  }

  /** In particular a token is valid at the moment it is issued (any
      positive lifetime) and invalid once `ttl` seconds have passed. */
  lemma {:induction false} FreshTokenValidUntilExpiry(userId: UserId, username: string, ttl: nat,
                                                     secret: string, now: Time)
    requires ttl > 0
    ensures Verify(Some(Issue(userId, username, ttl, secret, now)), secret, now).Some?
    ensures Verify(Some(Issue(userId, username, ttl, secret, now)), secret, now + ttl * 1000).None?
  {
    var t := Issue(userId, username, ttl, secret, now);
    assert (now + ttl * 1000) / 1000 == now / 1000 + ttl;
  }
}
