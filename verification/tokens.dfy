/**
 The claim sets the backend signs into JWTs. Signing and decoding are not
 modelled: a token is the claim record that would be encoded.
 */
module Tokens {

  const AccessTokenExpireMinutes: nat := 60
  const VerificationTokenExpireHours: nat := 24

  /** `exp` is in epoch seconds, as PyJWT encodes a datetime. */
  datatype Claims =
    | Access(sub: string, role: string, exp: int)
    | Verification(email: string, exp: int)

  /** Seconds between issue time and expiry of a claim set. */
  function Lifetime(c: Claims, issuedAt: int): int {
    c.exp - issuedAt
  }

  /** `create_token({"sub": ..., "role": ...})`: the given claims plus an
      expiry one hour after `now`. */
  function CreateToken(sub: string, role: string, now: int): (c: Claims)
    ensures c.Access? && c.sub == sub && c.role == role
    ensures Lifetime(c, now) == 3600
  {
    Access(sub, role, now + AccessTokenExpireMinutes * 60)
  }

  /** `create_verification_token(email)`: the email claim plus an expiry one
      day after `now`. */
  function CreateVerificationToken(email: string, now: int): (c: Claims)
    ensures c.Verification? && c.email == email
    ensures Lifetime(c, now) == 86400
  {
    Verification(email, now + VerificationTokenExpireHours * 60 * 60)
  }
}
