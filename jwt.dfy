/**
 * The session token: `jwt.sign(claims, secret, { expiresIn: '24h' })` and
 * `jwt.verify(token, secret)` over integer time in seconds.  The keyed
 * signature is uninterpreted: a `Signer` carries an arbitrary function of
 * the signed fields (the secret is folded into it).
 */
module Jwt {
  import opened Wrappers

  const EXPIRES_IN_SECONDS: int := 24 * 60 * 60

  /** The claims the login route signs, which the authentication middleware later yields as `req.user`. */
  datatype Claims = Claims(userId: nat, email: string, userType: string, category: Option<string>)

  datatype Token = Token(claims: Claims, issuedAt: int, expiresAt: int, signature: string)

  datatype Signer = Signer(mac: (Claims, int, int) -> string)

  function Sign(signer: Signer, claims: Claims, now: int): Token
  {
    var exp := now + EXPIRES_IN_SECONDS;
    Token(claims, now, exp, signer.mac(claims, now, exp))
  }

  /** All or nothing: the claims when the signature matches the signed fields and the token has not expired. */
  function Verify(signer: Signer, t: Token, now: int): Option<Claims>
  {
    if t.signature == signer.mac(t.claims, t.issuedAt, t.expiresAt) && now < t.expiresAt
    then Some(t.claims) else None
  }

  /** Verifying a freshly signed token gives back its claims until 24 hours have passed, and nothing from then on. */
  lemma SignThenVerify(signer: Signer, claims: Claims, issued: int, now: int)
    ensures Verify(signer, Sign(signer, claims, issued), now) ==
            if now < issued + EXPIRES_IN_SECONDS then Some(claims) else None
  {
  }

  ghost predicate CollisionFree(signer: Signer)
  {
    forall c1, i1, e1, c2, i2, e2 :: signer.mac(c1, i1, e1) == signer.mac(c2, i2, e2) ==> c1 == c2 && i1 == i2 && e1 == e2
  }

  /** Under a collision-free signature, a token whose claims or times were altered after signing does not verify. */
  lemma TamperedTokenRejected(signer: Signer, claims: Claims, issued: int, forged: Token, now: int)
    requires CollisionFree(signer)
    requires forged.signature == Sign(signer, claims, issued).signature
    requires forged != Sign(signer, claims, issued)
    ensures Verify(signer, forged, now) == None
  {
  }
}
