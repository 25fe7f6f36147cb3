/**
  The token library (jsonwebtoken), seen from outside. Signatures are not
  modelled cryptographically: a token records the key it was signed with,
  and verification compares keys. Time claims follow section 4.1 of
  RFC 7519: `iat` and `exp` are whole seconds since the epoch.
*/
module Jwt {
  import opened Wrappers

  /** What login puts into a token: the principal's id and role. */
  datatype Claims = Claims(id: nat, role: string)

  datatype Token = Token(claims: Claims, iat: int, exp: int, key: string)

  /** `expiresIn: '1h'`, in seconds. */
  const OneHour: int := 3600

  /** Math.floor(Date.now() / 1000): a millisecond clock as a NumericDate. */
  function NumericDate(nowMs: int): int
  {
    nowMs / 1000
  }

  /** jwt.sign(claims, secret, { expiresIn: '1h' }). A missing or empty secret
      makes the library throw. */
  function Sign(claims: Claims, secret: Option<string>, nowMs: int): (r: Result<Token>)
    ensures r.Ok? <==> secret.Some? && secret.value != ""
    ensures r.Ok? ==> r.value.claims == claims && r.value.key == secret.value
    ensures r.Ok? ==> r.value.iat == NumericDate(nowMs) && r.value.exp == r.value.iat + OneHour
    ensures r.Err? ==> r.message == "secretOrPrivateKey must have a value"
  {
    if secret.None? || secret.value == "" then Err("secretOrPrivateKey must have a value")
    else
      var iat := NumericDate(nowMs);
      Ok(Token(claims, iat, iat + OneHour, secret.value))
  }

  /** jwt.verify(token, secret): a token signed with another key is rejected as
      forged; one whose `exp` has been reached is rejected as expired. */
  function Verify(token: Token, secret: string, nowMs: int): Result<Claims>
  {
    if token.key != secret then Err("invalid signature")
    else if NumericDate(nowMs) >= token.exp then Err("jwt expired")
    else Ok(token.claims)
  }

  /** A signed token verifies, with its claims, under its own key exactly
      until one hour (in whole seconds) after it was issued, and never under
      another key. */
  lemma SignThenVerify(claims: Claims, secret: string, issuedMs: int, laterMs: int)
    requires secret != ""
    ensures Sign(claims, Some(secret), issuedMs).Ok?
    ensures var t := Sign(claims, Some(secret), issuedMs).value;
      Verify(t, secret, laterMs) == (if NumericDate(laterMs) < NumericDate(issuedMs) + OneHour
                                     then Ok(claims) else Err("jwt expired"))
    ensures forall other: string :: other != secret ==>
      Verify(Sign(claims, Some(secret), issuedMs).value, other, laterMs) == Err("invalid signature")
  {
  }

  /** A token is valid at the moment it is issued and has expired 3 600 000 ms
      later. */
  lemma TokenLifetime(claims: Claims, secret: string, issuedMs: int)
    requires secret != ""
    ensures Verify(Sign(claims, Some(secret), issuedMs).value, secret, issuedMs) == Ok(claims)
    ensures Verify(Sign(claims, Some(secret), issuedMs).value, secret, issuedMs + 3600000) == Err("jwt expired")
  {
    assert NumericDate(issuedMs + 3600000) == NumericDate(issuedMs) + OneHour;
  }
}
