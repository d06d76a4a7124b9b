/**
 * The token library the service calls (github.com/dgrijalva/jwt-go), as far as
 * the service relies on it. The compact wire form (base64url, JSON) is not
 * modelled: a token is its header's signing method, its claims and its
 * signature, and an HMAC signature is represented by what it was computed
 * from (key, signing method, claims), which assumes HMAC cannot be forged.
 */
module Jwt {
  import opened Wrappers

  type Secret = string

  datatype SigningMethod =
    | HS256 | HS384 | HS512
    | RS256 | RS384 | RS512
    | ES256 | ES384 | ES512
    | PS256 | PS384 | PS512
    | Unsecured
  {
    /** The methods implemented by jwt.SigningMethodHMAC. */
    predicate IsHmac() {
      this == HS256 || this == HS384 || this == HS512
    }
  }

  /** A decoded JSON claim value; only strings and numbers matter to the service. */
  datatype ClaimValue = Text(text: string) | Number(number: int) | OtherJson

  /** jwt.MapClaims, or any other jwt.Claims implementation. */
  datatype Claims = MapClaims(entries: map<string, ClaimValue>) | OtherClaims

  datatype Mac = Mac(key: Secret, alg: SigningMethod, claims: Claims)

  /** A presented token string: either not a JWS at all, or its three parts. */
  datatype Token = Garbled | Compact(alg: SigningMethod, claims: Claims, signature: Mac)

  /** jwt.NewWithClaims(alg, claims).SignedString(key). */
  function Sign(alg: SigningMethod, claims: Claims, key: Secret): (t: Token)
    ensures SignedWith(t, key) && t.alg == alg && t.claims == claims
  {
    Compact(alg, claims, Mac(key, alg, claims))
  }

  /** The token's signature is the one `key` gives its header and claims. */
  function SignedWith(t: Token, key: Secret): (r: bool)
    ensures r ==> t.Compact? && t.signature.key == key
    ensures r ==> t.signature.alg == t.alg && t.signature.claims == t.claims
  {
    t.Compact? && t.signature == Mac(key, t.alg, t.claims)
  }

  /** What jwt.Parse hands back: the sentinel signature error, any other error, or a token. */
  datatype ParseOutcome = SignatureInvalid | OtherError | Parsed(valid: bool, claims: Claims)

  /**
   * jwt.Parse(t, keyFunc). The key function sees only the header's method and
   * decides which key (if any) the signature is checked against. Whether the
   * claims pass the library's own time checks is `claimsValid`.
   */
  function Parse<E>(t: Token, keyFunc: SigningMethod -> Result<Secret, E>, claimsValid: bool): (o: ParseOutcome)
    ensures o.Parsed? <==> t.Compact? && keyFunc(t.alg).Success? && SignedWith(t, keyFunc(t.alg).value)
    ensures o.Parsed? ==> o.claims == t.claims && o.valid == claimsValid
    ensures o.SignatureInvalid? <==> t.Compact? && keyFunc(t.alg).Success? && !SignedWith(t, keyFunc(t.alg).value)
  {
    match t
    case Garbled => OtherError
    case Compact(alg, claims, _) =>
      match keyFunc(alg)
      case Failure(_) => OtherError
      case Success(key) => if SignedWith(t, key) then Parsed(claimsValid, claims) else SignatureInvalid
  }
}
