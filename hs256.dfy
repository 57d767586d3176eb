/**
  HMAC-SHA256 signed JSON Web Tokens (the jwt library's HS256 method), as an ideal model.

  A claim set is a map from claim names to values. A signed token carries its
  algorithm, its claims and a symbolic tag; the tag matches only the algorithm,
  key and claims it was computed over, so a token verifies under exactly one key.
  Keys that HMAC treats as equal (zero padding, digests of long keys) are distinct here.
*/
module Hs256 {
  import opened Wrappers

  /** The algorithm name put in the token header. */
  const Alg := "HS256"

  /** A claim value: a JSON number or a JSON string. */
  datatype Claim = IntClaim(n: int) | StringClaim(s: string)

  type Claims = map<string, Claim>

  /** The symbolic HMAC tag over the signing input. */
  datatype Mac = Mac(alg: string, key: string, claims: Claims)

  /** A token before signing: `jwt.New(jwt.SigningMethodHS256)` and its claim map. */
  datatype Unsigned = Unsigned(alg: string, claims: Claims)

  /** A signed token: the compact serialization, seen abstractly. */
  datatype Token = Token(alg: string, claims: Claims, signature: Mac)

  /** The only way HS256 signing with a byte-string key fails: SHA-256 is not available. */
  datatype SignError = HashUnavailable

  /** A fresh HS256 token with an empty claim set. */
  function New(): Unsigned
  {
    Unsigned(Alg, map[])
  }

  /** Signs `t` under `key`; `sha256Available` says whether the hash function is linked in. */
  function SignedString(t: Unsigned, key: string, sha256Available: bool): (r: Result<Token, SignError>)
    ensures r.Ok? <==> sha256Available
    ensures r.Err? ==> r.error == HashUnavailable
    // round trip: the signing key recovers exactly the signed claims, every other key is refused
    ensures r.Ok? ==> Parse(r.value, key) == Some(t.claims)
    ensures r.Ok? ==> forall k :: k != key ==> Parse(r.value, k).None?
  {
    if sha256Available then Ok(Token(t.alg, t.claims, Mac(t.alg, key, t.claims))) else Err(HashUnavailable)
  }

  /** Verifies the tag of `token` under `key` and yields its claims when it matches. */
  function Parse(token: Token, key: string): Option<Claims>
  {
    if token.signature == Mac(token.alg, key, token.claims) then Some(token.claims) else None
  }

  /** The converse of the round trip: a token accepted under a key is the one signing its claims under that key gives. */
  lemma ParseAcceptsOnlySigned(token: Token, key: string)
    requires Parse(token, key).Some?
    ensures SignedString(Unsigned(token.alg, token.claims), key, true) == Ok(token)
  {
  }
}
