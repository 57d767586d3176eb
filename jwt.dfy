/**
  Session token construction: the four claims a token carries, its expiry,
  and signing under the issuing app's secret.
*/
module Jwt {
  import opened Wrappers
  import Storage
  import Hs256

  /** Durations and instants are nanoseconds, as Go's time package counts them. */
  const NanosPerSecond := 1_000_000_000

  const UserIdClaim := "user_id"
  const UsernameClaim := "username"
  const ExpClaim := "exp"
  const AppIdClaim := "app_id"

  /** `Time.Unix()`: the whole seconds since the epoch at instant `t`, rounded down. */
  function Unix(t: int): (sec: int)
    ensures sec * NanosPerSecond <= t < (sec + 1) * NanosPerSecond
  {
    t / NanosPerSecond
  }

  /** The claim map, filled in one assignment at a time starting from a fresh token's empty claims. */
  function TokenClaims(user: Storage.User, app: Storage.App, duration: int, now: int): (c: Hs256.Claims)
    ensures c.Keys == {UserIdClaim, UsernameClaim, ExpClaim, AppIdClaim}
    ensures c[UserIdClaim] == Hs256.IntClaim(user.id)
    ensures c[UsernameClaim] == Hs256.StringClaim(user.username)
    ensures c[AppIdClaim] == Hs256.IntClaim(app.id)
    // the expiry is the whole second at which now + duration falls
    ensures c[ExpClaim].IntClaim? &&
      c[ExpClaim].n * NanosPerSecond <= now + duration < (c[ExpClaim].n + 1) * NanosPerSecond
  {
    var claims := Hs256.New().claims;
    var claims := claims[UserIdClaim := Hs256.IntClaim(user.id)];
    var claims := claims[UsernameClaim := Hs256.StringClaim(user.username)];
    var claims := claims[ExpClaim := Hs256.IntClaim(Unix(now + duration))];
    var claims := claims[AppIdClaim := Hs256.IntClaim(app.id)];
    claims
  }

  /**
    `NewToken(user, app, duration)` read at instant `now`: the claims above signed
    with HS256 under the app's secret; signing failure is passed on.
  */
  function NewToken(user: Storage.User, app: Storage.App, duration: int, now: int, sha256Available: bool)
    : (r: Result<Hs256.Token, Hs256.SignError>)
    ensures r.Ok? <==> sha256Available
    ensures r.Err? ==> r.error == Hs256.HashUnavailable
    // the app's secret, and no other key, recovers the claims; the user plays no part in the key
    ensures r.Ok? ==> Hs256.Parse(r.value, app.secret) == Some(TokenClaims(user, app, duration, now))
    ensures r.Ok? ==> forall key :: key != app.secret ==> Hs256.Parse(r.value, key).None?
  {
    var token := Hs256.Unsigned(Hs256.Alg, TokenClaims(user, app, duration, now));
    match Hs256.SignedString(token, app.secret, sha256Available)
    case Err(e) => Err(e)
    case Ok(signed) => Ok(signed)
  }

  /** Decoding a token with the issuing app's secret gives back the user id, username, app id and expiry. */
  lemma NewTokenRoundTrip(user: Storage.User, app: Storage.App, duration: int, now: int)
    ensures var r := NewToken(user, app, duration, now, true);
      && r.Ok?
      && var c := Hs256.Parse(r.value, app.secret);
      && c.Some?
      && c.value.Keys == {UserIdClaim, UsernameClaim, ExpClaim, AppIdClaim}
      && c.value[UserIdClaim] == Hs256.IntClaim(user.id)
      && c.value[UsernameClaim] == Hs256.StringClaim(user.username)
      && c.value[AppIdClaim] == Hs256.IntClaim(app.id)
      && c.value[ExpClaim] == Hs256.IntClaim(Unix(now + duration))
  {
  }
}
