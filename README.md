# shilka-sso authentication core in Dafny

A model of the single-sign-on service's decision logic: registering a user,
logging in to a client application (an "app") and getting back a signed session
token, and asking whether a user is an administrator. Three layers are modelled:

- the **auth service** (`AuthService.Auth`), a chain of store lookups with early
  returns, each failure translated into the service's error kinds;
- the **RPC adapter** (`Transport`), which validates request fields in a fixed
  order, calls the service once and maps service errors to RPC status codes;
- the **token issuer** (`Jwt`), which builds exactly four claims
  (`user_id`, `username`, `exp`, `app_id`) and signs them with the app's secret.

The service's collaborators (user saver, user provider, app provider) are one
in-memory store class, `Storage.Store`: a users table kept in insertion order
with unique usernames and fresh positive ids, a read-only apps table, and the
SQLite adapter's error translation (no row becomes "user not found" or "app not
found", a uniqueness conflict becomes "user already exists", anything else is
passed on). A store may be built with a `fault`, standing for every other
database failure.

Foreign libraries are ideal models: bcrypt (`Bcrypt`) hashes to a symbolic
digest over cost, salt and the 72 key bytes its key schedule reads (the
password's UTF-8 bytes and a zero byte, repeated), so a hash accepts exactly the
passwords with the same key bytes: `p` followed by NUL and `p` again, or any
password agreeing with `p` on its first 72 bytes, is accepted in place of `p`,
while distinct passwords under 72 bytes without NUL are told apart; HS256 signing (`Hs256`) computes a symbolic tag over algorithm, key and
claims, so a token verifies under its signing key and no other (keys that HMAC itself treats as equal are kept apart; see Left out). The outside world
enters as parameters: the instant `now` (nanoseconds since the epoch) at which a
token is issued, the salt the random source delivers (`None` when it fails), and
whether SHA-256 is available to the signer.

`Scenarios` restates the integration tests of tests/auth_register_login_test.go
as methods proved for every consistent, working store that holds the test app,
whatever users it already has, for every non-empty username not yet taken,
every non-empty password, salt and instant, and, for the wrong-password test,
every non-empty password whose bcrypt key differs from the registered one's.

Points where the code departs from what its own tests, comments and error names suggest:

- a token-signing failure is reported as invalid credentials (so the RPC answer is
  InvalidArgument), not as an internal error;
- an app-lookup failure after a correct password passes the store's error on;
  the service's "invalid app id" error is declared but never produced;
- the admin-check handler answers every service error with Internal, including
  an unknown user id (see Findings); its "invalid user id" branch after
  validation can never fire, because validation only ever returns a status.

## Model

| member | source | states |
|---|---|---|
| Storage.FindByUsername | internal/storage/sqlite/sqlite.go:64-82 | a username lookup finds a row with that username, and finds nothing exactly when no row has it |
| Storage.FindById | internal/storage/sqlite/sqlite.go:89-108 | an id lookup finds a row with that id, and finds nothing exactly when no row has it |
| Storage.FindByUsernameAppend | internal/storage/sqlite/sqlite.go:40-57 | inserting a row leaves every other username's lookup as it was and makes a previously absent name find the new row |
| Storage.FindByIdAppend | internal/storage/sqlite/sqlite.go:52-57 | inserting a row leaves earlier id lookups unchanged and makes the new id find the new row |
| Storage.Store.SaveUser | internal/storage/sqlite/sqlite.go:31-58 | a database failure or a taken username changes nothing and reports the failure or "user already exists"; otherwise one row with the next id, the given hash and a clear admin flag is appended; uniqueness and id order are kept (the store's constructor gives the empty users table these start from) |
| Storage.Store.GetUser | internal/storage/sqlite/sqlite.go:61-83 | database failure passed on; "user not found" exactly when no row has the username; otherwise that row's id, username and hash (the columns `UserRow.AsUser` selects) |
| Storage.Store.IsAdmin | internal/storage/sqlite/sqlite.go:86-109 | database failure passed on; "user not found" exactly when no row has the id; otherwise that row's admin flag |
| Storage.Store.GetApp | internal/storage/sqlite/sqlite.go:112-132 | database failure passed on; otherwise the stored app exactly when the id is in the apps table, else "app not found" |
| Bcrypt.GenerateFromPassword | internal/services/auth/auth.go:149-155 | hashing fails exactly when no salt can be drawn; a produced hash has the default cost and the drawn salt, and `CompareHashAndPassword` accepts it for exactly the passwords whose 72 key bytes (`Key`) equal the hashed password's |
| Bcrypt.Key | internal/services/auth/auth.go:149 | the key material of a password (its UTF-8 bytes `Utf8`, one `EncodeChar` per character, with a zero byte appended and repeated by `Cycle`) is 72 bytes: its first 72 UTF-8 bytes when it has that many, otherwise it begins with its bytes followed by a zero byte |
| Bcrypt.NulRepeatMatches | internal/services/auth/auth.go:105 | a hash of `p` accepts `p`, NUL, `p` as well as `p` (encoding distributes over concatenation, `Utf8Concat`, and a stream repeated twice over is the stream repeated once, `CycleTwice`) |
| Bcrypt.LongPasswordsMatch | internal/services/auth/auth.go:105 | passwords of 72 bytes or more that agree on their first 72 bytes are accepted by each other's hashes |
| Bcrypt.ShortPasswordsDiffer | internal/services/auth/auth.go:105 | a hash rejects every password under 72 bytes and without NUL whose bytes differ from those of the hashed one (also under 72 bytes and without NUL) |
| Hs256.SignedString | internal/lib/jwt/jwt.go:20 | signing fails only when SHA-256 is unavailable; a signed token verifies (`Parse`) under its key to exactly its claims and under every other key to nothing |
| Hs256.ParseAcceptsOnlySigned | tests/auth_register_login_test.go:49-55 | conversely, a token `Parse` accepts under a key is exactly what signing its algorithm and claims under that key produces |
| Jwt.Unix | internal/lib/jwt/jwt.go:17 | the result is the whole second in which the instant lies |
| Jwt.TokenClaims | internal/lib/jwt/jwt.go:12-18 | starting from the empty claim set of `Hs256.New`, exactly the four keys user_id, username, exp, app_id, holding the user's id, the username, the expiry second of now + duration and the app's id |
| Jwt.NewToken | internal/lib/jwt/jwt.go:10-27 | the token verifies under the app's secret, and no other key, to the four claims; a signing failure gives no token and the signing error |
| Jwt.NewTokenRoundTrip | tests/auth_register_login_test.go:49-62 | decoding a successfully issued token with the app's secret gives back user id, username, app id and expiry Unix(now + duration) |
| AuthService.Auth.constructor | internal/services/auth/auth.go:53-67 | the service keeps the store it is given and the token lifetime, neither changed afterwards |
| AuthService.Auth.Login | internal/services/auth/auth.go:74-130 | unknown username and wrong password both give invalid credentials; a database failure is passed on, never as invalid credentials; a missing app after a correct password gives the store's "app not found"; signing failure gives invalid credentials; success exactly when all four steps pass, and the token is the one issued for the stored user and the requested app; "invalid app id" never occurs |
| AuthService.Auth.Register | internal/services/auth/auth.go:134-170 | a hashing failure, a database failure or a taken username changes nothing and gives the hashing error, the database error or "user already exists"; otherwise the store gains one row holding the password's hash (not the password) and the new id is returned |
| AuthService.Auth.IsAdmin | internal/services/auth/auth.go:174-199 | database failure passed on; an unknown id gives "invalid user id"; otherwise the stored flag unchanged |
| Transport.ValidateLogin | internal/grpc/auth/server.go:116-130 | passes exactly when username, password and app id are all set; otherwise InvalidArgument naming the first empty field in the order username, password, appId |
| Transport.ValidateRegister | internal/grpc/auth/server.go:132-142 | passes exactly when username and password are set; otherwise InvalidArgument naming the first empty one, username before password |
| Transport.ValidateIsAdmin | internal/grpc/auth/server.go:144-150 | passes exactly when the user id is not 0; otherwise InvalidArgument "userId is empty" |
| Transport.LoginErrorStatus | internal/grpc/auth/server.go:56-62 | InvalidArgument "invalid credentials" exactly when `ErrorsIs` finds the invalid-credentials kind, Internal "internal error" for every other error |
| Transport.RegisterErrorStatus | internal/grpc/auth/server.go:79-84 | AlreadyExists "user already exists" exactly for a username conflict, Internal for every other error |
| Transport.IsAdminErrorStatusIntended | internal/grpc/auth/server.go:104-107 | InvalidArgument "invalid user id" exactly for an unknown user id, Internal otherwise |
| Transport.ServerAPI.constructor | internal/grpc/auth/server.go:40-42 | the server serves the service it is given |
| Transport.ServerAPI.Login | internal/grpc/auth/server.go:48-68 | a request failing validation is answered with the validation status whatever the store holds; otherwise the service's token or its mapped error; end to end, bad credentials give InvalidArgument and database or app failures give Internal |
| Transport.ServerAPI.Register | internal/grpc/auth/server.go:70-89 | a request failing validation is answered with its status and changes nothing; otherwise Internal for hashing or database failure, AlreadyExists for a taken username, or the new id with the hashed row appended and the next id advanced |
| Transport.ServerAPI.IsAdmin | internal/grpc/auth/server.go:91-112 | user id 0 gives InvalidArgument "userId is empty"; the `ErrorsIs` test for an unknown user on the validation status never holds; otherwise the service's flag, or Internal (`IsAdminErrorStatus`) for any service error |
| Transport.ServerAPI.IsAdminIntended | internal/grpc/auth/server.go:91-112 | as the handler above, except that an unknown user id gives InvalidArgument "invalid user id" |
| Transport.IsAdminUnknownUserIsInternal | internal/grpc/auth/server.go:102-107 | for a nonzero id no row has, the handler as written answers Internal and the intended one "invalid user id" |
| Scenarios.LoginIssuesClaims | tests/auth_register_login_test.go:36-62 | on any consistent, working store with the test app, a stored user giving the right password gets a token that decodes under the app secret to their id, username, app id 1 and expiry Unix(now + ttl) |
| Scenarios.RegisterLoginHappyPath | tests/auth_register_login_test.go:21-64 | on any consistent, working store with the test app and for any username not yet taken: after registering, logging in to the test app yields a token that decodes to the positive registered id, the username, app id 1 and expiry Unix(now + ttl) |
| Scenarios.DuplicatedRegistration | tests/auth_register_login_test.go:67-88 | on any such store and any username not yet taken, the first registration returns a positive id; the second with the same username is AlreadyExists "user already exists" |
| Scenarios.InvalidPassword | tests/auth_register_login_test.go:92-115 | on any such store, after registering a username not yet taken, logging in with a password whose bcrypt key differs from the registered one's (by `Bcrypt.ShortPasswordsDiffer`, any other password under 72 bytes without NUL, such as the test's ten-character ones) is InvalidArgument "invalid credentials" |
| Scenarios.RegisterIsAdminHappyPath | tests/auth_register_login_test.go:118-138 | on any such store, a freshly registered user is not an administrator |
| Scenarios.IsAdminFailCase | tests/auth_register_login_test.go:141-151 | on any such store where no user has id 100000000, the handler as written answers Internal; the intended handler answers InvalidArgument "invalid user id" |
| Scenarios.RegisterFailCases | tests/auth_register_login_test.go:154-195 | on any such store, empty username, empty password, and both empty give "username is empty", "password is empty" and "username is empty", and nothing is stored |

## Left out

- Logging (every `slog` call) and the context argument of each call (cancellation, deadlines): they do not affect results.
- bcrypt internals: the Blowfish cipher, salted randomness and constant-time comparison; a salt is a parameter and a hash is a symbolic term over the 72 key bytes, so one-wayness is not modelled, nor collisions between different key bytes. The library's cost-range check is not modelled: the service always hashes at the default cost.
- Bcrypt.GenerateFromPassword: recent versions of the library refuse to hash a password longer than 72 bytes (ErrPasswordTooLong); the library version is not part of this model, so the model hashes such a password by its first 72 bytes, as older versions do. Under either version the service would report the failure as Internal.
- HMAC-SHA256 and the JWT compact encoding (base64, JSON): a token is a symbolic term. The parser's own claim validation (rejecting an expired token) and the JSON number conversion the tests apply to claims are not modelled.
- Hs256.SignedString: keys that HMAC-SHA256 treats as the same key (a short key and the same key padded with zero bytes up to the 64-byte block, or a key longer than the block and its SHA-256 digest, section 2 of RFC 2104) are distinct keys in the model, so "no other key verifies" is stronger than HMAC promises for such keys.
- Jwt.NewToken: for the same reason, "no key other than the app's secret verifies the token" holds in the model but not for keys HMAC-SHA256 treats as equal to that secret.
- Hs256.SignedString: the only modelled failure is an unavailable hash function, the one way the library's HS256 signer fails for a byte-string key.
- Jwt.Unix: Go's saturating time arithmetic on overflow of the instant is not modelled; instants and durations are unbounded integers.
- Storage.Store.SaveUser: ids are unbounded; SQLite's behaviour once row ids reach the 64-bit maximum is not modelled, nor an error from reading the last insert id after the row was written (internal/storage/sqlite/sqlite.go:52-55).
- Storage.Store: a database failure (`fault`) is fixed for the lifetime of a store, so a failure that strikes only at one statement after an earlier one succeeded (say, at the app lookup during login) is not represented; the distinction between failing to prepare and failing to run a statement is folded into it. SQL plumbing, prepared statements and the driver's extended error codes are outside the model.
- Storage.Store.SaveUser: a new user's admin flag is assumed to start clear; the table schema (migrations) is not part of this model.
- The domain models package (internal/domain/models) is not part of this model; User and App carry the fields the core reads.
- Go returns a zero value ("", 0, false) beside every error; the model returns a `Result` whose error case carries no value.
- Concurrent registrations with the same username: uniqueness under concurrency is the database's job; calls are modelled one at a time.
- Server start-up, listening and graceful stop, configuration loading and the application wiring (including its call to the service constructor with the wrong number of arguments): I/O and process lifecycle.
- The stress test: its point is concurrency.

## Findings

| source | as written | input that shows it | evidently intended | confidence | as-written member | corrected member |
|---|---|---|---|---|---|---|
| internal/grpc/auth/server.go:104-107 | every error from the admin check is answered Internal "internal error", so an unknown user id never reaches the caller as such (the comment there marks the mapping as still to be done) | IsAdmin with user id 100000000 on a store where no user has it | InvalidArgument "invalid user id", as tests/auth_register_login_test.go:150 expects | not executed; the model shows the mismatch for every nonzero unknown id | Transport.IsAdminUnknownUserIsInternal | Transport.ServerAPI.IsAdminIntended |
