# Request authentication of rust-sample-project, modelled in Dafny

This project models the authentication layer of a small actix-web service:

- the JWT middleware (`src/middlewares/authentication.rs`): the allow-list, bearer-token extraction, token issuance and token validation;
- the `/sign-in` handler (`src/controllers/authentication/authentication_controller.rs`) and the length rules of its request body (`user_login_request.rs`);
- the error type `MyError` and how it is turned into an HTTP response (`src/controllers/error.rs`).

Everything is a pure function over immutable datatypes. The model takes as parameters what the Rust code reads from its surroundings:

- the `TOKEN_SECRET` and `TOKEN_EXP` environment variables, as `Authentication.Env` (each one `None` when unset);
- the clock `Utc::now().timestamp()`, as an `I64` argument `now`;
- the jsonwebtoken `encode`/`decode` pair, as `Authentication.Codec`, two functions that may fail. Lemmas that need the pair to invert each other take that as a hypothesis, `codec.RoundTrips()`;
- the `fetch_one` query on `users`, as a `Store` function from username to `Result<User, SqlxError>`;
- bcrypt's `verify`, as a `Verifier` function returning `Result<bool, HashError>`.

Rust's integer widths are written out in `Numerics`:

- `timestamp() as usize` is reduction modulo 2^64, assuming a 64-bit target;
- `i32 as u32` is reduction modulo 2^32;
- `str::parse::<i64>` takes an optional sign, then one or more ASCII digits, and fails on overflow;
- `u32::to_string` gives shortest decimal. Parsing its output gives the number back. The parse is not injective, though: leading zeros and a `+` sign are accepted, so `"7"`, `"+7"` and `"007"` all read as 7.

The middleware's verdict is the datatype `Decision`: either `Forward(request)`, which passes the request on unchanged, or `Reject(error)`, where the downstream service does not run.

Behaviour worth knowing, as the code has it:

- The allow-list test is `Vec::contains`, which is whole-string equality. Only `/sign-in`, `/hey` and `/hello` are public. `/hey/bob` and `/heyworld` both need a token. The only route under `/hey` is `/hey/{name}`, so the `/hey` entry matches no route.
- A token whose `exp` equals the current second is still accepted, because the check is `exp < now`. Expiry is therefore inclusive.
- An unset `TOKEN_SECRET` during validation is an `InternalError` inside `extract_token`. `valid_jwt_token` turns it into `false`, so the client still gets `Unauthorized`.
- At sign-in, an unknown username gives `NotFound` but a wrong password gives `Unauthorized`, so a client can tell which usernames exist. A store failure other than "row not found" becomes `DatabaseError`, not `InternalError`.
- Error responses always go out with HTTP status 200. The error's own status is only in the body's `code` field.

## Model

| member | source | states |
|---|---|---|
| Numerics.AsUsize | src/middlewares/authentication.rs:117 | `as usize` leaves values in 0..2^64 unchanged and wraps a negative timestamp to value + 2^64 |
| Numerics.AsU32 | src/controllers/authentication/authentication_controller.rs:38 | `as u32` leaves a non-negative id unchanged and wraps a negative id to id + 2^32 |
| Numerics.NatToString | src/middlewares/authentication.rs:119 | the subject string is non-empty, all decimal digits, has no leading zero and denotes exactly the id |
| Numerics.ParseI64 | src/middlewares/authentication.rs:115 | the `TOKEN_EXP` parse succeeds iff the text is an optional `+` or `-` followed by one or more ASCII digits and the signed value lies in the i64 range; the result is that signed value, so a lone sign, a space or any other character fails |
| Numerics.ParseIgnoresLeadingZero | src/middlewares/authentication.rs:115 | a leading zero before a run of digits is accepted and does not change the result, so "0036" reads as 36 |
| Numerics.ParseNatToString | src/middlewares/authentication.rs:115-119 | parsing the decimal text of any number up to i64::MAX gives that number back |
| Numerics.ParseNegative | src/middlewares/authentication.rs:115 | a minus sign negates the value, down to i64::MIN inclusive |
| Numerics.ParseOverflow | src/middlewares/authentication.rs:115 | i64::MAX + 1 is a parse failure, not a wrap-around |
| Numerics.NatToStringInjective | src/middlewares/authentication.rs:119 | distinct ids give distinct subject strings |
| Errors.Display | src/controllers/error.rs:9-25 | the display texts are "unauthorized", "internal error", "not found", "validation error" and "database error"; a payload never shows |
| Errors.DisplayIdentifiesKind | src/controllers/error.rs:9-25 | two errors have the same display text exactly when they are the same variant |
| Errors.StatusCode | src/controllers/error.rs:48-56 | only `InternalError` is 500; every other variant is a 4xx; exactly the validation and database errors are 400 |
| Errors.StatusCodeTable | src/controllers/error.rs:48-56 | Unauthorized 401, InternalError 500, NotFound 404, ValidationError 400, DatabaseError 400 |
| Errors.DatabaseMessage | src/controllers/error.rs:69-79 | SQLSTATE 23505 shows the driver's message; any other database-reported error shows the error's display text; a non-database error shows "unknown database error" |
| Errors.ErrorResponse | src/controllers/error.rs:58-92 | the HTTP status is always 200; the body code equals the variant's status; only `ValidationError` gets the body with `errors`, with message "validation error"; the messages for Unauthorized, InternalError and NotFound are their display texts; `DatabaseError` uses the database message |
| Errors.ErrorResponseIdentifiesKind | src/controllers/error.rs:58-92 | a client can read back which variant produced a body: the `errors` field marks a validation error, code 400 without it a database error, and 401, 404 and 500 the other three |
| Responses.NewSuccess | src/controllers/response.rs:13-15 | a success body has code 200 and carries the given message and data |
| LoginRequests.Validate | src/controllers/authentication/user_login_request.rs:4-9 | the body is valid iff the username has 1..20 characters and the password has 6..20; a failure reports the failing fields, and only those, each with code "length" and the field's message |
| LoginRequests.ValidateBoundaries | src/controllers/authentication/user_login_request.rs:6-8 | an empty username, a 5-character password, and a 21-character username or password are refused; length 20 is accepted for both |
| Authentication.ToStr | src/middlewares/authentication.rs:75 | the header reads as text iff every byte is tab or printable ASCII; the text has the same characters as the bytes |
| Authentication.JwtToken | src/middlewares/authentication.rs:71-84 | every failure is `Unauthorized`; extraction succeeds iff the header is present, is visible ASCII, and starts with the exact text "Bearer " including the space; the header then reads "Bearer " followed by the result |
| Authentication.JwtTokenOfBearerHeader | src/middlewares/authentication.rs:76-80 | the header "Bearer " + t yields exactly t |
| Authentication.JwtTokenHeaderShape | src/middlewares/authentication.rs:71-84 | whenever extraction yields t, the header is exactly the Bearer header for t (the converse of the previous row) |
| Authentication.LowerCaseSchemeRejected | src/middlewares/authentication.rs:76-78 | "bearer " in lower case is refused |
| Authentication.ExtractToken | src/middlewares/authentication.rs:91-102 | a missing secret gives `InternalError`; a token the codec refuses, or one whose `exp` is more than 60 seconds in the past (the library's default validation), gives `Unauthorized`; the claims returned are the ones the codec decodes with the configured secret, and they are returned whenever the library accepts the token |
| Authentication.ValidJwtToken | src/middlewares/authentication.rs:133-151 | a token is valid iff the secret is set, the codec decodes it, and the current time cast to usize is at most `exp`, so `exp == now` is accepted; the library's 60-second leeway never changes this answer |
| Authentication.CreateToken | src/middlewares/authentication.rs:110-131 | a missing secret, a missing or unparsable `TOKEN_EXP`, or a signing failure is `InternalError`; on success `expires_at` is `now + lifetime` cast to usize, and the signed claims are the decimal subject with that expiry; with valid configuration it succeeds iff signing does |
| Authentication.Call | src/middlewares/authentication.rs:46-68 | an allow-listed path is forwarded whatever its header; a forwarded request is the original one; every rejection is `Unauthorized`; a protected path with no header, or with no secret configured, is rejected |
| Authentication.CallForwardsIff | src/middlewares/authentication.rs:46-68 | a request is forwarded iff its path is allow-listed or it carries a Bearer header whose token is valid now |
| Authentication.HeyPrefixNotPublic | src/middlewares/authentication.rs:47-48 | "/hey" followed by anything non-empty is not allow-listed, so it is rejected when it has no header |
| Authentication.IssuedClaimsRoundTrip | src/middlewares/authentication.rs:91-131 | when the codec round-trips, extracting an issued token under the same configuration gives back its subject and expiry up to 60 seconds past `expires_at`, and `Unauthorized` after that; the subject parses back to the id |
| Authentication.IssuedTokenValidUntilExpiry | src/middlewares/authentication.rs:110-151 | an issued token is valid at `now` iff `now` cast to usize is at most its `expires_at` |
| Authentication.LifetimeWindow | src/middlewares/authentication.rs:115-143 | with lifetime L issued at t, the token is valid at t+L-1 and at t+L, and invalid at t+L+1 |
| Authentication.IssuedTokenOpensProtectedPaths | src/middlewares/authentication.rs:46-151 | an issued token sent as "Bearer " + token opens any path until it expires |
| AuthenticationController.SignIn | src/controllers/authentication/authentication_controller.rs:13-42 | a bad body gives `ValidationError` with its field errors; row-not-found gives `NotFound`; another store error gives `DatabaseError` of that error; a verifier error or `false` gives `Unauthorized`; a token failure gives `InternalError`; success needs the verifier to return true for the stored hash, and returns code 200, an empty message and the token issued for the stored id |
| AuthenticationController.ValidationShortCircuits | src/controllers/authentication/authentication_controller.rs:18-20 | a body that fails validation gets the same `ValidationError` whatever the store and verifier would say |
| AuthenticationController.SignInSucceedsIff | src/controllers/authentication/authentication_controller.rs:18-41 | sign-in succeeds iff validation, lookup, password verification and token issuance all succeed |
| AuthenticationController.SignInFailureCodes | src/controllers/authentication/authentication_controller.rs:18-38 | a failed sign-in goes out as HTTP 200 with body code 400 for a bad body, 404 for an unknown user, and 401 for a bad password; a store failure is never 401 |
| AuthenticationController.SignedInTokenOpensProtectedPaths | src/controllers/authentication/authentication_controller.rs:38-41 | the token from a successful sign-in opens every protected path until it expires, and its subject is the stored user's id |
| AuthenticationController.AliceScenario | src/controllers/authentication/authentication_controller.rs:22-36 | with a stored "alice": a wrong password is `Unauthorized`, the unknown "bob" is `NotFound`, and the right password succeeds iff token issuance does |

## Left out

- CreateToken: does not model chrono's panics. `Duration::seconds` panics when the lifetime is larger than i64::MAX / 1000 seconds, and adding to the date panics outside chrono's range. The model adds exactly and then applies the usize cast.
- ExtractToken: jsonwebtoken's `Validation::default()` runs its own `exp` check with 60 seconds of leeway. The model includes that check (`DecodeWithDefaultValidation`). It assumes the library reads the same clock as `Utc::now()`. The library's other default checks, such as the signing algorithm, are part of the uninterpreted `Codec.decode`.
- Authentication.Codec: HMAC signing, base64 and JSON encoding are not modelled. The codec is uninterpreted. Signature tampering is therefore not modelled, beyond "decode may refuse".
- Authentication.ToStr: the visible-ASCII rule (tab or 32..126) is the http crate's `HeaderValue::to_str`, which lives in the http crate, not in this service's code.
- Header lookup: the header name is matched case-insensitively and only the first `Authorization` value is used. The model's `Request` already carries that one value.
- Errors.ErrorResponse: the body is not serialised to JSON. The `errors` field carries the validation errors themselves. The fallback to `{}` when serialisation fails cannot happen here.
- LoginRequests.Validate: of each validator error, only the code and message are kept. The `min`, `max` and `value` parameters are not.
- Errors.DatabaseMessage: sqlx's display text of a database error is an opaque field of `SqlxError`, not computed.
- Logging (`info!`/`error!` in the middleware), the logging middleware, CORS, server wiring and the database pool are not modelled. They have no effect on any decision.
- The users handlers (`/hey/{name}`, `/hello`, `/users`) and the e-mail check of `UsersInfo` are not part of this model. The e-mail check is the validator crate's own rule.
- Futures, `Transform`/`Service` boxing and `forward_ready!` are not modelled. Errors raised by the downstream service after forwarding are outside the middleware's decision.
