/** The `/sign-in` handler of
    src/controllers/authentication/authentication_controller.rs: validate
    the body, look the user up, check the password, issue a token.

    The database query and bcrypt's `verify` are passed in as functions;
    the environment, clock and JWT codec are passed on to `CreateToken`. */
module AuthenticationController {
  import opened Results
  import opened Numerics
  import opened Http
  import opened Errors
  import opened Responses
  import opened LoginRequests
  import opened Authentication

  /** A row of the `users` table; `password` holds the bcrypt hash. */
  datatype User = User(id: I32, name: string, email: string, username: string, password: string)

  /** bcrypt's failure to read a stored hash. */
  datatype HashError = HashError

  /** `select * from users where username = $1` run with `fetch_one`. */
  type Store = string -> Result<User, SqlxError>

  /** bcrypt's `verify(password, hash)`. */
  type Verifier = (string, string) -> Result<bool, HashError>

  /** `sign_in`. Each step has one fixed error: a bad body is a
      `ValidationError`, a missing user `NotFound`, any other query failure
      a `DatabaseError`, a password that does not verify (or a hash that
      cannot be read) `Unauthorized`, and a token that cannot be issued an
      `InternalError`. Success carries the token issued for the stored id. */
  function SignIn(req: LoginRequest, store: Store, verify: Verifier, env: Env, now: I64, codec: Codec)
    : (r: Result<SuccessResponse<Token>, MyError>)
    ensures Validate(req).Err? ==> r == Err(ValidationError(Validate(req).error))
    ensures Validate(req).Ok? && store(req.username) == Err(RowNotFound) ==> r == Err(NotFound)
    ensures Validate(req).Ok? && store(req.username).Err? && store(req.username).error != RowNotFound
      ==> r == Err(DatabaseError(store(req.username).error))
    ensures Validate(req).Ok? && store(req.username).Ok?
      && verify(req.password, store(req.username).value.password) != Ok(true)
      ==> r == Err(Unauthorized)
    ensures Validate(req).Ok? && store(req.username).Ok?
      && verify(req.password, store(req.username).value.password) == Ok(true)
      && CreateToken(AsU32(store(req.username).value.id), env, now, codec).Err?
      ==> r == Err(InternalError)
    ensures r.Ok? ==>
      && Validate(req).Ok?
      && store(req.username).Ok?
      && verify(req.password, store(req.username).value.password) == Ok(true)
      && CreateToken(AsU32(store(req.username).value.id), env, now, codec) == Ok(r.value.data)
      && r.value.code == STATUS_OK
      && r.value.message == ""
  {
    match Validate(req)
    case Err(errors) => Err(ValidationError(errors))
    case Ok(_) =>
      match store(req.username)
      case Err(RowNotFound) => Err(NotFound)
      case Err(error) => Err(DatabaseError(error))
      case Ok(user) =>
        match verify(req.password, user.password)
        case Err(_) => Err(Unauthorized)
        case Ok(false) => Err(Unauthorized)
        case Ok(true) =>
          match CreateToken(AsU32(user.id), env, now, codec)
          case Err(_) => Err(InternalError)
          case Ok(token) => Ok(NewSuccess("", token))
  }

  /** A body that fails validation is answered before the store or the
      password check is consulted: the outcome is the same whatever they
      would have said. */
  lemma ValidationShortCircuits(
    req: LoginRequest, store1: Store, store2: Store, verify1: Verifier, verify2: Verifier,
    env: Env, now: I64, codec: Codec)
    requires Validate(req).Err?
    ensures SignIn(req, store1, verify1, env, now, codec) == SignIn(req, store2, verify2, env, now, codec)
    ensures SignIn(req, store1, verify1, env, now, codec).error.ValidationError?
  {
  }

  /** Signing in succeeds exactly when every step succeeds. */
  lemma SignInSucceedsIff(req: LoginRequest, store: Store, verify: Verifier, env: Env, now: I64, codec: Codec)
    ensures SignIn(req, store, verify, env, now, codec).Ok? <==>
      && Validate(req).Ok?
      && store(req.username).Ok?
      && verify(req.password, store(req.username).value.password) == Ok(true)
      && CreateToken(AsU32(store(req.username).value.id), env, now, codec).Ok?
  {
  }

  /** What a failed sign-in looks like on the wire: the transport status is
      always 200, and the body code is 400, 404, 401 or 500 according to the
      step that failed. */
  lemma SignInFailureCodes(req: LoginRequest, store: Store, verify: Verifier, env: Env, now: I64, codec: Codec)
    requires SignIn(req, store, verify, env, now, codec).Err?
    ensures ErrorResponse(SignIn(req, store, verify, env, now, codec).error).status == STATUS_OK
    ensures
      var code := ErrorResponse(SignIn(req, store, verify, env, now, codec).error).body.code;
      && (Validate(req).Err? ==> code == STATUS_BAD_REQUEST)
      && (Validate(req).Ok? && store(req.username) == Err(RowNotFound) ==> code == STATUS_NOT_FOUND)
      && (Validate(req).Ok? && store(req.username).Err? ==> code != STATUS_UNAUTHORIZED)
      && (Validate(req).Ok? && store(req.username).Ok?
          && verify(req.password, store(req.username).value.password) != Ok(true)
          ==> code == STATUS_UNAUTHORIZED)
  {
  }

  /** The token a successful sign-in returns, sent back as a Bearer header,
      opens every protected path until it expires; it carries the signed-in
      user's id. */
  lemma SignedInTokenOpensProtectedPaths(
    req: LoginRequest, store: Store, verify: Verifier, env: Env, issuedAt: I64,
    path: string, now: I64, codec: Codec)
    requires codec.RoundTrips() && codec.EmitsVisible()
    requires SignIn(req, store, verify, env, issuedAt, codec).Ok?
    requires AsUsize(now) <= SignIn(req, store, verify, env, issuedAt, codec).value.data.expiresAt
    ensures IsVisibleString(SignIn(req, store, verify, env, issuedAt, codec).value.data.token)
    ensures
      var token := SignIn(req, store, verify, env, issuedAt, codec).value.data.token;
      var request := Request(path, Some(BearerHeader(token)));
      && Call(request, env, now, codec) == Forward(request)
      && ExtractToken(token, env, now, codec).Ok?
      && ExtractToken(token, env, now, codec).value.sub == NatToString(AsU32(store(req.username).value.id))
  {
    var id := AsU32(store(req.username).value.id);
    IssuedTokenOpensProtectedPaths(id, env, issuedAt, path, now, codec);
    IssuedClaimsRoundTrip(id, env, issuedAt, now, codec);
  }

  /** The sign-in scenario: a stored user "alice" whose hash verifies
      "secret1" only. A wrong password is `Unauthorized`, an unknown name is
      `NotFound`, and the right password succeeds as far as issuing a token
      does. */
  lemma AliceScenario(env: Env, now: I64, codec: Codec)
    ensures
      var alice := User(42, "Alice", "alice@example.com", "alice", "hash(secret1)");
      var store: Store := name => if name == "alice" then Ok(alice) else Err(RowNotFound);
      var verify: Verifier := (password, hash) => Ok(hash == "hash(" + password + ")");
      && SignIn(LoginRequest("alice", "wrong12"), store, verify, env, now, codec) == Err(Unauthorized)
      && SignIn(LoginRequest("bob", "whatever"), store, verify, env, now, codec) == Err(NotFound)
      && (SignIn(LoginRequest("alice", "secret1"), store, verify, env, now, codec).Ok?
          <==> CreateToken(42, env, now, codec).Ok?)
  {
    var alice := User(42, "Alice", "alice@example.com", "alice", "hash(secret1)");
    var verify: Verifier := (password, hash) => Ok(hash == "hash(" + password + ")");
    assert ("hash(" + "wrong12" + ")")[5] != alice.password[5];
    assert verify("wrong12", alice.password) == Ok(false);
    assert verify("secret1", alice.password) == Ok(true);
  }
}
