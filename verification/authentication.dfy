/** The JWT middleware of src/middlewares/authentication.rs: the allow-list
    and forward/reject decision, bearer-token extraction, token issuance and
    token validation.

    What the Rust code reads from its surroundings is passed in: the
    `TOKEN_SECRET` and `TOKEN_EXP` environment variables as an `Env`, the
    clock's `Utc::now().timestamp()` as `now`, and the jsonwebtoken crate's
    `encode`/`decode` as a `Codec` whose functions may fail. */
module Authentication {
  import opened Results
  import opened Numerics
  import opened Errors

  type Byte = b: int | 0 <= b < 256

  /** A raw header value, as bytes off the wire. */
  datatype HeaderValue = HeaderValue(bytes: seq<Byte>)

  /** What the middleware looks at: the path, and the `Authorization`
      header when the request carries one. */
  datatype Request = Request(path: string, authorization: Option<HeaderValue>)

  /** `HeaderValue::to_str` accepts horizontal tab and the printable ASCII
      range, and nothing else. */
  predicate IsVisibleByte(b: Byte) {
    b == 9 || 32 <= b < 127
  }

  predicate IsVisibleChar(c: char) {
    c == '\t' || ' ' <= c <= '~'
  }

  predicate IsVisibleString(s: string) {
    forall i :: 0 <= i < |s| ==> IsVisibleChar(s[i])
  }

  /** `HeaderValue::to_str`: the header as text, when every byte is visible
      ASCII. */
  function ToStr(h: HeaderValue): (r: Option<string>)
    ensures r.Some? <==> forall i :: 0 <= i < |h.bytes| ==> IsVisibleByte(h.bytes[i])
    ensures r.Some? ==> |r.value| == |h.bytes|
    ensures r.Some? ==> forall i :: 0 <= i < |h.bytes| ==> r.value[i] as int == h.bytes[i]
    ensures r.Some? ==> IsVisibleString(r.value)
  {
    if forall i :: 0 <= i < |h.bytes| ==> IsVisibleByte(h.bytes[i]) then
      Some(seq(|h.bytes|, i requires 0 <= i < |h.bytes| => h.bytes[i] as char))
    else
      None
  }

  /** The bytes a client sends for a visible-ASCII string. */
  function AsciiBytes(s: string): (b: seq<Byte>)
    requires IsVisibleString(s)
    ensures |b| == |s|
    ensures forall i :: 0 <= i < |s| ==> b[i] == s[i] as int
  {
    seq(|s|, i requires 0 <= i < |s| => s[i] as int)
  }

  const BEARER_PREFIX: string := "Bearer "

  /** The paths served without a token, compared by whole-string equality. */
  const ALLOW_LIST: seq<string> := ["/sign-in", "/hey", "/hello"]

  /** The header a client sends to present token `t`. */
  function BearerHeader(t: string): (h: HeaderValue)
    requires IsVisibleString(t)
    ensures |h.bytes| == |BEARER_PREFIX| + |t|
  {
    assert IsVisibleString(BEARER_PREFIX + t) by {
      forall i | 0 <= i < |BEARER_PREFIX + t|
        ensures IsVisibleChar((BEARER_PREFIX + t)[i])
      {
        if i >= |BEARER_PREFIX| {
          assert (BEARER_PREFIX + t)[i] == t[i - |BEARER_PREFIX|];
        }
      }
    }
    HeaderValue(AsciiBytes(BEARER_PREFIX + t))
  }

  /** `jwt_token`: the text after "Bearer " in the `Authorization` header.
      A missing header, a header that is not visible ASCII, and any other
      scheme are all `Unauthorized`. */
  function JwtToken(req: Request): (r: Result<string, MyError>)
    ensures r.Err? ==> r.error == Unauthorized
    ensures req.authorization.None? ==> r.Err?
    ensures req.authorization.Some? && ToStr(req.authorization.value).None? ==> r.Err?
    ensures r.Ok? <==>
      req.authorization.Some? && ToStr(req.authorization.value).Some?
      && BEARER_PREFIX <= ToStr(req.authorization.value).value
    ensures r.Ok? ==> ToStr(req.authorization.value) == Some(BEARER_PREFIX + r.value)
  {
    match req.authorization
    case None => Err(Unauthorized)
    case Some(header) =>
      match ToStr(header)
      case None => Err(Unauthorized)
      case Some(bearer) =>
        if !(BEARER_PREFIX <= bearer) then
          Err(Unauthorized)
        else
          var token := bearer[|BEARER_PREFIX|..];
          assert bearer == BEARER_PREFIX + token;
          Ok(token)
  }

  /** The signed payload: the subject id in decimal and the expiry in Unix
      seconds. */
  datatype Claims = Claims(sub: string, exp: Usize)

  /** What sign-in hands back: the signed token and its expiry. */
  datatype Token = Token(token: string, expiresAt: Usize)

  /** The two environment variables, absent when unset. */
  datatype Env = Env(tokenSecret: Option<string>, tokenExp: Option<string>)

  /** The JWT library as two possibly-failing functions of a secret. */
  datatype Codec = Codec(
    encode: (Claims, string) -> Option<string>,
    decode: (string, string) -> Option<Claims>)
  {
    /** Whatever `encode` signs with a secret, `decode` reads back with the
        same secret. */
    ghost predicate RoundTrips() {
      forall c: Claims, k: string :: encode(c, k).Some? ==> decode(encode(c, k).value, k) == Some(c)
    }

    /** Every token `encode` produces can be sent in a header. */
    ghost predicate EmitsVisible() {
      forall c: Claims, k: string :: encode(c, k).Some? ==> IsVisibleString(encode(c, k).value)
    }
  }

  /** The leeway, in seconds, of jsonwebtoken's `Validation::default()`. */
  const EXP_LEEWAY: nat := 60

  /** jsonwebtoken's `decode` with `Validation::default()`: the codec checks
      the signature and reads the claims, then the library refuses a token
      that expired more than `EXP_LEEWAY` seconds ago. */
  function DecodeWithDefaultValidation(codec: Codec, token: string, secret: string, now: I64): (r: Option<Claims>)
    ensures r.Some? ==> codec.decode(token, secret) == r
    ensures r.Some? <==>
      codec.decode(token, secret).Some? && AsUsize(now) <= codec.decode(token, secret).value.exp + EXP_LEEWAY
  {
    match codec.decode(token, secret)
    case None => None
    case Some(claims) => if claims.exp + EXP_LEEWAY < AsUsize(now) then None else Some(claims)
  }

  /** `extract_token`: a missing secret is a server fault; a token the
      library refuses, for its signature or for having expired beyond the
      leeway, is `Unauthorized`. */
  function ExtractToken(token: string, env: Env, now: I64, codec: Codec): (r: Result<Claims, MyError>)
    ensures env.tokenSecret.None? ==> r == Err(InternalError)
    ensures env.tokenSecret.Some? && codec.decode(token, env.tokenSecret.value).None? ==> r == Err(Unauthorized)
    ensures env.tokenSecret.Some? && codec.decode(token, env.tokenSecret.value).Some?
      && codec.decode(token, env.tokenSecret.value).value.exp + EXP_LEEWAY < AsUsize(now)
      ==> r == Err(Unauthorized)
    ensures r.Ok? ==> env.tokenSecret.Some? && codec.decode(token, env.tokenSecret.value) == Some(r.value)
    ensures r.Ok? ==> AsUsize(now) <= r.value.exp + EXP_LEEWAY
    ensures env.tokenSecret.Some? && codec.decode(token, env.tokenSecret.value).Some?
      && AsUsize(now) <= codec.decode(token, env.tokenSecret.value).value.exp + EXP_LEEWAY
      ==> r == Ok(codec.decode(token, env.tokenSecret.value).value)
  {
    match env.tokenSecret
    case None => Err(InternalError)
    case Some(secret) =>
      match DecodeWithDefaultValidation(codec, token, secret, now)
      case Some(claims) => Ok(claims)
      case None => Err(Unauthorized)
  }

  /** `valid_jwt_token`: the token decodes under the configured secret and
      has not expired; a token whose expiry equals the current second is
      still accepted. The library's own expiry check, with its leeway,
      never changes the answer: the explicit `exp < now` test is stricter. */
  function ValidJwtToken(token: string, env: Env, now: I64, codec: Codec): (b: bool)
    ensures b <==>
      env.tokenSecret.Some? && codec.decode(token, env.tokenSecret.value).Some?
      && AsUsize(now) <= codec.decode(token, env.tokenSecret.value).value.exp
  {
    match ExtractToken(token, env, now, codec)
    case Ok(claims) => !(claims.exp < AsUsize(now))
    case Err(_) => false
  }

  /** `create_token`: every configuration, parse or signing failure is an
      `InternalError`; on success the token expires `TOKEN_EXP` seconds
      after `now` (cast to `usize`), and it signs exactly the subject's
      decimal id and that expiry. */
  function CreateToken(sub: U32, env: Env, now: I64, codec: Codec): (r: Result<Token, MyError>)
    ensures r.Err? ==> r.error == InternalError
    ensures env.tokenSecret.None? || env.tokenExp.None? ==> r.Err?
    ensures env.tokenExp.Some? && ParseI64(env.tokenExp.value).None? ==> r.Err?
    ensures r.Ok? ==>
      && env.tokenSecret.Some? && env.tokenExp.Some? && ParseI64(env.tokenExp.value).Some?
      && r.value.expiresAt == AsUsize(now + ParseI64(env.tokenExp.value).value)
      && codec.encode(Claims(NatToString(sub), r.value.expiresAt), env.tokenSecret.value) == Some(r.value.token)
    ensures env.tokenSecret.Some? && env.tokenExp.Some? && ParseI64(env.tokenExp.value).Some? ==>
      (r.Ok? <==>
        codec.encode(
          Claims(NatToString(sub), AsUsize(now + ParseI64(env.tokenExp.value).value)),
          env.tokenSecret.value).Some?)
  {
    match env.tokenSecret
    case None => Err(InternalError)
    case Some(secret) =>
      match env.tokenExp
      case None => Err(InternalError)
      case Some(expText) =>
        match ParseI64(expText)
        case None => Err(InternalError)
        case Some(lifetime) =>
          var expiresAt := AsUsize(now + lifetime);
          match codec.encode(Claims(NatToString(sub), expiresAt), secret)
          case None => Err(InternalError)
          case Some(token) => Ok(Token(token, expiresAt))
  }

  /** The middleware's verdict: hand the request on unchanged, or answer
      with an error without running the downstream service. */
  datatype Decision = Forward(request: Request) | Reject(error: MyError)

  /** `AuthenticationMiddleware::call`. */
  function Call(req: Request, env: Env, now: I64, codec: Codec): (r: Decision)
    ensures req.path in ALLOW_LIST ==> r == Forward(req)
    ensures r.Forward? ==> r.request == req
    ensures r.Reject? ==> r.error == Unauthorized
    ensures req.path !in ALLOW_LIST && req.authorization.None? ==> r == Reject(Unauthorized)
    ensures req.path !in ALLOW_LIST && env.tokenSecret.None? ==> r == Reject(Unauthorized)
  {
    if req.path in ALLOW_LIST then
      Forward(req)
    else
      match JwtToken(req)
      case Ok(token) =>
        if ValidJwtToken(token, env, now, codec) then Forward(req) else Reject(Unauthorized)
      case Err(_) => Reject(Unauthorized)
  }

  /** A header carrying exactly "Bearer " followed by token `t`. */
  predicate CarriesBearer(h: HeaderValue, t: string) {
    IsVisibleString(t) && h == BearerHeader(t)
  }

  /** Presenting a visible token in the Bearer scheme yields that token. */
  lemma JwtTokenOfBearerHeader(path: string, t: string)
    requires IsVisibleString(t)
    ensures JwtToken(Request(path, Some(BearerHeader(t)))) == Ok(t)
  {
    var h := BearerHeader(t);
    var s := ToStr(h);
    assert s.Some? by {
      forall i | 0 <= i < |h.bytes|
        ensures IsVisibleByte(h.bytes[i])
      {
        if i >= |BEARER_PREFIX| {
          assert (BEARER_PREFIX + t)[i] == t[i - |BEARER_PREFIX|];
        }
      }
    }
    assert s.value == BEARER_PREFIX + t;
    assert s.value[|BEARER_PREFIX|..] == t;
  }

  /** A header from which `jwt_token` extracts `t` is exactly the Bearer
      header for `t`. */
  lemma JwtTokenHeaderShape(req: Request)
    requires JwtToken(req).Ok?
    ensures CarriesBearer(req.authorization.value, JwtToken(req).value)
  {
  }

  /** The scheme name is case-sensitive: "bearer" is refused before any
      token check. */
  lemma LowerCaseSchemeRejected(path: string, t: string)
    requires IsVisibleString("bearer " + t)
    ensures JwtToken(Request(path, Some(HeaderValue(AsciiBytes("bearer " + t))))) == Err(Unauthorized)
  {
    var h := HeaderValue(AsciiBytes("bearer " + t));
    var s := ToStr(h);
    if s.Some? {
      assert s.value[0] == 'b';
    }
  }

  /** Outside the allow-list a request goes through exactly when it carries
      a Bearer header whose token is currently valid. */
  lemma CallForwardsIff(req: Request, env: Env, now: I64, codec: Codec)
    ensures Call(req, env, now, codec).Forward? <==>
      req.path in ALLOW_LIST
      || (req.authorization.Some?
          && exists t :: CarriesBearer(req.authorization.value, t) && ValidJwtToken(t, env, now, codec))
  {
    if req.path !in ALLOW_LIST && req.authorization.Some? {
      var h := req.authorization.value;
      if Call(req, env, now, codec).Forward? {
        JwtTokenHeaderShape(req);
        var t := JwtToken(req).value;
        assert CarriesBearer(h, t) && ValidJwtToken(t, env, now, codec);
      }
      if exists t :: CarriesBearer(h, t) && ValidJwtToken(t, env, now, codec) {
        var t :| CarriesBearer(h, t) && ValidJwtToken(t, env, now, codec);
        JwtTokenOfBearerHeader(req.path, t);
        assert req == Request(req.path, Some(BearerHeader(t)));
      }
    }
  }

  /** The allow-list is matched exactly: a path that merely starts with
      "/hey", such as "/hey/bob" or "/heyworld", needs a token. */
  lemma HeyPrefixNotPublic(suffix: string, env: Env, now: I64, codec: Codec)
    requires |suffix| > 0
    ensures "/hey" + suffix !in ALLOW_LIST
    ensures Call(Request("/hey" + suffix, None), env, now, codec) == Reject(Unauthorized)
  {
    var p := "/hey" + suffix;
    assert p[1] == 'h' && p[3] == 'y';
    assert |p| > |"/hey"|;
  }

  /** Issuing then extracting under the same secret gives back the very
      claims that were signed, for as long as the library's leeway lasts
      (`expires_at + 60` seconds); after that the library refuses the token
      as expired. The subject string reads back as the id. */
  lemma IssuedClaimsRoundTrip(sub: U32, env: Env, issuedAt: I64, now: I64, codec: Codec)
    requires codec.RoundTrips()
    requires CreateToken(sub, env, issuedAt, codec).Ok?
    ensures
      var tok := CreateToken(sub, env, issuedAt, codec).value;
      AsUsize(now) <= tok.expiresAt + EXP_LEEWAY ==>
        ExtractToken(tok.token, env, now, codec) == Ok(Claims(NatToString(sub), tok.expiresAt))
    ensures
      var tok := CreateToken(sub, env, issuedAt, codec).value;
      tok.expiresAt + EXP_LEEWAY < AsUsize(now) ==>
        ExtractToken(tok.token, env, now, codec) == Err(Unauthorized)
    ensures ParseI64(NatToString(sub)) == Some(sub)
  {
  }

  /** An issued token is accepted at exactly those instants that do not lie
      past its expiry. */
  lemma IssuedTokenValidUntilExpiry(sub: U32, env: Env, issuedAt: I64, now: I64, codec: Codec)
    requires codec.RoundTrips()
    requires CreateToken(sub, env, issuedAt, codec).Ok?
    ensures ValidJwtToken(CreateToken(sub, env, issuedAt, codec).value.token, env, now, codec)
      <==> AsUsize(now) <= CreateToken(sub, env, issuedAt, codec).value.expiresAt
  {
  }

  /** With a lifetime of `L` seconds, a token issued at `t` is still good
      one second before `t + L` and at `t + L` itself, and refused one
      second after. */
  lemma LifetimeWindow(sub: U32, env: Env, issuedAt: I64, lifetime: nat, codec: Codec)
    requires codec.RoundTrips()
    requires env.tokenExp.Some? && ParseI64(env.tokenExp.value) == Some(lifetime)
    requires CreateToken(sub, env, issuedAt, codec).Ok?
    requires 0 <= issuedAt && 1 <= lifetime && issuedAt + lifetime < I64_MAX
    ensures ValidJwtToken(CreateToken(sub, env, issuedAt, codec).value.token, env, issuedAt + lifetime - 1, codec)
    ensures ValidJwtToken(CreateToken(sub, env, issuedAt, codec).value.token, env, issuedAt + lifetime, codec)
    ensures !ValidJwtToken(CreateToken(sub, env, issuedAt, codec).value.token, env, issuedAt + lifetime + 1, codec)
  {
  }

  /** A freshly issued token, presented in the Bearer scheme, opens every
      protected path until it expires. */
  lemma IssuedTokenOpensProtectedPaths(
    sub: U32, env: Env, issuedAt: I64, path: string, now: I64, codec: Codec)
    requires codec.RoundTrips() && codec.EmitsVisible()
    requires CreateToken(sub, env, issuedAt, codec).Ok?
    requires AsUsize(now) <= CreateToken(sub, env, issuedAt, codec).value.expiresAt
    ensures IsVisibleString(CreateToken(sub, env, issuedAt, codec).value.token)
    ensures
      var req := Request(path, Some(BearerHeader(CreateToken(sub, env, issuedAt, codec).value.token)));
      Call(req, env, now, codec) == Forward(req)
  {
    var tok := CreateToken(sub, env, issuedAt, codec).value;
    var claims := Claims(NatToString(sub), tok.expiresAt);
    assert codec.encode(claims, env.tokenSecret.value) == Some(tok.token);
    JwtTokenOfBearerHeader(path, tok.token);
    IssuedTokenValidUntilExpiry(sub, env, issuedAt, now, codec);
  }
}
