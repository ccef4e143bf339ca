/**
 * Authorization-header authentication (src/utils/auth.ts). The module
 * refuses to load without a signing secret; `validateAuth` takes the second
 * space-separated field of the `Authorization` header, hands it to the token
 * verifier and yields the verified user id, or nothing.
 */
module TokenAuth {
  import opened Wrappers
  import opened Text
  import opened Http

  /** The identity a token carries: `{userId, email}`. */
  datatype Claims = Claims(userId: string, email: string)

  /** The process-wide configuration read when the module loads. */
  datatype Config = Config(jwtSecret: string)

  /**
   * `jwt.verify(token, secret)`: the decoded claims of a token with a good
   * signature that has not expired; `None` for every error it throws.
   */
  type Verifier = (string, string) -> Option<Claims>

  /** The module loaded: the secret was present and not empty. */
  predicate Loaded(cfg: Config) {
    cfg.jwtSecret != ""
  }

  /**
   * Loading the module: a missing or empty `JWT_SECRET` throws
   * "Missing JWT_SECRET in environment"; otherwise the secret is kept as is.
   */
  function LoadConfig(env: Option<string>): (cfg: Option<Config>)
    ensures cfg.Some? <==> env.Some? && env.value != ""
    ensures cfg.Some? ==> Loaded(cfg.value) && cfg.value.jwtSecret == env.value
  {
    if env.None? || env.value == "" then None else Some(Config(env.value))
  }

  /**
   * `const [, token] = authHeader.split(" ")` followed by `if (!token)`: the
   * second field, when there is one and it is not empty.
   */
  function BearerToken(header: string): (r: Option<string>)
    ensures r.Some? ==> r.value != "" && ' ' !in r.value
    ensures r.None? <==> ' ' !in header || SecondField(header, ' ') == Some("")
  {
    match SecondField(header, ' ')
    case Some(t) => if t == "" then None else Some(t)
    case None => None
  }

  /**
   * `validateAuth`: no header (or an empty one) and no usable second field
   * give nothing without consulting the verifier; otherwise the result is
   * exactly the verified token's `userId`, and a failed verification gives
   * nothing.
   */
  function ValidateAuth(cfg: Config, verify: Verifier, h: Headers): (r: Option<string>)
    requires Loaded(cfg)
    ensures h.authorization.None? || h.authorization.value == "" ==> r == None
    ensures r.Some? <==>
      && h.authorization.Some?
      && BearerToken(h.authorization.value).Some?
      && verify(BearerToken(h.authorization.value).value, cfg.jwtSecret).Some?
    ensures r.Some? ==> r.value == verify(BearerToken(h.authorization.value).value, cfg.jwtSecret).value.userId
  {
    if h.authorization.None? || h.authorization.value == "" then None
    else
      match BearerToken(h.authorization.value)
      case None => None
      case Some(token) =>
        match verify(token, cfg.jwtSecret)
        case Some(claims) => Some(claims.userId)
        case None => None
  }

  /** `if (!userId)`: the handlers treat an empty user id like a missing one. */
  predicate Authenticated(auth: Option<string>) {
    auth.Some? && auth.value != ""
  }

  /**
   * The candidate token is the second field: in `scheme token rest`, with no
   * space in the scheme or the token and `rest` empty or starting with a
   * space, the candidate is `token`.
   */
  lemma BearerTokenOf(scheme: string, token: string, rest: string)
    requires ' ' !in scheme && ' ' !in token && token != ""
    requires rest == [] || rest[0] == ' '
    ensures BearerToken(scheme + " " + token + rest) == Some(token)
  {
    SecondFieldOf(scheme, token, rest, ' ');
  }

  /**
   * A header without a space, or with two spaces after the first word, has
   * no usable second field, so it authenticates nobody.
   */
  lemma NoSecondField(cfg: Config, verify: Verifier, h: Headers, scheme: string, rest: string)
    requires Loaded(cfg) && ' ' !in scheme
    requires h.authorization == Some(scheme) || h.authorization == Some(scheme + "  " + rest)
    ensures ValidateAuth(cfg, verify, h) == None
  {
    if h.authorization == Some(scheme + "  " + rest) {
      assert scheme + "  " + rest == scheme + " " + "" + (" " + rest);
      SecondFieldOf(scheme, "", " " + rest, ' ');
    }
  }

  /**
   * The scheme word is not inspected: `Bearer abc` and `Basic abc` (or any
   * two one-word schemes) authenticate the same user.
   */
  lemma SchemeIgnored(cfg: Config, verify: Verifier, h1: Headers, h2: Headers, s1: string, s2: string, token: string)
    requires Loaded(cfg) && ' ' !in s1 && ' ' !in s2 && ' ' !in token && token != ""
    requires h1.authorization == Some(s1 + " " + token) && h2.authorization == Some(s2 + " " + token)
    ensures ValidateAuth(cfg, verify, h1) == ValidateAuth(cfg, verify, h2)
    ensures ValidateAuth(cfg, verify, h1).Some? <==> verify(token, cfg.jwtSecret).Some?
  {
    BearerTokenOf(s1, token, "");
    BearerTokenOf(s2, token, "");
    assert s1 + " " + token + "" == s1 + " " + token;
    assert s2 + " " + token + "" == s2 + " " + token;
  }

  /** Cookies are never consulted: only the `Authorization` header matters. */
  lemma CookiesIgnored(cfg: Config, verify: Verifier, h1: Headers, h2: Headers)
    requires Loaded(cfg) && h1.authorization == h2.authorization
    ensures ValidateAuth(cfg, verify, h1) == ValidateAuth(cfg, verify, h2)
  {
  }
}
