/**
 * `authenticateToken` of server/src/middlewares/authmiddleware.ts: the
 * bearer-token gate in front of every protected server route.
 */
module AuthMiddleware {
  import opened Wrappers
  import opened Ecma

  /** The secret used when ACCESS_TOKEN_SECRET is unset or empty. */
  const FallbackSecret := "dev-access-token-secret-1234567890abcdef"

  /** `process.env.ACCESS_TOKEN_SECRET || fallback`. */
  function AccessSecret(env: Option<string>): (secret: string)
    ensures secret != ""
    ensures env.Some? && env.value != "" ==> secret == env.value
    ensures env.None? || env.value == "" ==> secret == FallbackSecret
  {
    if env.Some? && env.value != "" then env.value else FallbackSecret
  }

  /**
   * `req.headers.authorization?.split(' ')[1]`: the second space-separated
   * piece of the header, `None` when the header is absent or has no space.
   */
  function ExtractToken(authorization: Option<string>): (token: Option<string>)
    ensures token.Some? ==> authorization.Some? && ' ' !in token.value
  {
    match authorization
    case None => None
    case Some(h) =>
      var pieces := Split(h, ' ');
      if |pieces| > 1 then Some(pieces[1]) else None
  }

  /** What the gate does: 401 and stop, 403 and stop, or pass on with `req.user.id` set. */
  datatype GateOutcome =
    | Unauthorized
    | Forbidden
    | Next(userId: int)
  {
    function Status(): Option<int> {
      match this
      case Unauthorized => Some(401)
      case Forbidden => Some(403)
      case Next(_) => None
    }

    function Error(): Option<string> {
      match this
      case Unauthorized => Some("Access token missing")
      case Forbidden => Some("Invalid token")
      case Next(_) => None
    }
  }

  /** The outcome once a non-empty token has been handed to `jwt.verify`. */
  function Admit(claim: Option<int>): GateOutcome {
    match claim
    case None => Forbidden
    case Some(id) => Next(id)
  }

  /**
   * The gate as a function of the header and the environment. `verify`
   * stands for `jwt.verify`: the `userId` claim of a token that carries a
   * valid signature under the secret and has not expired, `None` when it
   * throws.
   */
  function Authenticate(authorization: Option<string>, env: Option<string>,
                        verify: (string, string) -> Option<int>): (g: GateOutcome)
    ensures authorization.None? ==> g == Unauthorized
    ensures g.Next? ==> exists t :: ExtractToken(authorization) == Some(t) && t != "" && verify(t, AccessSecret(env)) == Some(g.userId)
  {
    var token := ExtractToken(authorization);
    if token.None? || token.value == "" then Unauthorized
    else Admit(verify(token.value, AccessSecret(env)))
  }

  /** The first piece of `token + rest` is `token` when `rest` is empty or starts a new piece. */
  lemma FirstPiece(token: string, rest: string)
    requires ' ' !in token
    requires rest == [] || rest[0] == ' '
    ensures Split(token + rest, ' ')[0] == token
  {
    if rest == [] {
      assert token + rest == token;
      SplitWithoutSeparator(token, ' ');
    } else {
      assert token + rest == token + [' '] + rest[1..];
      SplitAfterPiece(token, rest[1..], ' ');
    }
  }

  /** A header without a space (a bare token, or no scheme) is refused with 401. */
  lemma NoSpaceUnauthorized(h: string, env: Option<string>, verify: (string, string) -> Option<int>)
    requires ' ' !in h
    ensures Authenticate(Some(h), env, verify) == Unauthorized
  {
    SplitWithoutSeparator(h, ' ');
  }

  /**
   * For a header `scheme + " " + token + rest`, the scheme word is ignored
   * (it need not be `Bearer`), only `token` is verified, anything after a
   * further space is dropped, and an empty token (two spaces in a row, or a
   * trailing space) is refused with 401 before any verification.
   */
  lemma HeaderGate(scheme: string, token: string, rest: string, env: Option<string>,
                   verify: (string, string) -> Option<int>)
    requires ' ' !in scheme && ' ' !in token
    requires rest == [] || rest[0] == ' '
    ensures Authenticate(Some(scheme + " " + token + rest), env, verify) ==
      if token == "" then Unauthorized else Admit(verify(token, AccessSecret(env)))
  {
    assert scheme + " " + token + rest == scheme + [' '] + (token + rest);
    SplitAfterPiece(scheme, token + rest, ' ');
    FirstPiece(token, rest);
  }

  /** The part of an Express request the gate reads and writes. */
  class Request {
    var authorization: Option<string>
    var user: Option<int>

    constructor (authorization: Option<string>)
      ensures this.authorization == authorization && user == None
    {
      this.authorization := authorization;
      user := None;
    }
  }

  /**
   * `authenticateToken`: `next()` is called exactly when the outcome is
   * `Next`, and only then is `req.user` set.
   */
  method AuthenticateToken(req: Request, env: Option<string>, verify: (string, string) -> Option<int>)
    returns (outcome: GateOutcome)
    modifies req`user
    ensures outcome == Authenticate(req.authorization, env, verify)
    ensures req.user == if outcome.Next? then Some(outcome.userId) else old(req.user)
  {
    var token := ExtractToken(req.authorization);
    if token.None? || token.value == "" {
      return Unauthorized;
    }
    var secret := AccessSecret(env);
    var claim := verify(token.value, secret);
    if claim.None? {
      return Forbidden;
    }
    req.user := Some(claim.value);
    outcome := Next(claim.value);
  }
}
