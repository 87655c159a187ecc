/** The bearer-token gates of src/middlewares/authMiddleware.js.

    The decision (which token, revoked or not, what the verifier says) is a
    pure function of the Authorization header, the blacklist contents, the
    token settings and the clock. The middleware functions then write
    `req.user` / `req.token` and call `next`, which `Request` records. */
module AuthMiddleware {
  import opened Wrappers
  import opened Text
  import opened TokenUtil
  import opened BlacklistModel

  /** `authHeader && authHeader.split(" ")[1]`: the second space-separated
      field of the header. A missing or empty header, a header without a
      space, and an empty second field (two spaces in a row, a trailing
      space) all give no token. */
  function BearerToken(header: Option<string>): (r: Option<string>)
    ensures r.Some? ==> header.Some? && r.value != "" && ' ' !in r.value
    ensures header.Some? && ' ' !in header.value ==> r.None?
    ensures r.Some? <==>
      header.Some? && |Split(header.value, ' ')| >= 2 && Split(header.value, ' ')[1] != ""
  {
    if header.None? || header.value == "" then None
    else
      var fields := Split(header.value, ' ');
      if |fields| < 2 || fields[1] == "" then None else Some(fields[1])
  }

  /** "Bearer <token>", or any other one-word scheme before the space, yields
      exactly the token. */
  lemma BearerRoundTrip(scheme: string, token: string)
    requires ' ' !in scheme && ' ' !in token && token != ""
    ensures BearerToken(Some(scheme + " " + token)) == Some(token)
  {
    SplitAtFirst(scheme, ' ', token);
    SplitNoSeparator(token, ' ');
    assert scheme + " " + token == scheme + [' '] + token;
  }

  /** The header the clients send, "Bearer <token>". */
  lemma BearerHeader(token: string)
    requires ' ' !in token && token != ""
    ensures BearerToken(Some("Bearer " + token)) == Some(token)
  {
    assert "Bearer " + token == "Bearer" + " " + token;
    BearerRoundTrip("Bearer", token);
  }

  /** What the required gate decides: stop with a status and a message, or
      admit the request with the decoded claims and the raw token. */
  datatype Decision = Reject(status: int, message: string) | Admit(user: Claims, token: string)

  const TOKEN_REQUIRED := "Token required"
  const TOKEN_REVOKED := "Token has been revoked"

  /** authenticateToken's decision. The blacklist is consulted only once a
      token is present, and the verifier only for a token that is not
      revoked. */
  function Authenticate(header: Option<string>, revoked: set<string>, cfg: TokenConfig, now: nat): (d: Decision)
    ensures BearerToken(header).None? ==> d == Reject(401, TOKEN_REQUIRED)
    ensures BearerToken(header).Some? && BearerToken(header).value in revoked ==> d == Reject(403, TOKEN_REVOKED)
    ensures d.Admit? <==>
      && BearerToken(header).Some?
      && BearerToken(header).value !in revoked
      && VerifyAccessToken(BearerToken(header).value, cfg, now).Ok?
    ensures d.Admit? ==>
      d.token == BearerToken(header).value && d.user == VerifyAccessToken(d.token, cfg, now).value
    ensures BearerToken(header).Some? && BearerToken(header).value !in revoked && d.Reject? ==>
      d == Reject(403, VerifyAccessToken(BearerToken(header).value, cfg, now).message)
  {
    match BearerToken(header)
    case None => Reject(401, TOKEN_REQUIRED)
    case Some(token) =>
      if token in revoked then Reject(403, TOKEN_REVOKED)
      else
        match VerifyAccessToken(token, cfg, now)
        case Ok(decoded) => Admit(decoded, token)
        case Thrown(message) => Reject(403, message)
  }

  /** authenticateTokenOptional's decision: the claims and token when the
      required gate would admit, nothing (a guest) on every failure. */
  function AuthenticateOptional(header: Option<string>, revoked: set<string>, cfg: TokenConfig, now: nat): (r: Option<(Claims, string)>)
    ensures r.Some? <==> Authenticate(header, revoked, cfg, now).Admit?
    ensures r.Some? ==> r.value == (Authenticate(header, revoked, cfg, now).user, Authenticate(header, revoked, cfg, now).token)
  {
    match BearerToken(header)
    case None => None
    case Some(token) =>
      if token in revoked then None
      else
        match VerifyAccessToken(token, cfg, now)
        case Ok(decoded) => Some((decoded, token))
        case Thrown(_) => None
  }

  /** A freshly generated access token, presented as "Bearer <token>" before
      its expiry and not revoked, is admitted with exactly the user's id,
      email and role. */
  lemma FreshAccessTokenAdmitted(user: Payload, cfg: TokenConfig, issued: nat, now: nat, revoked: set<string>)
    requires now < issued + cfg.accessTtl
    requires GenerateAccessToken(user, cfg, issued) !in revoked
    ensures
      var token := GenerateAccessToken(user, cfg, issued);
      Authenticate(Some("Bearer " + token), revoked, cfg, now)
        == Admit(Claims(user.id, user.email, user.role, issued, issued + cfg.accessTtl), token)
  {
    var token := GenerateAccessToken(user, cfg, issued);
    assert token != "" by {
      assert Split("", '.') == [""];
    }
    BearerHeader(token);
    AccessTokenRoundTrip(user, cfg, issued, now);
  }

  /** A revoked token is rejected whatever the clock and however valid its
      signature: the verifier is never reached. */
  lemma RevokedTokenRejected(token: string, revoked: set<string>, cfg: TokenConfig, now: nat)
    requires token in revoked && token != "" && ' ' !in token
    ensures Authenticate(Some("Bearer " + token), revoked, cfg, now) == Reject(403, TOKEN_REVOKED)
    ensures AuthenticateOptional(Some("Bearer " + token), revoked, cfg, now) == None
  {
    BearerHeader(token);
  }

  /** The request fields the middleware writes, and how often `next` ran. */
  class Request {
    const authorization: Option<string>
    var user: Option<Claims>
    var token: Option<string>
    var nextCalls: nat

    constructor (authorization: Option<string>)
      ensures this.authorization == authorization
      ensures user == None && token == None && nextCalls == 0
    {
      this.authorization := authorization;
      user := None;
      token := None;
      nextCalls := 0;
    }
  }

  /** The `{ success: false, message }` answer of a rejected request. */
  datatype Rejection = Rejection(status: int, message: string)

  /** authenticateToken: on admission `req.user` and `req.token` are set and
      `next` runs exactly once; on rejection the request is untouched, `next`
      does not run, and the status and message are returned. */
  method AuthenticateToken(req: Request, blacklist: BlacklistTable, cfg: TokenConfig, now: nat)
    returns (res: Option<Rejection>)
    modifies req
    ensures
      var d := Authenticate(req.authorization, blacklist.tokens, cfg, now);
      match d
      case Reject(status, message) =>
        && res == Some(Rejection(status, message))
        && req.user == old(req.user) && req.token == old(req.token) && req.nextCalls == old(req.nextCalls)
      case Admit(claims, token) =>
        && res == None
        && req.user == Some(claims) && req.token == Some(token) && req.nextCalls == old(req.nextCalls) + 1
  {
    var token := BearerToken(req.authorization);
    if token.None? {
      return Some(Rejection(401, TOKEN_REQUIRED));
    }
    var blacklisted := blacklist.FindBlacklistedToken(token.value);
    if blacklisted.Some? {
      return Some(Rejection(403, TOKEN_REVOKED));
    }
    var decoded := VerifyAccessToken(token.value, cfg, now);
    if decoded.Thrown? {
      return Some(Rejection(403, decoded.message));
    }
    req.user := Some(decoded.value);
    req.token := token;
    req.nextCalls := req.nextCalls + 1;
    res := None;
  }

  /** authenticateTokenOptional: `next` always runs exactly once and no status
      is ever produced; a missing, revoked or invalid token leaves a guest
      (`req.user` and `req.token` null). */
  method AuthenticateTokenOptional(req: Request, blacklist: BlacklistTable, cfg: TokenConfig, now: nat)
    modifies req
    ensures req.nextCalls == old(req.nextCalls) + 1
    ensures
      match AuthenticateOptional(req.authorization, blacklist.tokens, cfg, now)
      case None => req.user == None && req.token == None
      case Some((claims, token)) => req.user == Some(claims) && req.token == Some(token)
  {
    var token := BearerToken(req.authorization);
    if token.None? {
      req.user, req.token := None, None;
      req.nextCalls := req.nextCalls + 1;
      return;
    }
    var blacklisted := blacklist.FindBlacklistedToken(token.value);
    if blacklisted.Some? {
      req.user, req.token := None, None;
      req.nextCalls := req.nextCalls + 1;
      return;
    }
    var decoded := VerifyAccessToken(token.value, cfg, now);
    if decoded.Ok? {
      req.user, req.token := Some(decoded.value), token;
    } else {
      req.user, req.token := None, None;
    }
    req.nextCalls := req.nextCalls + 1;
  }
}
