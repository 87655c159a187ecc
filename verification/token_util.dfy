/** Access and refresh tokens (src/utils/tokenUtil.js over jsonwebtoken, with
    the settings of src/config/tokenConfig.js).

    A token is a string. jsonwebtoken's signing is modelled by a reversible
    serialisation of the claims and of the key the token was signed with:
    verification decodes the string, rejects it as invalid unless it decodes
    and carries the verifying key, and rejects it as expired once the clock has
    reached `exp`. No cryptography is modelled. */
module TokenUtil {
  import opened Wrappers
  import opened Text

  /** The user fields a token is generated from: `{ id, email, role }`. */
  datatype Payload = Payload(id: nat, email: string, role: string)

  /** What `jwt.verify` returns: the payload plus the `iat` and `exp` that
      `jwt.sign` adds (seconds). */
  datatype Claims = Claims(id: nat, email: string, role: string, iat: nat, exp: nat)

  /** A decoded token: its claims and the secret it was signed with. */
  datatype Jwt = Jwt(claims: Claims, key: string)

  /** Secrets and lifetimes (seconds) of the two token kinds. */
  datatype TokenConfig = TokenConfig(accessSecret: string, accessTtl: nat, refreshSecret: string, refreshTtl: nat)

  /** The development fall-backs: "supersecretkey" for "1h", "refreshsupersecretkey" for "7d". */
  const DEFAULT_CONFIG := TokenConfig("supersecretkey", 3600, "refreshsupersecretkey", 7 * 24 * 3600)

  // ---------------------------------------------------------------------------
  // The serialisation standing in for the compact JWT form
  // ---------------------------------------------------------------------------

  function EscapeChar(c: char): string {
    if c == '.' then "_d" else if c == ' ' then "_s" else if c == '_' then "_u" else [c]
  }

  /** Rewrites a text field so that it holds neither the field separator '.'
      nor a space. */
  function Escape(s: string): (e: string)
    ensures '.' !in e && ' ' !in e
    decreases |s|
  {
    if |s| == 0 then "" else EscapeChar(s[0]) + Escape(s[1..])
  }

  function Unescape(e: string): Option<string>
    decreases |e|
  {
    if |e| == 0 then Some("")
    else if e[0] == '_' then
      if |e| < 2 then None
      else
        var c := if e[1] == 'd' then Some('.') else if e[1] == 's' then Some(' ') else if e[1] == 'u' then Some('_') else None;
        match (c, Unescape(e[2..]))
        case (Some(x), Some(t)) => Some([x] + t)
        case _ => None
    else
      match Unescape(e[1..])
      case Some(t) => Some([e[0]] + t)
      case None => None
  }

  lemma {:induction false} UnescapeEscape(s: string)
    ensures Unescape(Escape(s)) == Some(s)
    decreases |s|
  {
    if |s| > 0 {
      var rest := Escape(s[1..]);
      UnescapeEscape(s[1..]);
      var e := Escape(s);
      assert e == EscapeChar(s[0]) + rest;
      if s[0] in ". _" {
        assert e[0] == '_' && e[2..] == rest;
      } else {
        assert e[0] == s[0] && e[1..] == rest;
      }
      assert [s[0]] + s[1..] == s;
    }
  }

  function Fields(j: Jwt): seq<string> {
    [ "JWT", Escape(j.claims.email), Escape(j.claims.role), NatToString(j.claims.id),
      NatToString(j.claims.iat), NatToString(j.claims.exp), Escape(j.key) ]
  }

  /** The token string of a signed claim set. */
  function Encode(j: Jwt): string {
    Join(Fields(j), ".")
  }

  /** Reads a token string back; None for anything that is not an encoding. */
  function Decode(s: string): Option<Jwt> {
    var f := Split(s, '.');
    if |f| != 7 || f[0] != "JWT" then None
    else
      match (Unescape(f[1]), Unescape(f[2]), ParseNat(f[3]), ParseNat(f[4]), ParseNat(f[5]), Unescape(f[6]))
      case (Some(email), Some(role), Some(id), Some(iat), Some(exp), Some(key)) =>
        Some(Jwt(Claims(id, email, role, iat, exp), key))
      case _ => None
  }

  lemma DigitsHaveNoSeparator(n: nat)
    ensures '.' !in NatToString(n) && ' ' !in NatToString(n)
  {
  }

  /** Decoding inverts encoding, and a token never contains a space. */
  lemma DecodeEncode(j: Jwt)
    ensures Decode(Encode(j)) == Some(j)
    ensures ' ' !in Encode(j)
  {
    var f := Fields(j);
    DigitsHaveNoSeparator(j.claims.id);
    DigitsHaveNoSeparator(j.claims.iat);
    DigitsHaveNoSeparator(j.claims.exp);
    SplitJoin(f, '.');
    JoinExcludes(f, ".", ' ');
    UnescapeEscape(j.claims.email);
    UnescapeEscape(j.claims.role);
    UnescapeEscape(j.key);
    ParseNatToString(j.claims.id);
    ParseNatToString(j.claims.iat);
    ParseNatToString(j.claims.exp);
  }

  // ---------------------------------------------------------------------------
  // jwt.sign and jwt.verify
  // ---------------------------------------------------------------------------

  /** jsonwebtoken's two failure kinds: TokenExpiredError, and every other
      JsonWebTokenError (malformed token, bad signature). */
  datatype VerifyError = TokenExpired | TokenInvalid

  datatype Verified = Valid(claims: Claims) | Failed(error: VerifyError)

  /** `jwt.sign(payload, secret, { expiresIn: ttl })` at time now. */
  function Sign(p: Payload, secret: string, ttl: nat, now: nat): (t: string)
    ensures Decode(t) == Some(Jwt(Claims(p.id, p.email, p.role, now, now + ttl), secret))
    ensures ' ' !in t
  {
    var j := Jwt(Claims(p.id, p.email, p.role, now, now + ttl), secret);
    DecodeEncode(j);
    Encode(j)
  }

  /** `jwt.verify(token, secret)` at time now: the signature is checked
      first, the expiry (`now >= exp`) second. */
  function Verify(token: string, secret: string, now: nat): (r: Verified)
    ensures r.Valid? <==> Decode(token).Some? && Decode(token).value.key == secret && now < Decode(token).value.claims.exp
    ensures r.Valid? ==> r.claims == Decode(token).value.claims
    ensures r == Failed(TokenExpired) <==> Decode(token).Some? && Decode(token).value.key == secret && now >= Decode(token).value.claims.exp
  {
    match Decode(token)
    case None => Failed(TokenInvalid)
    case Some(j) =>
      if j.key != secret then Failed(TokenInvalid)
      else if now >= j.claims.exp then Failed(TokenExpired)
      else Valid(j.claims)
  }

  /** The try/catch of the two verify functions: the expiry error gets its own
      message, every other error the "invalid" one. */
  function Report(v: Verified, expired: string, invalid: string): Outcome<Claims> {
    match v
    case Valid(c) => Ok(c)
    case Failed(TokenExpired) => Thrown(expired)
    case Failed(TokenInvalid) => Thrown(invalid)
  }

  // ---------------------------------------------------------------------------
  // tokenUtil.js
  // ---------------------------------------------------------------------------

  /** generateAccessToken: the claims are exactly id, email and role of the
      user, signed with the access secret for the access lifetime. */
  function GenerateAccessToken(user: Payload, cfg: TokenConfig, now: nat): (t: string)
    ensures Decode(t) == Some(Jwt(Claims(user.id, user.email, user.role, now, now + cfg.accessTtl), cfg.accessSecret))
    ensures ' ' !in t
  {
    Sign(user, cfg.accessSecret, cfg.accessTtl, now)
  }

  /** generateRefreshToken: the same claims, signed with the refresh secret
      for the refresh lifetime. */
  function GenerateRefreshToken(user: Payload, cfg: TokenConfig, now: nat): (t: string)
    ensures Decode(t) == Some(Jwt(Claims(user.id, user.email, user.role, now, now + cfg.refreshTtl), cfg.refreshSecret))
    ensures ' ' !in t
  {
    Sign(user, cfg.refreshSecret, cfg.refreshTtl, now)
  }

  /** verifyAccessToken: "Access token expired" only for a token signed with
      the access secret whose expiry has passed; every other failure is
      "Invalid access token". */
  function VerifyAccessToken(token: string, cfg: TokenConfig, now: nat): (r: Outcome<Claims>)
    ensures r.Ok? <==> Verify(token, cfg.accessSecret, now).Valid?
    ensures r.Ok? ==> r.value == Decode(token).value.claims
    ensures r.Thrown? ==> r.message == "Access token expired" || r.message == "Invalid access token"
    ensures r == Thrown("Access token expired") <==>
              Decode(token).Some? && Decode(token).value.key == cfg.accessSecret && now >= Decode(token).value.claims.exp
  {
    Report(Verify(token, cfg.accessSecret, now), "Access token expired", "Invalid access token")
  }

  /** verifyRefreshToken: the same classification with the refresh secret. */
  function VerifyRefreshToken(token: string, cfg: TokenConfig, now: nat): (r: Outcome<Claims>)
    ensures r.Ok? <==> Verify(token, cfg.refreshSecret, now).Valid?
    ensures r.Ok? ==> r.value == Decode(token).value.claims
    ensures r.Thrown? ==> r.message == "Refresh token expired" || r.message == "Invalid refresh token"
    ensures r == Thrown("Refresh token expired") <==>
              Decode(token).Some? && Decode(token).value.key == cfg.refreshSecret && now >= Decode(token).value.claims.exp
  {
    Report(Verify(token, cfg.refreshSecret, now), "Refresh token expired", "Invalid refresh token")
  }

  // ---------------------------------------------------------------------------
  // Properties
  // ---------------------------------------------------------------------------

  /** A fresh access token verifies, until its expiry, to the user's id, email
      and role; from its expiry on it is reported as expired. */
  lemma AccessTokenRoundTrip(user: Payload, cfg: TokenConfig, issued: nat, now: nat)
    ensures now < issued + cfg.accessTtl ==>
      VerifyAccessToken(GenerateAccessToken(user, cfg, issued), cfg, now)
        == Ok(Claims(user.id, user.email, user.role, issued, issued + cfg.accessTtl))
    ensures now >= issued + cfg.accessTtl ==>
      VerifyAccessToken(GenerateAccessToken(user, cfg, issued), cfg, now) == Thrown("Access token expired")
  {
  }

  /** A fresh refresh token verifies, until its expiry, to the user's id,
      email and role. */
  lemma RefreshTokenRoundTrip(user: Payload, cfg: TokenConfig, issued: nat, now: nat)
    ensures now < issued + cfg.refreshTtl ==>
      VerifyRefreshToken(GenerateRefreshToken(user, cfg, issued), cfg, now)
        == Ok(Claims(user.id, user.email, user.role, issued, issued + cfg.refreshTtl))
    ensures now >= issued + cfg.refreshTtl ==>
      VerifyRefreshToken(GenerateRefreshToken(user, cfg, issued), cfg, now) == Thrown("Refresh token expired")
  {
  }

  /** With distinct secrets neither kind of token passes for the other, at any
      time, and the failure is the "invalid" one, never "expired". */
  lemma KindsAreNotInterchangeable(user: Payload, cfg: TokenConfig, issued: nat, now: nat)
    requires cfg.accessSecret != cfg.refreshSecret
    ensures VerifyAccessToken(GenerateRefreshToken(user, cfg, issued), cfg, now) == Thrown("Invalid access token")
    ensures VerifyRefreshToken(GenerateAccessToken(user, cfg, issued), cfg, now) == Thrown("Invalid refresh token")
  {
  }
}
