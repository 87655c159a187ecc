/** The status and cookie decisions of src/controllers/userController.js.

    Every controller calls a service inside `try`; a thrown error becomes
    500 `{ success: false, error: message }`. Most then test
    `result.success`, a field the services' return values do not carry
    (only the logout results have it), so the test reads `undefined` and the
    controller takes its failure branch after a successful call. The reply
    functions decide from the service outcome as written; the `Intended`
    functions give the replies the controllers' own comments describe. */
module UserController {
  import opened Wrappers
  import opened Text
  import opened TokenUtil
  import opened UserModel
  import opened Seqs
  import opened RefreshTokenModel
  import opened UserService

  /** The JSON bodies the controllers send. */
  datatype Body =
    | AuthBody(auth: AuthResult)
    | UserBody(user: PublicUser)
    | UserRowBody(row: UserRow)
    | UsersBody(users: seq<PublicUser>)
    | AccessTokenBody(accessToken: string)
    | MessageBody(success: bool, message: string)
    | ErrorBody(error: string)

  /** `body.success` as JavaScript reads it: `None` where the object has no
      such field. */
  function SuccessField(b: Body): (r: Option<bool>)
    ensures r.Some? <==> b.MessageBody? || b.ErrorBody?
  {
    match b
    case MessageBody(success, _) => Some(success)
    case ErrorBody(_) => Some(false)
    case _ => None
  }

  /** Whether `!result.success` is false. */
  predicate Truthy(v: Option<bool>) {
    v == Some(true)
  }

  /** What happens to the `refreshToken` cookie. */
  datatype Cookie = KeepCookie | SetRefreshCookie(token: string) | ClearRefreshCookie

  datatype Reply = Reply(status: int, body: Body, cookie: Cookie)

  function ServerError(message: string): Reply {
    Reply(500, ErrorBody(message), KeepCookie)
  }

  /** The message of the TypeError that reading `result.data.refreshToken`
      raises when `result.data` is undefined. */
  const DATA_UNDEFINED := "Cannot destructure property 'refreshToken' of 'result.data' as it is undefined."
  const REFRESH_MISSING := "Refresh token is missing"
  const TOKENS_REQUIRED := "Refresh token and access token are required"
  const INVALID_ROLE := "Invalid role"
  const ROLES: seq<string> := ["user", "admin", "moderator"]

  // ---------------------------------------------------------------------------
  // Replies as written
  // ---------------------------------------------------------------------------

  /** Shared tail of register and login: 400 unless `result.success`; past
      that test, `result.data` is read, which would throw. */
  function SessionReply(result: Outcome<AuthResult>): Reply {
    match result
    case Thrown(m) => ServerError(m)
    case Ok(a) =>
      if !Truthy(SuccessField(AuthBody(a))) then Reply(400, AuthBody(a), KeepCookie)
      else ServerError(DATA_UNDEFINED)
  }

  /** registerController: a successful registration answers 400 with the new
      user and tokens, and no cookie is ever set; a thrown error answers 500. */
  function RegisterReply(result: Outcome<AuthResult>): (r: Reply)
    ensures result.Ok? ==> r == Reply(400, AuthBody(result.value), KeepCookie)
    ensures result.Thrown? ==> r == ServerError(result.message)
    ensures r.cookie == KeepCookie && r.status != 201
  {
    SessionReply(result)
  }

  /** loginController: the same decision, with 200 unreachable. */
  function LoginReply(result: Outcome<AuthResult>): (r: Reply)
    ensures result.Ok? ==> r == Reply(400, AuthBody(result.value), KeepCookie)
    ensures result.Thrown? ==> r == ServerError(result.message)
    ensures r.cookie == KeepCookie && r.status != 200
  {
    SessionReply(result)
  }

  /** The `if (!result.success) 404 else 200` lookups. */
  function LookupReply(result: Outcome<Body>): Reply {
    match result
    case Thrown(m) => ServerError(m)
    case Ok(b) => if !Truthy(SuccessField(b)) then Reply(404, b, KeepCookie) else Reply(200, b, KeepCookie)
  }

  /** getUserController: a found user answers 404; a missing one, whose
      service throws, answers 500. */
  function GetUserReply(result: Outcome<PublicUser>): (r: Reply)
    ensures result.Ok? ==> r == Reply(404, UserBody(result.value), KeepCookie)
    ensures result.Thrown? ==> r == ServerError(result.message)
    ensures r.status != 200
  {
    LookupReply(if result.Ok? then Ok(UserBody(result.value)) else Thrown(result.message))
  }

  /** getUserByEmailController: likewise, and the 404 body is the full row,
      password hash included. */
  function GetUserByEmailReply(result: Outcome<UserRow>): (r: Reply)
    ensures result.Ok? ==> r == Reply(404, UserRowBody(result.value), KeepCookie)
    ensures result.Thrown? ==> r == ServerError(result.message)
    ensures r.status != 200
  {
    LookupReply(if result.Ok? then Ok(UserRowBody(result.value)) else Thrown(result.message))
  }

  /** getUsersController: always 200 with the list. */
  function GetUsersReply(users: seq<PublicUser>): (r: Reply)
    ensures r.status == 200 && r.body.UsersBody? && r.body.users == users
  {
    Reply(200, UsersBody(users), KeepCookie)
  }

  /** refreshTokenController after the cookie test: a new access token
      answers 401; a thrown error 500. */
  function RefreshReply(result: Outcome<RefreshResult>): (r: Reply)
    ensures result.Ok? ==> r == Reply(401, AccessTokenBody(result.value.accessToken), KeepCookie)
    ensures result.Thrown? ==> r == ServerError(result.message)
    ensures r.status != 200
  {
    match result
    case Thrown(m) => ServerError(m)
    case Ok(v) =>
      var b := AccessTokenBody(v.accessToken);
      if !Truthy(SuccessField(b)) then Reply(401, b, KeepCookie) else Reply(200, b, KeepCookie)
  }

  /** logoutController after the token test: the cookie is cleared only for a
      result whose `success` is true. */
  function LogoutReply(result: Outcome<LogoutResult>): (r: Reply)
    ensures r.cookie == ClearRefreshCookie <==> result.Ok? && result.value.success
    ensures r.cookie == ClearRefreshCookie ==> r.status == 200
    ensures result.Ok? && !result.value.success ==> r.status == 400
    ensures result.Thrown? ==> r == ServerError(result.message)
  {
    match result
    case Thrown(m) => ServerError(m)
    case Ok(v) =>
      var b := MessageBody(v.success, v.message);
      if !Truthy(SuccessField(b)) then Reply(400, b, KeepCookie) else Reply(200, b, ClearRefreshCookie)
  }

  /** logoutAllDevicesController: the cookie is cleared and 200 sent unless
      the service throws. */
  function LogoutAllReply(result: Outcome<LogoutResult>): (r: Reply)
    ensures result.Ok? ==> r.status == 200 && r.cookie == ClearRefreshCookie
    ensures result.Thrown? ==> r == ServerError(result.message)
  {
    match result
    case Thrown(m) => ServerError(m)
    case Ok(v) => Reply(200, MessageBody(v.success, v.message), ClearRefreshCookie)
  }

  /** The role whitelist of updateUserRoleController; an absent role is not
      in it. */
  predicate RoleAllowed(role: Option<string>): (ok: bool)
    ensures ok <==> role == Some("user") || role == Some("admin") || role == Some("moderator")
  {
    role.Some? && role.value in ROLES
  }

  /** updateUserRoleController after the whitelist: an updated user answers
      400; a thrown error 500. */
  function UpdateRoleReply(result: Outcome<PublicUser>): (r: Reply)
    ensures result.Ok? ==> r == Reply(400, UserBody(result.value), KeepCookie)
    ensures result.Thrown? ==> r == ServerError(result.message)
    ensures r.status != 200
  {
    match result
    case Thrown(m) => ServerError(m)
    case Ok(u) => if !Truthy(SuccessField(UserBody(u))) then Reply(400, UserBody(u), KeepCookie) else Reply(200, UserBody(u), KeepCookie)
  }

  // ---------------------------------------------------------------------------
  // Replies as intended
  // ---------------------------------------------------------------------------

  /** The reply the controllers' comments describe: a normal return is a
      success, a thrown error 500. */
  function IntendedReply(result: Outcome<Body>, okStatus: int, okCookie: Cookie): (r: Reply)
    ensures result.Ok? ==> r.status == okStatus && r.body == result.value && r.cookie == okCookie
    ensures result.Thrown? ==> r == ServerError(result.message)
  {
    match result
    case Thrown(m) => ServerError(m)
    case Ok(b) => Reply(okStatus, b, okCookie)
  }

  /** registerController as intended: 201 with the refresh-token cookie set. */
  function RegisterReplyIntended(result: Outcome<AuthResult>): (r: Reply)
    ensures result.Ok? ==> r == Reply(201, AuthBody(result.value), SetRefreshCookie(result.value.refreshToken))
    ensures result.Thrown? ==> r == ServerError(result.message)
  {
    match result
    case Thrown(m) => ServerError(m)
    case Ok(a) => IntendedReply(Ok(AuthBody(a)), 201, SetRefreshCookie(a.refreshToken))
  }

  /** loginController as intended: 200 with the refresh-token cookie set. */
  function LoginReplyIntended(result: Outcome<AuthResult>): (r: Reply)
    ensures result.Ok? ==> r == Reply(200, AuthBody(result.value), SetRefreshCookie(result.value.refreshToken))
    ensures result.Thrown? ==> r == ServerError(result.message)
  {
    match result
    case Thrown(m) => ServerError(m)
    case Ok(a) => IntendedReply(Ok(AuthBody(a)), 200, SetRefreshCookie(a.refreshToken))
  }

  /** The success and failure replies differ in status exactly where the
      written controllers coincide: on every successful call. */
  lemma SuccessfulCallsReportedAsFailures(a: AuthResult, u: PublicUser, row: UserRow, access: string)
    ensures RegisterReply(Ok(a)).status == 400 && RegisterReplyIntended(Ok(a)).status == 201
    ensures LoginReply(Ok(a)).status == 400 && LoginReplyIntended(Ok(a)).status == 200
    ensures RegisterReply(Ok(a)).cookie == KeepCookie && RegisterReplyIntended(Ok(a)).cookie == SetRefreshCookie(a.refreshToken)
    ensures GetUserReply(Ok(u)).status == 404 && IntendedReply(Ok(UserBody(u)), 200, KeepCookie).status == 200
    ensures GetUserByEmailReply(Ok(row)).status == 404
    ensures RefreshReply(Ok(RefreshResult(access))).status == 401
    ensures IntendedReply(Ok(AccessTokenBody(access)), 200, KeepCookie).status == 200
    ensures UpdateRoleReply(Ok(u)).status == 400
  {
  }

  // ---------------------------------------------------------------------------
  // The controllers over the session manager
  // ---------------------------------------------------------------------------

  class Controllers {
    const sessions: SessionManager

    constructor (sessions: SessionManager)
      ensures this.sessions == sessions
    {
      this.sessions := sessions;
    }

    /** registerController: the account and its ledger row are created, yet
        the reply is 400 without a cookie. */
    method Register(name: string, email: string, password: string, now: nat) returns (reply: Reply)
      requires sessions.Valid()
      modifies sessions.users, sessions.ledger
      ensures sessions.Valid()
      ensures old(sessions.users.GetUserByEmail(email)).Some? ==>
        && reply == ServerError(EMAIL_IN_USE)
        && sessions.users.rows == old(sessions.users.rows) && sessions.ledger.rows == old(sessions.ledger.rows)
      ensures old(sessions.users.GetUserByEmail(email)).None? ==>
        && reply.status == 400 && reply.cookie == KeepCookie && reply.body.AuthBody?
        && var auth := reply.body.auth;
        && auth.user == PublicUser(old(sessions.users.nextId), name, email, DEFAULT_ROLE, false)
        && auth.refreshToken == GenerateRefreshToken(PublicPayload(auth.user), sessions.config, now)
        && sessions.users.rows == old(sessions.users.rows)
             + [UserRow(auth.user.id, name, email, sessions.digest(password), DEFAULT_ROLE, false)]
        && sessions.ledger.rows == old(sessions.ledger.rows) + [RefreshTokenRow(auth.user.id, auth.refreshToken)]
    {
      var result := sessions.Register(name, email, password, now);
      reply := RegisterReply(result);
    }

    /** loginController: a correct password appends a ledger row, yet the
        reply is 400 without a cookie. */
    method Login(email: string, password: string, now: nat) returns (reply: Reply)
      requires sessions.Valid()
      modifies sessions.ledger
      ensures sessions.Valid()
      ensures reply.cookie == KeepCookie
      ensures reply == ServerError(INVALID_CREDENTIALS) <==>
        sessions.users.GetUserByEmail(email).None? ||
        !sessions.Matches(password, sessions.users.GetUserByEmail(email).value.password)
      ensures reply == ServerError(INVALID_CREDENTIALS) ==> sessions.ledger.rows == old(sessions.ledger.rows)
      ensures reply != ServerError(INVALID_CREDENTIALS) ==>
        && reply.status == 400 && reply.body.AuthBody?
        && var u := sessions.users.GetUserByEmail(email).value;
        && reply.body.auth.user == Public(u)
        && reply.body.auth.refreshToken == GenerateRefreshToken(RowPayload(u), sessions.config, now)
        && sessions.ledger.rows == old(sessions.ledger.rows) + [RefreshTokenRow(u.id, reply.body.auth.refreshToken)]
    {
      var result := sessions.Login(email, password, now);
      reply := LoginReply(result);
    }

    /** getUserController. */
    function GetUser(id: nat): (r: Reply)
      reads sessions.users
      ensures r.status == 404 <==> sessions.users.FindUserById(id).Some?
      ensures r.status == 404 ==> r.body == UserBody(sessions.users.FindUserById(id).value)
      ensures r.status != 404 ==> r == ServerError(USER_NOT_FOUND)
    {
      GetUserReply(sessions.GetUserById(id))
    }

    /** getUsersController. */
    function GetUsers(): (r: Reply)
      reads sessions.users
      ensures r.status == 200 && r.body.UsersBody? && |r.body.users| == |sessions.users.rows|
      ensures r.body.UsersBody? ==> forall i :: 0 <= i < |r.body.users| ==> r.body.users[i] == Public(sessions.users.rows[i])
    {
      GetUsersReply(sessions.ListUsers())
    }

    /** getUserByEmailController. */
    function GetUserByEmail(email: string): (r: Reply)
      reads sessions.users
      ensures r.status == 404 <==> sessions.users.GetUserByEmail(email).Some?
      ensures r.status == 404 ==> r.body == UserRowBody(sessions.users.GetUserByEmail(email).value)
      ensures r.status != 404 ==> r == ServerError(USER_NOT_FOUND)
    {
      GetUserByEmailReply(sessions.GetUserByEmail(email))
    }

    /** refreshTokenController: a missing or empty cookie answers 400 before
        the service is consulted. */
    function Refresh(cookie: Option<string>, now: nat): (r: Reply)
      reads sessions.users, sessions.ledger
      ensures cookie.None? || cookie.value == "" ==> r == Reply(400, ErrorBody(REFRESH_MISSING), KeepCookie)
      ensures cookie.Some? && cookie.value != "" ==> r == RefreshReply(sessions.RefreshAccessToken(cookie.value, now))
      ensures r.cookie == KeepCookie && r.status != 200
    {
      if cookie.None? || cookie.value == "" then Reply(400, ErrorBody(REFRESH_MISSING), KeepCookie)
      else RefreshReply(sessions.RefreshAccessToken(cookie.value, now))
    }

    /** logoutController: a missing token answers 400 and touches nothing;
        otherwise the service runs, and since it always throws the reply is
        500 and the cookie stays. */
    method Logout(refreshCookie: Option<string>, accessToken: Option<string>) returns (reply: Reply)
      requires sessions.Valid()
      modifies sessions.ledger, sessions.blacklist
      ensures sessions.Valid()
      ensures refreshCookie.None? || refreshCookie.value == "" || accessToken.None? || accessToken.value == "" ==>
        && reply == Reply(400, ErrorBody(TOKENS_REQUIRED), KeepCookie)
        && sessions.ledger.rows == old(sessions.ledger.rows)
        && sessions.blacklist.tokens == old(sessions.blacklist.tokens)
      ensures refreshCookie.Some? && refreshCookie.value != "" && accessToken.Some? && accessToken.value != "" ==>
        && reply.status == 500 && reply.cookie == KeepCookie
        && if old(sessions.ledger.FindRefreshToken(refreshCookie.value)).Some? then
             && reply == ServerError(BLACKLIST_FAILED)
             && sessions.ledger.rows == Filter(old(sessions.ledger.rows), TokenIsNot(refreshCookie.value))
             && sessions.blacklist.tokens == old(sessions.blacklist.tokens) + {accessToken.value}
           else
             && reply == ServerError(REFRESH_NOT_FOUND)
             && sessions.ledger.rows == old(sessions.ledger.rows)
             && sessions.blacklist.tokens == old(sessions.blacklist.tokens)
    {
      if refreshCookie.None? || refreshCookie.value == "" || accessToken.None? || accessToken.value == "" {
        return Reply(400, ErrorBody(TOKENS_REQUIRED), KeepCookie);
      }
      var result := sessions.Logout(refreshCookie.value, accessToken.value);
      reply := LogoutReply(result);
    }

    /** logoutAllDevicesController: 200 with the cookie cleared. */
    method LogoutAll(accessToken: string, userId: nat) returns (reply: Reply)
      requires sessions.Valid()
      modifies sessions.ledger, sessions.blacklist
      ensures sessions.Valid()
      ensures reply.status == 200 && reply.cookie == ClearRefreshCookie
      ensures sessions.blacklist.tokens == old(sessions.blacklist.tokens) + {accessToken}
      ensures sessions.ledger.rows == Filter(old(sessions.ledger.rows), OwnerIsNot(userId))
      ensures forall i :: 0 <= i < |sessions.ledger.rows| ==> sessions.ledger.rows[i].userId != userId
    {
      var result := sessions.LogoutAll(accessToken, userId);
      reply := LogoutAllReply(result);
    }

    /** updateUserRoleController: a role outside the whitelist answers 400
        "Invalid role" and changes nothing; otherwise the role is stored when
        the user exists, and the reply is 400 either way or 500 for an
        unknown id. */
    method UpdateRole(id: nat, role: Option<string>) returns (reply: Reply)
      requires sessions.Valid()
      modifies sessions.users
      ensures sessions.Valid()
      ensures !RoleAllowed(role) ==>
        reply == Reply(400, ErrorBody(INVALID_ROLE), KeepCookie) && sessions.users.rows == old(sessions.users.rows)
      ensures RoleAllowed(role) && old(sessions.users.FindUserById(id)).None? ==>
        reply == ServerError(USER_NOT_FOUND) && sessions.users.rows == old(sessions.users.rows)
      ensures RoleAllowed(role) && old(sessions.users.FindUserById(id)).Some? ==>
        && sessions.users.rows == WithRole(old(sessions.users.rows), id, role.value)
        && reply == Reply(400, UserBody(old(sessions.users.FindUserById(id)).value.(role := role.value)), KeepCookie)
    {
      if !RoleAllowed(role) {
        return Reply(400, ErrorBody(INVALID_ROLE), KeepCookie);
      }
      var result := sessions.UpdateUserRole(id, role.value);
      reply := UpdateRoleReply(result);
    }
  }
}
