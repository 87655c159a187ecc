/** The session manager of src/services/userService.js: register, login,
    refresh, logout, logout-all and role update over the users table, the
    refresh-token ledger and the access-token blacklist.

    bcrypt is a digest function fixed when the manager is built:
    `bcrypt.hash(p)` is `digest(p)` and `bcrypt.compare(p, h)` is
    `digest(p) == h`, so `compare(p, hash(p))` always holds. Salting is not
    modelled. The clock is the parameter `now` (seconds). */
module UserService {
  import opened Wrappers
  import opened Text
  import opened Seqs
  import opened TokenUtil
  import opened UserModel
  import opened RefreshTokenModel
  import opened BlacklistModel

  /** `{ user, accessToken, refreshToken }`, the value of register and login. */
  datatype AuthResult = AuthResult(user: PublicUser, accessToken: string, refreshToken: string)

  /** `{ accessToken }`, the value of refresh. */
  datatype RefreshResult = RefreshResult(accessToken: string)

  /** `{ success, message }`, the value of logout and logout-all. */
  datatype LogoutResult = LogoutResult(success: bool, message: string)

  function PublicPayload(u: PublicUser): Payload {
    Payload(u.id, u.email, u.role)
  }

  function RowPayload(u: UserRow): Payload {
    Payload(u.id, u.email, u.role)
  }

  ghost predicate EmailsUnique(rows: seq<UserRow>) {
    forall i, j :: 0 <= i < j < |rows| ==> rows[i].email != rows[j].email
  }

  ghost function Ids(rows: seq<UserRow>): set<nat> {
    set i | 0 <= i < |rows| :: rows[i].id
  }

  /** Every refresh token in the ledger belongs to a user that exists. */
  ghost predicate OwnersExist(ledger: seq<RefreshTokenRow>, users: seq<UserRow>) {
    forall i :: 0 <= i < |ledger| ==> ledger[i].userId in Ids(users)
  }

  /** Deleting ledger rows never leaves a row whose owner is missing. */
  lemma FilterKeepsOwners(ledger: seq<RefreshTokenRow>, users: seq<UserRow>, keep: RefreshTokenRow -> bool)
    requires OwnersExist(ledger, users)
    ensures OwnersExist(Filter(ledger, keep), users)
  {
    var kept := Filter(ledger, keep);
    forall i | 0 <= i < |kept| ensures kept[i].userId in Ids(users) {
      var j :| 0 <= j < |ledger| && ledger[j] == kept[i];
    }
  }

  /** A role change keeps every id and email, so the emails stay unique and
      every ledger row keeps its owner. */
  lemma WithRoleKeepsOwners(ledger: seq<RefreshTokenRow>, rows: seq<UserRow>, id: nat, role: string)
    requires EmailsUnique(rows) && OwnersExist(ledger, rows)
    ensures EmailsUnique(WithRole(rows, id, role)) && OwnersExist(ledger, WithRole(rows, id, role))
  {
    var after := WithRole(rows, id, role);
    assert Ids(after) == Ids(rows) by {
      forall i | 0 <= i < |rows| ensures after[i].id == rows[i].id {
      }
    }
  }

  /** Appending a user whose email is new, and a ledger row it owns, keeps
      the emails unique and every ledger row owned. */
  lemma NewUserKeepsOwners(ledger: seq<RefreshTokenRow>, rows: seq<UserRow>, user: UserRow, token: string)
    requires EmailsUnique(rows) && OwnersExist(ledger, rows)
    requires forall i :: 0 <= i < |rows| ==> rows[i].email != user.email
    ensures EmailsUnique(rows + [user])
    ensures OwnersExist(ledger + [RefreshTokenRow(user.id, token)], rows + [user])
  {
    var after := rows + [user];
    assert Ids(rows) + {user.id} <= Ids(after) by {
      assert after[|rows|] == user;
      forall i | 0 <= i < |rows| ensures rows[i].id in Ids(after) {
        assert after[i] == rows[i];
      }
    }
  }

  const EMAIL_IN_USE := "Email already in use"
  const INVALID_CREDENTIALS := "Invalid email or password"
  const USER_NOT_FOUND := "User not found"
  const REFRESH_NOT_FOUND := "Refresh token not found"
  const REFRESH_INVALID := "Invalid or expired refresh token"
  const BLACKLIST_FAILED := "Failed to blacklist access token"
  const ROLE_UPDATE_FAILED := "Failed to update user role"
  const LOGGED_OUT := "Logged out successfully"

  class SessionManager {
    const users: UserTable
    const ledger: RefreshTokenTable
    const blacklist: BlacklistTable
    const config: TokenConfig
    /** The one-way function standing in for bcrypt. */
    const digest: string -> string

    /** `bcrypt.compare(password, hash)`. */
    predicate Matches(password: string, hash: string) {
      digest(password) == hash
    }

    /** Ids are fresh, emails are unique (register checks before inserting), and
        the ledger refers only to existing users. */
    ghost predicate Valid()
      reads this, users, ledger
    {
      && users.Valid()
      && EmailsUnique(users.rows)
      && OwnersExist(ledger.rows, users.rows)
    }

    constructor (config: TokenConfig, digest: string -> string)
      ensures Valid() && fresh(users) && fresh(ledger) && fresh(blacklist)
      ensures users.rows == [] && ledger.rows == [] && blacklist.tokens == {}
      ensures this.config == config && this.digest == digest
    {
      this.config := config;
      this.digest := digest;
      users := new UserTable();
      ledger := new RefreshTokenTable();
      blacklist := new BlacklistTable();
    }

    /** registerUserService. A taken email fails before anything is written;
        otherwise exactly one user row and exactly one ledger row, owned by the
        new user, are added, and the user comes back without a password. */
    method Register(name: string, email: string, password: string, now: nat) returns (r: Outcome<AuthResult>)
      requires Valid()
      modifies users, ledger
      ensures Valid()
      ensures old(users.GetUserByEmail(email)).Some? ==>
        && r == Thrown(EMAIL_IN_USE)
        && users.rows == old(users.rows) && users.nextId == old(users.nextId)
        && ledger.rows == old(ledger.rows)
      ensures old(users.GetUserByEmail(email)).None? ==>
        var user := PublicUser(old(users.nextId), name, email, DEFAULT_ROLE, false);
        && users.rows == old(users.rows) + [UserRow(user.id, name, email, digest(password), DEFAULT_ROLE, false)]
        && r == Ok(AuthResult(user, GenerateAccessToken(PublicPayload(user), config, now),
                              GenerateRefreshToken(PublicPayload(user), config, now)))
        && ledger.rows == old(ledger.rows) + [RefreshTokenRow(user.id, r.value.refreshToken)]
    {
      var existing := users.GetUserByEmail(email);
      if existing.Some? {
        return Thrown(EMAIL_IN_USE);
      }
      var hashed := digest(password);
      var newUser := users.CreateUser(name, email, hashed, None);
      var accessToken := GenerateAccessToken(PublicPayload(newUser), config, now);
      var refreshToken := GenerateRefreshToken(PublicPayload(newUser), config, now);
      NewUserKeepsOwners(ledger.rows, old(users.rows), UserRow(newUser.id, name, email, hashed, DEFAULT_ROLE, false), refreshToken);
      var _ := ledger.SaveRefreshToken(newUser.id, refreshToken);
      r := Ok(AuthResult(newUser, accessToken, refreshToken));
    }

    /** loginUserService. An unknown email and a wrong password fail with the
        same message; a success adds one ledger row for that user and leaves
        the users table alone. */
    method Login(email: string, password: string, now: nat) returns (r: Outcome<AuthResult>)
      requires Valid()
      modifies ledger
      ensures Valid()
      ensures users.GetUserByEmail(email).None? ==> r == Thrown(INVALID_CREDENTIALS) && ledger.rows == old(ledger.rows)
      ensures users.GetUserByEmail(email).Some? && !Matches(password, users.GetUserByEmail(email).value.password) ==>
        r == Thrown(INVALID_CREDENTIALS) && ledger.rows == old(ledger.rows)
      ensures users.GetUserByEmail(email).Some? && Matches(password, users.GetUserByEmail(email).value.password) ==>
        var u := users.GetUserByEmail(email).value;
        && r == Ok(AuthResult(Public(u), GenerateAccessToken(RowPayload(u), config, now),
                              GenerateRefreshToken(RowPayload(u), config, now)))
        && ledger.rows == old(ledger.rows) + [RefreshTokenRow(u.id, r.value.refreshToken)]
    {
      var user := users.GetUserByEmail(email);
      if user.None? {
        return Thrown(INVALID_CREDENTIALS);
      }
      var isMatch := Matches(password, user.value.password);
      if !isMatch {
        return Thrown(INVALID_CREDENTIALS);
      }
      var u := user.value;
      var accessToken := GenerateAccessToken(RowPayload(u), config, now);
      var refreshToken := GenerateRefreshToken(RowPayload(u), config, now);
      var _ := ledger.SaveRefreshToken(u.id, refreshToken);
      r := Ok(AuthResult(Public(u), accessToken, refreshToken));
      assert u.id in Ids(users.rows) by {
        var i :| 0 <= i < |users.rows| && users.rows[i] == u;
      }
    }

    /** getUserByIdService. */
    function GetUserById(id: nat): (r: Outcome<PublicUser>)
      reads users
      ensures r.Thrown? <==> users.FindUserById(id).None?
      ensures r.Thrown? ==> r.message == USER_NOT_FOUND
      ensures r.Ok? ==> r.value.id == id
      ensures r.Ok? ==> exists i :: 0 <= i < |users.rows| && users.rows[i].id == id && r.value == Public(users.rows[i])
    {
      match users.FindUserById(id)
      case None => Thrown(USER_NOT_FOUND)
      case Some(u) => Ok(u)
    }

    /** getUserByEmailService: the full row, password hash included. */
    function GetUserByEmail(email: string): (r: Outcome<UserRow>)
      reads users
      ensures r.Thrown? <==> forall i :: 0 <= i < |users.rows| ==> users.rows[i].email != email
      ensures r.Thrown? ==> r.message == USER_NOT_FOUND
      ensures r.Ok? ==> r.value in users.rows && r.value.email == email
    {
      match users.GetUserByEmail(email)
      case None => Thrown(USER_NOT_FOUND)
      case Some(u) => Ok(u)
    }

    /** listUsersService. */
    function ListUsers(): (r: seq<PublicUser>)
      reads users
      ensures |r| == |users.rows|
      ensures forall i :: 0 <= i < |r| ==> r[i] == Public(users.rows[i])
    {
      users.GetAllUsers()
    }

    /** refreshAccessTokenService. The ledger is consulted first; a token it
        holds must verify and name an existing user, and every failure past
        the ledger check is reported as "Invalid or expired refresh token"
        (the inner "User not found" is replaced). The new access token carries
        the user's current email and role. Nothing is written: the refresh
        token is not rotated. */
    function RefreshAccessToken(refreshToken: string, now: nat): (r: Outcome<RefreshResult>)
      reads users, ledger
      ensures ledger.FindRefreshToken(refreshToken).None? ==> r == Thrown(REFRESH_NOT_FOUND)
      ensures ledger.FindRefreshToken(refreshToken).Some? && VerifyRefreshToken(refreshToken, config, now).Thrown? ==>
        r == Thrown(REFRESH_INVALID)
      ensures r.Thrown? ==> r.message == REFRESH_NOT_FOUND || r.message == REFRESH_INVALID
      ensures ledger.FindRefreshToken(refreshToken).Some? && r.Thrown? ==> r == Thrown(REFRESH_INVALID)
      ensures r.Ok? <==>
        && ledger.FindRefreshToken(refreshToken).Some?
        && VerifyRefreshToken(refreshToken, config, now).Ok?
        && users.FindUserById(VerifyRefreshToken(refreshToken, config, now).value.id).Some?
      ensures r.Ok? ==>
        var user := users.FindUserById(VerifyRefreshToken(refreshToken, config, now).value.id).value;
        r.value.accessToken == GenerateAccessToken(PublicPayload(user), config, now)
    {
      if ledger.FindRefreshToken(refreshToken).None? then Thrown(REFRESH_NOT_FOUND)
      else
        match VerifyRefreshToken(refreshToken, config, now)
        case Thrown(_) => Thrown(REFRESH_INVALID)
        case Ok(decoded) =>
          match users.FindUserById(decoded.id)
          case None => Thrown(REFRESH_INVALID)
          case Some(user) => Ok(RefreshResult(GenerateAccessToken(PublicPayload(user), config, now)))
    }

    /** logoutUserService. A token missing from the ledger fails before the
        blacklist is touched. Otherwise the token's rows are deleted and the
        access token is blacklisted; since the blacklist insert returns no row,
        the service then always throws "Failed to blacklist access token". */
    method Logout(refreshToken: string, accessToken: string) returns (r: Outcome<LogoutResult>)
      requires Valid()
      modifies ledger, blacklist
      ensures Valid()
      ensures old(ledger.FindRefreshToken(refreshToken)).None? ==>
        && r == Thrown(REFRESH_NOT_FOUND)
        && ledger.rows == old(ledger.rows)
        && blacklist.tokens == old(blacklist.tokens)
      ensures old(ledger.FindRefreshToken(refreshToken)).Some? ==>
        && r == Thrown(BLACKLIST_FAILED)
        && ledger.rows == Filter(old(ledger.rows), TokenIsNot(refreshToken))
        && blacklist.tokens == old(blacklist.tokens) + {accessToken}
    {
      FilterKeepsOwners(ledger.rows, users.rows, TokenIsNot(refreshToken));
      var deleted := ledger.DeleteRefreshToken(refreshToken);
      if deleted == 0 {
        return Thrown(REFRESH_NOT_FOUND);
      }
      var result := blacklist.AddTokenToBlacklist(accessToken);
      if result.None? {
        return Thrown(BLACKLIST_FAILED);
      }
      r := Ok(LogoutResult(true, LOGGED_OUT));
    }

    /** logoutUserService over a blacklist insert that returns its row: a
        token in the ledger now logs out successfully, after the same two
        writes. */
    method LogoutFixed(refreshToken: string, accessToken: string) returns (r: Outcome<LogoutResult>)
      requires Valid()
      modifies ledger, blacklist
      ensures Valid()
      ensures old(ledger.FindRefreshToken(refreshToken)).None? ==>
        && r == Thrown(REFRESH_NOT_FOUND)
        && ledger.rows == old(ledger.rows)
        && blacklist.tokens == old(blacklist.tokens)
      ensures old(ledger.FindRefreshToken(refreshToken)).Some? ==>
        && r == Ok(LogoutResult(true, LOGGED_OUT))
        && ledger.rows == Filter(old(ledger.rows), TokenIsNot(refreshToken))
        && blacklist.tokens == old(blacklist.tokens) + {accessToken}
    {
      FilterKeepsOwners(ledger.rows, users.rows, TokenIsNot(refreshToken));
      var deleted := ledger.DeleteRefreshToken(refreshToken);
      if deleted == 0 {
        return Thrown(REFRESH_NOT_FOUND);
      }
      var result := blacklist.AddTokenToBlacklistReturning(accessToken);
      if result.None? {
        return Thrown(BLACKLIST_FAILED);
      }
      r := Ok(LogoutResult(true, LOGGED_OUT));
    }

    /** logoutAllDevicesService: removes all and only that user's ledger rows,
        blacklists the given access token, and reports the count removed. */
    method LogoutAll(accessToken: string, userId: nat) returns (r: Outcome<LogoutResult>)
      requires Valid()
      modifies ledger, blacklist
      ensures Valid()
      ensures ledger.rows == Filter(old(ledger.rows), OwnerIsNot(userId))
      ensures forall i :: 0 <= i < |ledger.rows| ==> ledger.rows[i].userId != userId
      ensures blacklist.tokens == old(blacklist.tokens) + {accessToken}
      ensures r == Ok(LogoutResult(true, "Logged out from " + NatToString(|Filter(old(ledger.rows), OwnerIs(userId))|) + " devices"))
    {
      FilterKeepsOwners(ledger.rows, users.rows, OwnerIsNot(userId));
      var deleted := ledger.DeleteAllRefreshTokensByUser(userId);
      var _ := blacklist.AddTokenToBlacklist(accessToken);
      r := Ok(LogoutResult(true, "Logged out from " + NatToString(deleted) + " devices"));
    }

    /** updateUserRoleService: no validation of the role; "User not found"
        when the id is absent; otherwise the role is stored and the updated
        user returned. */
    method UpdateUserRole(id: nat, role: string) returns (r: Outcome<PublicUser>)
      requires Valid()
      modifies users
      ensures Valid()
      ensures old(users.FindUserById(id)).None? ==> r == Thrown(USER_NOT_FOUND) && users.rows == old(users.rows)
      ensures old(users.FindUserById(id)).Some? ==>
        && users.rows == WithRole(old(users.rows), id, role)
        && r == Ok(old(users.FindUserById(id)).value.(role := role))
        && users.FindUserById(id) == Some(r.value)
    {
      var user := users.FindUserById(id);
      if user.None? {
        return Thrown(USER_NOT_FOUND);
      }
      WithRoleKeepsOwners(ledger.rows, users.rows, id, role);
      var updated := users.UpdateUserRole(id, role);
      if updated.None? {
        return Thrown(ROLE_UPDATE_FAILED);
      }
      r := Ok(updated.value);
    }
  }
}
