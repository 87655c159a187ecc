/** Properties that span several operations of the session manager and the
    request gate: what a logout, a logout-all, a registration and a role
    change mean for the next refresh and the next authenticated request. */
module SessionScenarios {
  import opened Wrappers
  import opened TokenUtil
  import opened UserModel
  import opened RefreshTokenModel
  import opened UserService
  import opened AuthMiddleware

  /** After a logout whose refresh token was in the ledger, the gate rejects
      the old access token as revoked and the refresh token no longer
      refreshes, at any later time, although the service reported a failure. */
  method LogoutThenGate(m: SessionManager, refreshToken: string, accessToken: string, later: nat)
    returns (r: Outcome<LogoutResult>)
    requires m.Valid()
    requires m.ledger.FindRefreshToken(refreshToken).Some?
    requires accessToken != "" && ' ' !in accessToken
    modifies m.ledger, m.blacklist
    ensures m.Valid()
    ensures r == Thrown(BLACKLIST_FAILED)
    ensures Authenticate(Some("Bearer " + accessToken), m.blacklist.tokens, m.config, later) == Reject(403, TOKEN_REVOKED)
    ensures m.RefreshAccessToken(refreshToken, later) == Thrown(REFRESH_NOT_FOUND)
  {
    r := m.Logout(refreshToken, accessToken);
    RevokedTokenRejected(accessToken, m.blacklist.tokens, m.config, later);
    assert m.ledger.FindRefreshToken(refreshToken).None? by {
      forall i | 0 <= i < |m.ledger.rows| ensures m.ledger.rows[i].token != refreshToken {
        assert TokenIsNot(refreshToken)(m.ledger.rows[i]);
      }
    }
  }

  /** After logout-all, no refresh token of that user is in the ledger, so
      none of them refreshes, and the presented access token is revoked. */
  method LogoutAllThenRefresh(m: SessionManager, accessToken: string, userId: nat, later: nat)
    returns (r: Outcome<LogoutResult>)
    requires m.Valid()
    requires accessToken != "" && ' ' !in accessToken
    modifies m.ledger, m.blacklist
    ensures m.Valid()
    ensures forall t :: m.ledger.FindRefreshToken(t).None? || m.ledger.FindRefreshToken(t).value.userId != userId
    ensures Authenticate(Some("Bearer " + accessToken), m.blacklist.tokens, m.config, later) == Reject(403, TOKEN_REVOKED)
  {
    r := m.LogoutAll(accessToken, userId);
    RevokedTokenRejected(accessToken, m.blacklist.tokens, m.config, later);
  }

  /** A new account's refresh token refreshes until it expires, and the new
      access token carries the account's id, email and role. */
  method RegisterThenRefresh(m: SessionManager, name: string, email: string, password: string, now: nat, later: nat)
    returns (r: Outcome<AuthResult>)
    requires m.Valid()
    requires m.users.GetUserByEmail(email).None?
    requires later < now + m.config.refreshTtl
    modifies m.users, m.ledger
    ensures m.Valid()
    ensures r.Ok? && r.value.user.email == email && r.value.user.role == DEFAULT_ROLE
    ensures m.RefreshAccessToken(r.value.refreshToken, later)
      == Ok(RefreshResult(GenerateAccessToken(PublicPayload(r.value.user), m.config, later)))
  {
    r := m.Register(name, email, password, now);
    var user := r.value.user;
    var token := r.value.refreshToken;
    RefreshTokenRoundTrip(PublicPayload(user), m.config, now, later);
    LastTokenFound(m.ledger, RefreshTokenRow(user.id, token));
    NewestUserFound(m.users, user);
  }

  lemma LastTokenFound(ledger: RefreshTokenTable, row: RefreshTokenRow)
    requires |ledger.rows| > 0 && ledger.rows[|ledger.rows| - 1] == row
    ensures ledger.FindRefreshToken(row.token).Some?
  {
  }

  /** The row just inserted, whose id no earlier row has, is what
      findUserById returns for that id. */
  lemma NewestUserFound(users: UserTable, user: PublicUser)
    requires |users.rows| > 0 && Public(users.rows[|users.rows| - 1]) == user
    requires forall i :: 0 <= i < |users.rows| - 1 ==> users.rows[i].id != user.id
    ensures users.FindUserById(user.id) == Some(user)
  {
    var found := users.FindUserById(user.id).value;
    var i :| 0 <= i < |users.rows| && Public(users.rows[i]) == found;
    assert i == |users.rows| - 1;
  }

  /** A new account can log in with the password it registered with. */
  method RegisterThenLogin(m: SessionManager, name: string, email: string, password: string, now: nat, later: nat)
    returns (r1: Outcome<AuthResult>, r2: Outcome<AuthResult>)
    requires m.Valid()
    requires m.users.GetUserByEmail(email).None?
    modifies m.users, m.ledger
    ensures m.Valid()
    ensures r1.Ok? && r2.Ok? && r2.value.user == r1.value.user
  {
    r1 := m.Register(name, email, password, now);
    var rows := m.users.rows;
    assert rows[|rows| - 1].email == email;
    assert forall i :: 0 <= i < |rows| - 1 ==> rows[i].email != email;
    assert m.users.GetUserByEmail(email) == Some(rows[|rows| - 1]);
    r2 := m.Login(email, password, later);
  }

  /** A role change shows in the next refreshed access token: refresh reads
      the current row, not the claims of the refresh token. */
  method RoleChangeThenRefresh(m: SessionManager, id: nat, role: string, refreshToken: string, later: nat)
    returns (r: Outcome<PublicUser>)
    requires m.Valid()
    requires m.users.FindUserById(id).Some?
    requires m.RefreshAccessToken(refreshToken, later).Ok?
    requires VerifyRefreshToken(refreshToken, m.config, later).value.id == id
    modifies m.users
    ensures m.Valid()
    ensures r.Ok? && r.value.role == role
    ensures m.RefreshAccessToken(refreshToken, later) == Ok(RefreshResult(GenerateAccessToken(PublicPayload(r.value), m.config, later)))
  {
    r := m.UpdateUserRole(id, role);
  }
}
