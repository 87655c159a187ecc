/** The `blacklist_tokens` table of src/models/blacklistModel.js: the access
    tokens revoked before their expiry. The module has no delete, so the set
    only grows. */
module BlacklistModel {
  import opened Wrappers

  datatype BlacklistRow = BlacklistRow(token: string)

  class BlacklistTable {
    var tokens: set<string>

    constructor ()
      ensures tokens == {}
    {
      tokens := {};
    }

    /** addTokenToBlacklist: inserts the token. The INSERT has no RETURNING
        clause, so `result.rows[0]` is undefined: no row comes back. */
    method AddTokenToBlacklist(token: string) returns (row: Option<BlacklistRow>)
      modifies this
      ensures tokens == old(tokens) + {token}
      ensures FindBlacklistedToken(token).Some?
      ensures row == None
    {
      tokens := tokens + {token};
      row := None;
    }

    /** addTokenToBlacklist with `RETURNING *`, as the caller expects: the
        inserted row comes back. */
    method AddTokenToBlacklistReturning(token: string) returns (row: Option<BlacklistRow>)
      modifies this
      ensures tokens == old(tokens) + {token}
      ensures row == Some(BlacklistRow(token))
    {
      tokens := tokens + {token};
      row := Some(BlacklistRow(token));
    }

    /** findBlacklistedToken: a row exactly when the token is blacklisted. */
    function FindBlacklistedToken(token: string): (r: Option<BlacklistRow>)
      reads this
      ensures r.Some? <==> token in tokens
      ensures r.Some? ==> r.value.token == token
    {
      if token in tokens then Some(BlacklistRow(token)) else None
    }
  }
}
