/** The `refresh_tokens` ledger of src/models/refreshTokenModel.js: one row
    per logged-in device. */
module RefreshTokenModel {
  import opened Wrappers
  import opened Seqs

  datatype RefreshTokenRow = RefreshTokenRow(userId: nat, token: string)

  function TokenIs(token: string): RefreshTokenRow -> bool {
    (r: RefreshTokenRow) => r.token == token
  }

  function TokenIsNot(token: string): RefreshTokenRow -> bool {
    (r: RefreshTokenRow) => r.token != token
  }

  function OwnerIs(userId: nat): RefreshTokenRow -> bool {
    (r: RefreshTokenRow) => r.userId == userId
  }

  function OwnerIsNot(userId: nat): RefreshTokenRow -> bool {
    (r: RefreshTokenRow) => r.userId != userId
  }

  class RefreshTokenTable {
    var rows: seq<RefreshTokenRow>

    constructor ()
      ensures rows == []
    {
      rows := [];
    }

    /** saveRefreshToken: appends exactly one row and returns it. */
    method SaveRefreshToken(userId: nat, token: string) returns (row: RefreshTokenRow)
      modifies this
      ensures row == RefreshTokenRow(userId, token)
      ensures rows == old(rows) + [row]
    {
      row := RefreshTokenRow(userId, token);
      rows := rows + [row];
    }

    /** deleteRefreshToken: removes every row holding that token and returns
        how many it removed; 0, with the ledger unchanged, when there is none. */
    method DeleteRefreshToken(token: string) returns (count: nat)
      modifies this
      ensures rows == Filter(old(rows), TokenIsNot(token))
      ensures count == |Filter(old(rows), TokenIs(token))|
      ensures count == |old(rows)| - |rows|
      ensures count == 0 <==> forall i :: 0 <= i < |old(rows)| ==> old(rows)[i].token != token
      ensures count == 0 ==> rows == old(rows)
      ensures count == 0 <==> old(FindRefreshToken(token)).None?
      ensures FindRefreshToken(token).None?
    {
      var before := rows;
      FilterAllOrNone(before, TokenIsNot(token));
      rows := Filter(rows, TokenIsNot(token));
      FilterComplement(before, TokenIsNot(token), TokenIs(token));
      count := |before| - |rows|;
    }

    /** findRefreshToken: a row holding that token, or nothing. */
    function FindRefreshToken(token: string): (r: Option<RefreshTokenRow>)
      reads this
      ensures r.None? <==> forall i :: 0 <= i < |rows| ==> rows[i].token != token
      ensures r.Some? ==> r.value in rows && r.value.token == token
    {
      FindFirst(rows, TokenIs(token))
    }

    /** deleteAllRefreshTokensByUser: removes exactly the rows owned by that
        user, keeps every other row, and returns how many it removed. */
    method DeleteAllRefreshTokensByUser(userId: nat) returns (count: nat)
      modifies this
      ensures rows == Filter(old(rows), OwnerIsNot(userId))
      ensures count == |Filter(old(rows), OwnerIs(userId))|
      ensures count == |old(rows)| - |rows|
      ensures forall i :: 0 <= i < |rows| ==> rows[i].userId != userId
      ensures forall i :: 0 <= i < |old(rows)| && old(rows)[i].userId != userId ==> old(rows)[i] in rows
      ensures forall t :: FindRefreshToken(t).None? || FindRefreshToken(t).value.userId != userId
    {
      var before := rows;
      rows := Filter(rows, OwnerIsNot(userId));
      FilterComplement(before, OwnerIsNot(userId), OwnerIs(userId));
      count := |before| - |rows|;
    }
  }
}
