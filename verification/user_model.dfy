/** The `users` table and the queries of src/models/userModel.js.
    Timestamps (`created_at`, `updated_at`) are not modelled. */
module UserModel {
  import opened Wrappers
  import opened Seqs

  /** A full row of `users`, password hash included. */
  datatype UserRow = UserRow(id: nat, name: string, email: string, password: string, role: string, isPremium: bool)

  /** The column list `id, name, email, role, is_premium` that every query
      except getUserByEmail returns: there is no password field to leak. */
  datatype PublicUser = PublicUser(id: nat, name: string, email: string, role: string, isPremium: bool)

  function Public(u: UserRow): PublicUser {
    PublicUser(u.id, u.name, u.email, u.role, u.isPremium)
  }

  const DEFAULT_ROLE := "user"

  function HasEmail(email: string): UserRow -> bool {
    (u: UserRow) => u.email == email
  }

  function HasId(id: nat): UserRow -> bool {
    (u: UserRow) => u.id == id
  }

  /** The rows after `UPDATE users SET role = $1 WHERE id = $2`. */
  function WithRole(rows: seq<UserRow>, id: nat, role: string): (r: seq<UserRow>)
    ensures |r| == |rows|
    ensures forall i :: 0 <= i < |rows| && rows[i].id != id ==> r[i] == rows[i]
    ensures forall i :: 0 <= i < |rows| && rows[i].id == id ==> r[i] == rows[i].(role := role)
  {
    seq(|rows|, i requires 0 <= i < |rows| => if rows[i].id == id then rows[i].(role := role) else rows[i])
  }

  /** The update keeps every id in place, so the same row position is found
      by id before and after it, now carrying the new role. */
  lemma {:induction false} FindAfterWithRole(rows: seq<UserRow>, id: nat, role: string)
    ensures FindFirst(WithRole(rows, id, role), HasId(id))
      == if FindFirst(rows, HasId(id)).Some? then Some(FindFirst(rows, HasId(id)).value.(role := role)) else None
    decreases |rows|
  {
    if |rows| > 0 {
      assert WithRole(rows, id, role)[1..] == WithRole(rows[1..], id, role);
      FindAfterWithRole(rows[1..], id, role);
    }
  }

  class UserTable {
    var rows: seq<UserRow>
    /** The next value of the `id` sequence. */
    var nextId: nat

    /** Ids are handed out in increasing order and never reused. */
    ghost predicate Valid()
      reads this
    {
      && (forall i :: 0 <= i < |rows| ==> rows[i].id < nextId)
      && (forall i, j :: 0 <= i < j < |rows| ==> rows[i].id < rows[j].id)
    }

    constructor ()
      ensures Valid() && rows == [] && nextId == 1
    {
      rows := [];
      nextId := 1;
    }

    /** createUser: inserts one row with a fresh id, the role defaulting to
        "user" and is_premium to false; returns that row without the password. */
    method CreateUser(name: string, email: string, password: string, role: Option<string>) returns (user: PublicUser)
      requires Valid()
      modifies this
      ensures Valid()
      ensures rows == old(rows) + [UserRow(old(nextId), name, email, password, role.GetOr(DEFAULT_ROLE), false)]
      ensures user == PublicUser(old(nextId), name, email, role.GetOr(DEFAULT_ROLE), false)
      ensures forall i :: 0 <= i < |old(rows)| ==> old(rows)[i].id != user.id
    {
      var row := UserRow(nextId, name, email, password, role.GetOr(DEFAULT_ROLE), false);
      rows := rows + [row];
      nextId := nextId + 1;
      user := Public(row);
    }

    /** getUserByEmail: the first row with that email, password hash included,
        or nothing. */
    function GetUserByEmail(email: string): (r: Option<UserRow>)
      reads this
      ensures r.None? <==> forall i :: 0 <= i < |rows| ==> rows[i].email != email
      ensures r.Some? ==> r.value in rows && r.value.email == email
    {
      FindFirst(rows, HasEmail(email))
    }

    /** findUserById: the row with that id, without the password, or nothing. */
    function FindUserById(id: nat): (r: Option<PublicUser>)
      reads this
      ensures r.None? <==> forall i :: 0 <= i < |rows| ==> rows[i].id != id
      ensures r.Some? ==> r.value.id == id && exists i :: 0 <= i < |rows| && Public(rows[i]) == r.value
    {
      match FindFirst(rows, HasId(id))
      case None => None
      case Some(u) => Some(Public(u))
    }

    /** getAllUsers: every row, in table order, without passwords. */
    function GetAllUsers(): (r: seq<PublicUser>)
      reads this
      ensures |r| == |rows|
      ensures forall i :: 0 <= i < |rows| ==> r[i].id == rows[i].id && r[i].email == rows[i].email && r[i].role == rows[i].role
      ensures forall i :: 0 <= i < |rows| ==> r[i] == Public(rows[i])
    {
      seq(|rows|, i requires 0 <= i < |rows| reads this => Public(rows[i]))
    }

    /** updateUserRole: sets the role of the row with that id and returns the
        updated row; nothing, and no change, when no row has that id. */
    method UpdateUserRole(id: nat, role: string) returns (r: Option<PublicUser>)
      requires Valid()
      modifies this
      ensures Valid() && nextId == old(nextId)
      ensures rows == WithRole(old(rows), id, role)
      ensures r.None? <==> old(FindUserById(id)).None?
      ensures r.None? ==> rows == old(rows)
      ensures r.Some? ==> r == Some(old(FindUserById(id)).value.(role := role))
      ensures r.Some? ==> FindUserById(id) == r
    {
      var found := FindFirst(rows, HasId(id));
      rows := WithRole(rows, id, role);
      if found.None? {
        assert rows == old(rows);
        r := None;
      } else {
        r := Some(Public(found.value.(role := role)));
        FindAfterWithRole(old(rows), id, role);
      }
    }
  }
}
