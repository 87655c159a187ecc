/** The `user_favorites` table of src/models/userFavoriteModel.js: rows
    `(user_id, book_id, created_at)`, at most one per pair because every
    insert is guarded by a membership check. `created_at` is the clock value
    `now` passed to the insert. */
module UserFavoriteModel {
  import opened Wrappers
  import opened Seqs
  import opened BookModel

  datatype FavoriteRow = FavoriteRow(userId: nat, bookId: nat, createdAt: nat)

  /** A row of `SELECT b.*, uf.created_at AS added_at`. */
  datatype FavoriteBook = FavoriteBook(book: Book, addedAt: nat)

  function Pair(f: FavoriteRow): (nat, nat) {
    (f.userId, f.bookId)
  }

  function PairIs(userId: nat, bookId: nat): FavoriteRow -> bool {
    (f: FavoriteRow) => f.userId == userId && f.bookId == bookId
  }

  function PairIsNot(userId: nat, bookId: nat): FavoriteRow -> bool {
    (f: FavoriteRow) => !(f.userId == userId && f.bookId == bookId)
  }

  /** The inner join: a favourite of that user whose book exists. */
  function Joinable(userId: nat, books: seq<Book>): FavoriteRow -> bool {
    (f: FavoriteRow) => f.userId == userId && FindFirst(books, IdIs(f.bookId)).Some?
  }

  /** `FROM user_favorites uf JOIN books b ON uf.book_id = b.id WHERE
      uf.user_id = $1`, before ordering: one joined row per favourite of the
      user whose book exists, in table order. */
  function Joined(rows: seq<FavoriteRow>, userId: nat, books: seq<Book>): (r: seq<FavoriteBook>)
    ensures |r| == |Filter(rows, Joinable(userId, books))|
    ensures forall i :: 0 <= i < |r| ==>
      var f := Filter(rows, Joinable(userId, books))[i];
      && f in rows && f.userId == userId
      && r[i].book in books && r[i].book.id == f.bookId && r[i].addedAt == f.createdAt
  {
    var sel := Filter(rows, Joinable(userId, books));
    seq(|sel|, i requires 0 <= i < |sel| =>
      FavoriteBook(FindFirst(books, IdIs(sel[i].bookId)).value, sel[i].createdAt))
  }

  /** `ORDER BY uf.created_at DESC`. */
  ghost predicate NewestFirst(s: seq<FavoriteBook>) {
    forall i, j :: 0 <= i < j < |s| ==> s[i].addedAt >= s[j].addedAt
  }

  function Insert(x: FavoriteBook, s: seq<FavoriteBook>): (r: seq<FavoriteBook>)
    requires NewestFirst(s)
    ensures NewestFirst(r)
    ensures multiset(r) == multiset(s) + multiset{x}
    ensures forall k :: 0 <= k < |r| ==> r[k] == x || r[k] in s
    decreases |s|
  {
    if |s| == 0 then [x]
    else if x.addedAt >= s[0].addedAt then [x] + s
    else
      NewestFirstTail(s);
      assert s == [s[0]] + s[1..];
      [s[0]] + Insert(x, s[1..])
  }

  /** Below the head of a newest-first list comes a newest-first list of
      entries no newer than the head. */
  lemma NewestFirstTail(s: seq<FavoriteBook>)
    requires NewestFirst(s) && |s| > 0
    ensures NewestFirst(s[1..])
    ensures forall y :: y in s[1..] ==> y.addedAt <= s[0].addedAt
  {
    forall y | y in s[1..] ensures y.addedAt <= s[0].addedAt {
      var j :| 0 <= j < |s[1..]| && s[1..][j] == y;
      assert s[j + 1] == y;
    }
  }

  /** The rows in newest-first order; rows with equal timestamps, which SQL
      leaves in any order, are placed by this insertion order. */
  function SortNewestFirst(s: seq<FavoriteBook>): (r: seq<FavoriteBook>)
    ensures NewestFirst(r)
    ensures multiset(r) == multiset(s)
    decreases |s|
  {
    if |s| == 0 then []
    else
      assert s == [s[0]] + s[1..];
      Insert(s[0], SortNewestFirst(s[1..]))
  }

  class FavoriteTable {
    var rows: seq<FavoriteRow>

    /** No pair is stored twice. */
    ghost predicate Valid()
      reads this
    {
      DistinctBy(rows, Pair)
    }

    constructor ()
      ensures Valid() && rows == []
    {
      rows := [];
    }

    /** isBookFavorited: whether the pair is stored. */
    function IsBookFavorited(userId: nat, bookId: nat): (r: bool)
      reads this
      ensures r <==> exists i :: 0 <= i < |rows| && rows[i].userId == userId && rows[i].bookId == bookId
    {
      FindFirst(rows, PairIs(userId, bookId)).Some?
    }

    /** The stored pairs, as the favourites join of getBooks and getBookById
        reads them. */
    function Pairs(): (s: set<(nat, nat)>)
      reads this
      ensures forall i :: 0 <= i < |rows| ==> Pair(rows[i]) in s
      ensures forall p :: p in s ==> IsBookFavorited(p.0, p.1)
    {
      set i | 0 <= i < |rows| :: Pair(rows[i])
    }

    /** addFavorite: null and no change when the pair is already stored;
        otherwise one new row, returned. Either way the pair is then stored
        exactly once. */
    method AddFavorite(userId: nat, bookId: nat, now: nat) returns (r: Option<FavoriteRow>)
      requires Valid()
      modifies this
      ensures Valid()
      ensures old(IsBookFavorited(userId, bookId)) ==> r == None && rows == old(rows)
      ensures !old(IsBookFavorited(userId, bookId)) ==>
        r == Some(FavoriteRow(userId, bookId, now)) && rows == old(rows) + [r.value]
      ensures IsBookFavorited(userId, bookId)
      ensures |Filter(rows, PairIs(userId, bookId))| == 1
    {
      var alreadyFavorited := IsBookFavorited(userId, bookId);
      if alreadyFavorited {
        r := None;
      } else {
        var row := FavoriteRow(userId, bookId, now);
        rows := rows + [row];
        r := Some(row);
        assert rows[|rows| - 1] == row;
      }
      FilterAtMostOne(rows, PairIs(userId, bookId));
    }

    /** removeFavorite: deletes the pair's rows and returns their count, 0 or
        1; every other pair stays. */
    method RemoveFavorite(userId: nat, bookId: nat) returns (count: nat)
      requires Valid()
      modifies this
      ensures Valid()
      ensures rows == Filter(old(rows), PairIsNot(userId, bookId))
      ensures count == |old(rows)| - |rows|
      ensures count <= 1
      ensures count == 0 <==> !old(IsBookFavorited(userId, bookId))
      ensures count == 0 ==> rows == old(rows)
      ensures !IsBookFavorited(userId, bookId)
      ensures forall i :: 0 <= i < |old(rows)| && Pair(old(rows)[i]) != (userId, bookId) ==> old(rows)[i] in rows
    {
      var before := rows;
      FilterAllOrNone(before, PairIsNot(userId, bookId));
      rows := Filter(rows, PairIsNot(userId, bookId));
      FilterComplement(before, PairIsNot(userId, bookId), PairIs(userId, bookId));
      FilterAtMostOne(before, PairIs(userId, bookId));
      FilterDistinct(before, PairIsNot(userId, bookId), Pair);
      count := |before| - |rows|;
    }

    /** getFavoritesByUser: that user's favourites whose book exists, joined
        with the book, newest first. */
    function GetFavoritesByUser(userId: nat, books: seq<Book>): (r: seq<FavoriteBook>)
      reads this
      ensures NewestFirst(r)
      ensures multiset(r) == multiset(Joined(rows, userId, books))
      ensures |r| == |Filter(rows, Joinable(userId, books))|
    {
      var r := SortNewestFirst(Joined(rows, userId, books));
      assert |r| == |multiset(r)|;
      r
    }
  }

  /** Every row of the answer is a favourite of that user on an existing
      book, carrying that favourite's timestamp. */
  lemma FavoritesAreTheUsers(t: FavoriteTable, userId: nat, books: seq<Book>, k: nat)
    requires k < |t.GetFavoritesByUser(userId, books)|
    ensures
      var fb := t.GetFavoritesByUser(userId, books)[k];
      && fb.book in books
      && exists i :: 0 <= i < |t.rows| && t.rows[i] == FavoriteRow(userId, fb.book.id, fb.addedAt)
  {
    var r := t.GetFavoritesByUser(userId, books);
    var j := Joined(t.rows, userId, books);
    assert r[k] in multiset(j);
    var m :| 0 <= m < |j| && j[m] == r[k];
    var f := Filter(t.rows, Joinable(userId, books))[m];
    var i :| 0 <= i < |t.rows| && t.rows[i] == f;
  }

  /** Adding a pair twice leaves it stored once, and the second call returns
      null. */
  method AddTwice(t: FavoriteTable, userId: nat, bookId: nat, first: nat, second: nat)
    returns (r1: Option<FavoriteRow>, r2: Option<FavoriteRow>)
    requires t.Valid()
    modifies t
    ensures t.Valid()
    ensures r2 == None
    ensures |Filter(t.rows, PairIs(userId, bookId))| == 1
  {
    r1 := t.AddFavorite(userId, bookId, first);
    r2 := t.AddFavorite(userId, bookId, second);
  }
}
