/** src/services/userFavoriteService.js: the favourites operations with their
    results wrapped as `{ success, data }` or `{ success: false, error }`. */
module UserFavoriteService {
  import opened Wrappers
  import opened Seqs
  import opened BookModel
  import opened UserFavoriteModel

  datatype ServiceResult<+T> = Success(data: T) | Failure(error: string)

  const ALREADY_FAVORITE := "Book already in favorites"
  const NOT_A_FAVORITE := "Book not found in favorites"

  /** The wrapping of addBookToFavorites: a failure exactly when the model
      returned null. */
  function AddResult(favorite: Option<FavoriteRow>): (r: ServiceResult<FavoriteRow>)
    ensures r.Failure? <==> favorite.None?
    ensures r.Failure? ==> r.error == ALREADY_FAVORITE
    ensures r.Success? ==> r.data == favorite.value
  {
    match favorite
    case None => Failure(ALREADY_FAVORITE)
    case Some(f) => Success(f)
  }

  /** The wrapping of removeBookFromFavorites: a failure exactly when nothing
      was deleted; otherwise `data.deletedCount`. */
  function RemoveResult(deletedCount: nat): (r: ServiceResult<nat>)
    ensures r.Failure? <==> deletedCount == 0
    ensures r.Failure? ==> r.error == NOT_A_FAVORITE
    ensures r.Success? ==> r.data == deletedCount && r.data > 0
  {
    if deletedCount == 0 then Failure(NOT_A_FAVORITE) else Success(deletedCount)
  }

  /** addBookToFavorites: "Book already in favorites" exactly when the pair
      was already stored; otherwise the new row. */
  method AddBookToFavorites(t: FavoriteTable, userId: nat, bookId: nat, now: nat) returns (r: ServiceResult<FavoriteRow>)
    requires t.Valid()
    modifies t
    ensures t.Valid() && t.IsBookFavorited(userId, bookId)
    ensures r.Failure? <==> old(t.IsBookFavorited(userId, bookId))
    ensures r.Failure? ==> r.error == ALREADY_FAVORITE && t.rows == old(t.rows)
    ensures r.Success? ==> r.data == FavoriteRow(userId, bookId, now) && t.rows == old(t.rows) + [r.data]
  {
    var favorite := t.AddFavorite(userId, bookId, now);
    r := AddResult(favorite);
  }

  /** removeBookFromFavorites: "Book not found in favorites" exactly when the
      pair was not stored; otherwise the count deleted, which is 1. */
  method RemoveBookFromFavorites(t: FavoriteTable, userId: nat, bookId: nat) returns (r: ServiceResult<nat>)
    requires t.Valid()
    modifies t
    ensures t.Valid() && !t.IsBookFavorited(userId, bookId)
    ensures r.Failure? <==> !old(t.IsBookFavorited(userId, bookId))
    ensures r.Failure? ==> r.error == NOT_A_FAVORITE && t.rows == old(t.rows)
    ensures t.rows == Filter(old(t.rows), PairIsNot(userId, bookId))
    ensures r.Success? ==> r.data == 1 && |t.rows| == |old(t.rows)| - 1
  {
    var deletedCount := t.RemoveFavorite(userId, bookId);
    r := RemoveResult(deletedCount);
  }

  /** getUserFavorites: always a success carrying the model's list. */
  function GetUserFavorites(t: FavoriteTable, userId: nat, books: seq<Book>): (r: ServiceResult<seq<FavoriteBook>>)
    reads t
    ensures r.Success?
    ensures NewestFirst(r.data) && multiset(r.data) == multiset(Joined(t.rows, userId, books))
  {
    Success(t.GetFavoritesByUser(userId, books))
  }

  /** checkBookFavorited: always a success whose `isFavorited` is whether the
      pair is stored. */
  function CheckBookFavorited(t: FavoriteTable, userId: nat, bookId: nat): (r: ServiceResult<bool>)
    reads t
    ensures r.Success?
    ensures r.data <==> exists i :: 0 <= i < |t.rows| && t.rows[i].userId == userId && t.rows[i].bookId == bookId
  {
    Success(t.IsBookFavorited(userId, bookId))
  }
}
