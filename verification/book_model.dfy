/** The `books` table and the queries of src/models/bookModel.js.

    `getBooks` is split into its pure parts (parameter defaults, the sort
    whitelist, the order normalisation, offset and keyword, the pagination
    metadata) and the selection itself. `ILIKE` matching is a parameter
    (`matches(keyword, book)`), and the favourites join reads a set of
    `(userId, bookId)` pairs. */
module BookModel {
  import opened Wrappers
  import opened Text
  import opened Seqs

  datatype Book = Book(
    id: nat, title: string, author: string, description: string,
    fileUrl: string, coverUrl: Option<string>, tags: seq<string>, isPremium: bool)

  /** The argument of createBook; `None` is an argument left undefined. */
  datatype NewBook = NewBook(
    title: string, author: string, description: string, fileUrl: string,
    coverUrl: Option<string>, tags: Option<seq<string>>, isPremium: Option<bool>)

  /** A row of `SELECT b.*, ... AS is_favorite`. */
  datatype BookView = BookView(book: Book, isFavorite: bool)

  function BookId(b: Book): nat {
    b.id
  }

  function IdIs(id: nat): Book -> bool {
    (b: Book) => b.id == id
  }

  function IdIsNot(id: nat): Book -> bool {
    (b: Book) => b.id != id
  }

  function FileUrlIs(fileUrl: string): Book -> bool {
    (b: Book) => b.fileUrl == fileUrl
  }

  /** The LEFT JOIN on `user_favorites`: a book is a favourite only for a
      given user who holds the pair. An undefined user id binds NULL, which
      matches no row. */
  function View(b: Book, userId: Option<nat>, favorites: set<(nat, nat)>): (v: BookView)
    ensures v.book == b
    ensures v.isFavorite <==> userId.Some? && (userId.value, b.id) in favorites
  {
    BookView(b, userId.Some? && (userId.value, b.id) in favorites)
  }

  // ---------------------------------------------------------------------------
  // getBooks: parameters
  // ---------------------------------------------------------------------------

  const ALLOWED_SORT_FIELDS: seq<string> := ["created_at", "title"]

  /** The query parameters; `None` is a parameter left undefined, which takes
      the destructuring default. */
  datatype ListParams = ListParams(
    search: Option<string>, page: Option<int>, limit: Option<int>,
    sortBy: Option<string>, sortOrder: Option<string>, userId: Option<nat>)

  /** The sort column: only whitelisted text reaches ORDER BY; anything else,
      and an undefined one, becomes "created_at". */
  function SortColumn(sortBy: Option<string>): (c: string)
    ensures c in ALLOWED_SORT_FIELDS
    ensures sortBy.Some? && sortBy.value in ALLOWED_SORT_FIELDS ==> c == sortBy.value
    ensures sortBy.None? || sortBy.value !in ALLOWED_SORT_FIELDS ==> c == "created_at"
  {
    var s := sortBy.GetOr("created_at");
    if s in ALLOWED_SORT_FIELDS then s else "created_at"
  }

  /** The sort direction: "ASC" exactly when the upper-cased order is "ASC";
      "DESC" for everything else, the default included. */
  function SortDirection(sortOrder: Option<string>): (d: string)
    ensures d == "ASC" || d == "DESC"
    ensures d == "ASC" <==> sortOrder.Some? && ToUpper(sortOrder.value) == "ASC"
  {
    if ToUpper(sortOrder.GetOr("DESC")) == "ASC" then "ASC" else "DESC"
  }

  /** Any capitalisation of "asc" sorts ascending, and nothing else does. */
  lemma SortDirectionAscending(s: string)
    ensures SortDirection(Some(s)) == "ASC" <==>
      |s| == 3 && (s[0] == 'a' || s[0] == 'A') && (s[1] == 's' || s[1] == 'S') && (s[2] == 'c' || s[2] == 'C')
  {
    if |s| == 3 {
      var u := ToUpper(s);
      assert u == [UpperChar(s[0]), UpperChar(s[1]), UpperChar(s[2])];
    }
  }

  /** The parameters as the two SQL statements receive them. */
  datatype BookQuery = BookQuery(keyword: string, limit: int, offset: int, sortBy: string, order: string, userId: Option<nat>)

  /** Defaults (search "", page 0, limit 10, "created_at", "DESC"),
      `offset = page * limit` and the pattern `%search%`. */
  function Normalize(p: ListParams): (q: BookQuery)
    ensures q.limit == p.limit.GetOr(10) && q.offset == p.page.GetOr(0) * q.limit
    ensures q.keyword == "%" + p.search.GetOr("") + "%"
    ensures q.sortBy == SortColumn(p.sortBy) && q.order == SortDirection(p.sortOrder)
    ensures q.userId == p.userId
  {
    var page := p.page.GetOr(0);
    var limit := p.limit.GetOr(10);
    BookQuery("%" + p.search.GetOr("") + "%", limit, page * limit, SortColumn(p.sortBy), SortDirection(p.sortOrder), p.userId)
  }

  // ---------------------------------------------------------------------------
  // getBooks: pagination metadata
  // ---------------------------------------------------------------------------

  /** `Math.ceil(a / b)` for a positive integer divisor. */
  function CeilDiv(a: nat, b: int): (q: nat)
    requires b > 0
    ensures q * b >= a && (q - 1) * b < a
    ensures a == 0 <==> q == 0
  {
    (a + b - 1) / b
  }

  datatype PageInfo = PageInfo(totalElements: nat, pageNum: int, pageSize: int, totalPages: nat, hasNextPage: bool, hasPrevPage: bool)

  /** The metadata block of the getBooks answer. */
  function PageMeta(total: nat, page: int, limit: int): (m: PageInfo)
    requires limit > 0
    ensures m.totalElements == total && m.pageNum == page && m.pageSize == limit
    ensures m.totalPages == CeilDiv(total, limit)
    ensures m.hasNextPage <==> page < m.totalPages - 1
    ensures m.hasPrevPage <==> page > 0
  {
    var totalPages := CeilDiv(total, limit);
    PageInfo(total, page, limit, totalPages, page < totalPages - 1, page > 0)
  }

  /** Fewer pages than one past the index n exactly when fewer rows than n
      full pages hold: the integer form of `n < ceil(total / limit)`. */
  lemma BelowCeil(n: int, total: nat, limit: int)
    requires limit > 0
    ensures n < CeilDiv(total, limit) <==> n * limit < total
  {
    var a := total + limit - 1;
    var q := a / limit;
    assert q * limit <= a < q * limit + limit;
    if n < q {
      MulMonotone(n, q - 1, limit);
      assert (q - 1) * limit == q * limit - limit;
    } else {
      MulMonotone(q, n, limit);
    }
  }

  lemma MulMonotone(x: int, y: int, c: int)
    requires x <= y && c > 0
    ensures x * c <= y * c
  {
    assert y * c - x * c == (y - x) * c;
  }

  /** There is a next page exactly when the rows do not all fit on the pages
      up to and including this one. */
  lemma {:induction false} HasNextPageIffMoreRows(total: nat, page: int, limit: int)
    requires limit > 0
    ensures PageMeta(total, page, limit).hasNextPage <==> (page + 1) * limit < total
  {
    BelowCeil(page + 1, total, limit);
  }

  /** A page index at or past the last page reports no next page. */
  lemma LastPage(total: nat, page: int, limit: int)
    requires limit > 0 && page >= CeilDiv(total, limit) - 1
    ensures !PageMeta(total, page, limit).hasNextPage
  {
  }

  // ---------------------------------------------------------------------------
  // getBooks: selection
  // ---------------------------------------------------------------------------

  /** The `WHERE title ILIKE $1 OR author ILIKE $1` filter, for an abstract
      matcher. */
  function Matching(matches: (string, Book) -> bool, keyword: string): Book -> bool {
    (b: Book) => matches(keyword, b)
  }

  /** `LIMIT limit OFFSET offset` over rows already in order. */
  function Window<T>(s: seq<T>, offset: nat, limit: nat): (r: seq<T>)
    ensures |r| <= limit
    ensures offset >= |s| ==> r == []
    ensures offset < |s| ==> r == s[offset..if offset + limit < |s| then offset + limit else |s|]
  {
    if offset >= |s| then []
    else if offset + limit < |s| then s[offset..offset + limit] else s[offset..]
  }

  function Views(books: seq<Book>, userId: Option<nat>, favorites: set<(nat, nat)>): (r: seq<BookView>)
    ensures |r| == |books|
    ensures forall i :: 0 <= i < |books| ==> r[i] == View(books[i], userId, favorites)
  {
    seq(|books|, i requires 0 <= i < |books| => View(books[i], userId, favorites))
  }

  /** For a page index of at least zero, a next page is reported exactly when
      the window of the next page is non-empty, and every page that reports a
      next page is full. */
  lemma {:induction false} NextPageWindows<T>(rows: seq<T>, page: nat, limit: nat)
    requires limit > 0
    ensures PageMeta(|rows|, page, limit).hasNextPage <==> Window(rows, (page + 1) * limit, limit) != []
    ensures PageMeta(|rows|, page, limit).hasNextPage ==> |Window(rows, page * limit, limit)| == limit
  {
    HasNextPageIffMoreRows(|rows|, page, limit);
    assert (page + 1) * limit == page * limit + limit;
  }

  /** The getBooks answer: one page of matching books with their favourite
      flag, and the metadata. */
  datatype BookPage = BookPage(books: seq<BookView>, info: PageInfo)

  lemma NegativeOffset(page: int, limit: int)
    requires limit > 0
    ensures page * limit < 0 <==> page < 0
  {
    if page >= 0 {
      assert page * limit >= 0;
    }
  }

  /** The answer for the rows that match, in order: at most `limit` of them
      from `offset` on, each an actual hit, with the metadata counting every
      hit. */
  function Listing(hits: seq<Book>, q: BookQuery, page: int, favorites: set<(nat, nat)>): (bp: BookPage)
    requires q.limit > 0 && q.offset >= 0
    ensures bp.info == PageMeta(|hits|, page, q.limit)
    ensures |bp.books| <= q.limit
    ensures q.offset >= |hits| ==> bp.books == []
    ensures q.offset < |hits| ==> |bp.books| == (if q.offset + q.limit < |hits| then q.limit else |hits| - q.offset)
    ensures forall i :: 0 <= i < |bp.books| ==>
      q.offset + i < |hits| && bp.books[i] == View(hits[q.offset + i], q.userId, favorites)
  {
    BookPage(Views(Window(hits, q.offset, q.limit), q.userId, favorites), PageMeta(|hits|, page, q.limit))
  }

  class BookTable {
    var rows: seq<Book>
    /** The next value of the `id` sequence. */
    var nextId: nat

    ghost predicate Valid()
      reads this
    {
      && DistinctBy(rows, BookId)
      && forall i :: 0 <= i < |rows| ==> rows[i].id < nextId
    }

    constructor ()
      ensures Valid() && rows == [] && nextId == 1
    {
      rows := [];
      nextId := 1;
    }

    /** createBook: one new row with a fresh id; `tags` defaults to [] and
        `isPremium` to false. */
    method CreateBook(nb: NewBook) returns (book: Book)
      requires Valid()
      modifies this
      ensures Valid()
      ensures book == Book(old(nextId), nb.title, nb.author, nb.description, nb.fileUrl, nb.coverUrl,
                           nb.tags.GetOr([]), nb.isPremium.GetOr(false))
      ensures rows == old(rows) + [book]
    {
      book := Book(nextId, nb.title, nb.author, nb.description, nb.fileUrl, nb.coverUrl,
                   nb.tags.GetOr([]), nb.isPremium.GetOr(false));
      rows := rows + [book];
      nextId := nextId + 1;
    }

    /** getBooks. A negative page gives a negative OFFSET, which the database
        refuses; otherwise the answer is the page of the matching rows. */
    function GetBooks(p: ListParams, matches: (string, Book) -> bool, favorites: set<(nat, nat)>): (r: Outcome<BookPage>)
      requires p.limit.GetOr(10) > 0
      reads this
      ensures r.Thrown? <==> p.page.GetOr(0) < 0
      ensures r.Ok? ==>
        r.value == Listing(Filter(rows, Matching(matches, Normalize(p).keyword)), Normalize(p), p.page.GetOr(0), favorites)
    {
      var q := Normalize(p);
      NegativeOffset(p.page.GetOr(0), q.limit);
      if q.offset < 0 then Thrown("OFFSET must not be negative")
      else Ok(Listing(Filter(rows, Matching(matches, q.keyword)), q, p.page.GetOr(0), favorites))
    }

    /** getBookById: the row with that id and its favourite flag, or null. An
        undefined book id binds NULL, which equals no id. */
    function GetBookById(bookId: Option<nat>, userId: Option<nat>, favorites: set<(nat, nat)>): (r: Option<BookView>)
      reads this
      ensures r.Some? <==> bookId.Some? && exists i :: 0 <= i < |rows| && rows[i].id == bookId.value
      ensures r.Some? ==> r.value.book in rows && r.value.book.id == bookId.value
      ensures r.Some? ==> r.value == View(r.value.book, userId, favorites)
    {
      if bookId.None? then None
      else
        match FindFirst(rows, IdIs(bookId.value))
        case None => None
        case Some(b) => Some(View(b, userId, favorites))
    }

    /** deleteBookById: removes the row with that id and returns the row
        count, which ids being unique makes 0 or 1. */
    method DeleteBookById(id: nat) returns (count: nat)
      requires Valid()
      modifies this
      ensures Valid() && nextId == old(nextId)
      ensures rows == Filter(old(rows), IdIsNot(id))
      ensures count == |old(rows)| - |rows|
      ensures count <= 1
      ensures count == 0 <==> forall i :: 0 <= i < |old(rows)| ==> old(rows)[i].id != id
      ensures forall i :: 0 <= i < |rows| ==> rows[i].id != id
    {
      var before := rows;
      FilterAllOrNone(before, IdIsNot(id));
      rows := Filter(rows, IdIsNot(id));
      FilterComplement(before, IdIsNot(id), IdIs(id));
      FilterAtMostOne(before, IdIs(id));
      FilterDistinct(before, IdIsNot(id), BookId);
      count := |before| - |rows|;
    }

    /** findBookByFileUrl: a row with that file URL, or nothing. */
    function FindBookByFileUrl(fileUrl: string): (r: Option<Book>)
      reads this
      ensures r.None? <==> forall i :: 0 <= i < |rows| ==> rows[i].fileUrl != fileUrl
      ensures r.Some? ==> r.value in rows && r.value.fileUrl == fileUrl
    {
      FindFirst(rows, FileUrlIs(fileUrl))
    }

    /** getBookByIdService as written: it passes `{ id, userId }`, but
        getBookById reads `bookId`, so the id never reaches the query. */
    function GetBookByIdService(id: nat, userId: Option<nat>, favorites: set<(nat, nat)>): (r: Option<BookView>)
      reads this
      ensures r.None?
    {
      GetBookById(None, userId, favorites)
    }

    /** getBookByIdService as intended: the id is passed as `bookId`. */
    function GetBookByIdServiceFixed(id: nat, userId: Option<nat>, favorites: set<(nat, nat)>): (r: Option<BookView>)
      reads this
      ensures r.Some? <==> exists i :: 0 <= i < |rows| && rows[i].id == id
      ensures r.Some? ==> r.value.book.id == id
    {
      GetBookById(Some(id), userId, favorites)
    }
  }

  /** The service as written finds no book, whatever the id and the table. */
  lemma GetBookByIdServiceFindsNothing(t: BookTable, id: nat, userId: Option<nat>, favorites: set<(nat, nat)>)
    ensures t.GetBookByIdService(id, userId, favorites) == None
  {
  }

  /** The corrected service finds every stored book. */
  lemma GetBookByIdServiceFixedFinds(t: BookTable, i: nat, userId: Option<nat>, favorites: set<(nat, nat)>)
    requires i < |t.rows|
    ensures t.GetBookByIdServiceFixed(t.rows[i].id, userId, favorites).Some?
  {
  }
}
