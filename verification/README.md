# ebook-backend session core in Dafny

This project models the session and token lifecycle of the ebook-backend
REST service, together with the small pieces of logic around it.

- **Token utilities.** `generateAccessToken`, `verifyAccessToken`,
  `generateRefreshToken` and `verifyRefreshToken` are modelled over a
  reversible token encoding that carries the claims and the signing secret.
- **Tables.** The users table, the refresh-token ledger, the access-token
  blacklist, the books table and the favourites table are classes whose
  methods change rows in place.
- **Session manager.** One class holds the users, the ledger and the
  blacklist. On that state it models register, login, refresh, logout,
  logout-all and role update, with the error messages the service throws.
- **Request gates.** `authenticateToken`, `authenticateTokenOptional` and
  `authorizeRole` are modelled as pure decisions, plus methods that write
  `req.user` and `req.token` and call `next`.
- **User controller.** The status and cookie decision of each handler is
  modelled, including its test of `result.success`.
- **Book listing.** For `getBooks`, the model covers parameter
  normalisation and the pagination arithmetic.
- **Favourites.** The store and its service wrappers are modelled.
- **Seeders.** The Gutenberg and Open Library mappers are modelled, and so
  are their seeding loops, with the fetched pages as input.

One module stands for each source file. `TokenUtil` models
src/utils/tokenUtil.js, `UserService` models src/services/userService.js,
and so on. Three helper modules carry the rest: `Wrappers` holds Option and
Outcome, `Text` models JavaScript's split, join, number printing and ASCII
case and trim, and `Seqs` models filtering and first-match lookup as the
in-memory form of `WHERE` and `LIMIT 1`.

Modelling choices:

- **Tokens.** A token is the string `Encode(Jwt(claims, key))`.
  Verification decodes the string. It reports the token invalid unless it
  decodes and carries the verifying key. It reports it expired once
  `now >= exp`, which is jsonwebtoken's rule. No cryptography is modelled.
- **bcrypt.** The hash is a digest function fixed when the session manager
  is built. `compare(p, h)` is `digest(p) == h`, so a password always
  matches its own hash.
- **The clock.** It is a `now: nat` parameter, in seconds.

Each operation is atomic. A thrown error is the `Thrown(message)` case of
`Outcome`.

## Model

| member | source | states |
|---|---|---|
| `TokenUtil.Escape` | src/utils/tokenUtil.js:20-24 | an escaped claim field contains neither the field separator nor a space |
| `TokenUtil.UnescapeEscape` | src/utils/tokenUtil.js:20-24 | unescaping undoes escaping, for every string |
| `TokenUtil.DecodeEncode` | src/utils/tokenUtil.js:20-24 | decoding a signed token gives back exactly its claims and key, and a token never contains a space |
| `TokenUtil.Sign` | src/utils/tokenUtil.js:20-24 | the signed token decodes to the payload's id, email and role, with `iat = now`, `exp = now + ttl` and the signing secret |
| `TokenUtil.Verify` | src/utils/tokenUtil.js:38 | verification succeeds exactly for a decodable token with the right key before `exp`, and returns its claims; it fails as expired exactly for a right-key token at or after `exp` |
| `TokenUtil.GenerateAccessToken` | src/utils/tokenUtil.js:19-25 | the token carries exactly the user's id, email and role, signed with the access secret for the access lifetime |
| `TokenUtil.GenerateRefreshToken` | src/utils/tokenUtil.js:57-63 | the same claims, signed with the refresh secret for the refresh lifetime |
| `TokenUtil.VerifyAccessToken` | src/utils/tokenUtil.js:36-45 | the result is "Access token expired" exactly for a right-key token past expiry; every other failure is "Invalid access token"; a success returns the decoded claims |
| `TokenUtil.VerifyRefreshToken` | src/utils/tokenUtil.js:74-83 | the same classification, with the refresh secret and the refresh messages |
| `TokenUtil.AccessTokenRoundTrip` | src/utils/tokenUtil.js:19-45 | a generated access token verifies to the user's id, email and role until its expiry, and is reported as expired from then on |
| `TokenUtil.RefreshTokenRoundTrip` | src/utils/tokenUtil.js:57-83 | the same round trip for refresh tokens |
| `TokenUtil.KindsAreNotInterchangeable` | src/utils/tokenUtil.js:22-60 | with distinct secrets, a refresh token fails access verification as invalid (never expired), and the reverse also holds |
| `Text.NatToString` | src/config/seedGutenberg.js:40 | `${n}` is a non-empty string of decimal digits |
| `Text.ParseNatToString` | src/config/seedGutenberg.js:40 | the printed number reads back as the same number |
| `Text.Join` | src/config/seedGutenberg.js:38 | `join` of no parts is "", of one part is that part, and otherwise starts with the first part |
| `Text.JoinIsEmpty` | src/config/seedGutenberg.js:39 | with a non-empty separator, the joined string is empty exactly when there are no parts or one empty part |
| `Text.JoinExcludes` | src/config/seedGutenberg.js:39 | a character in neither the separator nor any part is not in the joined string |
| `Text.Split` | src/middlewares/authMiddleware.js:13 | `split` gives at least one field, no field holds the separator, and it gives one field exactly when the separator is absent |
| `Text.SplitAtFirst` | src/middlewares/authMiddleware.js:13 | splitting stops at the first separator |
| `Text.SplitJoin` | src/middlewares/authMiddleware.js:13 | split inverts join when no part holds the separator |
| `Text.ToUpper` | src/models/bookModel.js:57 | `toUpperCase` keeps the length and leaves no lower-case letter |
| `Text.ToLower` | src/config/seedGutenberg.js:33 | `toLowerCase` keeps the length and leaves no upper-case letter |
| `Text.Trim` | src/config/seedGutenberg.js:33 | `trim` is the slice between leading and trailing white space; it is empty exactly for an all-space string, and otherwise starts and ends with a non-space |
| `Seqs.Filter` | src/models/refreshTokenModel.js:30 | the rows a `WHERE` keeps are rows of the table that satisfy the condition, and every such row is kept |
| `Seqs.FilterAllOrNone` | src/models/refreshTokenModel.js:28-34 | a delete removes nothing exactly when no row matches, and then the table is unchanged |
| `Seqs.FindFirst` | src/models/refreshTokenModel.js:44-50 | `LIMIT 1` finds nothing exactly when no row matches; otherwise it finds the first matching row |
| `Seqs.FilterComplement` | src/models/refreshTokenModel.js:33 | the rows a delete keeps and the rows it removes add up to the table, which makes `rowCount` the number removed |
| `Seqs.FilterDistinct` | src/models/bookModel.js:122-125 | deleting rows keeps a unique key unique |
| `Seqs.FilterAtMostOne` | src/models/userFavoriteModel.js:60-68 | when no two rows match the condition, a delete by it removes at most one row |
| `Seqs.FilterAppend` | src/config/seedOpenLibrary.js:20-22 | the year filter over several pages is the concatenation of the per-page filters |
| `RefreshTokenModel.RefreshTokenTable.SaveRefreshToken` | src/models/refreshTokenModel.js:12-18 | appends exactly the row `(userId, token)`, returns it, and keeps every earlier row |
| `RefreshTokenModel.RefreshTokenTable.DeleteRefreshToken` | src/models/refreshTokenModel.js:28-34 | removes exactly the rows with that token and returns how many; returns 0, with the ledger unchanged, exactly when the token was absent; afterwards the token is not found |
| `RefreshTokenModel.RefreshTokenTable.FindRefreshToken` | src/models/refreshTokenModel.js:44-50 | returns a row holding the token exactly when the ledger has one, and reads nothing else |
| `RefreshTokenModel.RefreshTokenTable.DeleteAllRefreshTokensByUser` | src/models/refreshTokenModel.js:60-66 | removes exactly that user's rows, keeps every other row, returns the count removed; afterwards no token found belongs to that user |
| `BlacklistModel.BlacklistTable.AddTokenToBlacklist` | src/models/blacklistModel.js:11-17 | the token is added, afterwards it is found, and no row is returned because the INSERT has no RETURNING clause |
| `BlacklistModel.BlacklistTable.AddTokenToBlacklistReturning` | src/models/blacklistModel.js:11-17 | the corrected insert: the token is added and its row is returned |
| `BlacklistModel.BlacklistTable.FindBlacklistedToken` | src/models/blacklistModel.js:27-33 | returns a row exactly when the token is blacklisted; a function, so it changes nothing |
| `UserModel.WithRole` | src/models/userModel.js:74-79 | the UPDATE changes the role of the rows with that id and nothing else |
| `UserModel.FindAfterWithRole` | src/models/userModel.js:73-83 | after the UPDATE, a lookup by id finds the same row as before, now carrying the new role |
| `UserModel.UserTable.CreateUser` | src/models/userModel.js:12-19 | adds exactly one row with a fresh id, the role defaulting to "user" and is_premium false; the value returned is that row without the password |
| `UserModel.UserTable.GetUserByEmail` | src/models/userModel.js:29-34 | returns a row with that email, password hash included, exactly when one exists |
| `UserModel.UserTable.FindUserById` | src/models/userModel.js:44-49 | returns a user with that id, with no password field, exactly when one exists |
| `UserModel.UserTable.GetAllUsers` | src/models/userModel.js:58-62 | returns every row, in table order, as its password-free projection (id, name, email, role, is_premium) |
| `UserModel.UserTable.UpdateUserRole` | src/models/userModel.js:73-83 | changes only the role of the row with that id and returns the updated row; returns nothing, with no change, when the id is absent |
| `UserService.FilterKeepsOwners` | src/services/userService.js:128-153 | deleting ledger rows never leaves a refresh token whose owner is missing |
| `UserService.WithRoleKeepsOwners` | src/services/userService.js:161-168 | a role change keeps emails unique and every ledger row owned |
| `UserService.NewUserKeepsOwners` | src/services/userService.js:31-43 | registering a new email keeps emails unique and every ledger row owned |
| `UserService.SessionManager.Register` | src/services/userService.js:31-44 | a taken email throws "Email already in use" with users and ledger unchanged; otherwise exactly one user and one ledger row owned by it are added, and the password-free user and both tokens are returned |
| `UserService.SessionManager.Login` | src/services/userService.js:54-67 | an unknown email and a wrong password throw the same "Invalid email or password" and write nothing; a success leaves the users table alone and appends one ledger row for that user |
| `UserService.SessionManager.GetUserById` | src/services/userService.js:74-78 | throws "User not found" exactly when no user has the id; otherwise returns the stored row with that id, without its password |
| `UserService.SessionManager.GetUserByEmail` | src/services/userService.js:85-89 | throws "User not found" exactly when no row has the email; otherwise returns the full row |
| `UserService.SessionManager.ListUsers` | src/services/userService.js:95-97 | every user row in table order, without its password |
| `UserService.SessionManager.RefreshAccessToken` | src/services/userService.js:106-120 | an unknown token throws "Refresh token not found"; a failed verification or a missing user throws "Invalid or expired refresh token", so a token the ledger holds never gets "Refresh token not found"; a success returns an access token for the user's current row, and nothing is written |
| `UserService.SessionManager.Logout` | src/services/userService.js:128-138 | an unknown token throws "Refresh token not found" and touches nothing; otherwise the token's rows are deleted, the access token is blacklisted, and the call still throws "Failed to blacklist access token" |
| `UserService.SessionManager.LogoutFixed` | src/services/userService.js:128-138 | the same writes; with an insert that returns its row, the logout succeeds |
| `UserService.SessionManager.LogoutAll` | src/services/userService.js:146-153 | removes exactly that user's ledger rows, blacklists the access token, and reports the count removed in "Logged out from N devices" |
| `UserService.SessionManager.UpdateUserRole` | src/services/userService.js:161-168 | no role validation; "User not found" with no change when the id is absent; otherwise only that role changes, and the updated user is returned and found afterwards |
| `AuthMiddleware.BearerToken` | src/middlewares/authMiddleware.js:12-13 | there is a token exactly when the header has a non-empty second space-separated field; a missing header or one with no space gives none, and a token never holds a space |
| `AuthMiddleware.BearerRoundTrip` | src/middlewares/authMiddleware.js:13 | "scheme token" yields exactly the token |
| `AuthMiddleware.BearerHeader` | src/middlewares/authMiddleware.js:13 | "Bearer token" yields exactly the token |
| `AuthMiddleware.Authenticate` | src/middlewares/authMiddleware.js:11-36 | no token gives 401 "Token required"; a revoked token gives 403 "Token has been revoked" before any verification; a failed verification gives 403 with the verifier's message; admission happens exactly for an unrevoked token that verifies, with its claims |
| `AuthMiddleware.AuthenticateOptional` | src/middlewares/authMiddleware.js:47-79 | the optional gate yields an identity exactly when the required gate would admit, and a guest on every failure |
| `AuthMiddleware.FreshAccessTokenAdmitted` | src/middlewares/authMiddleware.js:11-36 | a fresh, unrevoked access token sent as "Bearer token" is admitted with exactly the user's id, email and role |
| `AuthMiddleware.RevokedTokenRejected` | src/middlewares/authMiddleware.js:20-25 | a revoked token is rejected by the required gate and treated as a guest by the optional gate, at any time |
| `AuthMiddleware.AuthenticateToken` | src/middlewares/authMiddleware.js:11-36 | on admission `req.user` and `req.token` are set and `next` runs exactly once; on rejection the request is untouched, `next` does not run, and the status and message are returned |
| `AuthMiddleware.AuthenticateTokenOptional` | src/middlewares/authMiddleware.js:47-79 | `next` always runs exactly once and no status is produced; every failure leaves `req.user` and `req.token` null |
| `AuthorizeRole.AuthorizeRole` | src/middlewares/authorizeRole.js:9-22 | passes exactly when a user is present and their role equals the required role; otherwise 403 "Forbidden: insufficient permissions" |
| `AuthorizeRole.NoRoleHierarchy` | src/middlewares/authorizeRole.js:12 | admin does not pass the moderator gate, nor moderator the admin gate |
| `AuthorizeRole.GuestDenied` | src/middlewares/authorizeRole.js:12-17 | a request with no user passes no gate |
| `UserController.SuccessField` | src/controllers/userController.js:24 | only logout results and error bodies have a `success` field |
| `UserController.RegisterReply` | src/controllers/userController.js:19-40 | a successful registration answers 400 and never sets the cookie; a thrown error answers 500 with its message |
| `UserController.LoginReply` | src/controllers/userController.js:48-69 | a successful login answers 400 and never sets the cookie; 200 is unreachable |
| `UserController.GetUserReply` | src/controllers/userController.js:75-87 | a found user answers 404; a thrown error answers 500 |
| `UserController.GetUserByEmailReply` | src/controllers/userController.js:106-118 | a found row answers 404 with the full row, password hash included; a thrown error answers 500 |
| `UserController.GetUsersReply` | src/controllers/userController.js:93-100 | always 200 with the list |
| `UserController.RefreshReply` | src/controllers/userController.js:134-141 | a new access token answers 401; a thrown error answers 500 |
| `UserController.LogoutReply` | src/controllers/userController.js:161-167 | the cookie is cleared exactly for a result whose `success` is true, and then the status is 200 |
| `UserController.LogoutAllReply` | src/controllers/userController.js:183-188 | unless the service throws, the cookie is cleared and the status is 200 |
| `UserController.RoleAllowed` | src/controllers/userController.js:201 | a role passes the whitelist exactly when it is "user", "admin" or "moderator"; an absent role never does |
| `UserController.UpdateRoleReply` | src/controllers/userController.js:205-213 | an updated user answers 400; a thrown error answers 500 |
| `UserController.IntendedReply` | src/controllers/userController.js:36 | the corrected test: a normal return is a success with the handler's own status and cookie |
| `UserController.RegisterReplyIntended` | src/controllers/userController.js:28-36 | the corrected register: 201 with the refresh-token cookie set |
| `UserController.LoginReplyIntended` | src/controllers/userController.js:57-65 | the corrected login: 200 with the refresh-token cookie set |
| `UserController.SuccessfulCallsReportedAsFailures` | src/controllers/userController.js:24-207 | on every successful call, the written handlers answer 400, 404 or 401 where the corrected ones answer 201 or 200 |
| `UserController.Controllers.Register` | src/controllers/userController.js:19-40 | a taken email answers 500 and writes nothing; a new email appends exactly the new user row, with the hashed password and role "user", and one ledger row holding the refresh token it issued, yet answers 400 without a cookie |
| `UserController.Controllers.Login` | src/controllers/userController.js:48-69 | the answer is 500 "Invalid email or password" exactly for bad credentials, and then the ledger is unchanged; otherwise exactly one ledger row holding the issued refresh token is appended and the answer is 400; no cookie is ever set |
| `UserController.Controllers.GetUser` | src/controllers/userController.js:75-87 | 404 exactly when the user exists, with that user as the body; otherwise 500 "User not found" |
| `UserController.Controllers.GetUsers` | src/controllers/userController.js:93-100 | 200 with every user row in table order, each without its password |
| `UserController.Controllers.GetUserByEmail` | src/controllers/userController.js:106-118 | 404 with the full row exactly when the email exists, otherwise 500 "User not found" |
| `UserController.Controllers.Refresh` | src/controllers/userController.js:125-142 | a missing or empty cookie answers 400 "Refresh token is missing" without consulting the service; no outcome answers 200 |
| `UserController.Controllers.Logout` | src/controllers/userController.js:149-171 | a missing token answers 400 and touches nothing; a refresh token not in the ledger answers 500 "Refresh token not found" and touches nothing; otherwise exactly that token's ledger rows are deleted and the access token is blacklisted, yet the answer is 500 "Failed to blacklist access token" and the cookie stays |
| `UserController.Controllers.LogoutAll` | src/controllers/userController.js:178-189 | 200 with the cookie cleared; exactly that user's ledger rows are deleted, every other row stays, and exactly the access token is added to the blacklist |
| `UserController.Controllers.UpdateRole` | src/controllers/userController.js:196-214 | a role outside {user, admin, moderator} answers 400 "Invalid role" and changes nothing; an unknown id answers 500; otherwise the role is stored and the answer is 400 |
| `BookModel.View` | src/models/bookModel.js:61-65 | a book is a favourite exactly when a user id is given and that user holds the pair |
| `BookModel.SortColumn` | src/models/bookModel.js:51-54 | only "created_at" or "title" reaches ORDER BY; a whitelisted value is kept, anything else becomes "created_at" |
| `BookModel.SortDirection` | src/models/bookModel.js:57 | "ASC" exactly when the upper-cased order is "ASC", otherwise "DESC" |
| `BookModel.SortDirectionAscending` | src/models/bookModel.js:57 | exactly the capitalisations of "asc" sort ascending |
| `BookModel.Normalize` | src/models/bookModel.js:39-57 | defaults applied, `offset = page * limit`, the keyword is `%search%`, and the sort column and direction are normalised |
| `BookModel.CeilDiv` | src/models/bookModel.js:80 | the smallest number of pages of size `limit` that holds `total` rows; 0 exactly when there are no rows |
| `BookModel.PageMeta` | src/models/bookModel.js:79-90 | `totalPages` is the ceiling of total over limit, `pageNum` and `pageSize` echo the inputs, `hasNextPage` is `page < totalPages - 1` and `hasPrevPage` is `page > 0` |
| `BookModel.BelowCeil` | src/models/bookModel.js:80-88 | an index is below the page count exactly when that many full pages hold fewer rows than the total |
| `BookModel.HasNextPageIffMoreRows` | src/models/bookModel.js:80-88 | there is a next page exactly when the rows do not all fit on the pages up to and including this one |
| `BookModel.LastPage` | src/models/bookModel.js:88 | the last page, or any page past it, has no next page |
| `BookModel.NextPageWindows` | src/models/bookModel.js:68-88 | for a page of at least zero, a next page is reported exactly when the next page's LIMIT/OFFSET window is non-empty, and a page that reports one is full |
| `BookModel.NegativeOffset` | src/models/bookModel.js:47 | the offset is negative exactly when the page is, which is when PostgreSQL rejects the query |
| `BookModel.Window` | src/models/bookModel.js:68 | `LIMIT/OFFSET` returns at most `limit` rows, the slice from `offset` on, and nothing past the end |
| `BookModel.Listing` | src/models/bookModel.js:60-90 | exactly min(`limit`, matches − `offset`) books, none past the end, each the matching row at `offset + i` with its favourite flag; the metadata counts every match |
| `BookModel.BookTable.CreateBook` | src/models/bookModel.js:11-27 | one new row with a fresh id, `tags` defaulting to [] and `isPremium` to false |
| `BookModel.BookTable.GetBooks` | src/models/bookModel.js:39-91 | a negative page throws; otherwise the answer is the listing of the matching rows for the normalised query |
| `BookModel.BookTable.GetBookById` | src/models/bookModel.js:101-113 | the row with that id and its favourite flag, or null when there is none or the id is undefined |
| `BookModel.BookTable.DeleteBookById` | src/models/bookModel.js:122-125 | removes the row with that id and returns the count, which is 0 or 1; 0 exactly when no row had the id |
| `BookModel.BookTable.FindBookByFileUrl` | src/models/bookModel.js:135-141 | a row with that file URL exactly when one exists |
| `BookModel.BookTable.GetBookByIdService` | src/services/bookService.js:41-43 | as written, the service passes `{id}`, so the lookup gets an undefined `bookId` and the answer is always null |
| `BookModel.BookTable.GetBookByIdServiceFixed` | src/models/bookModel.js:101-113 | the corrected service finds a book exactly when one has the id |
| `BookModel.GetBookByIdServiceFindsNothing` | src/models/bookModel.js:101-113 | the written service returns null for every id and every table |
| `BookModel.GetBookByIdServiceFixedFinds` | src/models/bookModel.js:101-113 | the corrected service finds every stored book |
| `UserFavoriteModel.FavoriteTable.IsBookFavorited` | src/models/userFavoriteModel.js:12-22 | true exactly when a row for the pair exists |
| `UserFavoriteModel.FavoriteTable.Pairs` | src/models/userFavoriteModel.js:12-22 | the set of stored pairs, each of which is favourited |
| `UserFavoriteModel.FavoriteTable.AddFavorite` | src/models/userFavoriteModel.js:34-49 | an existing pair returns null and changes nothing; otherwise exactly one row is inserted and returned; either way the pair is then stored exactly once |
| `UserFavoriteModel.FavoriteTable.RemoveFavorite` | src/models/userFavoriteModel.js:60-68 | deletes the pair's rows and returns the count, 0 or 1; 0 exactly when the pair was absent; every other pair stays |
| `UserFavoriteModel.Joined` | src/models/userFavoriteModel.js:80-84 | one joined row per favourite of that user whose book exists, carrying that book and the favourite's timestamp |
| `UserFavoriteModel.Insert` | src/models/userFavoriteModel.js:85 | inserting into a newest-first list keeps it newest-first and adds exactly that element |
| `UserFavoriteModel.SortNewestFirst` | src/models/userFavoriteModel.js:85 | the result is newest-first and a permutation of the input |
| `UserFavoriteModel.FavoriteTable.GetFavoritesByUser` | src/models/userFavoriteModel.js:79-90 | newest first, a permutation of the joined rows, one per favourite of that user whose book exists |
| `UserFavoriteModel.FavoritesAreTheUsers` | src/models/userFavoriteModel.js:79-90 | every entry returned is a stored favourite of that user, on an existing book, with that favourite's timestamp |
| `UserFavoriteModel.AddTwice` | src/models/userFavoriteModel.js:34-49 | adding a pair twice leaves it stored once, and the second call returns null |
| `UserFavoriteService.AddResult` | src/services/userFavoriteService.js:17-23 | a failure "Book already in favorites" exactly when the model returned null; otherwise the row |
| `UserFavoriteService.RemoveResult` | src/services/userFavoriteService.js:34-40 | a failure "Book not found in favorites" exactly when the count is 0; otherwise `deletedCount` |
| `UserFavoriteService.AddBookToFavorites` | src/services/userFavoriteService.js:17-23 | fails exactly when the pair was already stored, changing nothing; otherwise the new row is stored and returned |
| `UserFavoriteService.RemoveBookFromFavorites` | src/services/userFavoriteService.js:34-40 | fails exactly when the pair was not stored, changing nothing; otherwise reports 1 deleted; either way exactly the pair's rows are removed and every other row stays |
| `UserFavoriteService.GetUserFavorites` | src/services/userFavoriteService.js:49-52 | always a success, carrying the model's newest-first list |
| `UserFavoriteService.CheckBookFavorited` | src/services/userFavoriteService.js:62-65 | always a success, whose `isFavorited` is whether the pair is stored |
| `SeedCommon.ToNewBook` | src/config/seedGutenberg.js:91 | createBook receives the record's URL, tags and premium flag |
| `SeedCommon.Take` | src/config/seedGutenberg.js:33 | `slice(0, n)` is the prefix of length min(n, length) |
| `SeedCommon.Dedupe` | src/config/seedGutenberg.js:33 | `[...new Set(s)]` holds each value of s exactly once and nothing else |
| `SeedCommon.DedupeKeepsFirstOccurrenceOrder` | src/config/seedGutenberg.js:33 | the de-duplicated values come in the order of their first occurrences |
| `SeedCommon.UrlsOfMember` | src/models/bookModel.js:135-141 | a URL is in the catalogue's URL set exactly when some row has it |
| `SeedCommon.UrlsUniqueIsDistinct` | src/config/seedGutenberg.js:84-91 | as many URLs as rows is the same as no two rows sharing a URL |
| `SeedCommon.InsertIfAbsent` | src/config/seedGutenberg.js:84-93 | skips exactly when the file URL is stored; otherwise it stores one row built from the record; either way the URL is then stored |
| `SeedCommon.NewUrlCountIsCard` | src/config/seedGutenberg.js:75-94 | counting new URLs one by one gives the number of the items' URLs the catalogue lacked |
| `SeedCommon.NewUrlsAppend` | src/config/seedGutenberg.js:65-96 | the URLs two runs add one after the other are the first run's plus what the second adds to them |
| `SeedCommon.SeedingKeepsUrlsUnique` | src/config/seedGutenberg.js:84-93 | a run that adds one row per new URL keeps a catalogue with unique URLs unique |
| `SeedGutenberg.Format` | src/config/seedGutenberg.js:26-28 | a format URL is present exactly when the MIME type is a key with a non-empty URL, and is that URL |
| `SeedGutenberg.CleanTag` | src/config/seedGutenberg.js:33 | `t.trim().toLowerCase()` holds no upper-case letter |
| `SeedGutenberg.CleanTags` | src/config/seedGutenberg.js:33 | each subject is cleaned, in place |
| `SeedGutenberg.Tags` | src/config/seedGutenberg.js:32-34 | at most eight distinct, lower-case tags, each a cleaned subject; none when `subjects` is not an array |
| `SeedGutenberg.TagsAreFirstOccurrences` | src/config/seedGutenberg.js:32-34 | the tags come in first-occurrence order; when fewer than eight are kept every cleaned subject is among them; a subject left out first occurs after all eight kept tags, so they are the first eight distinct values |
| `SeedGutenberg.TagsKeepFirstEight` | src/config/seedGutenberg.js:33 | `.slice(0, 8)` after the Set: a left-out subject means eight tags are kept, each first occurring before it |
| `SeedGutenberg.Description` | src/config/seedGutenberg.js:39 | never empty: the tags joined by ", " unless there are none or one empty tag, then the fallback text |
| `SeedGutenberg.DescriptionFallback` | src/config/seedGutenberg.js:39 | the description is the fallback text exactly when there are no tags or one empty tag |
| `SeedGutenberg.MapToBookModel` | src/config/seedGutenberg.js:25-47 | null exactly when the book has neither an EPUB nor an HTML URL; the download URL prefers EPUB; the other fields follow the mapper |
| `SeedGutenberg.FileUrlIdentifiesBook` | src/config/seedGutenberg.js:40 | two mapped books share a file URL exactly when they share a Gutenberg id |
| `SeedGutenberg.SeededUrlIsFileUrl` | src/config/seedGutenberg.js:76-84 | the URL a book is stored under exists exactly when the mapper accepts it, and is its file URL |
| `SeedGutenberg.SeedBook` | src/config/seedGutenberg.js:75-94 | each book is counted as format-skipped exactly when it has no readable format, as skipped exactly when its URL is stored, and otherwise added as one new row |
| `SeedGutenberg.UnmappableCountAppend` | src/config/seedGutenberg.js:80 | the format-skipped count over two runs of books is the sum of their counts |
| `SeedGutenberg.UnmappableCountBounds` | src/config/seedGutenberg.js:80 | the format-skipped count is at most the number of books, and reaches it exactly when no book has a readable format |
| `SeedGutenberg.SeedPage` | src/config/seedGutenberg.js:75-94 | every book of the page is counted once; the format-skipped count is the number of unreadable books; the earlier rows are kept unchanged; the catalogue gains exactly the readable books' URLs; the added count is the number of those that were new, one row each |
| `SeedGutenberg.SeedBooksFromGutenberg` | src/config/seedGutenberg.js:52-105 | the same over all topics and pages: earlier rows kept, one new row per new URL, and unique URLs stay unique |
| `SeedOpenLibrary.KeepsYear` | src/config/seedOpenLibrary.js:21 | a kept document has a year of at least the minimum; year 0 is never kept; for a positive minimum that is the whole test |
| `SeedOpenLibrary.FetchFilter` | src/config/seedOpenLibrary.js:20-22 | the kept documents are fetched documents with a truthy year of at least the minimum, and every such document is kept |
| `SeedOpenLibrary.YearFilterDefault` | src/config/seedOpenLibrary.js:11-22 | with the default minimum, a document is kept exactly when its year is at least 2024 |
| `SeedOpenLibrary.CoverUrl` | src/config/seedOpenLibrary.js:42-44 | null exactly when `cover_i` is absent or 0 |
| `SeedOpenLibrary.CoverUrlNamesCover` | src/config/seedOpenLibrary.js:42-44 | the cover URL is the covers prefix, the cover id and "-M.jpg", and the id reads back |
| `SeedOpenLibrary.MapToBookModel` | src/config/seedOpenLibrary.js:32-50 | file and download URL are the site address plus the key; the author is the names joined or "Unknown"; tags are the first five subjects or []; the record is free |
| `SeedOpenLibrary.FileUrlIdentifiesDoc` | src/config/seedOpenLibrary.js:41 | two documents share a file URL exactly when they share a key |
| `SeedOpenLibrary.Description` | src/config/seedOpenLibrary.js:36-40 | no sentence or an empty one gives the fallback text; a non-empty sentence is kept; an array is joined by spaces and is empty only for no parts or one empty part |
| `SeedOpenLibrary.DescriptionFallback` | src/config/seedOpenLibrary.js:36-40 | the fallback text is the description exactly for no sentence, an empty sentence or that text itself, whenever no part of a sentence array could spell it |
| `SeedOpenLibrary.SeedDoc` | src/config/seedOpenLibrary.js:75-87 | a document is skipped exactly when its URL is stored, and otherwise stored as one new row after the unchanged earlier rows |
| `SeedOpenLibrary.SeedDocs` | src/config/seedOpenLibrary.js:74-88 | every kept document is counted once; the earlier rows are kept unchanged; the catalogue gains exactly their URLs; the added count is the number of those that were new, one row each |
| `SeedOpenLibrary.SeedPage` | src/config/seedOpenLibrary.js:72-88 | the same for one fetched page after the year filter |
| `SeedOpenLibrary.SeedBooksFromOpenLibrary` | src/config/seedOpenLibrary.js:56-97 | the same over all topics and pages: earlier rows kept, one new row per new URL, and unique URLs stay unique |
| `SessionScenarios.LogoutThenGate` | src/services/userService.js:128-136 | after a logout of a known token, the service reports failure, yet the old access token is rejected as revoked and the refresh token no longer refreshes |
| `SessionScenarios.LogoutAllThenRefresh` | src/services/userService.js:146-153 | after logout-all, no refresh token of that user remains and the access token is rejected as revoked |
| `SessionScenarios.RegisterThenRefresh` | src/services/userService.js:31-44 | a new account's refresh token refreshes before expiry to an access token for that account |
| `SessionScenarios.RegisterThenLogin` | src/services/userService.js:54-67 | a new account can log in with its password, as the same user |
| `SessionScenarios.RoleChangeThenRefresh` | src/services/userService.js:106-116 | a role change shows in the next refreshed access token, because refresh reads the current row |

## Left out

- I/O and infrastructure:
  - the database pool, the SQL text and `CURRENT_TIMESTAMP`;
  - the `created_at` and `updated_at` columns of users and books, except favourites' `created_at`, which is the `now` parameter;
  - HTTP fetches and console logging;
  - Express routing and the response helpers;
  - src/config/seedBook.js, the upload and Supabase services, and the text-to-speech service and controller.
- Real JWT cryptography and duration strings: the secrets and lifetimes are `TokenConfig` parameters in seconds.
- bcrypt salting: the hash is a fixed digest function.
- Concurrency: the check-then-insert races of register and addFavorite are not modelled, because every operation is atomic.
- Database uniqueness constraints: emails and favourite pairs are checked by the code before inserting. Refresh tokens are not checked: two logins of one user in the same second sign the same token, so the ledger is a sequence that may repeat a token, and a delete removes every copy.
- `ILIKE` matching: it is the parameter `matches` of `BookModel.BookTable.GetBooks`.
- The order of the book rows: `ORDER BY sortBy order` is not applied, and the rows are taken in table order.
- A `limit` of 0, where `Math.ceil` yields Infinity: `GetBooks` requires a positive limit.
- Database errors other than a negative `OFFSET`.
- The thin layers src/controllers/bookController.js, src/services/bookService.js and src/controllers/userFavoriteController.js. Only the `{ id }` argument of `getBookByIdService` is modelled.
- `toUpperCase`, `toLowerCase` and `trim` are ASCII only.
- Seeding loops:
  - The topic and page loops are flattened into the `pages` input, with one entry per fetch.
  - A failed fetch is an empty page.
  - The Gutenberg `continue` on an empty page is the empty inner loop.
  - Errors caught by the outer `try` are not modelled.
- SeedGutenberg.SeedBook: the row detail is stated for id, title and file URL only. The other fields follow from `SeedCommon.InsertIfAbsent` and `SeedGutenberg.MapToBookModel`.
- SeedOpenLibrary.SeedDoc: the row detail is stated for id, title and file URL only. The other fields follow from `SeedCommon.InsertIfAbsent` and `SeedOpenLibrary.MapToBookModel`.
- UserModel.UserTable.CreateUser: the INSERT at userModel.js:13-15 does not set `is_premium`. The stored `false` is the assumed column default, which the source does not show.

## Findings

The model follows the code in each of these cases. Where the expected HTTP
behaviour differs (201 on register, 200 on login, refresh and logout), that
is the corrected member.

| source | as written | input that shows it | evidently intended | confidence | as-written member | corrected member |
|---|---|---|---|---|---|---|
| src/controllers/userController.js:24 | register tests `result.success`, which the service result `{user, accessToken, refreshToken}` lacks | any new email: the account and its ledger row are created, the answer is 400, and no cookie is set | 201 with the refresh-token cookie | not executed | `UserController.RegisterReply` | `UserController.RegisterReplyIntended` |
| src/controllers/userController.js:53 | login makes the same test | a correct email and password: a ledger row is added and the answer is 400 with no cookie | 200 with the refresh-token cookie | not executed | `UserController.LoginReply` | `UserController.LoginReplyIntended` |
| src/controllers/userController.js:80 | getUser, refresh and updateRole make the same test on a bare user, token or row | an existing user id answers 404, a valid refresh cookie 401, and an allowed role on an existing user 400 | 200 with the result | not executed | `UserController.SuccessfulCallsReportedAsFailures` | `UserController.IntendedReply` |
| src/models/blacklistModel.js:13 | the blacklist INSERT has no RETURNING clause, so `result.rows[0]` is undefined and logout throws after both writes | logout with a refresh token in the ledger throws "Failed to blacklist access token" | `RETURNING *`, so logout succeeds | not executed | `UserService.SessionManager.Logout` | `UserService.SessionManager.LogoutFixed` |
| src/services/bookService.js:42 | getBookByIdService passes `{ id, userId }`, but getBookById reads `bookId` | any id on a table holding that id returns null | pass `{ bookId: id, userId }` | not executed | `BookModel.GetBookByIdServiceFindsNothing` | `BookModel.GetBookByIdServiceFixedFinds` |
