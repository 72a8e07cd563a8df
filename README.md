# OnlineBookStore, modelled in Dafny

This project models the core of the OnlineBookStore web application. The Go
backend is built on gin and gorm. It keeps users, books, download links,
reviews, balances and purchase transactions in a database, and serves them to
a React frontend. The model covers:

- **The tables** (`Db.Store`): one sequence per table, with next-id counters.
  The `Models` module holds the gorm helpers that read them, as functions over
  those sequences: `GetBookByISBN`, `GetBalanceByUserID`, `HasUserBoughtBook`
  and the others. Books are soft-deleted, as gorm does with `gorm.Model`. Every
  gorm query skips a soft-deleted row. Only the raw `SELECT id FROM books`
  subquery behind `HasUserBoughtBook` still sees it.
- **The HTTP handlers** (`AuthHandler`, `AdminHandler`, `BookHandler`,
  `ReviewHandler`, `TransactionHandler`) and **the middlewares**
  (`Middlewares`):
  - Handlers that write are methods over a `Store`. Each `ensures` states the
    whole response and the whole new state for every branch of the Go code.
  - Read-only handlers are functions that read the store.
  - A session is the `session.Values` map.
  - A type assertion that panics becomes gin's Recovery reply: 500 with no
    body.
- **The purchase route** (`CheckOwnershipStatus` then `BuyBook`), as ghost
  predicates over the balance and transaction tables before and after. The
  lemmas built on them cover the charge, the refusals, and a transaction
  insert that fails after the balance was written. They also cover the guard
  that stops a second charge, and how that guard fails after a failed insert.
- **The React views**, as pure state-transition functions:
  - the catalogue (`BookDisplay.jsx`, module `CatalogView`): search, client-side
    pagination, ownership map, buy and download flows;
  - the admin catalogue (`BookAdminDisplay.jsx`, module `AdminView`): the
    update prompts with JavaScript `parseInt`, the delete confirmation, the
    reply handling;
  - the reviews page (`Reviews.jsx`, module `ReviewsView`): pagination and the
    submit guard.

  JavaScript string and array semantics are modelled where the views use
  them, in `JsText`, `Paging` and `Seqs`: `slice` with its clamping,
  `Math.ceil`, `toLowerCase`, `includes`, `trim` and `parseInt`.

Go's `strconv.Atoi` (module `Strconv`) is modelled with its 64-bit range check.
Prices and balances are `real`.

## Model

| member | source | states |
|---|---|---|
| Db.Store.constructor | internal/models/db.go:33-39 | an empty database: every table empty, both id counters at 1, the key invariant established |
| Db.Store.InsertBook | internal/handlers/admin_handler.go:47-52 | a book with an unused ISBN gets the next id, is appended, and is then the one GetBookByISBN finds |
| Db.Store.ReplaceBook | internal/handlers/admin_handler.go:103-108 | row k rewritten under its own id keeps ISBNs unique; the new ISBN is found at that row and a replaced ISBN is no longer found |
| Db.Store.SoftDeleteBook | internal/handlers/admin_handler.go:150-154 | the row is only flagged deleted; its ISBN is no longer found, the live listing shrinks by exactly one, and ownership is unchanged for every user and ISBN |
| Db.Store.MarkUserDeleted | internal/handlers/auth_handler.go:206-216 | the user's row is replaced by its deleted form and the account keys stay unique |
| Db.Store.InsertDownload | internal/handlers/admin_handler.go:54-65 | one more download row; the new link is found when the ISBN had no row (with an earlier row, the model's lookup keeps it; see Left out) |
| Db.Store.UpsertDownloadRow | internal/handlers/admin_handler.go:110-130 | after the upsert the ISBN's download lookup yields the new link |
| Db.Store.CreateTransaction | internal/models/transaction.go:26-35 | exactly one row appended with the given user, book and amount |
| Db.Store.CreateUser | internal/handlers/auth_handler.go:67-73 | a user with unused email and username gets the next id, is appended active and not deleted, is found by email, and has no balance row yet |
| Db.Store.CreateBalance | internal/models/transaction.go:57-65 | a user without a balance row gets exactly one, which the lookup then returns |
| Db.Store.UpdateBalance | internal/models/transaction.go:77-86 | fails exactly when the user has no balance row (table unchanged), otherwise the table is the updated one |
| Models.NewUser | internal/models/user.go:9-18 | a new user is active and not deleted and carries the given id, names and hash |
| Models.InputValid | internal/models/user.go:20-24 | the validator's `required` on all three fields and `email` on the address |
| Models.GetAllBooks | internal/models/books.go:49-56 | the listing holds exactly the books that are not soft-deleted |
| Models.NewBook | internal/handlers/admin_handler.go:38-45 | the created book carries every input field except the download link, under the new id, not deleted |
| Models.BookInputValid | internal/models/books.go:37-45 | gin's `binding:"required"`: title, author, ISBN and download link non-empty and price non-zero |
| Models.Overwritten | internal/handlers/admin_handler.go:96-101 | the six editable fields come from the input; id and deleted flag are kept |
| Models.MarkDeleted | internal/handlers/auth_handler.go:207-208 | IsDeleted set and IsActive cleared, identity and password hash kept |
| Models.GetBookByISBN | internal/models/books.go:67-73 | a found book is a live row with that ISBN; not found exactly when no live row has it |
| Models.GetBookByID | internal/models/books.go:58-65 | a found book is a live row with that id; not found exactly when no live row has it |
| Models.GetBookDownloadByISBN | internal/models/books.go:75-82 | a found row has that ISBN; not found exactly when no row has it |
| Models.UpsertDownloadLookup | internal/handlers/admin_handler.go:110-130 | after the upsert the ISBN yields the new link and every other ISBN's lookup is unchanged |
| Models.UpsertDownload | internal/handlers/admin_handler.go:110-130 | without a row for the ISBN one row is appended; otherwise every row with that ISBN takes the new link and every other row is unchanged |
| Models.ReviewsOf | internal/handlers/review_handler.go:26 | the preloaded reviews are exactly those of the book (in the model's table order; see Left out) |
| Models.ReviewsOfAppend | internal/handlers/review_handler.go:68-76 | a posted review goes to the end of its own book's list and leaves other books' lists alone |
| Models.FindUserByEmail | internal/handlers/auth_handler.go:104-108 | a found user has that email; not found exactly when no row has it |
| Models.FindUserByUsername | internal/handlers/auth_handler.go:48-51 | a found user has that username; not found exactly when no row has it |
| Models.FindUserById | internal/handlers/review_handler.go:33-37 | a found user has that id; not found exactly when no row has it |
| Models.SoftDeletedImpliesEmailTaken | internal/handlers/auth_handler.go:42-59 | a soft-deleted email is always found by the lookup, so Register's later check of such an account never decides the outcome |
| Models.GetBalanceByUserID | internal/models/transaction.go:67-75 | a found row belongs to the user; not found exactly when the user has no row |
| Models.UpdatedBalancesSpec | internal/models/transaction.go:77-86 | the update fails iff the user has no row; otherwise the table keeps its size, the user's balance reads back as the new amount and every other user's is unchanged |
| Models.UpdatedBalanceReadsBack | internal/models/transaction.go:77-86 | for a user with a row, the update succeeds and the balance reads back as the new amount |
| Models.UpdatedBalances | internal/models/transaction.go:77-86 | fails iff the user has no balance row; otherwise the table keeps its size and user ids, and a changed row is the user's row with the new amount |
| Models.GetTransactionsByUserID | internal/models/transaction.go:37-45 | exactly the user's transactions |
| Models.GetTransactionsByBookID | internal/models/transaction.go:47-55 | exactly the book's transactions |
| Models.HasUserBoughtBook | internal/models/transaction.go:88-98 | true iff some transaction of the user names the id of some row with that ISBN, deleted or not |
| Models.OwnershipViaUserTransactions | internal/models/transaction.go:88-98 | ownership equals "one of the user's transactions is for a book id carrying the ISBN", the subquery read in two steps |
| Models.PurchaseGrantsOwnership | internal/models/transaction.go:26-35 | recording a transaction for a stored book makes the user an owner of its ISBN |
| Models.OwnershipMonotone | internal/models/transaction.go:88-98 | ownership is never lost when further transactions are recorded |
| Models.AccountKeysAppend | internal/models/user.go:11-12 | appending a user with fresh email, username and the next id keeps the account keys unique |
| Models.CatalogueKeysAppend | internal/models/books.go:25 | appending a book with an unused non-empty ISBN and the next id keeps ISBNs and ids unique |
| Models.CatalogueKeysReplace | internal/models/books.go:25 | rewriting a row under its own id with an ISBN no other row has keeps the keys unique |
| Models.SoftDeleteKeepsOwnership | internal/models/transaction.go:91 | flagging a book row deleted changes nobody's ownership of any ISBN |
| Models.UniqueIdLookup | internal/models/books.go:58-65 | with unique ids, a live row is exactly what GetBookByID returns for its id |
| Models.UniqueIsbnLookup | internal/models/books.go:67-73 | with unique ISBNs, a live row is exactly what GetBookByISBN returns for its ISBN |
| Models.LiveCountDrops | internal/handlers/admin_handler.go:150-154 | soft-deleting a live row shrinks GetAllBooks by exactly one |
| Sessions.SessionUser | internal/handlers/transaction_handler.go:26-31 | the comma-ok `.(uint)` assertion: a user only when "user_id" holds a uint, and then that uint |
| Middlewares.AdminOnly | internal/middlewares/admin.go:12-24 | passes iff the "role" entry is the string "admin"; otherwise 403 "Permission denied" |
| Middlewares.CheckOwnershipStatus | internal/middlewares/ownership.go:13-38 | 401 without a uint user id; passes iff the user does not own the ISBN; otherwise 200 "Already bought" |
| AuthHandler.Cleared | internal/handlers/auth_handler.go:85-90 | after Login's reset no user and no admin role is in the session and every other key is kept |
| AuthHandler.RoleFor | internal/handlers/auth_handler.go:127-132 | the role is "admin" exactly for the username "admin", otherwise "user" |
| AuthHandler.MarkDeletedLookup | internal/handlers/auth_handler.go:206-216 | after marking the found user deleted, the email finds that deleted user and no other lookup changes outcome |
| AuthHandler.Register | internal/handlers/auth_handler.go:29-82 | 400 on bad input, taken email or taken username, 500 when hashing fails, all with no change; otherwise one active user and one 5000.0 balance row are added under the next id and 201 is returned |
| AuthHandler.Login | internal/handlers/auth_handler.go:84-142 | the session is always cleared first; 401 for an unknown email or wrong password and 400 for a soft-deleted account leave it cleared; success stores the user id and the role derived from the username |
| AuthHandler.Logout | internal/handlers/auth_handler.go:144-169 | 404 with no change when no user entry is present, otherwise both keys removed and 200 |
| AuthHandler.DeleteAccount | internal/handlers/auth_handler.go:171-220 | 400, 404, 401, or 400 for an already deleted account, each with no change; otherwise only that user's row is marked deleted |
| AuthHandler.RegisterThenLogin | internal/handlers/auth_handler.go:29-142 | a registration that succeeds is followed by a login that succeeds for the new id, with the admin role iff the username is "admin" |
| AuthHandler.DeleteThenLogin | internal/handlers/auth_handler.go:115-121 | after a successful account deletion, logging in with the same credentials is refused with the support error and leaves no user in the session |
| BookHandler.GetBooks | internal/handlers/book_handler.go:22-31 | 200 with exactly the books that are not soft-deleted |
| BookHandler.GetBookDetails | internal/handlers/book_handler.go:33-50 | 400 when the id text is not a 64-bit integer, 404 when no live book has it, otherwise 200 with that live book |
| BookHandler.BookDetailsByItsId | internal/handlers/book_handler.go:33-50 | asking for a live book by its printed id returns that book |
| Strconv.Atoi | internal/handlers/book_handler.go:36 | a value exactly for an optional sign followed by one or more digits whose signed value fits in an int64, and then that value; every other string is rejected |
| Strconv.AtoiExamples | internal/handlers/book_handler.go:36 | leading zeros and a plus sign are accepted ("007" and "+7" give 7); "1a", " 1", "1 " and "--1" are rejected |
| Strconv.AtoiItoa | internal/handlers/book_handler.go:36 | every int64 printed in decimal parses back to itself |
| Strconv.AtoiRangeError | internal/handlers/book_handler.go:36-40 | the decimal text of 2^63 is rejected |
| ReviewHandler.Detail | internal/handlers/review_handler.go:39-44 | an entry is the author's username plus the review's rating, comment and time |
| ReviewHandler.GetReviewByISBN | internal/handlers/review_handler.go:22-48 | 404 for an unknown ISBN; 500 if some review's author is missing; otherwise one entry per review of the book, in the preloaded order, each built from its author |
| ReviewHandler.PostReview | internal/handlers/review_handler.go:50-82 | 404 for an unknown ISBN, the Recovery 500 without a uint user id, 400 for a body that does not bind, each with no change; otherwise one review appended for that book and user and 201 |
| ReviewHandler.PostThenList | internal/handlers/review_handler.go:22-82 | after a successful post, the book's list ends with the new review under the poster's username |
| TransactionHandler.PurchaseCharges | internal/handlers/transaction_handler.go:51-68 | a successful purchase lowers the balance by exactly the price, records one transaction for that price and makes the buyer an owner |
| TransactionHandler.PurchaseRefusalsChangeNothing | internal/handlers/transaction_handler.go:33-49 | 404 iff the ISBN is unknown and 403 iff the balance is below the price; refusals change no table |
| TransactionHandler.FailedInsertKeepsDeduction | internal/handlers/transaction_handler.go:51-66 | when the insert fails the price stays deducted but no transaction is recorded |
| TransactionHandler.AffordablePurchaseSucceeds | internal/handlers/transaction_handler.go:46-68 | a balance covering the price always buys the book when the insert works |
| TransactionHandler.BuyRouteRefusalChangesNothing | internal/handlers/transaction_handler.go:19-66 | a pass through the buy route that ends without a purchase changes neither table |
| TransactionHandler.BuyRoutePurchaseCharges | internal/handlers/transaction_handler.go:19-68 | a purchase through the route adds one transaction, grants ownership and lowers the balance by the price |
| TransactionHandler.RepeatedPurchaseChargesOnce | internal/middlewares/ownership.go:23-35 | two buys in a row add at most one transaction, the second answers "Already bought" after a purchase, and the balance drops by the price at most once |
| TransactionHandler.RetryAfterFailedInsertChargesTwice | internal/handlers/transaction_handler.go:51-66 | after a failed insert the guard lets a retry through and the user is charged the price twice |
| TransactionHandler.BuyBook | internal/handlers/transaction_handler.go:25-69 | 401 with no change without a uint user id, otherwise exactly the purchase outcome on the tables |
| TransactionHandler.PurchaseOutcome | internal/handlers/transaction_handler.go:33-68 | the purchase as a relation on the tables: 404, the 500 for a missing balance and 403 change nothing; otherwise the balance is lowered by the price, and the transaction is recorded with 200 unless the insert fails |
| TransactionHandler.BuyBookRoute | internal/handlers/transaction_handler.go:19 | the route's effect is exactly the buy-route outcome: the guard first, then the purchase |
| TransactionHandler.BuyRouteOutcome | internal/handlers/transaction_handler.go:19-68 | 401 without a uint user; 200 "Already bought" for an owner with nothing changed; otherwise PurchaseOutcome |
| TransactionHandler.GetBalance | internal/handlers/transaction_handler.go:71-86 | 200 iff a uint user id with a balance row is present, and then the amount |
| TransactionHandler.OwnershipStatus | internal/handlers/transaction_handler.go:88-114 | 401 without a user entry; the recovered 500 for an entry that is not a uint; for a uint user, 200 with exactly HasUserBoughtBook |
| TransactionHandler.GetDownloadLink | internal/handlers/transaction_handler.go:116-146 | 401 without a user entry, 400 for an empty ISBN, the recovered 500 for an entry that is not a uint, `false` for a non-owner; an owner gets the stored link for the ISBN, or 500 "Failed to fetch download link" when no download row has it; a link goes to nobody else |
| AdminHandler.CreateBook | internal/handlers/admin_handler.go:24-69 | 403, 400, or 500 for an ISBN any row already has, each with no change; otherwise the book and its download row are inserted and the book is found by its ISBN |
| AdminHandler.UpdateBook | internal/handlers/admin_handler.go:71-134 | 403, 404, 400, or 500 for an ISBN clash, each with no change; otherwise the row is overwritten in place and the download link upserted under the old ISBN |
| AdminHandler.DeleteBook | internal/handlers/admin_handler.go:136-158 | 403 or 404 with no change; otherwise the row is soft-deleted, drops out of lookup and listing, and every user's ownership of the ISBN is unchanged |
| JsText.ToLower | frontend/bookstore-app/src/components/BookDisplay.jsx:134 | same length, lowered character by character |
| JsText.ToLowerIdempotent | frontend/bookstore-app/src/components/BookDisplay.jsx:134 | lowering twice equals lowering once |
| JsText.Includes | frontend/bookstore-app/src/components/BookDisplay.jsx:134 | a needle at the start is found, and a found needle is no longer than the text |
| JsText.IncludesIffOccurs | frontend/bookstore-app/src/components/BookDisplay.jsx:134 | `includes` holds iff the needle occurs at some index |
| JsText.TrimStart | frontend/bookstore-app/src/components/Reviews.jsx:62 | the result is a suffix of the string; everything removed is whitespace, and the result does not start with whitespace |
| JsText.TrimEnd | frontend/bookstore-app/src/components/Reviews.jsx:62 | the result is a prefix of the string; everything removed is whitespace, and the result does not end with whitespace |
| JsText.Trim | frontend/bookstore-app/src/components/Reviews.jsx:62 | the result is a middle slice of the string with only whitespace around it, and starts and ends with a character other than whitespace |
| JsText.TrimEmptyIff | frontend/bookstore-app/src/components/Reviews.jsx:62 | a string trims to "" iff it is all whitespace |
| Seqs.Slice | frontend/bookstore-app/src/components/BookDisplay.jsx:137 | `slice` with non-negative bounds is the clamped subsequence, and empty when end <= start |
| Seqs.Select | frontend/bookstore-app/src/components/BookDisplay.jsx:133-135 | `filter` keeps exactly the elements that pass, never more than it had |
| Paging.PageCount | frontend/bookstore-app/src/components/BookDisplay.jsx:45 | `Math.ceil(len / n)`: the least count of pages that holds len items; zero iff len is zero |
| Paging.PageWidth | frontend/bookstore-app/src/components/BookDisplay.jsx:129-137 | a page never shows more than n items, for any page number |
| Paging.PagePastEnd | frontend/bookstore-app/src/components/BookDisplay.jsx:129-137 | a page number beyond the page count shows nothing |
| Paging.PagesCoverAll | frontend/bookstore-app/src/components/BookDisplay.jsx:129-137 | pages 1 to the page count, laid end to end, are exactly the list |
| CatalogView.Filtered | frontend/bookstore-app/src/components/BookDisplay.jsx:132-135 | keeps exactly the books whose lower-cased title includes the lower-cased term |
| CatalogView.TitleMatchesIffOccurs | frontend/bookstore-app/src/components/BookDisplay.jsx:133-135 | a title matches iff the lowered term occurs somewhere in the lowered title |
| CatalogView.FilterEmptyTermKeepsAll | frontend/bookstore-app/src/components/BookDisplay.jsx:152 | the empty term keeps every book, in order |
| CatalogView.FilterKeepsOrder | frontend/bookstore-app/src/components/BookDisplay.jsx:133-135 | filtering distributes over concatenation, so the order of books is kept |
| CatalogView.InitialCatalog | frontend/bookstore-app/src/components/BookDisplay.jsx:40-44 | no books, page 1, empty search, empty ownership |
| CatalogView.Displayed | frontend/bookstore-app/src/components/BookDisplay.jsx:129-137 | at most six cards, the run of filtered books starting at (page-1)*6 |
| CatalogView.TotalPages | frontend/bookstore-app/src/components/BookDisplay.jsx:45 | the least number of six-card pages holding every loaded book, filtered or not |
| CatalogView.BooksLoaded | frontend/bookstore-app/src/components/BookDisplay.jsx:49-58 | the book list is replaced, everything else kept |
| CatalogView.SetSearchTerm | frontend/bookstore-app/src/components/BookDisplay.jsx:147 | the term changes but the page does not, and nor does the page count |
| CatalogView.ClearSearch | frontend/bookstore-app/src/components/BookDisplay.jsx:152 | the term becomes "" and every loaded book passes the filter again |
| CatalogView.ChangePage | frontend/bookstore-app/src/components/BookDisplay.jsx:125-127 | only the page changes |
| CatalogView.EveryMatchOnSomePage | frontend/bookstore-app/src/components/BookDisplay.jsx:129-137 | every filtered book is shown on page (index / 6) + 1, a page the control offers |
| CatalogView.PageOfIndexOffered | frontend/bookstore-app/src/components/BookDisplay.jsx:45 | the page of any index below the list length is within the page count |
| CatalogView.SearchFromLaterPageShowsNothing | frontend/bookstore-app/src/components/BookDisplay.jsx:147 | searching from page 2 or later for a term with at most six matches shows no cards |
| CatalogView.OwnershipReceived | frontend/bookstore-app/src/components/BookDisplay.jsx:64-69 | the answered ISBN maps to the status and every other entry is kept |
| CatalogView.OwnershipAnswersCommute | frontend/bookstore-app/src/components/BookDisplay.jsx:62-73 | answers for different ISBNs give the same map in either arrival order |
| CatalogView.OwnershipAnswer | frontend/bookstore-app/src/components/BookDisplay.jsx:64-68 | only a 2xx reply carrying a status updates the map, with that status |
| CatalogView.OwnershipAnswerMatchesStore | frontend/bookstore-app/src/components/BookDisplay.jsx:63-68 | for a logged-in user the map entry is exactly the server's ownership; without a user entry nothing is recorded |
| CatalogView.FetchOwnership | frontend/bookstore-app/src/components/BookDisplay.jsx:60-74 | after the loop over the books, answered ISBNs map to their answers and every other entry is kept |
| CatalogView.ConfirmPurchase | frontend/bookstore-app/src/components/BookDisplay.jsx:98-121 | the buy request goes out iff the typed answer is the book's ISBN, otherwise "Purchase canceled. ISBN did not match." |
| CatalogView.PurchaseAlert | frontend/bookstore-app/src/components/BookDisplay.jsx:107-117 | a 2xx reply alerts its message; a rejected request alerts the fixed error text |
| CatalogView.OnDownloadResponse | frontend/bookstore-app/src/components/BookDisplay.jsx:76-96 | a tab opens iff a 2xx reply carries a non-empty link; otherwise "not available" or the error alert |
| CatalogView.DownloadOpensOnlyForOwners | frontend/bookstore-app/src/components/BookDisplay.jsx:76-91 | a tab opens only for an owner, on the stored link of that ISBN |
| CatalogView.OwnerWithStoredLinkOpensTab | frontend/bookstore-app/src/components/BookDisplay.jsx:76-91 | a logged-in owner with a stored non-empty link gets a tab on it; an owner whose ISBN has no download row gets the error alert |
| CatalogView.ShowsDownload | frontend/bookstore-app/src/components/BookDisplay.jsx:182-197 | a card shows Download when the ownership map holds true for its ISBN, Buy otherwise |
| CatalogView.ShowsDownloadIffOwner | frontend/bookstore-app/src/components/BookDisplay.jsx:62-73 | after the ownership answer arrives, a card shows Download iff the logged-in user owns its ISBN |
| AdminView.ListingIgnoresOwnership | frontend/bookstore-app/src/components/BookAdminDisplay.jsx:39-72 | the admin listing and page count are independent of any ownership state |
| AdminView.DeletedBookLeavesListing | frontend/bookstore-app/src/components/BookAdminDisplay.jsx:48-57 | once no live book has the ISBN, the reloaded listing holds no book with it |
| AdminView.LeadingRun | frontend/bookstore-app/src/components/BookAdminDisplay.jsx:100 | the longest prefix whose characters pass, so the next character fails |
| AdminView.ParseMagnitude | frontend/bookstore-app/src/components/BookAdminDisplay.jsx:100 | a magnitude exactly when the text starts with a digit and is not a `0x` prefix with no hex digit after it |
| AdminView.ParseSigned | frontend/bookstore-app/src/components/BookAdminDisplay.jsx:100 | a number exactly when a magnitude follows the optional sign; negative only after a minus sign |
| AdminView.ParseInt | frontend/bookstore-app/src/components/BookAdminDisplay.jsx:100 | not NaN exactly when, after leading whitespace and an optional sign, a digit starts the text (and a `0x` prefix is followed by a hex digit); the sign decides the sign of the result |
| AdminView.ParseIntItoa | frontend/bookstore-app/src/components/BookAdminDisplay.jsx:100 | `parseInt` of an integer's decimal text, followed by anything not continuing the number, gives the integer back |
| AdminView.YearSent | frontend/bookstore-app/src/components/BookAdminDisplay.jsx:100 | the parsed year, or 0 when `parseInt` gives NaN |
| AdminView.UpdateBookPrompts | frontend/bookstore-app/src/components/BookAdminDisplay.jsx:74-103 | a PUT goes out iff no prompt was dismissed and the price is a number; it targets the book's own ISBN and carries the answers |
| AdminView.UpdateRequestShape | frontend/bookstore-app/src/components/BookAdminDisplay.jsx:95-105 | the body binds on the server iff the year fits in an int64, title, author, ISBN and link are non-empty and the price is non-zero; it never changes the ISBN |
| AdminView.DecodedBody | internal/handlers/admin_handler.go:89-93 | the JSON body decodes exactly when its year fits the Go `int` (int64), and then to itself |
| AdminView.OverflowingYearRejected | frontend/bookstore-app/src/components/BookAdminDisplay.jsx:100 | a year answer one past the int64 range makes the PUT fail to bind |
| AdminView.DeleteBookGate | frontend/bookstore-app/src/components/BookAdminDisplay.jsx:121-157 | the DELETE goes out iff the typed answer is the ISBN, otherwise "Deletion canceled. ISBN did not match." |
| AdminView.MessageOf | frontend/bookstore-app/src/components/BookAdminDisplay.jsx:107 | `response.data.message`: present exactly for message payloads |
| AdminView.OnAdminReply | frontend/bookstore-app/src/components/BookAdminDisplay.jsx:105-117 | reload iff a 2xx reply's message is the success text; other 2xx replies alert "Error: " and the error field; rejections alert the failure text |
| AdminView.OnUpdateReply | frontend/bookstore-app/src/components/BookAdminDisplay.jsx:105-117 | reload iff the update success message arrives; rejections alert the update failure text |
| AdminView.OnDeleteReply | frontend/bookstore-app/src/components/BookAdminDisplay.jsx:140-153 | reload iff the delete success message arrives; rejections alert the delete failure text |
| AdminView.AdminRepliesHandled | frontend/bookstore-app/src/components/BookAdminDisplay.jsx:105-153 | the handlers' success replies reload the page and each of their error codes gives the failure alert |
| ReviewsView.InitialReviews | frontend/bookstore-app/src/components/Reviews.jsx:31-35 | no reviews, page 1, rating 0, empty comment |
| ReviewsView.DisplayedReviews | frontend/bookstore-app/src/components/Reviews.jsx:93-95 | at most two reviews, the run starting at (page-1)*2 |
| ReviewsView.ReviewPages | frontend/bookstore-app/src/components/Reviews.jsx:36 | the least number of two-review pages holding every review |
| ReviewsView.PaginationIffMoreThanOnePage | frontend/bookstore-app/src/components/Reviews.jsx:117-127 | the control shows iff there are more than two reviews |
| ReviewsView.ShowsNoReviewsYet | frontend/bookstore-app/src/components/Reviews.jsx:102-103 | the "no reviews yet" text replaces the list when it is empty |
| ReviewsView.NoReviewsYetIffNoPages | frontend/bookstore-app/src/components/Reviews.jsx:102-127 | the text shows iff there are no pages, and then no review and no control; otherwise every offered page shows a review |
| ReviewsView.ReviewsLoaded | frontend/bookstore-app/src/components/Reviews.jsx:38-46 | the list is replaced, everything else kept |
| ReviewsView.ChangeReviewPage | frontend/bookstore-app/src/components/Reviews.jsx:48-50 | only the page changes |
| ReviewsView.RatingChanged | frontend/bookstore-app/src/components/Reviews.jsx:52-54 | only the rating changes, a cleared star counting as 0 |
| ReviewsView.CommentChanged | frontend/bookstore-app/src/components/Reviews.jsx:56-58 | only the comment changes |
| ReviewsView.LatestReviewOnLastPage | frontend/bookstore-app/src/components/Reviews.jsx:93-95 | the last review in the list is shown on the last page the control offers |
| ReviewsView.CanSubmitIff | frontend/bookstore-app/src/components/Reviews.jsx:62 | submitting is allowed iff the rating is positive and the comment is not all whitespace |
| ReviewsView.SubmitReview | frontend/bookstore-app/src/components/Reviews.jsx:60-81 | the POST goes out, with the untrimmed comment, iff the guard holds; otherwise the fixed alert |
| ReviewsView.AfterPosted | frontend/bookstore-app/src/components/Reviews.jsx:67-73 | the form is reset and page 1 shown, so an immediate second submit is refused |

## Left out

- Database failures are not modelled: connection loss, and a failing Find, Save, Update or Delete. The one exception is the transaction insert in BuyBook, which a flag turns into a failure. That is enough to show that the deduction stays in place.
- Register ignores the errors of its two `Create` calls. The model lets both rows in, because its own preconditions rule out a unique-key clash there.
- Errors from the session store's `Get` and `Save` are not modelled: the cookie store's encoding and signing are not part of this model, so both calls always succeed here.
- bcrypt and the go-playground validator are parameters. A password check is a function value, the email check is a predicate, and the hash is an input that may be missing. Hashing and cost factors are out of scope.
- Timestamps (`CreatedAt`, `time.Now()`) are a parameter. Row ids are the next counter values, with no gaps from failed inserts.
- Row order of unordered queries: `Find` (books.go:51, transaction.go:40 and 50) and `Preload("Reviews")` (review_handler.go:26) issue no ORDER BY. The model returns their rows in insertion order; the program does not promise an order.
- The download table has no primary key (books.go:32-35), so its `First` (books.go:77) orders by the isbn column only. When two rows share an ISBN, the model's lookup returns the older one; the program may return either. This case is reachable: UpdateBook to a new ISBN leaves the download row under the old ISBN, and CreateBook with that old ISBN then adds a second row. Models.GetBookDownloadByISBN, Db.Store.InsertDownload, AdminHandler.CreateBook and TransactionHandler.GetDownloadLink rely on this choice.
- Concurrency is not modelled: simultaneous requests, transaction isolation, and the order in which the browser's parallel fetches complete. FetchOwnership answers books in list order. OwnershipAnswersCommute shows that the order of answers for different ISBNs does not change the result.
- Floating point is modelled as exact `real`. `parseFloat` and its rounding are not modelled: the update prompt's price arrives already parsed, with None standing for NaN. Infinity is not modelled.
- AdminView.ParseIntItoa: JavaScript's `parseInt` is modelled with exact integers. The rounding of values above 2^53 to double precision is not.
- JsText.ToLower: lower-cases ASCII letters only. Unicode case mapping is not modelled.
- Browser side effects are not modelled as effects: `window.open`, `window.location.reload`, `alert` and `console.error`. They become the returned step or alert text.
- The admin account bootstrap in main.go is not part of this model.
- ReviewsView.RatingChanged: the star control's null is recorded as 0. This matches how the guard and the POST treat it.
- CatalogView.TotalPages: the page count is taken over the unfiltered list, as the code computes it, so a search with no match still offers the unfiltered page count.
- The body of the admin DELETE request is left out, because the server never reads it.
- AdminHandler.DeleteBook: does not state directly that the download table is unchanged. That follows from its frame, since it modifies only the book rows. It states instead that every user's ownership of the ISBN is unchanged, which is what GetDownloadLink consults.
- Register's check of a soft-deleted account (auth_handler.go lines 53-59) is modelled as unreachable. Models.SoftDeletedImpliesEmailTaken proves that the earlier email check already refuses such an account.
