/**
 * The bookstore's records (internal/models) and the read-only lookups over
 * its tables. A table is a sequence of rows in insertion order. `First` is
 * modelled as the first matching row and `Find` and `Preload` as table
 * order. The queries themselves fix no order (`Find` and `Preload` issue no
 * ORDER BY, and the key-less download table's `First` orders by the isbn
 * column alone), so where several rows match, insertion order is a choice
 * of this model, not a promise of the program.
 */
module Models {
  import opened Wrappers
  import opened Seqs

  type Id = nat

  /**
   * A row of the books table. `deleted` is gorm.Model's soft-delete column
   * being set: gorm's own queries skip such rows, raw SQL does not, and the
   * row keeps its id and its ISBN. The timestamps are not modelled.
   */
  datatype Book = Book(id: Id, title: string, author: string, description: string,
                       isbn: string, publishedYear: int, price: real, deleted: bool)

  /** A row of the book_downloads table; the table has no primary key. */
  datatype BookDownload = BookDownload(isbn: string, downloadLink: string)

  /** The JSON body of the create and update book requests. */
  datatype BookInput = BookInput(title: string, author: string, description: string, isbn: string,
                                 publishedYear: int, price: real, downloadLink: string)

  datatype Review = Review(bookId: Id, userId: Id, rating: int, comment: string, createdAt: int)

  datatype User = User(id: Id, username: string, email: string, passwordHash: string,
                       isActive: bool, isDeleted: bool)

  /** The JSON body of the register, login and delete-account requests. */
  datatype Input = Input(username: string, email: string, password: string)

  datatype Balance = Balance(userId: Id, amount: real)

  datatype Transaction = Transaction(userId: Id, bookId: Id, amount: real)

  /**
   * gin's `binding:"required"` on BookInput: the four strings are non-empty
   * and the price is not the zero value.
   */
  predicate BookInputValid(b: BookInput)
  {
    b.title != "" && b.author != "" && b.isbn != "" && b.price != 0.0 && b.downloadLink != ""
  }

  /** validator's `required` on all three fields and `email` on the address (an opaque format check). */
  predicate InputValid(input: Input, isEmail: string -> bool)
  {
    input.username != "" && input.email != "" && isEmail(input.email) && input.password != ""
  }

  /** A user as the users table creates it: IsActive defaults to true and IsDeleted to false. */
  function NewUser(id: Id, username: string, email: string, passwordHash: string): (u: User)
    ensures u.isActive && !u.isDeleted
    ensures u.id == id && u.username == username && u.email == email && u.passwordHash == passwordHash
  {
    User(id, username, email, passwordHash, true, false)
  }

  // ---- books.go ----

  /** `GetAllBooks`: every book not soft-deleted, in the model's table order. */
  function GetAllBooks(books: seq<Book>): (r: seq<Book>)
    ensures |r| <= |books|
    ensures forall b :: b in r <==> b in books && !b.deleted
  {
    Select(books, (b: Book) => !b.deleted)
  }

  /** The row CreateBook inserts (admin_handler.go): the input's fields under the next id, not deleted. */
  function NewBook(id: Id, input: BookInput): (b: Book)
    ensures b.id == id && !b.deleted
    ensures b.title == input.title && b.author == input.author && b.description == input.description
    ensures b.isbn == input.isbn && b.publishedYear == input.publishedYear && b.price == input.price
  {
    Book(id, input.title, input.author, input.description, input.isbn, input.publishedYear, input.price, false)
  }

  /** UpdateBook's overwrite (admin_handler.go) of the six input fields; the id and the soft-delete column are kept. */
  function Overwritten(b: Book, input: BookInput): (r: Book)
    ensures r.id == b.id && r.deleted == b.deleted
    ensures r.title == input.title && r.author == input.author && r.description == input.description
    ensures r.isbn == input.isbn && r.publishedYear == input.publishedYear && r.price == input.price
  {
    b.(title := input.title, author := input.author, description := input.description,
       isbn := input.isbn, publishedYear := input.publishedYear, price := input.price)
  }

  /** What DeleteAccount writes back: IsDeleted set, IsActive cleared. */
  function MarkDeleted(u: User): (r: User)
    ensures r.isDeleted && !r.isActive
    ensures r.id == u.id && r.username == u.username && r.email == u.email && r.passwordHash == u.passwordHash
  {
    u.(isDeleted := true, isActive := false)
  }

  function BookIndexByIsbn(books: seq<Book>, isbn: string): Option<nat>
  {
    FirstIndex(books, (b: Book) => b.isbn == isbn && !b.deleted)
  }

  /**
   * `GetBookByISBN`: the live book with that ISBN, or not found; never a
   * book with another ISBN and never a soft-deleted one.
   */
  function GetBookByISBN(books: seq<Book>, isbn: string): (r: Option<Book>)
    ensures r.Some? ==> r.value in books && r.value.isbn == isbn && !r.value.deleted
    ensures r.None? <==> forall i :: 0 <= i < |books| ==> books[i].isbn != isbn || books[i].deleted
  {
    match BookIndexByIsbn(books, isbn)
    case None => None
    case Some(i) => Some(books[i])
  }

  /** `GetBookByID`: the live book with that primary key, or not found. */
  function GetBookByID(books: seq<Book>, id: int): (r: Option<Book>)
    ensures r.Some? ==> r.value in books && r.value.id == id && !r.value.deleted
    ensures r.None? <==> forall i :: 0 <= i < |books| ==> books[i].id != id || books[i].deleted
  {
    match FirstIndex(books, (b: Book) => b.id == id && !b.deleted)
    case None => None
    case Some(i) => Some(books[i])
  }

  /** `GetBookDownloadByISBN`: the first download row for that ISBN, or not found. */
  function GetBookDownloadByISBN(downloads: seq<BookDownload>, isbn: string): (r: Option<BookDownload>)
    ensures r.Some? ==> r.value in downloads && r.value.isbn == isbn
    ensures r.None? <==> forall i :: 0 <= i < |downloads| ==> downloads[i].isbn != isbn
  {
    match FirstIndex(downloads, (d: BookDownload) => d.isbn == isbn)
    case None => None
    case Some(i) => Some(downloads[i])
  }

  /**
   * The download rows after UpdateBook's upsert keyed by `isbn`: a new row
   * when none has that ISBN, otherwise every row with that ISBN gets `link`.
   */
  function UpsertDownload(downloads: seq<BookDownload>, isbn: string, link: string): (r: seq<BookDownload>)
    ensures GetBookDownloadByISBN(downloads, isbn).None? ==> r == downloads + [BookDownload(isbn, link)]
    ensures GetBookDownloadByISBN(downloads, isbn).Some? ==>
              && |r| == |downloads|
              && (forall i :: 0 <= i < |r| ==> r[i].isbn == downloads[i].isbn)
              && (forall i :: 0 <= i < |r| && downloads[i].isbn == isbn ==> r[i].downloadLink == link)
              && (forall i :: 0 <= i < |r| && downloads[i].isbn != isbn ==> r[i] == downloads[i])
  {
    if GetBookDownloadByISBN(downloads, isbn).None? then downloads + [BookDownload(isbn, link)]
    else seq(|downloads|, i requires 0 <= i < |downloads| =>
           if downloads[i].isbn == isbn then downloads[i].(downloadLink := link) else downloads[i])
  }

  /**
   * After the upsert the link stored for `isbn` is `link`, whether or not a
   * row existed, and the link of every other ISBN is unchanged.
   */
  lemma UpsertDownloadLookup(downloads: seq<BookDownload>, isbn: string, link: string, other: string)
    requires other != isbn
    ensures GetBookDownloadByISBN(UpsertDownload(downloads, isbn, link), isbn) == Some(BookDownload(isbn, link))
    ensures GetBookDownloadByISBN(UpsertDownload(downloads, isbn, link), other) == GetBookDownloadByISBN(downloads, other)
  {
    var d' := UpsertDownload(downloads, isbn, link);
    var p := (d: BookDownload) => d.isbn == isbn;
    var q := (d: BookDownload) => d.isbn == other;
    if GetBookDownloadByISBN(downloads, isbn).None? {
      assert d'[|downloads|] == BookDownload(isbn, link);
      FirstIndexAppend(downloads, BookDownload(isbn, link), p);
      FirstIndexAppend(downloads, BookDownload(isbn, link), q);
    } else {
      FirstIndexPointwise(downloads, d', p);
      FirstIndexPointwise(downloads, d', q);
    }
  }

  lemma {:induction false} FirstIndexAppend<T>(s: seq<T>, x: T, p: T -> bool)
    ensures FirstIndex(s, p).Some? ==> FirstIndex(s + [x], p) == FirstIndex(s, p)
    ensures FirstIndex(s, p).None? && p(x) ==> FirstIndex(s + [x], p) == Some(|s|)
    ensures FirstIndex(s, p).None? && !p(x) ==> FirstIndex(s + [x], p) == None
  {
    if |s| > 0 {
      assert (s + [x])[1..] == s[1..] + [x];
      FirstIndexAppend(s[1..], x, p);
    }
  }

  /** Two sequences that agree on `p` everywhere have the same first `p`-match. */
  lemma {:induction false} FirstIndexPointwise<T>(s: seq<T>, t: seq<T>, p: T -> bool)
    requires |s| == |t|
    requires forall i :: 0 <= i < |s| ==> p(s[i]) == p(t[i])
    ensures FirstIndex(s, p) == FirstIndex(t, p)
  {
    if |s| > 0 {
      FirstIndexPointwise(s[1..], t[1..], p);
    }
  }

  /** gorm's `Preload("Reviews")`: the reviews whose book_id is the book's id, in the model's table order. */
  function ReviewsOf(reviews: seq<Review>, bookId: Id): (r: seq<Review>)
    ensures |r| <= |reviews|
    ensures forall x :: x in r <==> x in reviews && x.bookId == bookId
  {
    Select(reviews, (x: Review) => x.bookId == bookId)
  }

  /**
   * A new review row shows up last among its own book's reviews and leaves
   * every other book's reviews as they were.
   */
  lemma ReviewsOfAppend(reviews: seq<Review>, r: Review, bookId: Id)
    ensures r.bookId == bookId ==> ReviewsOf(reviews + [r], bookId) == ReviewsOf(reviews, bookId) + [r]
    ensures r.bookId != bookId ==> ReviewsOf(reviews + [r], bookId) == ReviewsOf(reviews, bookId)
  {
    var p := (x: Review) => x.bookId == bookId;
    SelectAppend(reviews, [r], p);
    assert Select([r], p) == (if p(r) then [r] else []) + Select([r][1..], p);
    assert [r][1..] == [];
  }

  // ---- user.go ----

  function UserIndexByEmail(users: seq<User>, email: string): Option<nat>
  {
    FirstIndex(users, (u: User) => u.email == email)
  }

  /** `DB.Where("email = ?").First`: the user with that email, whether or not soft-deleted. */
  function FindUserByEmail(users: seq<User>, email: string): (r: Option<User>)
    ensures r.Some? ==> r.value in users && r.value.email == email
    ensures r.None? <==> forall i :: 0 <= i < |users| ==> users[i].email != email
  {
    match UserIndexByEmail(users, email)
    case None => None
    case Some(i) => Some(users[i])
  }

  function FindUserByUsername(users: seq<User>, username: string): (r: Option<User>)
    ensures r.Some? ==> r.value in users && r.value.username == username
    ensures r.None? <==> forall i :: 0 <= i < |users| ==> users[i].username != username
  {
    match FirstIndex(users, (u: User) => u.username == username)
    case None => None
    case Some(i) => Some(users[i])
  }

  function FindUserById(users: seq<User>, id: Id): (r: Option<User>)
    ensures r.Some? ==> r.value in users && r.value.id == id
    ensures r.None? <==> forall i :: 0 <= i < |users| ==> users[i].id != id
  {
    match FirstIndex(users, (u: User) => u.id == id)
    case None => None
    case Some(i) => Some(users[i])
  }

  /** Register's third check: a user with this email that is inactive and soft-deleted. */
  predicate SoftDeletedEmail(users: seq<User>, email: string)
  {
    match FindUserByEmail(users, email)
    case None => false
    case Some(u) => !u.isActive && u.isDeleted
  }

  /**
   * Register's soft-deleted check can never fire: any account it would find
   * already failed the email-exists check before it.
   */
  lemma SoftDeletedImpliesEmailTaken(users: seq<User>, email: string)
    ensures SoftDeletedEmail(users, email) ==> FindUserByEmail(users, email).Some?
    ensures FindUserByEmail(users, email).None? ==> !SoftDeletedEmail(users, email)
  {
  }

  // ---- transaction.go ----

  function BalanceIndex(balances: seq<Balance>, userId: Id): Option<nat>
  {
    FirstIndex(balances, (b: Balance) => b.userId == userId)
  }

  /** `GetBalanceByUserID`: the user's balance row, or not found. */
  function GetBalanceByUserID(balances: seq<Balance>, userId: Id): (r: Option<Balance>)
    ensures r.Some? ==> r.value in balances && r.value.userId == userId
    ensures r.None? <==> forall i :: 0 <= i < |balances| ==> balances[i].userId != userId
  {
    match BalanceIndex(balances, userId)
    case None => None
    case Some(i) => Some(balances[i])
  }

  /**
   * The balance rows after `UpdateBalance(userId, amount)`: None (the lookup
   * error) when the user has no row, else that row with the new amount.
   */
  function UpdatedBalances(balances: seq<Balance>, userId: Id, amount: real): (r: Option<seq<Balance>>)
    ensures r.None? <==> GetBalanceByUserID(balances, userId).None?
    ensures r.Some? ==>
              && |r.value| == |balances|
              && (forall i :: 0 <= i < |balances| ==> r.value[i].userId == balances[i].userId)
              && (forall i :: 0 <= i < |balances| && r.value[i] != balances[i] ==> r.value[i] == Balance(userId, amount))
  {
    match BalanceIndex(balances, userId)
    case None => None
    case Some(i) => Some(balances[i := balances[i].(amount := amount)])
  }

  /**
   * UpdateBalance fails exactly when the user has no balance row; otherwise
   * the user's balance reads back as the new amount, the table keeps its size
   * and every other user's balance is unchanged.
   */
  lemma UpdatedBalancesSpec(balances: seq<Balance>, userId: Id, amount: real, other: Id)
    requires other != userId
    ensures UpdatedBalances(balances, userId, amount).None? <==> GetBalanceByUserID(balances, userId).None?
    ensures UpdatedBalances(balances, userId, amount).Some? ==>
              var b' := UpdatedBalances(balances, userId, amount).value;
              && |b'| == |balances|
              && GetBalanceByUserID(b', userId) == Some(Balance(userId, amount))
              && GetBalanceByUserID(b', other) == GetBalanceByUserID(balances, other)
  {
    var r := UpdatedBalances(balances, userId, amount);
    if r.Some? {
      var b' := r.value;
      var i := BalanceIndex(balances, userId).value;
      FirstIndexPointwise(balances, b', (b: Balance) => b.userId == userId);
      FirstIndexPointwise(balances, b', (b: Balance) => b.userId == other);
      assert b'[i] == Balance(userId, amount);
    }
  }

  /** After UpdateBalance the user's balance reads back as the new amount. */
  lemma UpdatedBalanceReadsBack(balances: seq<Balance>, userId: Id, amount: real)
    requires GetBalanceByUserID(balances, userId).Some?
    ensures UpdatedBalances(balances, userId, amount).Some?
    ensures GetBalanceByUserID(UpdatedBalances(balances, userId, amount).value, userId) == Some(Balance(userId, amount))
  {
    UpdatedBalancesSpec(balances, userId, amount, userId + 1);
  }

  /** `GetTransactionsByUserID`: the user's transactions, in the model's table order. */
  function GetTransactionsByUserID(txs: seq<Transaction>, userId: Id): (r: seq<Transaction>)
    ensures forall t :: t in r <==> t in txs && t.userId == userId
  {
    Select(txs, (t: Transaction) => t.userId == userId)
  }

  /** `GetTransactionsByBookID`: the book's transactions, in the model's table order. */
  function GetTransactionsByBookID(txs: seq<Transaction>, bookId: Id): (r: seq<Transaction>)
    ensures forall t :: t in r <==> t in txs && t.bookId == bookId
  {
    Select(txs, (t: Transaction) => t.bookId == bookId)
  }

  /** The raw SQL subquery `SELECT id FROM books WHERE isbn = ?`: soft-deleted rows included. */
  function BookIdsWithIsbn(books: seq<Book>, isbn: string): set<Id>
  {
    set b | b in books && b.isbn == isbn :: b.id
  }

  /**
   * `HasUserBoughtBook(userId, isbn)`: whether some transaction of the user
   * is for a book carrying that ISBN. A missing record is `false`, not an error.
   */
  function HasUserBoughtBook(txs: seq<Transaction>, books: seq<Book>, userId: Id, isbn: string): (r: bool)
    ensures r <==> exists i, j :: 0 <= i < |txs| && 0 <= j < |books| &&
                     txs[i].userId == userId && books[j].isbn == isbn && txs[i].bookId == books[j].id
  {
    var ids := BookIdsWithIsbn(books, isbn);
    var found := FirstIndex(txs, (t: Transaction) => t.userId == userId && t.bookId in ids);
    if found.Some? then
      var i := found.value;
      var j :| 0 <= j < |books| && books[j].isbn == isbn && books[j].id == txs[i].bookId;
      true
    else false
  }

  /** Ownership read through the user's transaction list gives the same answer. */
  lemma OwnershipViaUserTransactions(txs: seq<Transaction>, books: seq<Book>, userId: Id, isbn: string)
    ensures HasUserBoughtBook(txs, books, userId, isbn) <==>
              exists t :: t in GetTransactionsByUserID(txs, userId) && t.bookId in BookIdsWithIsbn(books, isbn)
  {
    if HasUserBoughtBook(txs, books, userId, isbn) {
      var i, j :| 0 <= i < |txs| && 0 <= j < |books| &&
                  txs[i].userId == userId && books[j].isbn == isbn && txs[i].bookId == books[j].id;
      assert txs[i] in GetTransactionsByUserID(txs, userId);
      assert books[j] in books;
    }
    if t :| t in GetTransactionsByUserID(txs, userId) && t.bookId in BookIdsWithIsbn(books, isbn) {
      var i :| 0 <= i < |txs| && txs[i] == t;
      var b :| b in books && b.isbn == isbn && b.id == t.bookId;
      var j :| 0 <= j < |books| && books[j] == b;
    }
  }

  /** Appending a transaction for a book with that ISBN makes the user an owner of the ISBN. */
  lemma PurchaseGrantsOwnership(txs: seq<Transaction>, txs': seq<Transaction>, books: seq<Book>,
                                 book: Book, userId: Id, amount: real)
    requires book in books
    requires txs' == txs + [Transaction(userId, book.id, amount)]
    ensures HasUserBoughtBook(txs', books, userId, book.isbn)
  {
    var j :| 0 <= j < |books| && books[j] == book;
    assert txs'[|txs|].userId == userId && txs'[|txs|].bookId == books[j].id;
  }

  /** Ownership once granted is never lost by recording further transactions. */
  lemma OwnershipMonotone(txs: seq<Transaction>, more: seq<Transaction>, books: seq<Book>, userId: Id, isbn: string)
    requires HasUserBoughtBook(txs, books, userId, isbn)
    ensures HasUserBoughtBook(txs + more, books, userId, isbn)
  {
    var i, j :| 0 <= i < |txs| && 0 <= j < |books| &&
                txs[i].userId == userId && books[j].isbn == isbn && txs[i].bookId == books[j].id;
    assert (txs + more)[i] == txs[i];
  }

  // ---- table invariants (unique and not-null columns) ----

  /**
   * books, soft-deleted rows included: `isbn` is unique and not empty; ids
   * are distinct and below the next id.
   */
  ghost predicate CatalogueKeys(books: seq<Book>, nextId: Id)
  {
    && (forall i, j :: 0 <= i < j < |books| ==> books[i].isbn != books[j].isbn)
    && (forall i, j :: 0 <= i < j < |books| ==> books[i].id != books[j].id)
    && (forall i :: 0 <= i < |books| ==> books[i].isbn != "" && 1 <= books[i].id < nextId)
  }

  /** users: `username` and `email` unique; ids distinct and below the next id. */
  ghost predicate AccountKeys(users: seq<User>, nextId: Id)
  {
    && (forall i, j :: 0 <= i < j < |users| ==> users[i].username != users[j].username)
    && (forall i, j :: 0 <= i < j < |users| ==> users[i].email != users[j].email)
    && (forall i, j :: 0 <= i < j < |users| ==> users[i].id != users[j].id)
    && (forall i :: 0 <= i < |users| ==> 1 <= users[i].id < nextId)
  }

  /** A new account whose email, username and id are all fresh keeps the keys unique. */
  lemma AccountKeysAppend(users: seq<User>, nextId: Id, u: User)
    requires AccountKeys(users, nextId)
    requires 1 <= u.id == nextId
    requires forall k :: 0 <= k < |users| ==> users[k].email != u.email && users[k].username != u.username
    ensures AccountKeys(users + [u], nextId + 1)
  {
    var users' := users + [u];
    forall i, j | 0 <= i < j < |users'|
      ensures users'[i].username != users'[j].username
      ensures users'[i].email != users'[j].email
      ensures users'[i].id != users'[j].id
    {
      if j == |users| {
        assert users'[i] == users[i];
      }
    }
  }

  /** balances: at most one row per user, each for an id already handed out. */
  ghost predicate BalanceRows(balances: seq<Balance>, nextUserId: Id)
  {
    && (forall i, j :: 0 <= i < j < |balances| ==> balances[i].userId != balances[j].userId)
    && (forall i :: 0 <= i < |balances| ==> balances[i].userId < nextUserId)
  }

  /** Some row of the books table, soft-deleted or not, carries this ISBN: the unique index refuses it. */
  predicate IsbnInUse(books: seq<Book>, isbn: string)
  {
    exists k :: 0 <= k < |books| && books[k].isbn == isbn
  }

  /** A new row with the next id and an ISBN no row carries keeps the keys unique. */
  lemma CatalogueKeysAppend(books: seq<Book>, nextId: Id, b: Book)
    requires CatalogueKeys(books, nextId)
    requires 1 <= b.id == nextId && b.isbn != "" && !IsbnInUse(books, b.isbn)
    ensures CatalogueKeys(books + [b], nextId + 1)
  {
    var books' := books + [b];
    forall i, j | 0 <= i < j < |books'|
      ensures books'[i].isbn != books'[j].isbn && books'[i].id != books'[j].id
    {
      if j == |books| {
        assert books'[i] == books[i];
      }
    }
  }

  /**
   * Rewriting row k in place, keeping its id, keeps the keys unique when the
   * new ISBN is not empty and no other row carries it.
   */
  lemma CatalogueKeysReplace(books: seq<Book>, nextId: Id, k: nat, b: Book)
    requires CatalogueKeys(books, nextId)
    requires k < |books| && b.id == books[k].id && b.isbn != ""
    requires forall m :: 0 <= m < |books| && m != k ==> books[m].isbn != b.isbn
    ensures CatalogueKeys(books[k := b], nextId)
  {
  }

  /**
   * Soft-deleting a book changes nobody's ownership: the raw subquery behind
   * HasUserBoughtBook still sees the row.
   */
  lemma SoftDeleteKeepsOwnership(txs: seq<Transaction>, books: seq<Book>, k: nat, userId: Id, isbn: string)
    requires k < |books|
    ensures HasUserBoughtBook(txs, books[k := books[k].(deleted := true)], userId, isbn) ==
            HasUserBoughtBook(txs, books, userId, isbn)
  {
    var books' := books[k := books[k].(deleted := true)];
    if HasUserBoughtBook(txs, books, userId, isbn) {
      var i, j :| 0 <= i < |txs| && 0 <= j < |books| &&
                  txs[i].userId == userId && books[j].isbn == isbn && txs[i].bookId == books[j].id;
      assert books'[j].isbn == isbn && books'[j].id == books[j].id;
    }
    if HasUserBoughtBook(txs, books', userId, isbn) {
      var i, j :| 0 <= i < |txs| && 0 <= j < |books'| &&
                  txs[i].userId == userId && books'[j].isbn == isbn && txs[i].bookId == books'[j].id;
      assert books[j].isbn == isbn && books[j].id == books'[j].id;
    }
  }

  /** With unique ids the lookup by id finds the one live book that has it. */
  lemma UniqueIdLookup(books: seq<Book>, nextId: Id, k: nat)
    requires CatalogueKeys(books, nextId)
    requires k < |books| && !books[k].deleted
    ensures GetBookByID(books, books[k].id) == Some(books[k])
  {
  }

  /** With unique ISBNs the lookup by ISBN finds the one live book that has it. */
  lemma UniqueIsbnLookup(books: seq<Book>, nextId: Id, k: nat)
    requires CatalogueKeys(books, nextId)
    requires k < |books| && !books[k].deleted
    ensures GetBookByISBN(books, books[k].isbn) == Some(books[k])
  {
  }

  /** Soft-deleting a live row takes exactly that row out of GetAllBooks. */
  lemma {:induction false} LiveCountDrops(books: seq<Book>, k: nat)
    requires k < |books| && !books[k].deleted
    ensures |GetAllBooks(books[k := books[k].(deleted := true)])| + 1 == |GetAllBooks(books)|
  {
    var books' := books[k := books[k].(deleted := true)];
    var p := (b: Book) => !b.deleted;
    if k == 0 {
      assert books'[1..] == books[1..];
    } else {
      LiveCountDrops(books[1..], k - 1);
      assert books[1..][k - 1 := books[k].(deleted := true)] == books'[1..];
    }
  }
}
