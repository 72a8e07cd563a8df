/**
 * The database (`models.DB`) as in-memory tables, with the row-writing
 * helpers of internal/models/transaction.go. Auto-increment counters give
 * new users and books their primary keys.
 */
module Db {
  import opened Wrappers
  import opened Models

  class Store {
    var books: seq<Book>
    var downloads: seq<BookDownload>
    var reviews: seq<Review>
    var users: seq<User>
    var balances: seq<Balance>
    var transactions: seq<Transaction>
    var nextBookId: Id
    var nextUserId: Id

    /** The unique and not-null constraints of the tables, and fresh primary keys. */
    ghost predicate Valid()
      reads this
    {
      && 1 <= nextBookId && 1 <= nextUserId
      && CatalogueKeys(books, nextBookId)
      && AccountKeys(users, nextUserId)
      && BalanceRows(balances, nextUserId)
    }

    /** An empty database; auto-increment keys start at 1. */
    constructor ()
      ensures Valid()
      ensures books == [] && downloads == [] && reviews == [] && users == []
      ensures balances == [] && transactions == []
      ensures nextBookId == 1 && nextUserId == 1
    {
      books, downloads, reviews := [], [], [];
      users, balances, transactions := [], [], [];
      nextBookId, nextUserId := 1, 1;
    }

    /** `DB.Create(&book)` in CreateBook: a new live row under the next id, for an unused ISBN. */
    method InsertBook(input: BookInput) returns (book: Book)
      requires Valid()
      requires input.isbn != "" && !IsbnInUse(books, input.isbn)
      modifies this`books, this`nextBookId
      ensures Valid()
      ensures book == NewBook(old(nextBookId), input) && nextBookId == old(nextBookId) + 1
      ensures books == old(books) + [book]
      ensures GetBookByISBN(books, input.isbn) == Some(book)
    {
      book := NewBook(nextBookId, input);
      CatalogueKeysAppend(books, nextBookId, book);
      FirstIndexAppend(books, book, (b: Book) => b.isbn == input.isbn && !b.deleted);
      books := books + [book];
      nextBookId := nextBookId + 1;
    }

    /**
     * `DB.Save(&book)` in UpdateBook: row k rewritten under its own id. The
     * new ISBN is then found at that row, and a replaced ISBN is no longer found.
     */
    method ReplaceBook(k: nat, b: Book)
      requires Valid()
      requires k < |books| && b.id == books[k].id && b.isbn != ""
      requires b.isbn == books[k].isbn || !IsbnInUse(books, b.isbn)
      modifies this`books
      ensures Valid()
      ensures books == old(books)[k := b]
      ensures !b.deleted ==> GetBookByISBN(books, b.isbn) == Some(b)
      ensures old(books)[k].isbn != b.isbn ==> GetBookByISBN(books, old(books)[k].isbn).None?
    {
      var before := books;
      forall m | 0 <= m < |books| && m != k
        ensures books[m].isbn != b.isbn
      {
        assert books[m].isbn != books[k].isbn;
      }
      CatalogueKeysReplace(books, nextBookId, k, b);
      books := books[k := b];
      if !b.deleted {
        UniqueIsbnLookup(books, nextBookId, k);
      }
      forall m | 0 <= m < |books| && m != k
        ensures books[m].isbn != before[k].isbn
      {
        assert books[m] == before[m];
      }
    }

    /**
     * `DB.Delete(&book)` in DeleteBook: gorm's soft delete marks row k. The
     * book drops out of every gorm query, yet nobody's ownership changes,
     * since the raw subquery behind HasUserBoughtBook still sees the row.
     */
    method SoftDeleteBook(k: nat)
      requires Valid()
      requires k < |books| && !books[k].deleted
      modifies this`books
      ensures Valid()
      ensures books == old(books)[k := old(books)[k].(deleted := true)]
      ensures GetBookByISBN(books, old(books)[k].isbn).None?
      ensures |GetAllBooks(books)| + 1 == |GetAllBooks(old(books))|
      ensures forall u, isbn :: HasUserBoughtBook(transactions, books, u, isbn) ==
                                HasUserBoughtBook(transactions, old(books), u, isbn)
    {
      var before := books;
      var gone := books[k].(deleted := true);
      CatalogueKeysReplace(books, nextBookId, k, gone);
      forall u, isbn
        ensures HasUserBoughtBook(transactions, before[k := gone], u, isbn) ==
                HasUserBoughtBook(transactions, before, u, isbn)
      {
        SoftDeleteKeepsOwnership(transactions, before, k, u, isbn);
      }
      LiveCountDrops(before, k);
      books := books[k := gone];
      forall m | 0 <= m < |books| && m != k
        ensures books[m].isbn != before[k].isbn
      {
        assert books[m] == before[m];
      }
    }

    /** DeleteAccount's `DB.Save(&user)`: row i marked deleted, every key kept. */
    method MarkUserDeleted(i: nat)
      requires Valid()
      requires i < |users|
      modifies this`users
      ensures Valid()
      ensures users == old(users)[i := MarkDeleted(old(users)[i])]
    {
      var before := users;
      users := users[i := MarkDeleted(users[i])];
      assert forall m :: 0 <= m < |users| ==>
               users[m].id == before[m].id && users[m].email == before[m].email &&
               users[m].username == before[m].username;
    }

    /**
     * `DB.Create(&downloadLink)`: one more row. When a row for the ISBN
     * already exists, the model's lookup keeps returning it; the program
     * leaves open which of the two rows its `First` returns.
     */
    method InsertDownload(isbn: string, link: string)
      modifies this`downloads
      ensures downloads == old(downloads) + [BookDownload(isbn, link)]
      ensures GetBookDownloadByISBN(downloads, isbn) ==
                if old(GetBookDownloadByISBN(downloads, isbn)).Some? then old(GetBookDownloadByISBN(downloads, isbn))
                else Some(BookDownload(isbn, link))
    {
      FirstIndexAppend(downloads, BookDownload(isbn, link), (d: BookDownload) => d.isbn == isbn);
      downloads := downloads + [BookDownload(isbn, link)];
    }

    /** UpdateBook's download upsert keyed by `isbn`: afterwards the lookup gives `link`. */
    method UpsertDownloadRow(isbn: string, link: string)
      modifies this`downloads
      ensures downloads == UpsertDownload(old(downloads), isbn, link)
      ensures GetBookDownloadByISBN(downloads, isbn) == Some(BookDownload(isbn, link))
    {
      UpsertDownloadLookup(downloads, isbn, link, isbn + "?");
      downloads := UpsertDownload(downloads, isbn, link);
    }

    /** `CreateTransaction`: appends exactly one row with the given user, book and amount. */
    method CreateTransaction(userId: Id, bookId: Id, amount: real)
      modifies this`transactions
      ensures transactions == old(transactions) + [Transaction(userId, bookId, amount)]
    {
      transactions := transactions + [Transaction(userId, bookId, amount)];
    }

    /**
     * `DB.Create(&user)` in Register: appends a new active account under the
     * next id, for an email and a username that no account has yet.
     */
    method CreateUser(username: string, email: string, passwordHash: string) returns (id: Id)
      requires Valid()
      requires FindUserByEmail(users, email).None? && FindUserByUsername(users, username).None?
      modifies this`users, this`nextUserId
      ensures Valid()
      ensures id == old(nextUserId) && nextUserId == id + 1
      ensures users == old(users) + [NewUser(id, username, email, passwordHash)]
      ensures FindUserByEmail(users, email) == Some(NewUser(id, username, email, passwordHash))
      ensures GetBalanceByUserID(balances, id).None?
    {
      id := nextUserId;
      var user := NewUser(id, username, email, passwordHash);
      FirstIndexAppend(users, user, (u: User) => u.email == email);
      AccountKeysAppend(users, nextUserId, user);
      users := users + [user];
      nextUserId := id + 1;
    }

    /** `CreateBalance`: appends one balance row for a user that has none yet. */
    method CreateBalance(userId: Id, amount: real)
      requires Valid()
      requires userId < nextUserId
      requires GetBalanceByUserID(balances, userId).None?
      modifies this`balances
      ensures Valid()
      ensures balances == old(balances) + [Balance(userId, amount)]
      ensures GetBalanceByUserID(balances, userId) == Some(Balance(userId, amount))
    {
      FirstIndexAppend(balances, Balance(userId, amount), (b: Balance) => b.userId == userId);
      balances := balances + [Balance(userId, amount)];
    }

    /**
     * `UpdateBalance`: fails, changing nothing, when the user has no balance
     * row; otherwise overwrites that row's amount and no other row.
     */
    method UpdateBalance(userId: Id, newAmount: real) returns (ok: bool)
      requires Valid()
      modifies this`balances
      ensures Valid()
      ensures ok <==> old(GetBalanceByUserID(balances, userId)).Some?
      ensures ok ==> Some(balances) == UpdatedBalances(old(balances), userId, newAmount)
      ensures !ok ==> balances == old(balances)
    {
      var i := BalanceIndex(balances, userId);
      if i.None? {
        return false;
      }
      balances := balances[i.value := balances[i.value].(amount := newAmount)];
      ok := true;
    }
  }
}
