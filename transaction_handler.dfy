/**
 * internal/handlers/transaction_handler.go: buying a book behind the
 * ownership guard, and the balance, ownership and download-link queries.
 */
module TransactionHandler {
  import opened Wrappers
  import opened Models
  import opened Http
  import opened Sessions
  import opened Db
  import opened Middlewares

  /**
   * What BuyBook does for a logged-in user, from the tables before (books,
   * balances, txs) to the balance and transaction tables after (balances',
   * txs'). `insertFails` stands for the database refusing the transaction
   * insert, the one write failure that leaves a visible trace.
   */
  ghost predicate PurchaseOutcome(books: seq<Book>, balances: seq<Balance>, txs: seq<Transaction>,
                                  balances': seq<Balance>, txs': seq<Transaction>,
                                  userId: Id, isbn: string, insertFails: bool, resp: Response)
  {
    match GetBookByISBN(books, isbn)
    case None =>
      resp == Response(NotFound, Error("Book not found")) && balances' == balances && txs' == txs
    case Some(book) =>
      match GetBalanceByUserID(balances, userId)
      case None =>
        resp == Response(InternalServerError, Error("Failed to fetch balance")) && balances' == balances && txs' == txs
      case Some(balance) =>
        if balance.amount < book.price then
          resp == Response(Forbidden, Error("Insufficient balance")) && balances' == balances && txs' == txs
        else
          && Some(balances') == UpdatedBalances(balances, userId, balance.amount - book.price)
          && if insertFails then
               resp == Response(InternalServerError, Error("Failed to create transaction")) && txs' == txs
             else
               resp == Response(OK, Message("Book purchased successfully")) &&
               txs' == txs + [Transaction(userId, book.id, book.price)]
  }

  /** The buy route: CheckOwnershipStatus, then BuyBook when it lets the request through. */
  ghost predicate BuyRouteOutcome(books: seq<Book>, balances: seq<Balance>, txs: seq<Transaction>,
                                  balances': seq<Balance>, txs': seq<Transaction>,
                                  values: map<string, SessionValue>, isbn: string, insertFails: bool, resp: Response)
  {
    match SessionUser(values)
    case None =>
      resp == Response(Unauthorized, Error("Unauthorized")) && balances' == balances && txs' == txs
    case Some(userId) =>
      if HasUserBoughtBook(txs, books, userId, isbn) then
        resp == Response(OK, Message("Already bought")) && balances' == balances && txs' == txs
      else
        PurchaseOutcome(books, balances, txs, balances', txs', userId, isbn, insertFails, resp)
  }

  /**
   * A successful purchase lowers the buyer's balance by exactly the book's
   * price, records one transaction for that amount, and makes the buyer an
   * owner of the ISBN.
   */
  lemma PurchaseCharges(books: seq<Book>, balances: seq<Balance>, txs: seq<Transaction>,
                        balances': seq<Balance>, txs': seq<Transaction>,
                        userId: Id, isbn: string, insertFails: bool, resp: Response)
    requires PurchaseOutcome(books, balances, txs, balances', txs', userId, isbn, insertFails, resp)
    requires resp == Response(OK, Message("Book purchased successfully"))
    ensures GetBookByISBN(books, isbn).Some? && GetBalanceByUserID(balances, userId).Some?
    ensures var price := GetBookByISBN(books, isbn).value.price;
            var before := GetBalanceByUserID(balances, userId).value.amount;
            && price <= before
            && GetBalanceByUserID(balances', userId) == Some(Balance(userId, before - price))
            && txs' == txs + [Transaction(userId, GetBookByISBN(books, isbn).value.id, price)]
            && HasUserBoughtBook(txs', books, userId, isbn)
  {
    assert GetBookByISBN(books, isbn).Some?;
    var book := GetBookByISBN(books, isbn).value;
    assert GetBalanceByUserID(balances, userId).Some?;
    var balance := GetBalanceByUserID(balances, userId).value;
    assert !insertFails && book.price <= balance.amount;
    assert txs' == txs + [Transaction(userId, book.id, book.price)];
    UpdatedBalanceReadsBack(balances, userId, balance.amount - book.price);
    PurchaseGrantsOwnership(txs, txs', books, book, userId, book.price);
  }

  /**
   * Refusals leave both tables as they were: an unknown ISBN, a missing
   * balance row, and a balance below the price.
   */
  lemma PurchaseRefusalsChangeNothing(books: seq<Book>, balances: seq<Balance>, txs: seq<Transaction>,
                                      balances': seq<Balance>, txs': seq<Transaction>,
                                      userId: Id, isbn: string, insertFails: bool, resp: Response)
    requires PurchaseOutcome(books, balances, txs, balances', txs', userId, isbn, insertFails, resp)
    requires resp.code != OK
    requires resp != Response(InternalServerError, Error("Failed to create transaction"))
    ensures balances' == balances && txs' == txs
    ensures GetBookByISBN(books, isbn).None? <==> resp.code == NotFound
    ensures resp.code == Forbidden <==>
              GetBookByISBN(books, isbn).Some? && GetBalanceByUserID(balances, userId).Some? &&
              GetBalanceByUserID(balances, userId).value.amount < GetBookByISBN(books, isbn).value.price
  {
  }

  /**
   * The balance is written before the transaction is recorded: when the
   * insert fails the price stays deducted, yet no transaction (and so no
   * ownership) is recorded.
   */
  lemma FailedInsertKeepsDeduction(books: seq<Book>, balances: seq<Balance>, txs: seq<Transaction>,
                                   balances': seq<Balance>, txs': seq<Transaction>,
                                   userId: Id, isbn: string, resp: Response)
    requires PurchaseOutcome(books, balances, txs, balances', txs', userId, isbn, true, resp)
    requires GetBookByISBN(books, isbn).Some? && GetBalanceByUserID(balances, userId).Some?
    requires GetBookByISBN(books, isbn).value.price <= GetBalanceByUserID(balances, userId).value.amount
    ensures resp == Response(InternalServerError, Error("Failed to create transaction"))
    ensures txs' == txs
    ensures GetBalanceByUserID(balances', userId) ==
              Some(Balance(userId, GetBalanceByUserID(balances, userId).value.amount - GetBookByISBN(books, isbn).value.price))
  {
    var book := GetBookByISBN(books, isbn).value;
    var balance := GetBalanceByUserID(balances, userId).value;
    UpdatedBalanceReadsBack(balances, userId, balance.amount - book.price);
  }

  /**
   * A balance that covers the price always buys the book when the insert
   * succeeds: the response is the success message and the balance drops by
   * the price.
   */
  lemma AffordablePurchaseSucceeds(books: seq<Book>, balances: seq<Balance>, txs: seq<Transaction>,
                                   balances': seq<Balance>, txs': seq<Transaction>,
                                   userId: Id, isbn: string, resp: Response)
    requires PurchaseOutcome(books, balances, txs, balances', txs', userId, isbn, false, resp)
    requires GetBookByISBN(books, isbn).Some? && GetBalanceByUserID(balances, userId).Some?
    requires GetBookByISBN(books, isbn).value.price <= GetBalanceByUserID(balances, userId).value.amount
    ensures resp == Response(OK, Message("Book purchased successfully"))
    ensures GetBalanceByUserID(balances', userId) ==
              Some(Balance(userId, GetBalanceByUserID(balances, userId).value.amount - GetBookByISBN(books, isbn).value.price))
  {
    var book := GetBookByISBN(books, isbn).value;
    var balance := GetBalanceByUserID(balances, userId).value;
    UpdatedBalanceReadsBack(balances, userId, balance.amount - book.price);
  }

  /** One pass through the buy route that does not end in a purchase changes neither table. */
  lemma BuyRouteRefusalChangesNothing(books: seq<Book>, balances: seq<Balance>, txs: seq<Transaction>,
                                      balances': seq<Balance>, txs': seq<Transaction>,
                                      values: map<string, SessionValue>, isbn: string, resp: Response)
    requires BuyRouteOutcome(books, balances, txs, balances', txs', values, isbn, false, resp)
    requires resp != Response(OK, Message("Book purchased successfully"))
    ensures balances' == balances && txs' == txs
  {
  }

  /**
   * One pass through the buy route that ends in a purchase adds one
   * transaction, makes the session's user an owner, and lowers their
   * balance by the price.
   */
  lemma BuyRoutePurchaseCharges(books: seq<Book>, balances: seq<Balance>, txs: seq<Transaction>,
                                balances': seq<Balance>, txs': seq<Transaction>,
                                values: map<string, SessionValue>, isbn: string, resp: Response)
    requires BuyRouteOutcome(books, balances, txs, balances', txs', values, isbn, false, resp)
    requires resp == Response(OK, Message("Book purchased successfully"))
    ensures SessionUser(values).Some? && GetBookByISBN(books, isbn).Some?
    ensures GetBalanceByUserID(balances, SessionUser(values).value).Some?
    ensures |txs'| == |txs| + 1
    ensures HasUserBoughtBook(txs', books, SessionUser(values).value, isbn)
    ensures var userId := SessionUser(values).value;
            GetBalanceByUserID(balances', userId) ==
              Some(Balance(userId, GetBalanceByUserID(balances, userId).value.amount -
                                   GetBookByISBN(books, isbn).value.price))
  {
    var userId := SessionUser(values).value;
    assert !HasUserBoughtBook(txs, books, userId, isbn);
    PurchaseCharges(books, balances, txs, balances', txs', userId, isbn, false, resp);
  }

  /**
   * The ownership guard makes a purchase charge at most once: two buy
   * requests in a row for the same ISBN from the same session, with no
   * failing insert, leave the balance either untouched or lowered by the
   * price once, and add at most one transaction.
   */
  lemma RepeatedPurchaseChargesOnce(books: seq<Book>, values: map<string, SessionValue>, isbn: string,
                                    balances0: seq<Balance>, txs0: seq<Transaction>, resp1: Response,
                                    balances1: seq<Balance>, txs1: seq<Transaction>, resp2: Response,
                                    balances2: seq<Balance>, txs2: seq<Transaction>)
    requires BuyRouteOutcome(books, balances0, txs0, balances1, txs1, values, isbn, false, resp1)
    requires BuyRouteOutcome(books, balances1, txs1, balances2, txs2, values, isbn, false, resp2)
    ensures |txs2| <= |txs0| + 1
    ensures resp1 == Response(OK, Message("Book purchased successfully")) ==>
              resp2 == Response(OK, Message("Already bought")) && balances2 == balances1 && txs2 == txs1
    ensures SessionUser(values).Some? && GetBookByISBN(books, isbn).Some? &&
            GetBalanceByUserID(balances0, SessionUser(values).value).Some? ==>
              var userId := SessionUser(values).value;
              var before := GetBalanceByUserID(balances0, userId).value.amount;
              var price := GetBookByISBN(books, isbn).value.price;
              GetBalanceByUserID(balances2, userId) == Some(Balance(userId, before)) ||
              GetBalanceByUserID(balances2, userId) == Some(Balance(userId, before - price))
  {
    if resp1 == Response(OK, Message("Book purchased successfully")) {
      BuyRoutePurchaseCharges(books, balances0, txs0, balances1, txs1, values, isbn, resp1);
      assert BuyRouteOutcome(books, balances1, txs1, balances2, txs2, values, isbn, false, resp2);
      assert HasUserBoughtBook(txs1, books, SessionUser(values).value, isbn);
    } else {
      BuyRouteRefusalChangesNothing(books, balances0, txs0, balances1, txs1, values, isbn, resp1);
      if resp2 == Response(OK, Message("Book purchased successfully")) {
        BuyRoutePurchaseCharges(books, balances1, txs1, balances2, txs2, values, isbn, resp2);
      } else {
        BuyRouteRefusalChangesNothing(books, balances1, txs1, balances2, txs2, values, isbn, resp2);
      }
    }
  }

  /**
   * Without that proviso the guarantee fails: when the first insert fails, the
   * user does not own the book, so a retry passes the guard and is charged again.
   */
  lemma RetryAfterFailedInsertChargesTwice(books: seq<Book>, values: map<string, SessionValue>, isbn: string,
                                           balances0: seq<Balance>, txs0: seq<Transaction>, resp1: Response,
                                           balances1: seq<Balance>, txs1: seq<Transaction>, resp2: Response,
                                           balances2: seq<Balance>, txs2: seq<Transaction>)
    requires SessionUser(values).Some? && GetBookByISBN(books, isbn).Some?
    requires !HasUserBoughtBook(txs0, books, SessionUser(values).value, isbn)
    requires GetBalanceByUserID(balances0, SessionUser(values).value).Some?
    requires var price := GetBookByISBN(books, isbn).value.price;
             var before := GetBalanceByUserID(balances0, SessionUser(values).value).value.amount;
             price <= before && price <= before - price
    requires BuyRouteOutcome(books, balances0, txs0, balances1, txs1, values, isbn, true, resp1)
    requires BuyRouteOutcome(books, balances1, txs1, balances2, txs2, values, isbn, false, resp2)
    ensures resp1 == Response(InternalServerError, Error("Failed to create transaction"))
    ensures resp2 == Response(OK, Message("Book purchased successfully"))
    ensures var userId := SessionUser(values).value;
            var before := GetBalanceByUserID(balances0, userId).value.amount;
            var price := GetBookByISBN(books, isbn).value.price;
            GetBalanceByUserID(balances2, userId) == Some(Balance(userId, before - price - price))
  {
    var userId := SessionUser(values).value;
    assert PurchaseOutcome(books, balances0, txs0, balances1, txs1, userId, isbn, true, resp1);
    FailedInsertKeepsDeduction(books, balances0, txs0, balances1, txs1, userId, isbn, resp1);
    assert !HasUserBoughtBook(txs1, books, userId, isbn);
    AffordablePurchaseSucceeds(books, balances1, txs1, balances2, txs2, userId, isbn, resp2);
  }

  /** `BuyBook`, the handler that runs once CheckOwnershipStatus lets a request through. */
  method BuyBook(db: Store, session: Session, isbn: string, insertFails: bool) returns (resp: Response)
    requires db.Valid()
    modifies db`balances, db`transactions
    ensures db.Valid()
    ensures SessionUser(session.values).None? ==>
              resp == Response(Unauthorized, Error("Unauthorized")) && unchanged(db)
    ensures SessionUser(session.values).Some? ==>
              PurchaseOutcome(db.books, old(db.balances), old(db.transactions), db.balances, db.transactions,
                              SessionUser(session.values).value, isbn, insertFails, resp)
  {
    var userId := SessionUser(session.values);
    if userId.None? {
      return Response(Unauthorized, Error("Unauthorized"));
    }
    var book := GetBookByISBN(db.books, isbn);
    if book.None? {
      return Response(NotFound, Error("Book not found"));
    }
    var balance := GetBalanceByUserID(db.balances, userId.value);
    if balance.None? {
      return Response(InternalServerError, Error("Failed to fetch balance"));
    }
    if balance.value.amount < book.value.price {
      return Response(Forbidden, Error("Insufficient balance"));
    }
    var newBalance := balance.value.amount - book.value.price;
    var ok := db.UpdateBalance(userId.value, newBalance);
    if !ok {
      return Response(InternalServerError, Error("Failed to update balance"));
    }
    if insertFails {
      return Response(InternalServerError, Error("Failed to create transaction"));
    }
    db.CreateTransaction(userId.value, book.value.id, book.value.price);
    resp := Response(OK, Message("Book purchased successfully"));
  }

  /** `GET /api/buy-book/:isbn`: CheckOwnershipStatus, then BuyBook. */
  method BuyBookRoute(db: Store, session: Session, isbn: string, insertFails: bool) returns (resp: Response)
    requires db.Valid()
    modifies db`balances, db`transactions
    ensures db.Valid()
    ensures BuyRouteOutcome(db.books, old(db.balances), old(db.transactions), db.balances, db.transactions,
                            session.values, isbn, insertFails, resp)
  {
    var guard := CheckOwnershipStatus(db, session.values, isbn);
    if guard.Some? {
      return guard.value;
    }
    resp := BuyBook(db, session, isbn, insertFails);
  }

  /** `GetBalance`: the session user's stored amount; 401 without a session user. */
  function GetBalance(db: Store, values: map<string, SessionValue>): (r: Response)
    reads db
    ensures SessionUser(values).None? ==> r == Response(Unauthorized, Error("Unauthorized"))
    ensures r.code == OK <==>
              SessionUser(values).Some? && GetBalanceByUserID(db.balances, SessionUser(values).value).Some?
    ensures r.code == OK ==>
              r.payload == BalanceAmount(GetBalanceByUserID(db.balances, SessionUser(values).value).value.amount)
  {
    match SessionUser(values)
    case None => Response(Unauthorized, Error("Unauthorized"))
    case Some(userId) =>
      match GetBalanceByUserID(db.balances, userId)
      case None => Response(InternalServerError, Error("Failed to fetch balance"))
      case Some(balance) => Response(OK, BalanceAmount(balance.amount))
  }

  /**
   * `OwnershipStatus`: 401 when no user is logged in, else `status` is
   * HasUserBoughtBook for the session user and the ISBN.
   */
  function OwnershipStatus(db: Store, values: map<string, SessionValue>, isbn: string): (r: Response)
    reads db
    ensures !HasUserEntry(values) ==> r == Response(Unauthorized, Error("User not logged in"))
    ensures SessionUser(values).Some? ==>
              r == Response(OK, OwnershipFlag(HasUserBoughtBook(db.transactions, db.books, SessionUser(values).value, isbn)))
    ensures HasUserEntry(values) && SessionUser(values).None? ==> r == Recovered
    ensures r.code == OK ==> r.payload.OwnershipFlag?
  {
    if !HasUserEntry(values) then Response(Unauthorized, Error("User not logged in"))
    else match SessionUser(values)
      case None => Recovered
      case Some(userId) => Response(OK, OwnershipFlag(HasUserBoughtBook(db.transactions, db.books, userId, isbn)))
  }

  /**
   * `GetDownloadLink`: `{message: false}` with 401 when not logged in, 400
   * for an empty ISBN, the recovered panic for a user entry that is not a
   * uint, `{message: false}` when the book is not owned; an owner gets the
   * stored link, or 500 when no download row has the ISBN.
   */
  function GetDownloadLink(db: Store, values: map<string, SessionValue>, isbn: string): (r: Response)
    reads db
    ensures !HasUserEntry(values) ==> r == Response(Unauthorized, MessageFalse)
    ensures HasUserEntry(values) && isbn == "" ==> r == Response(BadRequest, Error("ISBN is required"))
    ensures HasUserEntry(values) && isbn != "" && SessionUser(values).None? ==> r == Recovered
    ensures SessionUser(values).Some? && isbn != "" &&
            !HasUserBoughtBook(db.transactions, db.books, SessionUser(values).value, isbn) ==>
              r == Response(OK, MessageFalse)
    ensures SessionUser(values).Some? && isbn != "" &&
            HasUserBoughtBook(db.transactions, db.books, SessionUser(values).value, isbn) ==>
              r == match GetBookDownloadByISBN(db.downloads, isbn)
                   case Some(d) => Response(OK, Message(d.downloadLink))
                   case None => Response(InternalServerError, Error("Failed to fetch download link"))
    ensures r.payload.Message? ==>
              && r.code == OK
              && SessionUser(values).Some?
              && HasUserBoughtBook(db.transactions, db.books, SessionUser(values).value, isbn)
              && GetBookDownloadByISBN(db.downloads, isbn) == Some(BookDownload(isbn, r.payload.text))
  {
    if !HasUserEntry(values) then Response(Unauthorized, MessageFalse)
    else if isbn == "" then Response(BadRequest, Error("ISBN is required"))
    else match SessionUser(values)
      case None => Recovered
      case Some(userId) =>
        if HasUserBoughtBook(db.transactions, db.books, userId, isbn) then
          match GetBookDownloadByISBN(db.downloads, isbn)
          case None => Response(InternalServerError, Error("Failed to fetch download link"))
          case Some(d) => Response(OK, Message(d.downloadLink))
        else Response(OK, MessageFalse)
  }
}
