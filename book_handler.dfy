/** internal/handlers/book_handler.go: the public catalogue routes. */
module BookHandler {
  import opened Wrappers
  import opened Models
  import opened Http
  import opened Db
  import opened Strconv

  /** `GET /api/books`: every live book. */
  function GetBooks(db: Store): (r: Response)
    reads db
    ensures r.code == OK && r.payload.BookList?
    ensures forall b :: b in r.payload.books <==> b in db.books && !b.deleted
  {
    Response(OK, BookList(GetAllBooks(db.books)))
  }

  /**
   * `GET /api/books/:id`: 400 when the id is not a decimal int64, 404 when
   * no live book has it, else that book.
   */
  function GetBookDetails(db: Store, idText: string): (r: Response)
    reads db
    ensures Atoi(idText).None? ==> r == Response(BadRequest, Error("Invalid book ID"))
    ensures Atoi(idText).Some? && GetBookByID(db.books, Atoi(idText).value).None? ==>
              r == Response(NotFound, Error("Book not found"))
    ensures r.code == OK ==>
              && Atoi(idText).Some? && r.payload.OneBook?
              && r.payload.book.id == Atoi(idText).value
              && r.payload.book in db.books && !r.payload.book.deleted
    ensures r.code == OK || r.code == BadRequest || r.code == NotFound
  {
    match Atoi(idText)
    case None => Response(BadRequest, Error("Invalid book ID"))
    case Some(id) =>
      match GetBookByID(db.books, id)
      case None => Response(NotFound, Error("Book not found"))
      case Some(book) => Response(OK, OneBook(book))
  }

  /** Every live book is reachable by the decimal text of its id. */
  lemma BookDetailsByItsId(db: Store, k: nat)
    requires db.Valid()
    requires k < |db.books| && !db.books[k].deleted && db.books[k].id <= MaxInt64
    ensures GetBookDetails(db, Itoa(db.books[k].id)) == Response(OK, OneBook(db.books[k]))
  {
    AtoiItoa(db.books[k].id);
    UniqueIdLookup(db.books, db.nextBookId, k);
  }
}
