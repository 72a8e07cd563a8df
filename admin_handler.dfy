/**
 * internal/handlers/admin_handler.go: creating, updating and deleting
 * books. Every route runs AdminOnly first; a request it aborts reaches the
 * handler only to return at once (`c.IsAborted()`), so each method below is
 * the middleware followed by the handler.
 */
module AdminHandler {
  import opened Wrappers
  import opened Models
  import opened Http
  import opened Sessions
  import opened Db
  import opened Middlewares

  const PermissionDenied: Response := Response(Forbidden, Error("Permission denied"))

  /**
   * `POST /api/books/create-book`: 403 for a non-admin session, 400 for a
   * body that does not bind, 500 when a row (even a soft-deleted one)
   * already has the ISBN, else the book and its download row are inserted.
   * When a download row for the ISBN is left over from an earlier book, the
   * model's lookup keeps finding that older row; the program leaves open
   * which of the two its `First` returns.
   */
  method CreateBook(db: Store, values: map<string, SessionValue>, input: Bound<BookInput>) returns (resp: Response)
    requires db.Valid()
    modifies db`books, db`downloads, db`nextBookId
    ensures db.Valid()
    ensures !IsAdminSession(values) ==> resp == PermissionDenied && unchanged(db)
    ensures IsAdminSession(values) && (input.Malformed? || !BookInputValid(input.value)) ==>
              resp == Response(BadRequest, BindFailure) && unchanged(db)
    ensures IsAdminSession(values) && input.Parsed? && BookInputValid(input.value) ==>
              var inp := input.value;
              if IsbnInUse(old(db.books), inp.isbn) then
                resp == Response(InternalServerError, Error("Failed to create book")) && unchanged(db)
              else
                var book := NewBook(old(db.nextBookId), inp);
                && resp == Response(OK, MessageWithData("Book created successfully", book))
                && db.books == old(db.books) + [book]
                && db.nextBookId == old(db.nextBookId) + 1
                && db.downloads == old(db.downloads) + [BookDownload(inp.isbn, inp.downloadLink)]
                && GetBookByISBN(db.books, inp.isbn) == Some(book)
                && GetBookDownloadByISBN(db.downloads, inp.isbn) ==
                     if old(GetBookDownloadByISBN(db.downloads, inp.isbn)).Some?
                     then old(GetBookDownloadByISBN(db.downloads, inp.isbn))
                     else Some(BookDownload(inp.isbn, inp.downloadLink))
  {
    var guard := AdminOnly(values);
    if guard.Some? {
      return guard.value;
    }
    if input.Malformed? || !BookInputValid(input.value) {
      return Response(BadRequest, BindFailure);
    }
    var inp := input.value;
    if IsbnInUse(db.books, inp.isbn) {
      return Response(InternalServerError, Error("Failed to create book"));
    }
    var book := db.InsertBook(inp);
    db.InsertDownload(inp.isbn, inp.downloadLink);
    resp := Response(OK, MessageWithData("Book created successfully", book));
  }

  /**
   * `PUT /api/books/:isbn`: 403 for a non-admin session, 404 when no live
   * book has the path ISBN, then 400 for a body that does not bind, 500
   * when the new ISBN belongs to another row; else the six fields are
   * overwritten and the download row keyed by the PATH ISBN is upserted.
   */
  method UpdateBook(db: Store, values: map<string, SessionValue>, isbn: string, input: Bound<BookInput>)
    returns (resp: Response)
    requires db.Valid()
    modifies db`books, db`downloads
    ensures db.Valid()
    ensures !IsAdminSession(values) ==> resp == PermissionDenied && unchanged(db)
    ensures IsAdminSession(values) && old(GetBookByISBN(db.books, isbn)).None? ==>
              resp == Response(NotFound, Error("Book not found")) && unchanged(db)
    ensures IsAdminSession(values) && old(GetBookByISBN(db.books, isbn)).Some? ==>
              var k := BookIndexByIsbn(old(db.books), isbn).value;
              if input.Malformed? || !BookInputValid(input.value) then
                resp == Response(BadRequest, BindFailure) && unchanged(db)
              else if input.value.isbn != isbn && IsbnInUse(old(db.books), input.value.isbn) then
                resp == Response(InternalServerError, Error("Failed to update book")) && unchanged(db)
              else
                var updated := Overwritten(old(db.books)[k], input.value);
                && resp == Response(OK, MessageWithData("Book updated successfully", updated))
                && db.books == old(db.books)[k := updated]
                && db.downloads == UpsertDownload(old(db.downloads), isbn, input.value.downloadLink)
                && GetBookByISBN(db.books, input.value.isbn) == Some(updated)
                && (input.value.isbn != isbn ==> GetBookByISBN(db.books, isbn).None?)
                && GetBookDownloadByISBN(db.downloads, isbn) == Some(BookDownload(isbn, input.value.downloadLink))
  {
    var guard := AdminOnly(values);
    if guard.Some? {
      return guard.value;
    }
    var k := BookIndexByIsbn(db.books, isbn);
    if k.None? {
      return Response(NotFound, Error("Book not found"));
    }
    if input.Malformed? || !BookInputValid(input.value) {
      return Response(BadRequest, BindFailure);
    }
    var inp := input.value;
    if inp.isbn != isbn && IsbnInUse(db.books, inp.isbn) {
      return Response(InternalServerError, Error("Failed to update book"));
    }
    var updated := Overwritten(db.books[k.value], inp);
    db.ReplaceBook(k.value, updated);
    db.UpsertDownloadRow(isbn, inp.downloadLink);
    resp := Response(OK, MessageWithData("Book updated successfully", updated));
  }

  /**
   * `DELETE /api/books/:isbn`: 403 for a non-admin session, 404 when no live
   * book has the ISBN, else the row is soft-deleted. The download rows are
   * not in the frame, and ownership of the ISBN is unchanged for every user,
   * so owners keep being served their download link.
   */
  method DeleteBook(db: Store, values: map<string, SessionValue>, isbn: string) returns (resp: Response)
    requires db.Valid()
    modifies db`books
    ensures db.Valid()
    ensures !IsAdminSession(values) ==> resp == PermissionDenied && unchanged(db)
    ensures IsAdminSession(values) && old(GetBookByISBN(db.books, isbn)).None? ==>
              resp == Response(NotFound, Error("Book not found")) && unchanged(db)
    ensures IsAdminSession(values) && old(GetBookByISBN(db.books, isbn)).Some? ==>
              var k := BookIndexByIsbn(old(db.books), isbn).value;
              && resp == Response(OK, Message("Book deleted successfully"))
              && db.books == old(db.books)[k := old(db.books)[k].(deleted := true)]
              && GetBookByISBN(db.books, isbn).None?
              && |GetAllBooks(db.books)| + 1 == |GetAllBooks(old(db.books))|
    ensures forall u :: HasUserBoughtBook(db.transactions, db.books, u, isbn) ==
                        old(HasUserBoughtBook(db.transactions, db.books, u, isbn))
  {
    var guard := AdminOnly(values);
    if guard.Some? {
      return guard.value;
    }
    var k := BookIndexByIsbn(db.books, isbn);
    if k.None? {
      return Response(NotFound, Error("Book not found"));
    }
    db.SoftDeleteBook(k.value);
    resp := Response(OK, Message("Book deleted successfully"));
  }
}
