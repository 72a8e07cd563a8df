/** What a handler writes back: a status code and a JSON body. */
module Http {
  import opened Models

  const OK: nat := 200
  const Created: nat := 201
  const BadRequest: nat := 400
  const Unauthorized: nat := 401
  const Forbidden: nat := 403
  const NotFound: nat := 404
  const InternalServerError: nat := 500

  /** One entry of GetReviewByISBN's list. */
  datatype ReviewDetail = ReviewDetail(userName: string, rating: int, comment: string, createdAt: int)

  datatype Payload =
    | Message(text: string)                  // {"message": text}
    | MessageFalse                           // {"message": false}
    | Error(text: string)                    // {"error": text}
    | BindFailure                            // {"error": err.Error()} from the JSON binder or the validator
    | BalanceAmount(amount: real)            // {"balance": amount}
    | OwnershipFlag(status: bool)            // {"status": hasBought}
    | BookList(books: seq<Book>)             // a JSON array of books
    | OneBook(book: Book)                    // a single book
    | MessageWithData(text: string, data: Book)  // {"message": text, "data": book}
    | ReviewList(details: seq<ReviewDetail>) // a JSON array of review details
    | Empty                                  // no body: a panic recovered by gin's Recovery middleware

  datatype Response = Response(code: nat, payload: Payload)

  /** A request body: either JSON that did not decode into the expected shape, or the decoded value. */
  datatype Bound<T> = Malformed | Parsed(value: T)

  /** The reply a handler gives when gin's Recovery middleware catches a panic in it. */
  const Recovered: Response := Response(InternalServerError, Empty)
}
