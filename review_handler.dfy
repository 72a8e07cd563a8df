/** internal/handlers/review_handler.go: listing and posting reviews of a book. */
module ReviewHandler {
  import opened Wrappers
  import opened Models
  import opened Http
  import opened Sessions
  import opened Db

  /** The two fields of the bound `models.Review` body that the handler reads. */
  datatype ReviewInput = ReviewInput(rating: int, comment: string)

  /** One entry of the review list: the author's username and the review's own fields. */
  function Detail(author: User, review: Review): (d: ReviewDetail)
    ensures d.userName == author.username
    ensures d.rating == review.rating && d.comment == review.comment && d.createdAt == review.createdAt
  {
    ReviewDetail(author.username, review.rating, review.comment, review.createdAt)
  }

  /** Every review's author is found by id (soft-deleted accounts included). */
  predicate AuthorsKnown(users: seq<User>, rs: seq<Review>)
  {
    forall k :: 0 <= k < |rs| ==> FindUserById(users, rs[k].userId).Some?
  }

  /**
   * `GET /api/getReview/:isbn`: 404 when no live book has the ISBN; 500 as
   * soon as one review's author cannot be found; else one detail per review
   * of the book, in the order of the preloaded list.
   */
  method GetReviewByISBN(db: Store, isbn: string) returns (resp: Response)
    ensures GetBookByISBN(db.books, isbn).None? ==> resp == Response(NotFound, Error("Book not found"))
    ensures GetBookByISBN(db.books, isbn).Some? ==>
              var rs := ReviewsOf(db.reviews, GetBookByISBN(db.books, isbn).value.id);
              if AuthorsKnown(db.users, rs) then
                && resp.code == OK && resp.payload.ReviewList?
                && |resp.payload.details| == |rs|
                && forall k :: 0 <= k < |rs| ==>
                     resp.payload.details[k] == Detail(FindUserById(db.users, rs[k].userId).value, rs[k])
              else
                resp == Response(InternalServerError, Error("Failed to fetch user details"))
  {
    var book := GetBookByISBN(db.books, isbn);
    if book.None? {
      return Response(NotFound, Error("Book not found"));
    }
    var rs := ReviewsOf(db.reviews, book.value.id);
    var details: seq<ReviewDetail> := [];
    for i := 0 to |rs|
      invariant |details| == i
      invariant forall k :: 0 <= k < i ==>
                  FindUserById(db.users, rs[k].userId).Some? &&
                  details[k] == Detail(FindUserById(db.users, rs[k].userId).value, rs[k])
    {
      var author := FindUserById(db.users, rs[i].userId);
      if author.None? {
        return Response(InternalServerError, Error("Failed to fetch user details"));
      }
      details := details + [Detail(author.value, rs[i])];
    }
    resp := Response(OK, ReviewList(details));
  }

  /**
   * `POST /api/post-review/:isbn`: 404 when no live book has the ISBN; a
   * recovered panic (nothing stored) when the session holds no user id; 400
   * for a body that does not bind; else the review is stored with the
   * book's id, the session user and the time `now`. Neither ownership nor
   * the rating's range is checked.
   */
  method PostReview(db: Store, values: map<string, SessionValue>, isbn: string, input: Bound<ReviewInput>, now: int)
    returns (resp: Response)
    modifies db`reviews
    ensures GetBookByISBN(db.books, isbn).None? ==> resp == Response(NotFound, Error("Book not found")) && unchanged(db)
    ensures GetBookByISBN(db.books, isbn).Some? && SessionUser(values).None? ==> resp == Recovered && unchanged(db)
    ensures GetBookByISBN(db.books, isbn).Some? && SessionUser(values).Some? && input.Malformed? ==>
              resp == Response(BadRequest, BindFailure) && unchanged(db)
    ensures GetBookByISBN(db.books, isbn).Some? && SessionUser(values).Some? && input.Parsed? ==>
              && resp == Response(Created, Message("Review posted successfully"))
              && db.reviews == old(db.reviews) + [Review(GetBookByISBN(db.books, isbn).value.id, SessionUser(values).value,
                                                         input.value.rating, input.value.comment, now)]
  {
    var book := GetBookByISBN(db.books, isbn);
    if book.None? {
      return Response(NotFound, Error("Book not found"));
    }
    var userId := SessionUser(values);
    if userId.None? {
      return Recovered;
    }
    if input.Malformed? {
      return Response(BadRequest, BindFailure);
    }
    db.reviews := db.reviews + [Review(book.value.id, userId.value, input.value.rating, input.value.comment, now)];
    resp := Response(Created, Message("Review posted successfully"));
  }

  /**
   * A client that posts a review and then lists the book's reviews: when
   * the post succeeds and every author (the poster included) is known, the
   * list ends with the new review under the poster's username.
   */
  method PostThenList(db: Store, values: map<string, SessionValue>, isbn: string, input: ReviewInput, now: int)
    returns (posted: Response, listed: Response)
    modifies db`reviews
    ensures posted.code == Created ==> GetBookByISBN(db.books, isbn).Some? && SessionUser(values).Some?
    ensures posted.code == Created && GetBookByISBN(db.books, isbn).Some? && SessionUser(values).Some? &&
            FindUserById(db.users, SessionUser(values).value).Some? &&
            AuthorsKnown(db.users, ReviewsOf(old(db.reviews), GetBookByISBN(db.books, isbn).value.id)) ==>
              && listed.code == OK && listed.payload.ReviewList?
              && |listed.payload.details| > 0
              && listed.payload.details[|listed.payload.details| - 1] ==
                   ReviewDetail(FindUserById(db.users, SessionUser(values).value).value.username,
                                input.rating, input.comment, now)
  {
    posted := PostReview(db, values, isbn, Parsed(input), now);
    if posted.code == Created {
      var bookId := GetBookByISBN(db.books, isbn).value.id;
      ReviewsOfAppend(old(db.reviews), Review(bookId, SessionUser(values).value, input.rating, input.comment, now), bookId);
    }
    listed := GetReviewByISBN(db, isbn);
  }
}
