/**
 * The reviews page (frontend/bookstore-app/src/components/Reviews.jsx): the
 * fetched review list shown two per page, the pagination control, and the
 * rating and comment form with its submit guard.
 */
module ReviewsView {
  import opened Wrappers
  import opened Seqs
  import opened Http
  import opened Paging
  import opened JsText

  const ReviewsPerPage: nat := 2

  /**
   * The page state. `rating` is the star control's value, with 0 also
   * standing for the null it reports when a selected star is clicked again.
   */
  datatype ReviewsState = ReviewsState(reviews: seq<ReviewDetail>, page: int, rating: int, comment: string)

  /** The state on first render: no reviews, page 1, no rating, empty comment. */
  function InitialReviews(): (st: ReviewsState)
    ensures st.reviews == [] && st.page == 1 && st.rating == 0 && st.comment == ""
  {
    ReviewsState([], 1, 0, "")
  }

  /** The reviews shown: page `page` of the list. */
  function DisplayedReviews(st: ReviewsState): (r: seq<ReviewDetail>)
    ensures |r| <= ReviewsPerPage
    ensures st.page >= 1 ==>
              var start := (st.page - 1) * ReviewsPerPage;
              r == st.reviews[Min(start, |st.reviews|)..Min(start + ReviewsPerPage, |st.reviews|)]
  {
    PageWidth(st.reviews, st.page, ReviewsPerPage);
    assert st.page >= 1 ==>
             var start := (st.page - 1) * ReviewsPerPage;
             PageOf(st.reviews, st.page, ReviewsPerPage) ==
             st.reviews[Min(start, |st.reviews|)..Min(start + ReviewsPerPage, |st.reviews|)] by {
      if st.page >= 1 {
        PageRun(st.reviews, st.page, ReviewsPerPage);
      }
    }
    PageOf(st.reviews, st.page, ReviewsPerPage)
  }

  /** `Math.ceil(reviews.length / 2)`. */
  function ReviewPages(st: ReviewsState): (r: nat)
    ensures r * ReviewsPerPage >= |st.reviews|
    ensures r > 0 ==> (r - 1) * ReviewsPerPage < |st.reviews|
  {
    PageCount(|st.reviews|, ReviewsPerPage)
  }

  /** The pagination control is rendered only when there is more than one page. */
  predicate ShowsPagination(st: ReviewsState)
  {
    ReviewPages(st) > 1
  }

  /** "No reviews yet. Be the first person to review this book." replaces the list. */
  predicate ShowsNoReviewsYet(st: ReviewsState)
  {
    |st.reviews| == 0
  }

  /**
   * The "no reviews yet" text is shown exactly when there are no pages, and
   * then neither a review nor the pagination control is; otherwise every
   * page the control offers shows at least one review.
   */
  lemma NoReviewsYetIffNoPages(st: ReviewsState)
    ensures ShowsNoReviewsYet(st) <==> ReviewPages(st) == 0
    ensures ShowsNoReviewsYet(st) ==> DisplayedReviews(st) == [] && !ShowsPagination(st)
    ensures !ShowsNoReviewsYet(st) && 1 <= st.page <= ReviewPages(st) ==> |DisplayedReviews(st)| > 0
  {
    if !ShowsNoReviewsYet(st) && 1 <= st.page <= ReviewPages(st) {
      assert (st.page - 1) * ReviewsPerPage <= (ReviewPages(st) - 1) * ReviewsPerPage;
    }
  }

  /** The control appears exactly when the list holds three reviews or more. */
  lemma PaginationIffMoreThanOnePage(st: ReviewsState)
    ensures ShowsPagination(st) <==> |st.reviews| > ReviewsPerPage
  {
  }

  /** `setReviews(response.data)`: the list is replaced, the rest kept. */
  function ReviewsLoaded(st: ReviewsState, reviews: seq<ReviewDetail>): (r: ReviewsState)
    ensures r.reviews == reviews && r.page == st.page && r.rating == st.rating && r.comment == st.comment
  {
    st.(reviews := reviews)
  }

  /** The pagination control: the page becomes the chosen value. */
  function ChangeReviewPage(st: ReviewsState, value: int): (r: ReviewsState)
    ensures r.page == value && r.reviews == st.reviews && r.rating == st.rating && r.comment == st.comment
  {
    st.(page := value)
  }

  /** The star control; `None` is the null it reports when the chosen star is clicked again. */
  function RatingChanged(st: ReviewsState, value: Option<int>): (r: ReviewsState)
    ensures r.rating == (if value.Some? then value.value else 0)
    ensures r.reviews == st.reviews && r.page == st.page && r.comment == st.comment
  {
    st.(rating := if value.Some? then value.value else 0)
  }

  /** The comment box. */
  function CommentChanged(st: ReviewsState, text: string): (r: ReviewsState)
    ensures r.comment == text && r.reviews == st.reviews && r.page == st.page && r.rating == st.rating
  {
    st.(comment := text)
  }

  /**
   * The newest review, which the server appends last, is on the last page
   * the control offers.
   */
  lemma LatestReviewOnLastPage(st: ReviewsState)
    requires |st.reviews| > 0
    ensures ReviewPages(st) >= 1
    ensures st.reviews[|st.reviews| - 1] in DisplayedReviews(ChangeReviewPage(st, ReviewPages(st)))
  {
    var n := |st.reviews|;
    var p := ReviewPages(st);
    var start := (p - 1) * ReviewsPerPage;
    assert start < n <= start + ReviewsPerPage;
    var shown := DisplayedReviews(ChangeReviewPage(st, p));
    assert shown == st.reviews[start..n];
    assert shown[n - 1 - start] == st.reviews[n - 1];
  }

  /** The submit guard: a rating above 0 and a comment that is not blank once trimmed. */
  predicate CanSubmit(st: ReviewsState)
  {
    st.rating > 0 && Trim(st.comment) != ""
  }

  /** A comment passes the guard exactly when it holds a character other than whitespace. */
  lemma CanSubmitIff(st: ReviewsState)
    ensures CanSubmit(st) <==> st.rating > 0 && !AllWhitespace(st.comment)
  {
    TrimEmptyIff(st.comment);
  }

  datatype SubmitStep = PostRequest(rating: int, comment: string) | SubmitRefused(alert: string)

  /**
   * `handleSubmitReview`: the POST goes out, with the comment as typed
   * (untrimmed), exactly when the guard holds; otherwise an alert.
   */
  function SubmitReview(st: ReviewsState): (r: SubmitStep)
    ensures r.PostRequest? <==> CanSubmit(st)
    ensures r.PostRequest? ==> r.rating == st.rating && r.comment == st.comment
    ensures r.SubmitRefused? ==>
              r.alert == "Please provide both a rating and a comment before submitting your review."
  {
    if CanSubmit(st) then PostRequest(st.rating, st.comment)
    else SubmitRefused("Please provide both a rating and a comment before submitting your review.")
  }

  /**
   * After a successful post the form is cleared and page 1 is shown (the
   * list itself is refetched separately, see ReviewsLoaded); submitting
   * again straight away is refused.
   */
  function AfterPosted(st: ReviewsState): (r: ReviewsState)
    ensures r.rating == 0 && r.comment == "" && r.page == 1 && r.reviews == st.reviews
    ensures SubmitReview(r).SubmitRefused?
  {
    st.(rating := 0, comment := "", page := 1)
  }
}
