/**
 * The catalogue page (frontend/bookstore-app/src/components/BookDisplay.jsx):
 * its state, the derived list of shown books and page count, the
 * ownership map filled from one request per book, and the buy and
 * download buttons. The search filter and the page arithmetic are shared
 * with the admin catalogue.
 */
module CatalogView {
  import opened Wrappers
  import opened Models
  import opened Http
  import opened Sessions
  import opened Db
  import opened Seqs
  import opened Paging
  import opened JsText
  import opened TransactionHandler

  const ItemsPerPage: nat := 6

  /** `book.title.toLowerCase().includes(searchTerm.toLowerCase())`. */
  predicate TitleMatches(book: Book, term: string)
  {
    Includes(ToLower(book.title), ToLower(term))
  }

  /** The books kept by the search box, in catalogue order. */
  function Filtered(books: seq<Book>, term: string): (r: seq<Book>)
    ensures |r| <= |books|
    ensures forall b :: b in r <==> b in books && TitleMatches(b, term)
  {
    Select(books, (b: Book) => TitleMatches(b, term))
  }

  /** A title matches exactly when the lower-cased term occurs somewhere in the lower-cased title. */
  lemma TitleMatchesIffOccurs(book: Book, term: string)
    ensures TitleMatches(book, term) <==> exists i :: OccursAt(ToLower(book.title), ToLower(term), i)
  {
    IncludesIffOccurs(ToLower(book.title), ToLower(term));
  }

  /** The empty search term (the initial state, and the Clear button) keeps every book. */
  lemma FilterEmptyTermKeepsAll(books: seq<Book>)
    ensures Filtered(books, "") == books
  {
    assert ToLower("") == "";
    forall i | 0 <= i < |books|
      ensures TitleMatches(books[i], "")
    {
      IncludesEmpty(ToLower(books[i].title));
    }
    SelectKeepsAll(books, (b: Book) => TitleMatches(b, ""));
  }

  /** Filtering keeps relative order: it splits over any cut of the list. */
  lemma FilterKeepsOrder(a: seq<Book>, b: seq<Book>, term: string)
    ensures Filtered(a + b, term) == Filtered(a, term) + Filtered(b, term)
  {
    SelectAppend(a, b, (x: Book) => TitleMatches(x, term));
  }

  /** The view state: the fetched books, the page, the search box and the ownership map. */
  datatype CatalogState = CatalogState(books: seq<Book>, page: int, searchTerm: string, ownership: map<string, bool>)

  /** The state on first render: no books, page 1, empty search, empty ownership map. */
  function InitialCatalog(): (st: CatalogState)
    ensures st.books == [] && st.page == 1 && st.searchTerm == "" && st.ownership == map[]
  {
    CatalogState([], 1, "", map[])
  }

  /** The cards shown: page `page` of the filtered list. */
  function Displayed(st: CatalogState): (r: seq<Book>)
    ensures |r| <= ItemsPerPage
    ensures st.page >= 1 ==>
              var f := Filtered(st.books, st.searchTerm);
              var start := (st.page - 1) * ItemsPerPage;
              r == f[Min(start, |f|)..Min(start + ItemsPerPage, |f|)]
  {
    var f := Filtered(st.books, st.searchTerm);
    PageWidth(f, st.page, ItemsPerPage);
    assert st.page >= 1 ==>
             var start := (st.page - 1) * ItemsPerPage;
             PageOf(f, st.page, ItemsPerPage) == f[Min(start, |f|)..Min(start + ItemsPerPage, |f|)] by {
      if st.page >= 1 {
        PageRun(f, st.page, ItemsPerPage);
      }
    }
    PageOf(f, st.page, ItemsPerPage)
  }

  /** `Math.ceil(books.length / 6)`: counted over the unfiltered list, whatever the search term. */
  function TotalPages(st: CatalogState): (r: nat)
    ensures r * ItemsPerPage >= |st.books|
    ensures r > 0 ==> (r - 1) * ItemsPerPage < |st.books|
  {
    PageCount(|st.books|, ItemsPerPage)
  }

  /** `setBooks(response.data)` once the catalogue request answers. */
  function BooksLoaded(st: CatalogState, books: seq<Book>): (r: CatalogState)
    ensures r.books == books && r.page == st.page && r.searchTerm == st.searchTerm && r.ownership == st.ownership
  {
    st.(books := books)
  }

  /** Typing in the search box: the page is not reset. */
  function SetSearchTerm(st: CatalogState, term: string): (r: CatalogState)
    ensures r.searchTerm == term && r.page == st.page && r.books == st.books && r.ownership == st.ownership
    ensures TotalPages(r) == TotalPages(st)
  {
    st.(searchTerm := term)
  }

  /** The Clear button: the search term becomes empty and every book passes the filter again. */
  function ClearSearch(st: CatalogState): (r: CatalogState)
    ensures r.searchTerm == "" && r.page == st.page && r.books == st.books && r.ownership == st.ownership
    ensures Filtered(r.books, r.searchTerm) == st.books
  {
    FilterEmptyTermKeepsAll(st.books);
    SetSearchTerm(st, "")
  }

  /** The pagination control: the page becomes the chosen value, with no bounds check. */
  function ChangePage(st: CatalogState, value: int): (r: CatalogState)
    ensures r.page == value && r.books == st.books && r.searchTerm == st.searchTerm && r.ownership == st.ownership
  {
    st.(page := value)
  }

  /**
   * Every book that passes the filter is shown on some page the control
   * offers: the one numbered (index / 6) + 1.
   */
  lemma EveryMatchOnSomePage(st: CatalogState, i: nat)
    requires i < |Filtered(st.books, st.searchTerm)|
    ensures var p := i / ItemsPerPage + 1;
            && 1 <= p <= TotalPages(st)
            && Filtered(st.books, st.searchTerm)[i] in Displayed(ChangePage(st, p))
  {
    var f := Filtered(st.books, st.searchTerm);
    PageOfIndexOffered(i, |st.books|);
    var p := i / ItemsPerPage + 1;
    assert (p - 1) * ItemsPerPage <= i < (p - 1) * ItemsPerPage + ItemsPerPage;
    IndexInRun(f, i, (p - 1) * ItemsPerPage, ItemsPerPage);
  }

  /** The page holding index `i` of a list no longer than `len` is one the control offers. */
  lemma PageOfIndexOffered(i: nat, len: nat)
    requires i < len
    ensures i / ItemsPerPage < PageCount(len, ItemsPerPage)
  {
    var r := PageCount(len, ItemsPerPage);
    assert i < r * ItemsPerPage;
  }

  /**
   * Because a new search keeps the page, searching from page 2 or later for
   * a term with at most 6 matches shows no cards at all.
   */
  lemma SearchFromLaterPageShowsNothing(st: CatalogState, term: string)
    requires st.page >= 2
    requires |Filtered(st.books, term)| <= ItemsPerPage
    ensures Displayed(SetSearchTerm(st, term)) == []
  {
  }

  /** One ownership answer: only the answered ISBN's key changes. */
  function OwnershipReceived(st: CatalogState, isbn: string, status: bool): (r: CatalogState)
    ensures r.books == st.books && r.page == st.page && r.searchTerm == st.searchTerm
    ensures isbn in r.ownership && r.ownership[isbn] == status
    ensures forall k :: k != isbn ==> (k in r.ownership <==> k in st.ownership)
    ensures forall k :: k != isbn && k in st.ownership ==> r.ownership[k] == st.ownership[k]
  {
    st.(ownership := st.ownership[isbn := status])
  }

  /** Answers for two different ISBNs give the same map in either arrival order. */
  lemma OwnershipAnswersCommute(st: CatalogState, a: string, sa: bool, b: string, sb: bool)
    requires a != b
    ensures OwnershipReceived(OwnershipReceived(st, a, sa), b, sb) ==
            OwnershipReceived(OwnershipReceived(st, b, sb), a, sa)
  {
    var x := OwnershipReceived(OwnershipReceived(st, a, sa), b, sb).ownership;
    var y := OwnershipReceived(OwnershipReceived(st, b, sb), a, sa).ownership;
    assert forall k :: k in x <==> k in y;
    assert forall k :: k in x ==> x[k] == y[k];
  }

  /**
   * What the page does with an ownership-status reply: `response.data.status`
   * for a 2xx reply; a rejected request (401 when logged out, the recovered
   * 500) is only logged and gives no answer.
   */
  function OwnershipAnswer(resp: Response): (r: Option<bool>)
    ensures r.Some? <==> 200 <= resp.code < 300 && resp.payload.OwnershipFlag?
    ensures r.Some? ==> r.value == resp.payload.status
  {
    if 200 <= resp.code < 300 && resp.payload.OwnershipFlag? then Some(resp.payload.status) else None
  }

  /** For a logged-in session the page's answer is exactly the store's ownership relation. */
  lemma OwnershipAnswerMatchesStore(db: Store, values: map<string, SessionValue>, isbn: string)
    ensures SessionUser(values).Some? ==>
              OwnershipAnswer(OwnershipStatus(db, values, isbn)) ==
              Some(HasUserBoughtBook(db.transactions, db.books, SessionUser(values).value, isbn))
    ensures !HasUserEntry(values) ==> OwnershipAnswer(OwnershipStatus(db, values, isbn)).None?
  {
  }

  /** The ISBNs of the listed books whose ownership request got an answer. */
  function Answered(books: seq<Book>, answer: string -> Option<bool>): set<string>
  {
    set i | 0 <= i < |books| && answer(books[i].isbn).Some? :: books[i].isbn
  }

  lemma AnsweredStep(books: seq<Book>, answer: string -> Option<bool>, i: nat)
    requires i < |books|
    ensures Answered(books[..i + 1], answer) ==
            Answered(books[..i], answer) + (if answer(books[i].isbn).Some? then {books[i].isbn} else {})
  {
    var prefix := books[..i + 1];
    assert forall j :: 0 <= j < i ==> prefix[j] == books[..i][j];
  }

  /**
   * The effect that runs after the books arrive: one ownership request per
   * listed book, each answer merged into the map. `answer` gives the
   * reply's outcome for an ISBN (None when the request was rejected).
   */
  method FetchOwnership(st: CatalogState, answer: string -> Option<bool>) returns (r: CatalogState)
    ensures r.books == st.books && r.page == st.page && r.searchTerm == st.searchTerm
    ensures forall k :: k in r.ownership <==> k in st.ownership || k in Answered(st.books, answer)
    ensures forall k :: k in Answered(st.books, answer) ==> r.ownership[k] == answer(k).value
    ensures forall k :: k in st.ownership && k !in Answered(st.books, answer) ==> r.ownership[k] == st.ownership[k]
  {
    r := st;
    for i := 0 to |st.books|
      invariant r.books == st.books && r.page == st.page && r.searchTerm == st.searchTerm
      invariant forall k :: k in r.ownership <==> k in st.ownership || k in Answered(st.books[..i], answer)
      invariant forall k :: k in Answered(st.books[..i], answer) ==> r.ownership[k] == answer(k).value
      invariant forall k :: k in st.ownership && k !in Answered(st.books[..i], answer) ==>
                  r.ownership[k] == st.ownership[k]
    {
      AnsweredStep(st.books, answer, i);
      var isbn := st.books[i].isbn;
      match answer(isbn) {
        case Some(status) => r := OwnershipReceived(r, isbn, status);
        case None =>
      }
    }
    assert st.books[..|st.books|] == st.books;
  }

  /** A card shows Download when the map holds `true` for its ISBN, and Buy otherwise. */
  predicate ShowsDownload(st: CatalogState, book: Book)
  {
    book.isbn in st.ownership && st.ownership[book.isbn]
  }

  datatype PurchaseStep = BuyRequest(isbn: string) | PurchaseCanceled(alert: string)

  /**
   * `confirmPurchase`: `typed` is the prompt's answer (None when dismissed).
   * The buy request goes out exactly when the answer is the book's ISBN.
   */
  function ConfirmPurchase(book: Book, typed: Option<string>): (r: PurchaseStep)
    ensures r.BuyRequest? <==> typed == Some(book.isbn)
    ensures r.BuyRequest? ==> r.isbn == book.isbn
    ensures r.PurchaseCanceled? ==> r.alert == "Purchase canceled. ISBN did not match."
  {
    if typed == Some(book.isbn) then BuyRequest(book.isbn)
    else PurchaseCanceled("Purchase canceled. ISBN did not match.")
  }

  /**
   * The alert after the buy request: the reply's message for a 2xx reply
   * (the page then reloads), a fixed error text for a rejected request.
   */
  function PurchaseAlert(resp: Response): (r: string)
    ensures 200 <= resp.code < 300 && resp.payload.Message? ==> r == resp.payload.text
    ensures !(200 <= resp.code < 300) ==> r == "Error purchasing the book. Please try again later."
  {
    if !(200 <= resp.code < 300) then "Error purchasing the book. Please try again later."
    else if resp.payload.Message? then resp.payload.text
    else "undefined"
  }

  datatype DownloadStep = OpenTab(url: string) | DownloadAlert(text: string)

  /**
   * `handleDownloadClick`: a new tab for a non-empty link in a 2xx reply;
   * "Download link not available." for `{message: false}` or an empty link;
   * an error alert for a rejected request.
   */
  function OnDownloadResponse(resp: Response): (r: DownloadStep)
    ensures r.OpenTab? <==> 200 <= resp.code < 300 && resp.payload.Message? && resp.payload.text != ""
    ensures r.OpenTab? ==> r.url == resp.payload.text
    ensures !(200 <= resp.code < 300) ==> r == DownloadAlert("Error fetching download link. Please try again later.")
    ensures 200 <= resp.code < 300 && !r.OpenTab? ==> r == DownloadAlert("Download link not available.")
  {
    if !(200 <= resp.code < 300) then DownloadAlert("Error fetching download link. Please try again later.")
    else if resp.payload.Message? && resp.payload.text != "" then OpenTab(resp.payload.text)
    else DownloadAlert("Download link not available.")
  }

  /**
   * Across the two layers: the page opens a download tab only for an owner
   * of the ISBN, and only the link stored for that ISBN.
   */
  lemma DownloadOpensOnlyForOwners(db: Store, values: map<string, SessionValue>, isbn: string)
    ensures OnDownloadResponse(GetDownloadLink(db, values, isbn)).OpenTab? ==>
              && SessionUser(values).Some?
              && HasUserBoughtBook(db.transactions, db.books, SessionUser(values).value, isbn)
              && GetBookDownloadByISBN(db.downloads, isbn) ==
                   Some(BookDownload(isbn, OnDownloadResponse(GetDownloadLink(db, values, isbn)).url))
  {
  }

  /**
   * The converse: a logged-in owner whose ISBN has a stored, non-empty link
   * gets a tab on that link; an owner whose ISBN has no download row gets
   * the error alert.
   */
  lemma OwnerWithStoredLinkOpensTab(db: Store, values: map<string, SessionValue>, isbn: string)
    requires SessionUser(values).Some? && isbn != ""
    requires HasUserBoughtBook(db.transactions, db.books, SessionUser(values).value, isbn)
    ensures GetBookDownloadByISBN(db.downloads, isbn).Some? &&
            GetBookDownloadByISBN(db.downloads, isbn).value.downloadLink != "" ==>
              OnDownloadResponse(GetDownloadLink(db, values, isbn)) ==
              OpenTab(GetBookDownloadByISBN(db.downloads, isbn).value.downloadLink)
    ensures GetBookDownloadByISBN(db.downloads, isbn).None? ==>
              OnDownloadResponse(GetDownloadLink(db, values, isbn)) ==
              DownloadAlert("Error fetching download link. Please try again later.")
  {
  }

  /**
   * A card shows Download exactly when the server reported that the
   * logged-in user owns its ISBN.
   */
  lemma ShowsDownloadIffOwner(st: CatalogState, db: Store, values: map<string, SessionValue>, book: Book)
    requires SessionUser(values).Some?
    ensures var answer := OwnershipAnswer(OwnershipStatus(db, values, book.isbn));
            && answer.Some?
            && (ShowsDownload(OwnershipReceived(st, book.isbn, answer.value), book) <==>
                HasUserBoughtBook(db.transactions, db.books, SessionUser(values).value, book.isbn))
  {
    OwnershipAnswerMatchesStore(db, values, book.isbn);
  }
}
