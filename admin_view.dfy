/**
 * The admin catalogue (frontend/bookstore-app/src/components/BookAdminDisplay.jsx):
 * the same search box and page arithmetic as the customer catalogue, and the
 * Update and Delete buttons with their prompts, request bodies and reply
 * handling.
 */
module AdminView {
  import opened Wrappers
  import opened Models
  import opened Http
  import opened Strconv
  import opened JsText
  import opened CatalogView

  /**
   * The admin list has no ownership map, and the shown cards and page count
   * never depend on it: the admin page shows exactly what the customer page
   * would show for the same books, page and search term.
   */
  lemma ListingIgnoresOwnership(st: CatalogState, m: map<string, bool>)
    ensures Displayed(st.(ownership := m)) == Displayed(st)
    ensures TotalPages(st.(ownership := m)) == TotalPages(st)
  {
  }

  /** After a delete and the page reload, no card of the refetched list carries the deleted ISBN. */
  lemma DeletedBookLeavesListing(books: seq<Book>, isbn: string)
    requires GetBookByISBN(books, isbn).None?
    ensures forall b :: b in GetAllBooks(books) ==> b.isbn != isbn
  {
  }

  predicate IsHexDigit(c: char)
  {
    IsDigit(c) || 'a' <= c <= 'f' || 'A' <= c <= 'F'
  }

  /** The longest run at the start of `s` whose characters all satisfy `p`. */
  function LeadingRun(s: string, p: char -> bool): (r: string)
    ensures |r| <= |s| && r == s[..|r|]
    ensures forall i :: 0 <= i < |r| ==> p(r[i])
    ensures |r| < |s| ==> !p(s[|r|])
  {
    if |s| > 0 && p(s[0]) then [s[0]] + LeadingRun(s[1..], p) else ""
  }

  function HexDigitValue(c: char): nat
    requires IsHexDigit(c)
  {
    if IsDigit(c) then c as int - '0' as int
    else if 'a' <= c <= 'f' then c as int - 'a' as int + 10
    else c as int - 'A' as int + 10
  }

  function HexValue(s: string): nat
    requires forall i :: 0 <= i < |s| ==> IsHexDigit(s[i])
  {
    if |s| == 0 then 0 else HexValue(s[..|s| - 1]) * 16 + HexDigitValue(s[|s| - 1])
  }

  /** A `0x` or `0X` prefix. */
  predicate HexPrefix(rest: string)
  {
    |rest| >= 2 && rest[0] == '0' && (rest[1] == 'x' || rest[1] == 'X')
  }

  /**
   * The digits after the sign: a `0x`/`0X` prefix selects base 16,
   * otherwise base 10; the longest run of digits is read and the rest
   * ignored. None when there is no digit.
   */
  function ParseMagnitude(rest: string): (r: Option<nat>)
    ensures r.Some? <==> |rest| > 0 && IsDigit(rest[0]) && !(HexPrefix(rest) && (|rest| == 2 || !IsHexDigit(rest[2])))
  {
    var hex := HexPrefix(rest);
    var digits := if hex then LeadingRun(rest[2..], IsHexDigit) else LeadingRun(rest, IsDigit);
    if digits == "" then None
    else if hex then Some(HexValue(digits))
    else Some(DigitsValue(digits))
  }

  /** An optional sign followed by the magnitude. */
  function ParseSigned(t: string): (r: Option<int>)
    ensures r.Some? <==> ParseMagnitude(Unsigned(t)).Some?
    ensures r.Some? && t[0] == '-' ==> r.value <= 0
    ensures r.Some? && t[0] != '-' ==> r.value >= 0
  {
    var m := if |t| > 0 && (t[0] == '+' || t[0] == '-') then ParseMagnitude(t[1..]) else ParseMagnitude(t);
    match m
    case None => None
    case Some(v) =>
      var magnitude: int := v;
      Some(if |t| > 0 && t[0] == '-' then 0 - magnitude else magnitude)
  }

  /**
   * JavaScript's `parseInt(s)` with no radix, exact on the integers: leading
   * whitespace is skipped, then an optional sign, then the magnitude. None
   * stands for NaN (no digit at all).
   */
  function ParseInt(s: string): (r: Option<int>)
    ensures var u := Unsigned(TrimStart(s));
            r.Some? <==> |u| > 0 && IsDigit(u[0]) && !(HexPrefix(u) && (|u| == 2 || !IsHexDigit(u[2])))
    ensures r.Some? && TrimStart(s)[0] == '-' ==> r.value <= 0
    ensures r.Some? && TrimStart(s)[0] != '-' ==> r.value >= 0
  {
    ParseSigned(TrimStart(s))
  }

  lemma {:induction false} LeadingRunWhole(s: string, tail: string, p: char -> bool)
    requires forall i :: 0 <= i < |s| ==> p(s[i])
    requires tail == "" || !p(tail[0])
    ensures LeadingRun(s + tail, p) == s
  {
    if |s| > 0 {
      assert (s + tail)[1..] == s[1..] + tail;
      LeadingRunWhole(s[1..], tail, p);
    }
  }

  /** The magnitude of a run of decimal digits followed by a tail that cannot continue it. */
  lemma DecimalMagnitude(rest: string, d: string, tail: string)
    requires |d| > 0 && AllDigits(d)
    requires tail == "" || (!IsDigit(tail[0]) && tail[0] != 'x' && tail[0] != 'X')
    requires rest == d + tail
    ensures ParseMagnitude(rest) == Some(DigitsValue(d))
  {
    assert !(|rest| >= 2 && rest[0] == '0' && (rest[1] == 'x' || rest[1] == 'X')) by {
      if |d| >= 2 {
        assert rest[1] == d[1];
      }
    }
    LeadingRunWhole(d, tail, IsDigit);
  }

  /** With no leading whitespace and no sign, `parseInt` is the magnitude. */
  lemma ParseIntUnsigned(s: string, v: nat)
    requires |s| > 0 && IsDigit(s[0]) && ParseMagnitude(s) == Some(v)
    ensures ParseInt(s) == Some(v)
  {
    ParseIntNoLeadingSpace(s);
  }

  /** A leading minus sign negates the magnitude that follows it. */
  lemma ParseIntNegative(s: string, v: nat)
    requires |s| > 0 && s[0] == '-' && ParseMagnitude(s[1..]) == Some(v)
    ensures ParseInt(s) == Some(0 - v)
  {
    ParseIntNoLeadingSpace(s);
  }

  lemma ParseIntNoLeadingSpace(s: string)
    requires |s| > 0 && (s[0] == '-' || IsDigit(s[0]))
    ensures ParseInt(s) == ParseSigned(s)
  {
    assert TrimStart(s) == s;
  }

  lemma DropFirstOfConcat(a: string, b: string)
    requires |a| > 0
    ensures (a + b)[0] == a[0] && (a + b)[1..] == a[1..] + b
  {
  }

  /**
   * `parseInt` reads back the decimal rendering of any integer, whatever
   * follows it as long as the next character cannot continue the number.
   */
  lemma ParseIntItoa(n: int, tail: string)
    requires tail == "" || (!IsDigit(tail[0]) && tail[0] != 'x' && tail[0] != 'X')
    ensures ParseInt(Itoa(n) + tail) == Some(n)
  {
    var m: nat := if n < 0 then -n else n;
    var d := NatToDigits(m);
    var r := Itoa(n);
    ItoaShape(n);
    NatToDigitsValue(m);
    DropFirstOfConcat(r, tail);
    if n < 0 {
      DecimalMagnitude((r + tail)[1..], d, tail);
      ParseIntNegative(r + tail, m);
    } else {
      DecimalMagnitude(r + tail, d, tail);
      ParseIntUnsigned(r + tail, m);
    }
  }

  /**
   * The `published_year` the server binds: the parsed number, or 0 when
   * `parseInt` gives NaN (JSON serialises NaN as null, and a null leaves
   * the Go int at its zero value).
   */
  function YearSent(answer: string): (r: int)
    ensures ParseInt(answer).Some? ==> r == ParseInt(answer).value
    ensures ParseInt(answer).None? ==> r == 0
  {
    match ParseInt(answer)
    case Some(y) => y
    case None => 0
  }

  /**
   * The answers to `updateBook`'s six prompts; None is a dismissed prompt.
   * `price` is already `parseFloat` of its answer, None standing for NaN
   * (a dismissed prompt or an answer that is not a number).
   */
  datatype UpdatePrompts = UpdatePrompts(title: Option<string>, author: Option<string>, description: Option<string>,
                                         publishedYear: Option<string>, price: Option<real>,
                                         downloadLink: Option<string>)

  datatype UpdateStep = PutRequest(isbn: string, body: BookInput) | UpdateAborted

  /**
   * `updateBook`: any dismissed prompt (or a NaN price) ends it silently;
   * otherwise a PUT to the book's own ISBN whose body keeps that ISBN.
   */
  function UpdateBookPrompts(book: Book, p: UpdatePrompts): (r: UpdateStep)
    ensures r.PutRequest? <==>
              p.title.Some? && p.author.Some? && p.description.Some? && p.publishedYear.Some? &&
              p.price.Some? && p.downloadLink.Some?
    ensures r.PutRequest? ==> r.isbn == book.isbn && r.body.isbn == book.isbn
    ensures r.PutRequest? ==>
              && r.body.title == p.title.value && r.body.author == p.author.value
              && r.body.description == p.description.value && r.body.price == p.price.value
              && r.body.downloadLink == p.downloadLink.value
              && r.body.publishedYear == YearSent(p.publishedYear.value)
  {
    if p.title.None? || p.author.None? || p.description.None? || p.publishedYear.None? ||
       p.price.None? || p.downloadLink.None?
    then UpdateAborted
    else
      PutRequest(book.isbn, BookInput(p.title.value, p.author.value, p.description.value, book.isbn,
                                      YearSent(p.publishedYear.value), p.price.value, p.downloadLink.value))
  }

  /**
   * `ShouldBindJSON` decoding the page's JSON body into `BookInput`: the
   * year is a Go `int`, so a number outside the int64 range is a decode
   * error; any other body decodes to itself.
   */
  function DecodedBody(body: BookInput): (r: Bound<BookInput>)
    ensures r.Parsed? <==> MinInt64 <= body.publishedYear <= MaxInt64
    ensures r.Parsed? ==> r.value == body
  {
    if MinInt64 <= body.publishedYear <= MaxInt64 then Parsed(body) else Malformed
  }

  /**
   * What the server makes of the page's PUT: the body binds exactly when
   * the year fits in an int64, the title, author, download link are
   * non-empty and the price is not 0; and since the body keeps the path
   * ISBN, the handler's "ISBN already in use" failure can never be reached
   * from this page.
   */
  lemma UpdateRequestShape(book: Book, p: UpdatePrompts)
    requires UpdateBookPrompts(book, p).PutRequest?
    ensures var req := UpdateBookPrompts(book, p);
            var bound := DecodedBody(req.body);
            && (bound.Parsed? && BookInputValid(bound.value) <==>
                 MinInt64 <= YearSent(p.publishedYear.value) <= MaxInt64 &&
                 p.title.value != "" && p.author.value != "" && book.isbn != "" &&
                 p.price.value != 0.0 && p.downloadLink.value != "")
            && req.body.isbn == req.isbn
  {
  }

  /** A year answer one past the int64 range makes the whole PUT fail to bind. */
  lemma OverflowingYearRejected(book: Book, p: UpdatePrompts)
    requires UpdateBookPrompts(book, p).PutRequest?
    requires p.publishedYear == Some(Itoa(MaxInt64 + 1))
    ensures DecodedBody(UpdateBookPrompts(book, p).body).Malformed?
  {
    assert Itoa(MaxInt64 + 1) + "" == Itoa(MaxInt64 + 1);
    ParseIntItoa(MaxInt64 + 1, "");
  }

  datatype DeleteStep = DeleteRequest(isbn: string) | DeleteCanceled(alert: string)

  /**
   * `deleteBook`: `typed` is the confirmation prompt's answer (None when
   * dismissed); the DELETE goes out exactly when it is the book's ISBN.
   */
  function DeleteBookGate(book: Book, typed: Option<string>): (r: DeleteStep)
    ensures r.DeleteRequest? <==> typed == Some(book.isbn)
    ensures r.DeleteRequest? ==> r.isbn == book.isbn
    ensures r.DeleteCanceled? ==> r.alert == "Deletion canceled. ISBN did not match."
  {
    if typed == Some(book.isbn) then DeleteRequest(book.isbn)
    else DeleteCanceled("Deletion canceled. ISBN did not match.")
  }

  /** `response.data.message` when the body has a string `message` field. */
  function MessageOf(p: Payload): (r: Option<string>)
    ensures r.Some? <==> p.Message? || p.MessageWithData?
    ensures r.Some? ==> r.value == p.text
  {
    match p
    case Message(text) => Some(text)
    case MessageWithData(text, _) => Some(text)
    case _ => None
  }

  datatype ReplyEffect = ReloadPage(alert: string) | AlertOnly(text: string)

  /**
   * The reply handling shared by update and delete: a 2xx reply whose
   * message is exactly `success` alerts it and reloads the page; any other
   * 2xx reply alerts "Error: " and its `error` field ("undefined" when it
   * has none); a rejected request alerts `failure`.
   */
  function OnAdminReply(resp: Response, success: string, failure: string): (r: ReplyEffect)
    ensures r.ReloadPage? <==> 200 <= resp.code < 300 && MessageOf(resp.payload) == Some(success)
    ensures r.ReloadPage? ==> r.alert == success
    ensures !(200 <= resp.code < 300) ==> r == AlertOnly(failure)
    ensures 200 <= resp.code < 300 && !r.ReloadPage? ==>
              r == AlertOnly("Error: " + if resp.payload.Error? then resp.payload.text else "undefined")
  {
    if !(200 <= resp.code < 300) then AlertOnly(failure)
    else if MessageOf(resp.payload) == Some(success) then ReloadPage(success)
    else AlertOnly("Error: " + if resp.payload.Error? then resp.payload.text else "undefined")
  }

  function OnUpdateReply(resp: Response): (r: ReplyEffect)
    ensures r.ReloadPage? <==> 200 <= resp.code < 300 && MessageOf(resp.payload) == Some("Book updated successfully")
    ensures !(200 <= resp.code < 300) ==> r == AlertOnly("Error updating the book. Please try again later.")
  {
    OnAdminReply(resp, "Book updated successfully", "Error updating the book. Please try again later.")
  }

  function OnDeleteReply(resp: Response): (r: ReplyEffect)
    ensures r.ReloadPage? <==> 200 <= resp.code < 300 && MessageOf(resp.payload) == Some("Book deleted successfully")
    ensures !(200 <= resp.code < 300) ==> r == AlertOnly("Error deleting the book. Please try again later.")
  {
    OnAdminReply(resp, "Book deleted successfully", "Error deleting the book. Please try again later.")
  }

  /**
   * Against the replies the admin handlers give: the page reloads on the
   * success replies, and every refusal (403, 404, 400, 500) is a rejected
   * request that gets the fixed error alert.
   */
  lemma AdminRepliesHandled(b: Book, text: string, code: nat)
    requires code in {BadRequest, Forbidden, NotFound, InternalServerError}
    ensures OnUpdateReply(Response(OK, MessageWithData("Book updated successfully", b))).ReloadPage?
    ensures OnDeleteReply(Response(OK, Message("Book deleted successfully"))).ReloadPage?
    ensures OnUpdateReply(Response(code, Error(text))) == AlertOnly("Error updating the book. Please try again later.")
    ensures OnDeleteReply(Response(code, Error(text))) == AlertOnly("Error deleting the book. Please try again later.")
  {
  }
}
