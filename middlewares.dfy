/**
 * The two gin middlewares. Each either aborts the request with a response
 * (Some) or lets it continue to the next handler (None). Neither changes
 * the database or the session values.
 */
module Middlewares {
  import opened Wrappers
  import opened Models
  import opened Http
  import opened Sessions
  import opened Db

  /** `AdminOnly`: 403 "Permission denied" unless the session's role is "admin". */
  function AdminOnly(values: map<string, SessionValue>): (r: Option<Response>)
    ensures r.None? <==> IsAdminSession(values)
    ensures RoleKey !in values ==> r == Some(Response(Forbidden, Error("Permission denied")))
    ensures r.Some? ==> r.value == Response(Forbidden, Error("Permission denied"))
  {
    if RoleKey !in values || values[RoleKey] != Str("admin") then
      Some(Response(Forbidden, Error("Permission denied")))
    else None
  }

  /**
   * `CheckOwnershipStatus`, in front of the buy route: 401 without a session
   * user, 200 "Already bought" (and abort) when the user owns the ISBN, and
   * otherwise on to BuyBook.
   */
  function CheckOwnershipStatus(db: Store, values: map<string, SessionValue>, isbn: string): (r: Option<Response>)
    reads db
    ensures SessionUser(values).None? ==> r == Some(Response(Unauthorized, Error("Unauthorized")))
    ensures r.None? <==> SessionUser(values).Some? &&
                         !HasUserBoughtBook(db.transactions, db.books, SessionUser(values).value, isbn)
    ensures r.Some? && SessionUser(values).Some? ==> r.value == Response(OK, Message("Already bought"))
  {
    match SessionUser(values)
    case None => Some(Response(Unauthorized, Error("Unauthorized")))
    case Some(userId) =>
      if HasUserBoughtBook(db.transactions, db.books, userId, isbn) then
        Some(Response(OK, Message("Already bought")))
      else None
  }
}
