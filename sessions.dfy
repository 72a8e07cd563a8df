/**
 * The cookie session as the handlers see it: `session.Values`, a map from
 * key to value. Only "user_id" (a uint) and "role" (a string) are ever
 * written, and Login writes `nil` to both before it checks anything.
 */
module Sessions {
  import opened Wrappers

  datatype SessionValue = Nil | Uint(n: nat) | Str(s: string)

  const UserIdKey: string := "user_id"
  const RoleKey: string := "role"

  class Session {
    var values: map<string, SessionValue>

    /** A fresh cookie: no values. */
    constructor ()
      ensures values == map[]
    {
      values := map[];
    }
  }

  /** `session.Values["user_id"].(uint)` in its comma-ok form: Some only for a stored uint. */
  function SessionUser(values: map<string, SessionValue>): (r: Option<nat>)
    ensures r.Some? <==> UserIdKey in values && values[UserIdKey].Uint?
    ensures r.Some? ==> values[UserIdKey] == Uint(r.value)
  {
    if UserIdKey in values && values[UserIdKey].Uint? then Some(values[UserIdKey].n) else None
  }

  /** `userID, exists := session.Values["user_id"]; exists && userID != nil`. */
  predicate HasUserEntry(values: map<string, SessionValue>)
  {
    UserIdKey in values && values[UserIdKey] != Nil
  }

  /** The role check of AdminOnly: a "role" entry that is the string "admin". */
  predicate IsAdminSession(values: map<string, SessionValue>)
  {
    RoleKey in values && values[RoleKey] == Str("admin")
  }
}
