/**
 * internal/handlers/auth_handler.go: registration, login, logout and
 * (soft) account deletion.
 */
module AuthHandler {
  import opened Wrappers
  import opened Models
  import opened Http
  import opened Sessions
  import opened Db

  /**
   * The two library checks the handlers rely on: validator's `email` format
   * rule, and bcrypt's comparison of a stored hash with a password.
   */
  datatype Services = Services(isEmail: string -> bool, passwordMatches: (string, string) -> bool)

  const StartingBalance: real := 5000.0
  const SupportError: string := "Unknown error! Contact our team at support@support.com"

  /** Login first overwrites both session entries with nil. */
  function Cleared(values: map<string, SessionValue>): (r: map<string, SessionValue>)
    ensures SessionUser(r).None? && !IsAdminSession(r) && !HasUserEntry(r)
    ensures forall k :: k in values && k != UserIdKey && k != RoleKey ==> k in r && r[k] == values[k]
  {
    values[UserIdKey := Nil][RoleKey := Nil]
  }

  /** The role Login stores: "admin" exactly for the user named "admin". */
  function RoleFor(u: User): (r: SessionValue)
    ensures r == Str("admin") <==> u.username == "admin"
    ensures r.Str?
  {
    if u.username == "admin" then Str("admin") else Str("user")
  }

  /**
   * Marking the account found by email as deleted keeps the address taken:
   * the same lookup still finds it (now soft-deleted), and every other
   * address finds what it found before.
   */
  lemma MarkDeletedLookup(users: seq<User>, email: string, other: string)
    requires UserIndexByEmail(users, email).Some?
    ensures var i := UserIndexByEmail(users, email).value;
            var users' := users[i := MarkDeleted(users[i])];
            && FindUserByEmail(users', email) == Some(MarkDeleted(users[i]))
            && SoftDeletedEmail(users', email)
            && FindUserByEmail(users', other).Some? == FindUserByEmail(users, other).Some?
  {
    var i := UserIndexByEmail(users, email).value;
    var users' := users[i := MarkDeleted(users[i])];
    FirstIndexPointwise(users, users', (u: User) => u.email == email);
    FirstIndexPointwise(users, users', (u: User) => u.email == other);
  }

  /**
   * `Register`: 400 for a body that does not bind or validate, 400 when the
   * email or else the username is taken, 500 when hashing fails (`hash` is
   * None), else a new active user with the next id and a 5000.0 balance.
   * The soft-deleted check that follows the email check can never fire.
   */
  method Register(db: Store, input: Bound<Input>, svc: Services, hash: Option<string>) returns (resp: Response)
    requires db.Valid()
    modifies db`users, db`balances, db`nextUserId
    ensures db.Valid()
    ensures input.Malformed? || !InputValid(input.value, svc.isEmail) ==>
              resp == Response(BadRequest, BindFailure) && unchanged(db)
    ensures input.Parsed? && InputValid(input.value, svc.isEmail) ==>
              var inp := input.value;
              if FindUserByEmail(old(db.users), inp.email).Some? then
                resp == Response(BadRequest, Error("User with this email already exists")) && unchanged(db)
              else if FindUserByUsername(old(db.users), inp.username).Some? then
                resp == Response(BadRequest, Error("User with this username already exists")) && unchanged(db)
              else if hash.None? then
                resp == Response(InternalServerError, Error("Failed to hash password")) && unchanged(db)
              else
                && resp == Response(Created, Message("User registered successfully"))
                && db.users == old(db.users) + [NewUser(old(db.nextUserId), inp.username, inp.email, hash.value)]
                && db.balances == old(db.balances) + [Balance(old(db.nextUserId), StartingBalance)]
                && db.nextUserId == old(db.nextUserId) + 1
    ensures resp.code == Created ==>
              && input.Parsed? && hash.Some?
              && FindUserByEmail(db.users, input.value.email) ==
                   Some(NewUser(old(db.nextUserId), input.value.username, input.value.email, hash.value))
              && GetBalanceByUserID(db.balances, old(db.nextUserId)) == Some(Balance(old(db.nextUserId), StartingBalance))
  {
    if input.Malformed? || !InputValid(input.value, svc.isEmail) {
      return Response(BadRequest, BindFailure);
    }
    var inp := input.value;
    if FindUserByEmail(db.users, inp.email).Some? {
      return Response(BadRequest, Error("User with this email already exists"));
    }
    if FindUserByUsername(db.users, inp.username).Some? {
      return Response(BadRequest, Error("User with this username already exists"));
    }
    if SoftDeletedEmail(db.users, inp.email) {
      return Response(BadRequest, Error(SupportError));
    }
    if hash.None? {
      return Response(InternalServerError, Error("Failed to hash password"));
    }
    var id := db.CreateUser(inp.username, inp.email, hash.value);
    db.CreateBalance(id, StartingBalance);
    resp := Response(Created, Message("User registered successfully"));
  }

  /**
   * `Login`: both session entries become nil first; 400 for a body that
   * does not bind or validate, 401 for an unknown email or a wrong
   * password, 400 for a soft-deleted account, else the session holds the
   * user's id and role and the reply is 200.
   */
  method Login(db: Store, session: Session, input: Bound<Input>, svc: Services) returns (resp: Response)
    modifies session
    ensures input.Malformed? || !InputValid(input.value, svc.isEmail) ==>
              resp == Response(BadRequest, BindFailure) && session.values == Cleared(old(session.values))
    ensures input.Parsed? && InputValid(input.value, svc.isEmail) ==>
              match FindUserByEmail(db.users, input.value.email)
              case None =>
                resp == Response(Unauthorized, Error("Invalid email or password")) &&
                session.values == Cleared(old(session.values))
              case Some(u) =>
                if !svc.passwordMatches(u.passwordHash, input.value.password) then
                  resp == Response(Unauthorized, Error("Invalid email or password")) &&
                  session.values == Cleared(old(session.values))
                else if !u.isActive && u.isDeleted then
                  resp == Response(BadRequest, Error(SupportError)) &&
                  session.values == Cleared(old(session.values))
                else
                  resp == Response(OK, Message("Logged in successfully")) &&
                  session.values == Cleared(old(session.values))[UserIdKey := Uint(u.id)][RoleKey := RoleFor(u)]
    ensures resp.code != OK ==> SessionUser(session.values).None? && !IsAdminSession(session.values)
    ensures input.Parsed? && SoftDeletedEmail(db.users, input.value.email) ==> resp.code != OK
    ensures resp.code == OK ==>
              && input.Parsed?
              && FindUserByEmail(db.users, input.value.email).Some?
              && var u := FindUserByEmail(db.users, input.value.email).value;
                 && svc.passwordMatches(u.passwordHash, input.value.password)
                 && SessionUser(session.values) == Some(u.id)
                 && (IsAdminSession(session.values) <==> u.username == "admin")
  {
    session.values := Cleared(session.values);
    if input.Malformed? || !InputValid(input.value, svc.isEmail) {
      return Response(BadRequest, BindFailure);
    }
    var user := FindUserByEmail(db.users, input.value.email);
    if user.None? {
      return Response(Unauthorized, Error("Invalid email or password"));
    }
    if !svc.passwordMatches(user.value.passwordHash, input.value.password) {
      return Response(Unauthorized, Error("Invalid email or password"));
    }
    var again := FindUserByEmail(db.users, input.value.email);
    if again.Some? && !again.value.isActive && again.value.isDeleted {
      return Response(BadRequest, Error(SupportError));
    }
    session.values := session.values[UserIdKey := Uint(user.value.id)];
    session.values := session.values[RoleKey := RoleFor(user.value)];
    resp := Response(OK, Message("Logged in successfully"));
  }

  /**
   * `Logout`: 404 when the session holds no user (absent or nil), else both
   * entries are removed and the reply is 200.
   */
  method Logout(session: Session) returns (resp: Response)
    modifies session
    ensures !old(HasUserEntry(session.values)) ==>
              resp == Response(NotFound, Error("No active user")) && session.values == old(session.values)
    ensures old(HasUserEntry(session.values)) ==>
              resp == Response(OK, Message("Logged out successfully")) &&
              session.values == old(session.values) - {UserIdKey, RoleKey}
    ensures SessionUser(session.values).None? ==> !HasUserEntry(session.values) || resp.code == NotFound
    ensures resp.code == OK ==> SessionUser(session.values).None? && !IsAdminSession(session.values)
  {
    if !HasUserEntry(session.values) {
      return Response(NotFound, Error("No active user"));
    }
    session.values := session.values - {UserIdKey, RoleKey};
    resp := Response(OK, Message("Logged out successfully"));
  }

  /**
   * `DeleteAccount`: 400 for a body that does not bind or validate, 404 for
   * an unknown email, 401 for a wrong password, 400 when already deleted,
   * else the account is marked deleted and inactive (the row stays).
   */
  method DeleteAccount(db: Store, input: Bound<Input>, svc: Services) returns (resp: Response)
    requires db.Valid()
    modifies db`users
    ensures db.Valid()
    ensures input.Malformed? || !InputValid(input.value, svc.isEmail) ==>
              resp == Response(BadRequest, BindFailure) && unchanged(db)
    ensures input.Parsed? && InputValid(input.value, svc.isEmail) ==>
              match UserIndexByEmail(old(db.users), input.value.email)
              case None => resp == Response(NotFound, Error("User not found")) && unchanged(db)
              case Some(i) =>
                var u := old(db.users)[i];
                if !svc.passwordMatches(u.passwordHash, input.value.password) then
                  resp == Response(Unauthorized, Error("Invalid password")) && unchanged(db)
                else if u.isDeleted then
                  resp == Response(BadRequest, Error("Account has already been deleted")) && unchanged(db)
                else
                  resp == Response(OK, Message("Account is successfully deleted")) &&
                  db.users == old(db.users)[i := MarkDeleted(u)]
    ensures resp.code == OK ==>
              input.Parsed? && SoftDeletedEmail(db.users, input.value.email) && |db.users| == |old(db.users)|
  {
    if input.Malformed? || !InputValid(input.value, svc.isEmail) {
      return Response(BadRequest, BindFailure);
    }
    var i := UserIndexByEmail(db.users, input.value.email);
    if i.None? {
      return Response(NotFound, Error("User not found"));
    }
    var u := db.users[i.value];
    if !svc.passwordMatches(u.passwordHash, input.value.password) {
      return Response(Unauthorized, Error("Invalid password"));
    }
    if u.isDeleted {
      return Response(BadRequest, Error("Account has already been deleted"));
    }
    MarkDeletedLookup(db.users, input.value.email, input.value.email);
    db.MarkUserDeleted(i.value);
    resp := Response(OK, Message("Account is successfully deleted"));
  }

  /**
   * A client that registers and then logs in with the same body: when the
   * registration succeeds (and the stored hash matches the password, as
   * bcrypt guarantees) the login succeeds for the new account, which is not
   * an admin session unless the username is "admin".
   */
  method RegisterThenLogin(db: Store, session: Session, input: Input, svc: Services, hash: Option<string>)
    returns (registered: Response, loggedIn: Response)
    requires db.Valid()
    requires hash.Some? ==> svc.passwordMatches(hash.value, input.password)
    modifies db`users, db`balances, db`nextUserId, session
    ensures db.Valid()
    ensures registered.code == Created ==>
              && loggedIn == Response(OK, Message("Logged in successfully"))
              && SessionUser(session.values) == Some(old(db.nextUserId))
              && (IsAdminSession(session.values) <==> input.username == "admin")
  {
    registered := Register(db, Parsed(input), svc, hash);
    loggedIn := Login(db, session, Parsed(input), svc);
  }

  /**
   * A client that deletes its account and then tries to log in with the
   * same body: the login is refused and the session holds no user.
   */
  method DeleteThenLogin(db: Store, session: Session, input: Input, svc: Services)
    returns (deleted: Response, loggedIn: Response)
    requires db.Valid()
    modifies db`users, session
    ensures db.Valid()
    ensures deleted.code == OK ==>
              loggedIn == Response(BadRequest, Error(SupportError)) && SessionUser(session.values).None?
  {
    deleted := DeleteAccount(db, Parsed(input), svc);
    loggedIn := Login(db, session, Parsed(input), svc);
  }
}
