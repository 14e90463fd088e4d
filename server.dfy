/**
 * The request handling of server.js: the session gate, registration, login,
 * logout and the auth-status report, the date list, and the decision logic of
 * the entry routes, which turn request fields into either a response or a
 * call on the store.
 *
 * A JSON body field is a `Field`: `None` when it is missing or null. The
 * session is an object with the two fields the handlers write. Password
 * hashing and comparison are outside the model: registration receives the
 * hash that bcrypt would produce, and login receives the comparison as a
 * function.
 */
module Server {
  import opened Wrappers
  import opened Collation
  import opened Database

  type Field = Option<string>

  const CredentialsRequired := "Username and password required"
  const UsernameTooShort := "Username must be at least 3 characters"
  const PasswordTooShort := "Password must be at least 4 characters"
  const UsernameTaken := "Username already taken"
  const InvalidCredentials := "Invalid username or password"
  const NotAuthenticated := "Not authenticated"
  const DateRequired := "Date is required"
  const EntryNotFound := "Entry not found"

  /** The JSON bodies the handlers send. */
  datatype Body =
    | Error(error: string)                                 // { error }
    | Welcome(username: string)                            // { success: true, username }
    | AuthState(authenticated: bool, currentUser: Option<string>)   // { authenticated, username }
    | EntryJson(entry: Entry)
    | Success                                              // { success: true }
    | Dates(dates: seq<string>)
    | Redirect(location: string)

  datatype Response = Response(status: nat, body: Body)

  /** The per-client session: `userId` and `username`, unset until a login or registration. */
  class Session {
    var userId: Option<nat>
    var username: Option<string>

    constructor ()
      ensures userId == None && username == None
    {
      userId := None;
      username := None;
    }
  }

  /** JavaScript truthiness of a text field: present and not the empty string. */
  predicate Truthy(f: Field)
  {
    f.Some? && f.value != ""
  }

  /** JavaScript truthiness of `session.userId`: set and not 0. */
  predicate Authenticated(userId: Option<nat>)
  {
    userId.Some? && userId.value != 0
  }

  /** `s.length`: JavaScript counts UTF-16 code units, so a character beyond U+FFFF counts twice. */
  function Utf16Length(s: string): (n: nat)
    ensures |s| <= n <= 2 * |s|
  {
    if s == [] then 0
    else (if s[0] as int >= 0x1_0000 then 2 else 1) + Utf16Length(s[1..])
  }

  /** `field || ''`. */
  function OrEmpty(f: Field): string
  {
    if Truthy(f) then f.value else ""
  }

  /** The store receives `s` for field `f`: the field's own text when present, even empty, and '' when missing. */
  predicate PassedAs(f: Field, s: string)
  {
    s == f.GetOr("")
  }

  // ---------------------------------------------------------------------------
  // Session gate and status

  /** `requireAuth`: `None` passes the request on to its handler. */
  function RequireAuth(userId: Option<nat>): (r: Option<Response>)
    ensures r.None? <==> Authenticated(userId)
    ensures r.Some? ==> r.value == Response(401, Error(NotAuthenticated))
  {
    if Authenticated(userId) then None
    else Some(Response(401, Error(NotAuthenticated)))
  }

  /** `GET /auth-status`. */
  function AuthStatus(userId: Option<nat>, username: Option<string>): (r: Response)
    ensures r.status == 200 && r.body.AuthState?
    ensures r.body.authenticated <==> RequireAuth(userId).None?
    ensures r.body.currentUser.Some? <==> Truthy(username)
    ensures r.body.currentUser.Some? ==> r.body.currentUser == username
  {
    Response(200, AuthState(Authenticated(userId), if Truthy(username) then username else None))
  }

  // ---------------------------------------------------------------------------
  // Registration, login, logout

  /** The field checks of `POST /register`, in the handler's order; `None` when all pass. */
  function RegisterFieldError(username: Field, password: Field): (r: Option<string>)
    ensures r == Some(CredentialsRequired) <==> !Truthy(username) || !Truthy(password)
    ensures r == Some(UsernameTooShort) <==>
      Truthy(username) && Truthy(password) && Utf16Length(username.value) < 3
    ensures r == Some(PasswordTooShort) <==>
      Truthy(username) && Truthy(password) && Utf16Length(username.value) >= 3 && Utf16Length(password.value) < 4
    ensures r.None? <==>
      Truthy(username) && Truthy(password) && Utf16Length(username.value) >= 3 && Utf16Length(password.value) >= 4
  {
    if !Truthy(username) || !Truthy(password) then Some(CredentialsRequired)
    else if Utf16Length(username.value) < 3 then Some(UsernameTooShort)
    else if Utf16Length(password.value) < 4 then Some(PasswordTooShort)
    else None
  }

  /**
   * `POST /register`. `passwordHash` stands for what bcrypt returns for the
   * password; `now` is the time the user row is written.
   */
  method Register(store: Store, session: Session, username: Field, password: Field, passwordHash: string, now: int)
    returns (res: Response)
    requires store.Ready()
    modifies store, session
    ensures store.Ready()
    ensures RegisterFieldError(username, password).Some? ==>
      res == Response(400, Error(RegisterFieldError(username, password).value))
    ensures RegisterFieldError(username, password).None? && old(store.GetUserByUsername(username.value)).Some? ==>
      res == Response(400, Error(UsernameTaken))
    ensures res.status == 200 <==>
      RegisterFieldError(username, password).None? && old(store.GetUserByUsername(username.value)).None?
    ensures res.status == 200 ==>
      && res == Response(200, Welcome(username.value))
      && store.users == old(store.users) + [User(old(store.nextUserId), username.value, passwordHash, now)]
      && store.nextUserId == old(store.nextUserId) + 1
      && session.userId == Some(old(store.nextUserId)) && session.username == Some(username.value)
      && Authenticated(session.userId)
    ensures res.status != 200 ==> res.status == 400 && unchanged(store) && unchanged(session)
    ensures store.entries == old(store.entries) && store.entriesNew == old(store.entriesNew)
    ensures store.nextEntryId == old(store.nextEntryId)
  {
    var fieldError := RegisterFieldError(username, password);
    if fieldError.Some? {
      return Response(400, Error(fieldError.value));
    }
    var existing := store.GetUserByUsername(username.value);
    if existing.Some? {
      return Response(400, Error(UsernameTaken));
    }
    var created := store.CreateUser(username.value, passwordHash, now);
    var user := created.value;
    session.userId := Some(user.id);
    session.username := Some(user.username);
    res := Response(200, Welcome(user.username));
  }

  /**
   * `POST /login`. `verify(password, hash)` stands for bcrypt's comparison.
   * An unknown username and a wrong password get the same answer.
   */
  method Login(store: Store, session: Session, username: Field, password: Field, verify: (string, string) -> bool)
    returns (res: Response)
    requires store.Ready()
    modifies session
    ensures !Truthy(username) || !Truthy(password) ==> res == Response(400, Error(CredentialsRequired))
    ensures Truthy(username) && Truthy(password) && store.GetUserByUsername(username.value).None? ==>
      res == Response(401, Error(InvalidCredentials))
    ensures
      (&& Truthy(username) && Truthy(password) && store.GetUserByUsername(username.value).Some?
       && !verify(password.value, store.GetUserByUsername(username.value).value.passwordHash))
      ==> res == Response(401, Error(InvalidCredentials))
    ensures res.status == 200 <==>
      && Truthy(username) && Truthy(password)
      && store.GetUserByUsername(username.value).Some?
      && verify(password.value, store.GetUserByUsername(username.value).value.passwordHash)
    ensures res.status == 200 ==>
      && res == Response(200, Welcome(username.value))
      && session.userId == Some(store.GetUserByUsername(username.value).value.id)
      && session.username == Some(username.value)
      && Authenticated(session.userId)
    ensures res.status != 200 ==> unchanged(session)
  {
    if !Truthy(username) || !Truthy(password) {
      return Response(400, Error(CredentialsRequired));
    }
    var user := store.GetUserByUsername(username.value);
    if user.None? {
      return Response(401, Error(InvalidCredentials));
    }
    var valid := verify(password.value, user.value.passwordHash);
    if !valid {
      return Response(401, Error(InvalidCredentials));
    }
    assert 1 <= user.value.id by {
      var i :| 0 <= i < |store.users| && store.users[i] == user.value;
    }
    session.userId := Some(user.value.id);
    session.username := Some(user.value.username);
    res := Response(200, Welcome(user.value.username));
  }

  /** `GET /logout`: the session is destroyed and the client sent to `/`. */
  method Logout(session: Session) returns (res: Response)
    modifies session
    ensures session.userId == None && session.username == None
    ensures RequireAuth(session.userId).Some?
    ensures res == Response(302, Redirect("/"))
  {
    session.userId := None;
    session.username := None;
    res := Response(302, Redirect("/"));
  }

  // ---------------------------------------------------------------------------
  // Entry routes

  /** Where an entry route goes after its checks: a response, or one call on the store. */
  datatype EntryStep =
    | Respond(response: Response)
    | CreateEntry(userId: nat, date: string, gratitude: string, feeling: string, onMind: string)
    | UpdateEntry(userId: nat, id: string, gratitude: string, feeling: string, onMind: string)
    | DeleteEntry(userId: nat, id: string)

  /** `POST /api/entry`, behind `requireAuth`. */
  function PostEntry(userId: Option<nat>, date: Field, gratitude: Field, feeling: Field, onMind: Field): (r: EntryStep)
    ensures !Authenticated(userId) ==> r == Respond(Response(401, Error(NotAuthenticated)))
    ensures Authenticated(userId) && !Truthy(date) ==> r == Respond(Response(400, Error(DateRequired)))
    ensures r.CreateEntry? <==> Authenticated(userId) && Truthy(date)
    ensures r.CreateEntry? ==>
      && r.userId == userId.value && r.date == date.value
      && PassedAs(gratitude, r.gratitude) && PassedAs(feeling, r.feeling) && PassedAs(onMind, r.onMind)
  {
    match RequireAuth(userId)
    case Some(rejection) => Respond(rejection)
    case None =>
      if !Truthy(date) then Respond(Response(400, Error(DateRequired)))
      else CreateEntry(userId.value, date.value, OrEmpty(gratitude), OrEmpty(feeling), OrEmpty(onMind))
  }

  /** `PUT /api/entry/:id`, behind `requireAuth`: the call it makes. */
  function PutEntry(userId: Option<nat>, id: string, gratitude: Field, feeling: Field, onMind: Field): (r: EntryStep)
    ensures !Authenticated(userId) ==> r == Respond(Response(401, Error(NotAuthenticated)))
    ensures r.UpdateEntry? <==> Authenticated(userId)
    ensures r.UpdateEntry? ==>
      && r.userId == userId.value && r.id == id
      && PassedAs(gratitude, r.gratitude) && PassedAs(feeling, r.feeling) && PassedAs(onMind, r.onMind)
  {
    match RequireAuth(userId)
    case Some(rejection) => Respond(rejection)
    case None => UpdateEntry(userId.value, id, OrEmpty(gratitude), OrEmpty(feeling), OrEmpty(onMind))
  }

  /** `PUT /api/entry/:id`: the answer once the store has returned the updated entry, if any. */
  function PutEntryReply(updated: Option<Entry>): (r: Response)
    ensures r.status == 404 <==> updated.None?
    ensures updated.None? ==> r.body == Error(EntryNotFound)
    ensures updated.Some? ==> r == Response(200, EntryJson(updated.value))
  {
    match updated
    case None => Response(404, Error(EntryNotFound))
    case Some(e) => Response(200, EntryJson(e))
  }

  /** `DELETE /api/entry/:id`, behind `requireAuth`: the call it makes. */
  function DeleteEntryRoute(userId: Option<nat>, id: string): (r: EntryStep)
    ensures !Authenticated(userId) ==> r == Respond(Response(401, Error(NotAuthenticated)))
    ensures r.DeleteEntry? <==> Authenticated(userId)
    ensures r.DeleteEntry? ==> r.userId == userId.value && r.id == id
  {
    match RequireAuth(userId)
    case Some(rejection) => Respond(rejection)
    case None => DeleteEntry(userId.value, id)
  }

  /** `DELETE /api/entry/:id`: the answer once the store has reported how many rows it removed. */
  function DeleteEntryReply(changes: nat): (r: Response)
    ensures r.status == 404 <==> changes == 0
    ensures changes == 0 ==> r.body == Error(EntryNotFound)
    ensures changes != 0 ==> r == Response(200, Success)
  {
    if changes == 0 then Response(404, Error(EntryNotFound))
    else Response(200, Success)
  }

  /** `GET /api/entries`, behind `requireAuth`: the signed-in user's dates, newest first. */
  function ListDates(store: Store, userId: Option<nat>): (r: Response)
    reads store
    requires store.Ready()
    ensures !Authenticated(userId) ==> r == Response(401, Error(NotAuthenticated))
    ensures Authenticated(userId) ==> r.status == 200 && r.body.Dates?
    ensures r.body.Dates? ==>
      && StrictlyDescending(r.body.dates)
      && forall d :: d in r.body.dates <==> store.GetEntry(userId.value, d).Some?
  {
    match RequireAuth(userId)
    case Some(rejection) => rejection
    case None => Response(200, Dates(store.GetAllEntryDates(userId.value)))
  }
}
