/**
 The account service (`src/services/auth_service.py`): registration, login,
 token refresh and the current-user lookup, over the `users` table as a
 sequence of rows in query order. Password hashing and verification (bcrypt),
 UUID generation and parsing are parameters.
 */
module AuthService {
  import opened Wrappers
  import opened UserSchema
  import opened AuthHandler
  import opened IndexScript

  /** A row of the `users` table. */
  datatype User = User(id: string, username: string, email: string, hashedPassword: string)

  /** What registration and login return: the user and a token pair for it. */
  datatype Session = Session(user: User, tokens: Token<Jwt>)

  /** What `get_current_user` returns. */
  datatype Profile = Profile(username: string, email: string, id: string)

  const AlreadyRegistered: HttpError := HttpError(400, "Username or email already registered")
  const IncorrectCredentials: HttpError := HttpError(401, "Incorrect username or password")
  const InvalidOrExpired: HttpError := HttpError(401, "Invalid or expired token")
  const UserNotFound: HttpError := HttpError(404, "User not found")
  /** The response to the exception `commit` raises on a unique-column clash, which no handler catches. */
  const CommitRejected: HttpError := HttpError(500, "Internal Server Error")

  /** `select(User).where(...)` followed by `.first()`: the index of the first row satisfying `matches`. */
  function FirstUser(users: seq<User>, matches: User -> bool): (r: Option<nat>)
    ensures r.Some? ==> r.value < |users| && matches(users[r.value])
    ensures r.Some? ==> forall j :: 0 <= j < r.value ==> !matches(users[j])
    ensures r.None? ==> forall j :: 0 <= j < |users| ==> !matches(users[j])
    decreases |users|
  {
    if users == [] then None
    else if matches(users[0]) then Some(0)
    else
      match FirstUser(users[1..], matches)
      case None => None
      case Some(i) => Some(i + 1)
  }

  /** The row filters of the service's queries: `User.username == name` and `User.id == id`. */
  function ByUsername(name: string): User -> bool {
    (u: User) => u.username == name
  }

  function ById(id: string): User -> bool {
    (u: User) => u.id == id
  }

  /** A row that nothing before it matches is the one found. */
  lemma {:induction false} FirstUserAppended(users: seq<User>, u: User, matches: User -> bool)
    requires forall j :: 0 <= j < |users| ==> !matches(users[j])
    requires matches(u)
    ensures FirstUser(users + [u], matches) == Some(|users|)
    decreases |users|
  {
    if users != [] {
      assert (users + [u])[1..] == users[1..] + [u];
      FirstUserAppended(users[1..], u, matches);
    }
  }

  // ---------------------------------------------------------------------
  // Registration

  /**
   `register_user`: refused with 400 when a row already has the username
   (the e-mail is not looked at then); otherwise the new row, with the new
   id, the e-mail and the hash of the password, is committed and tokens for
   the new id are issued. The table's `email` and `id` columns are unique, so
   the commit fails, with a 500 and no tokens, when a row already has the
   e-mail or the id.
   */
  function Register(users: seq<User>, data: UserCreate, hash: string -> string, newId: string, now: int, key: string)
    : (r: Result<(seq<User>, Session), HttpError>)
    ensures r.Success? <==>
              (forall j :: 0 <= j < |users| ==> users[j].username != data.username) &&
              (forall j :: 0 <= j < |users| ==> users[j].email != data.email && users[j].id != newId)
    ensures r.Failure? ==>
              r.error == (if exists j :: 0 <= j < |users| && users[j].username == data.username
                          then AlreadyRegistered else CommitRejected)
    ensures r.Success? ==>
              var user := User(newId, data.username, data.email, hash(data.password));
              r.value.0 == users + [user] && r.value.1 == Session(user, CreateTokens(newId, now, key))
  {
    if FirstUser(users, ByUsername(data.username)).Some? then Failure(AlreadyRegistered)
    else if FirstUser(users, ClashesOnCommit(data.email, newId)).Some? then Failure(CommitRejected)
    else
      var user := User(newId, data.username, data.email, hash(data.password));
      Success((users + [user], Session(user, CreateTokens(newId, now, key))))
  }

  /** A row the new one would clash with on a unique column other than the username. */
  function ClashesOnCommit(email: string, id: string): User -> bool {
    (u: User) => u.email == email || u.id == id
  }

  /** No two rows share a username, an e-mail or an id, as the table's unique columns demand. */
  predicate UniqueColumns(users: seq<User>) {
    forall i, j :: 0 <= i < j < |users| ==>
      users[i].username != users[j].username && users[i].email != users[j].email && users[i].id != users[j].id
  }

  /** A successful registration keeps the table's unique columns unique. */
  lemma {:induction false} RegisterKeepsColumnsUnique(users: seq<User>, data: UserCreate, hash: string -> string, newId: string, now: int, key: string)
    requires UniqueColumns(users)
    requires Register(users, data, hash, newId, now, key).Success?
    ensures UniqueColumns(Register(users, data, hash, newId, now, key).value.0)
  {
    var after := Register(users, data, hash, newId, now, key).value.0;
    forall i, j | 0 <= i < j < |after|
      ensures after[i].username != after[j].username && after[i].email != after[j].email && after[i].id != after[j].id
    {
      if j == |users| {
        assert after[i] == users[i];
      } else {
        assert after[i] == users[i] && after[j] == users[j];
      }
    }
  }

  /** A new username with an e-mail already on file gets no account: the commit fails. */
  lemma {:induction false} DuplicateEmailRejected(user: User, data: UserCreate, hash: string -> string, newId: string, now: int, key: string)
    requires data.email == user.email && data.username != user.username
    ensures Register([user], data, hash, newId, now, key) == Failure(CommitRejected)
  {
    assert ClashesOnCommit(data.email, newId)(user);
  }

  // ---------------------------------------------------------------------
  // Login

  /**
   `authenticate_user`: the row is looked up by username only, and the
   password is checked against its hash; an unknown name and a wrong password
   get the same 401.
   */
  function Authenticate(users: seq<User>, credentials: UserLogin, verify: (string, string) -> bool, now: int, key: string)
    : (r: Result<Session, HttpError>)
    ensures r.Success? <==>
              credentials.username.Some? &&
              FirstUser(users, ByUsername(credentials.username.value)).Some? &&
              verify(credentials.password, users[FirstUser(users, ByUsername(credentials.username.value)).value].hashedPassword)
    ensures r.Failure? ==> r.error == IncorrectCredentials
    ensures r.Success? ==>
              r.value.user.username == credentials.username.value &&
              r.value.user in users &&
              r.value.tokens == CreateTokens(r.value.user.id, now, key)
  {
    if credentials.username.None? then Failure(IncorrectCredentials)
    else
      match FirstUser(users, ByUsername(credentials.username.value))
      case None => Failure(IncorrectCredentials)
      case Some(i) =>
        if !verify(credentials.password, users[i].hashedPassword) then Failure(IncorrectCredentials)
        else Success(Session(users[i], CreateTokens(users[i].id, now, key)))
  }

  /** Logging in by e-mail alone never finds a user. */
  lemma {:induction false} EmailOnlyLoginFails(users: seq<User>, email: string, password: string, verify: (string, string) -> bool, now: int, key: string)
    ensures Authenticate(users, UserLogin(None, Some(email), password), verify, now, key) == Failure(IncorrectCredentials)
  {
  }

  /** So a login-form value containing `@`, which the page sends as `email`, is always refused. */
  lemma {:induction false} FormEmailLoginFails(users: seq<User>, value: string, password: string, verify: (string, string) -> bool, now: int, key: string)
    requires '@' in value
    ensures Authenticate(users, LoginBody(value, password), verify, now, key) == Failure(IncorrectCredentials)
  {
    EmailOnlyLoginFails(users, value, password, verify, now, key);
  }

  /** A freshly registered user can log in with the same username and password. */
  lemma {:induction false} RegisterThenAuthenticate(
    users: seq<User>, data: UserCreate, hash: string -> string, verify: (string, string) -> bool,
    newId: string, now: int, later: int, key: string)
    requires Register(users, data, hash, newId, now, key).Success?
    requires verify(data.password, hash(data.password))
    ensures var (after, s) := Register(users, data, hash, newId, now, key).value;
            Authenticate(after, UserLogin(Some(data.username), None, data.password), verify, later, key) ==
              Success(Session(s.user, CreateTokens(newId, later, key)))
  {
    var (after, s) := Register(users, data, hash, newId, now, key).value;
    FirstUserAppended(users, s.user, ByUsername(data.username));
  }

  // ---------------------------------------------------------------------
  // Refresh and current user

  /** `refresh_access_token`: `refresh_tokens` on the request's token, so it never succeeds. */
  function RefreshAccessToken(refreshToken: Jwt, now: int, key: string): (r: Result<Token<Jwt>, HttpError>)
    ensures r.Failure?
    ensures r.error.status == 401
  {
    RefreshTokens(refreshToken, now, key)
  }

  /**
   `get_current_user`: any failure to decode the token or to read its `sub`
   as a UUID is a 401; the user is looked up by the parsed id, 404 when
   absent, and only its username, e-mail and id are returned. `parseUuid`
   is `uuid.UUID` followed by `str`, `None` when it raises.
   */
  function GetCurrentUser(users: seq<User>, token: Jwt, now: int, key: string, parseUuid: string -> Option<string>)
    : (r: Result<Profile, HttpError>)
    ensures DecodeToken(token, now, key).Failure? ==> r == Failure(InvalidOrExpired)
    ensures DecodeToken(token, now, key).Success? ==>
              match Get(DecodeToken(token, now, key).value, "sub")
              case Some(Str(sub)) =>
                (match parseUuid(sub)
                 case None => r == Failure(InvalidOrExpired)
                 case Some(id) =>
                   && (r == Failure(UserNotFound) <==> forall i :: 0 <= i < |users| ==> users[i].id != id)
                   && (r.Success? <==> exists i :: 0 <= i < |users| && users[i].id == id)
                   && (r.Success? ==>
                         && FirstUser(users, ById(id)).Some?
                         && var k := FirstUser(users, ById(id)).value;
                            r.value == Profile(users[k].username, users[k].email, users[k].id)))
              case _ => r == Failure(InvalidOrExpired)
    ensures r.Success? ==>
              exists i :: 0 <= i < |users| && r.value == Profile(users[i].username, users[i].email, users[i].id)
    ensures r.Failure? ==> r.error == InvalidOrExpired || r.error == UserNotFound
  {
    match DecodeToken(token, now, key)
    case Failure(_) => Failure(InvalidOrExpired)
    case Success(payload) =>
      match Get(payload, "sub")
      case Some(Str(sub)) =>
        (match parseUuid(sub)
         case None => Failure(InvalidOrExpired)
         case Some(id) =>
           match FirstUser(users, ById(id))
           case None => Failure(UserNotFound)
           case Some(i) => Success(Profile(users[i].username, users[i].email, users[i].id)))
      case _ => Failure(InvalidOrExpired)
  }

  /**
   The access token handed out at registration identifies the new user until
   it expires, provided the new id is a canonical UUID no earlier row has.
   */
  lemma {:induction false} RegisteredUserIsCurrent(
    users: seq<User>, data: UserCreate, hash: string -> string, newId: string,
    issued: int, now: int, key: string, parseUuid: string -> Option<string>)
    requires Register(users, data, hash, newId, issued, key).Success?
    requires parseUuid(newId) == Some(newId)
    requires forall j :: 0 <= j < |users| ==> users[j].id != newId
    requires now < issued + 1800
    ensures var (after, s) := Register(users, data, hash, newId, issued, key).value;
            GetCurrentUser(after, s.tokens.accessToken, now, key, parseUuid) == Success(Profile(data.username, data.email, newId))
  {
    var (after, s) := Register(users, data, hash, newId, issued, key).value;
    AccessTokenRoundTrip(newId, issued, now, key);
    var payload: Payload := map["sub" := Str(newId), "exp" := Num(issued + 1800)];
    assert Get(payload, "sub") == Some(Str(newId));
    FirstUserAppended(users, s.user, ById(newId));
  }

  /** A token whose user has gone gets 404, not 401. */
  lemma {:induction false} MissingUserIsNotFound(users: seq<User>, userId: string, issued: int, now: int, key: string, parseUuid: string -> Option<string>)
    requires parseUuid(userId).Some?
    requires forall j :: 0 <= j < |users| ==> users[j].id != parseUuid(userId).value
    requires now < issued + 1800
    ensures GetCurrentUser(users, CreateTokens(userId, issued, key).accessToken, now, key, parseUuid) == Failure(UserNotFound)
  {
    AccessTokenRoundTrip(userId, issued, now, key);
    var payload: Payload := map["sub" := Str(userId), "exp" := Num(issued + 1800)];
    assert Get(payload, "sub") == Some(Str(userId));
  }
}
