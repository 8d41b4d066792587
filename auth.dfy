/** The decisions of app/routers/auth.py: the bearer-token guard, the
    `/auth/verify` header handling, `login` and `create_user` (registration).

    The three tables the routes query (users, user_role and
    user_role_mapping) are sequences of rows; the database's id allocation
    is the counter `nextId`. bcrypt is the pair of parameters `hashPassword`
    (hash_password, with its salt folded in) and `checkPassword`
    (verify_password: None where bcrypt raises on a malformed stored hash). */
module Auth {
  import opened Wrappers
  import opened Text
  import opened Timestamps
  import opened ResponseHelpers
  import Security
  import Base64Url

  const InvalidOrExpired := "Invalid or expired token"
  const InvalidCredentials := "Invalid credentials"
  const TokenMissing := "Token missing"
  const MalformedToken := "Malformed token"
  const CredentialsRequired := "Username and password are required"
  const RegistrationFieldsRequired := "Username, email, and password are required"
  const AlreadyExists := "Username or email already exists!"
  const ViewerRole := "viewer"

  type PasswordHasher = string -> string
  type PasswordCheck = (string, string) -> Option<bool>

  // ---- the bearer guard ----

  /** get_current_user: the username verify_token yields for the bearer
      credential, or 401 when it yields None or the empty username (Python's
      `not username`). */
  function GetCurrentUser(token: string, now: DateTime, sign: Security.Signer): (r: Result<string, HttpException>)
    ensures r.Ok? ==> Security.VerifyToken(token, now, sign) == Some(r.value) && r.value != []
    ensures r.Err? ==> r.error == HandleUnauthorizedError(InvalidOrExpired)
                       && Security.VerifyToken(token, now, sign) in {None, Some([])}
  {
    match Security.VerifyToken(token, now, sign)
    case None => Err(HandleUnauthorizedError(InvalidOrExpired))
    case Some(username) =>
      if username == [] then Err(HandleUnauthorizedError(InvalidOrExpired)) else Ok(username)
  }

  /** A token issued at `now` passes the guard at `later` exactly while
      `later` is before its expiration, and never for the empty username. */
  lemma {:induction false} GuardAcceptsIssuedToken(username: string, now: DateTime, later: DateTime, sign: Security.Signer)
    requires now.Valid() && later.Valid() && Security.IsHmacHex(sign)
    requires Security.GenerateToken(username, now, sign).Some?
    ensures Security.ExpirationFor(now).Some?
    ensures var token := Security.GenerateToken(username, now, sign).value;
            GetCurrentUser(token, later, sign)
            == if username != [] && Before(later, Security.ExpirationFor(now).value)
               then Ok(username) else Err(HandleUnauthorizedError(InvalidOrExpired))
  {
    Security.VerifyGeneratedToken(username, now, later, sign);
  }

  // ---- /auth/verify ----

  datatype TokenVerifyResponse = TokenVerifyResponse(message: string, username: Option<string>)

  /** verify_token_endpoint: the Authorization header, absent as None. The
      token is the second piece of `split(' ')`; the first is never looked
      at. */
  function VerifyTokenEndpoint(authorization: Option<string>, now: DateTime, sign: Security.Signer)
    : (r: Result<TokenVerifyResponse, HttpException>)
    ensures (authorization.None? || authorization.value == []) <==>
              r == Err(HandleUnauthorizedError(TokenMissing))
    ensures r == Err(HandleUnauthorizedError(MalformedToken)) <==>
              authorization.Some? && authorization.value != [] && ' ' !in authorization.value
    ensures r.Ok? ==> && authorization.Some? && ' ' in authorization.value
                      && r.value.message == "Token valid"
                      && r.value.username.Some? && r.value.username.value != []
                      && GetCurrentUser(Split(authorization.value, ' ')[1], now, sign)
                         == Ok(r.value.username.value)
    ensures authorization.Some? && ' ' in authorization.value ==>
              r == match GetCurrentUser(Split(authorization.value, ' ')[1], now, sign)
                   case Ok(username) => Ok(TokenVerifyResponse("Token valid", Some(username)))
                   case Err(e) => Err(e)
  {
    if authorization.None? || authorization.value == [] then
      Err(HandleUnauthorizedError(TokenMissing))
    else
      var parts := Split(authorization.value, ' ');
      assert ' ' in authorization.value ==> IndexOf(authorization.value, ' ').Some?;
      if |parts| < 2 then Err(HandleUnauthorizedError(MalformedToken))
      else
        match GetCurrentUser(parts[1], now, sign)
        case Ok(username) => Ok(TokenVerifyResponse("Token valid", Some(username)))
        case Err(e) => Err(e)
  }

  /** The first word of the header is not checked: any scheme without a
      space in it behaves as "Bearer". */
  lemma {:induction false} VerifyIgnoresScheme(scheme: string, rest: string, now: DateTime, sign: Security.Signer)
    requires ' ' !in scheme
    ensures Split(scheme + " " + rest, ' ') == [scheme] + Split(rest, ' ')
    ensures VerifyTokenEndpoint(Some(scheme + " " + rest), now, sign)
            == VerifyTokenEndpoint(Some("Bearer " + rest), now, sign)
  {
    var given, bearer := scheme + " " + rest, "Bearer" + " " + rest;
    SplitAfterWord(scheme, rest);
    SplitAfterWord("Bearer", rest);
    assert "Bearer " + rest == bearer;
    assert given != [] && bearer != [];
    assert |Split(given, ' ')| >= 2 && |Split(bearer, ' ')| >= 2;
    assert Split(given, ' ')[1] == Split(bearer, ' ')[1];
  }

  lemma {:induction false} SplitAfterWord(word: string, rest: string)
    requires ' ' !in word
    ensures Split(word + " " + rest, ' ') == [word] + Split(rest, ' ')
  {
    var s := word + " " + rest;
    assert s[..|word|] == word;
    assert s[|word| + 1..] == rest;
    IndexFound(s, ' ', |word|);
  }

  /** A header `scheme token` carrying an issued token is answered "Token
      valid" with the username exactly while the token is unexpired and the
      username is non-empty. */
  lemma {:induction false} VerifyIssuedToken(scheme: string, username: string, now: DateTime, later: DateTime,
                          sign: Security.Signer)
    requires ' ' !in scheme
    requires now.Valid() && later.Valid() && Security.IsHmacHex(sign)
    requires Security.GenerateToken(username, now, sign).Some?
    ensures Security.ExpirationFor(now).Some?
    ensures var token := Security.GenerateToken(username, now, sign).value;
            VerifyTokenEndpoint(Some(scheme + " " + token), later, sign)
            == if username != [] && Before(later, Security.ExpirationFor(now).value)
               then Ok(TokenVerifyResponse("Token valid", Some(username)))
               else Err(HandleUnauthorizedError(InvalidOrExpired))
  {
    var token := Security.GenerateToken(username, now, sign).value;
    assert ' ' !in token;
    HeaderWithToken(scheme, token, later, sign);
    GuardAcceptsIssuedToken(username, now, later, sign);
  }

  /** A header of two space-free words is answered from the second alone. */
  lemma {:induction false} HeaderWithToken(scheme: string, token: string, now: DateTime, sign: Security.Signer)
    requires ' ' !in scheme && ' ' !in token
    ensures VerifyTokenEndpoint(Some(scheme + " " + token), now, sign)
            == match GetCurrentUser(token, now, sign)
               case Ok(username) => Ok(TokenVerifyResponse("Token valid", Some(username)))
               case Err(e) => Err(e)
  {
    SplitAfterWord(scheme, token);
    assert Split(token, ' ') == [token];
  }

  // ---- the tables ----

  datatype UserRow = UserRow(id: int, username: string, email: string, passwordHash: string)
  datatype RoleRow = RoleRow(id: int, roleName: string)
  datatype RoleMapping = RoleMapping(userId: int, roleId: int)

  datatype UserTables = UserTables(users: seq<UserRow>, roles: seq<RoleRow>,
                                   mapping: seq<RoleMapping>, nextId: int)

  /** What the schema keeps true: usernames, emails and user ids are unique,
      every id (of a user or in a mapping) was allocated before `nextId`,
      and role ids are unique. */
  predicate ValidTables(t: UserTables)
  {
    && (forall i, j :: 0 <= i < j < |t.users| ==>
          && t.users[i].username != t.users[j].username
          && t.users[i].email != t.users[j].email
          && t.users[i].id != t.users[j].id)
    && (forall i :: 0 <= i < |t.users| ==> t.users[i].id < t.nextId)
    && (forall i :: 0 <= i < |t.mapping| ==> t.mapping[i].userId < t.nextId)
    && (forall i, j :: 0 <= i < j < |t.roles| ==> t.roles[i].id != t.roles[j].id)
  }

  /** `SELECT ... FROM users WHERE username = :username`, fetchone: the
      first row with that username. */
  function FindUser(users: seq<UserRow>, username: string): (r: Option<nat>)
    ensures r.Some? ==> && r.value < |users| && users[r.value].username == username
                        && forall k :: 0 <= k < r.value ==> users[k].username != username
    ensures r.None? ==> forall k :: 0 <= k < |users| ==> users[k].username != username
  {
    if users == [] then None
    else if users[0].username == username then Some(0)
    else
      match FindUser(users[1..], username)
      case None => None
      case Some(k) => Some(k + 1)
  }

  /** After inserting a user whose username was free, the lookup by that
      username finds the inserted row. */
  lemma {:induction false} FindNewUser(users: seq<UserRow>, row: UserRow)
    requires forall i :: 0 <= i < |users| ==> users[i].username != row.username
    ensures FindUser(users + [row], row.username) == Some(|users|)
  {
    var all := users + [row];
    assert all[|users|].username == row.username;
    assert forall i :: 0 <= i < |users| ==> all[i].username != row.username;
  }

  /** `SELECT id FROM user_role WHERE role_name = :name`, fetchone. */
  function FindRole(roles: seq<RoleRow>, name: string): (r: Option<nat>)
    ensures r.Some? ==> && r.value < |roles| && roles[r.value].roleName == name
                        && forall k :: 0 <= k < r.value ==> roles[k].roleName != name
    ensures r.None? ==> forall k :: 0 <= k < |roles| ==> roles[k].roleName != name
  {
    if roles == [] then None
    else if roles[0].roleName == name then Some(0)
    else
      match FindRole(roles[1..], name)
      case None => None
      case Some(k) => Some(k + 1)
  }

  /** The names of the roles whose id is `roleId`. */
  function NamesWithId(roles: seq<RoleRow>, roleId: int): (names: seq<string>)
    ensures forall name :: name in names <==>
              exists j :: 0 <= j < |roles| && roles[j].id == roleId && roles[j].roleName == name
  {
    if roles == [] then []
    else
      (if roles[0].id == roleId then [roles[0].roleName] else [])
      + NamesWithId(roles[1..], roleId)
  }

  /** The role query of `login`: user_role_mapping joined with user_role on
      the role id, for one user id. */
  function RoleNames(mapping: seq<RoleMapping>, roles: seq<RoleRow>, userId: int): (names: seq<string>)
    ensures forall name :: name in names <==>
              exists i, j :: && 0 <= i < |mapping| && 0 <= j < |roles|
                             && mapping[i].userId == userId && roles[j].id == mapping[i].roleId
                             && roles[j].roleName == name
  {
    if mapping == [] then []
    else
      var first := if mapping[0].userId == userId then NamesWithId(roles, mapping[0].roleId) else [];
      var rest := RoleNames(mapping[1..], roles, userId);
      assert forall name :: name in rest ==>
        exists i, j :: && 0 <= i < |mapping| && 0 <= j < |roles|
                       && mapping[i].userId == userId && roles[j].id == mapping[i].roleId
                       && roles[j].roleName == name
      by {
        forall name | name in rest
          ensures exists i, j :: && 0 <= i < |mapping| && 0 <= j < |roles|
                                 && mapping[i].userId == userId && roles[j].id == mapping[i].roleId
                                 && roles[j].roleName == name
        {
          var i, j :| && 0 <= i < |mapping[1..]| && 0 <= j < |roles|
                      && mapping[1..][i].userId == userId && roles[j].id == mapping[1..][i].roleId
                      && roles[j].roleName == name;
          assert mapping[i + 1] == mapping[1..][i];
        }
      }
      first + rest
  }

  lemma {:induction false} RoleNamesAppend(a: seq<RoleMapping>, b: seq<RoleMapping>, roles: seq<RoleRow>, userId: int)
    ensures RoleNames(a + b, roles, userId) == RoleNames(a, roles, userId) + RoleNames(b, roles, userId)
  {
    if a != [] {
      assert (a + b)[1..] == a[1..] + b;
      RoleNamesAppend(a[1..], b, roles, userId);
    } else {
      assert a + b == b;
    }
  }

  /** With unique role ids, exactly one role carries a given id's name. */
  lemma {:induction false} NamesWithUniqueId(roles: seq<RoleRow>, j: nat)
    requires j < |roles|
    requires forall a, b :: 0 <= a < b < |roles| ==> roles[a].id != roles[b].id
    ensures NamesWithId(roles, roles[j].id) == [roles[j].roleName]
  {
    if j == 0 {
      NoOtherId(roles[1..], roles[0].id);
    } else {
      NamesWithUniqueId(roles[1..], j - 1);
    }
  }

  lemma {:induction false} NoOtherId(roles: seq<RoleRow>, roleId: int)
    requires forall a :: 0 <= a < |roles| ==> roles[a].id != roleId
    ensures NamesWithId(roles, roleId) == []
  {
    if roles != [] {
      NoOtherId(roles[1..], roleId);
    }
  }

  // ---- login ----

  datatype TokenResponse = TokenResponse(message: string, token: string, roles: seq<string>)

  /** login: the branches of the route, with the stored tables as a value.
      verify_password raising (None) and generate_token overflowing both end
      in the generic handler's 500. A failure is a 422, a 401 or a 500; a
      success carries the token issued for the username at `now`. */
  function Login(username: string, password: string, t: UserTables,
                 checkPassword: PasswordCheck, now: DateTime, sign: Security.Signer)
    : (r: Result<TokenResponse, HttpException>)
    requires now.Valid()
    ensures r.Err? ==> r.error.statusCode in {HTTP_422_UNPROCESSABLE_ENTITY, HTTP_401_UNAUTHORIZED,
                                              HTTP_500_INTERNAL_SERVER_ERROR}
    ensures r.Ok? ==> r.value.message == "Login successful"
                      && Security.GenerateToken(username, now, sign) == Some(r.value.token)
  {
    if username == [] || password == [] then
      Err(HandleValidationError("credentials", CredentialsRequired))
    else
      match FindUser(t.users, username)
      case None => Err(HandleUnauthorizedError(InvalidCredentials))
      case Some(k) =>
        match checkPassword(password, t.users[k].passwordHash)
        case None => Err(HandleDatabaseError("verify_password raised", "login"))
        case Some(false) => Err(HandleUnauthorizedError(InvalidCredentials))
        case Some(true) =>
          match Security.GenerateToken(username, now, sign)
          case None => Err(HandleDatabaseError("OverflowError", "login"))
          case Some(token) =>
            Ok(TokenResponse("Login successful", token, RoleNames(t.mapping, t.roles, t.users[k].id)))
  }

  /** An empty username or password is refused with 422 before the tables
      or the password check are consulted. */
  lemma {:induction false} LoginRequiresCredentials(username: string, password: string, t: UserTables,
                                 checkPassword: PasswordCheck, now: DateTime, sign: Security.Signer)
    requires now.Valid()
    requires username == [] || password == []
    ensures Login(username, password, t, checkPassword, now, sign)
            == Err(HandleValidationError("credentials", CredentialsRequired))
  {
  }

  /** An unknown username and a wrong password get the same answer, and
      nothing else gets that answer. */
  lemma {:induction false} LoginHidesWhichCredentialFailed(username: string, password: string, t: UserTables,
                                        checkPassword: PasswordCheck, now: DateTime, sign: Security.Signer)
    requires now.Valid()
    ensures Login(username, password, t, checkPassword, now, sign)
            == Err(HttpException(HTTP_401_UNAUTHORIZED, InvalidCredentials))
            <==>
            && username != [] && password != []
            && (|| (forall k :: 0 <= k < |t.users| ==> t.users[k].username != username)
                || checkPassword(password, t.users[FindUser(t.users, username).value].passwordHash) == Some(false))
  {
  }

  /** login succeeds exactly when both fields are given, the user exists,
      the password checks and the token can be issued; it returns that
      token and the names of exactly the roles mapped to the user. */
  lemma {:induction false} LoginSuccess(username: string, password: string, t: UserTables,
                     checkPassword: PasswordCheck, now: DateTime, sign: Security.Signer)
    requires now.Valid()
    ensures var r := Login(username, password, t, checkPassword, now, sign);
            r.Ok? <==> && username != [] && password != [] && FindUser(t.users, username).Some?
                       && checkPassword(password, t.users[FindUser(t.users, username).value].passwordHash) == Some(true)
                       && Security.GenerateToken(username, now, sign).Some?
    ensures var r := Login(username, password, t, checkPassword, now, sign);
            r.Ok? ==> && r.value.message == "Login successful"
                      && r.value.token == Security.GenerateToken(username, now, sign).value
                      && forall name :: name in r.value.roles <==>
                           exists i, j :: && 0 <= i < |t.mapping| && 0 <= j < |t.roles|
                                          && t.mapping[i].userId == t.users[FindUser(t.users, username).value].id
                                          && t.roles[j].id == t.mapping[i].roleId
                                          && t.roles[j].roleName == name
  {
  }

  // ---- registration ----

  /** `SELECT 1 FROM users WHERE username = :username OR email = :email`. */
  predicate Taken(users: seq<UserRow>, username: string, email: string)
  {
    exists i | 0 <= i < |users| :: users[i].username == username || users[i].email == email
  }

  /** create_user as a function of the tables before the call: the answer
      and the tables after it. Every failure leaves the tables as they were,
      since the writes happen inside one transaction, and is a 422, a 409 or
      a 500; a success adds one user and keeps the roles. */
  function Register(t: UserTables, username: string, email: string, password: string,
                    hashPassword: PasswordHasher): (res: (Result<JsonObject, HttpException>, UserTables))
    ensures res.0.Err? ==> res.1 == t && res.0.error.statusCode in {HTTP_422_UNPROCESSABLE_ENTITY,
                                                                    HTTP_409_CONFLICT,
                                                                    HTTP_500_INTERNAL_SERVER_ERROR}
    ensures res.0.Ok? ==> |res.1.users| == |t.users| + 1 && res.1.users[..|t.users|] == t.users
                          && res.1.roles == t.roles
  {
    if username == [] || email == [] || password == [] then
      (Err(HandleValidationError("credentials", RegistrationFieldsRequired)), t)
    else if Taken(t.users, username, email) then
      (Err(HttpException(HTTP_409_CONFLICT, AlreadyExists)), t)
    else
      match FindRole(t.roles, ViewerRole)
      case None => (Err(HandleDatabaseError("no viewer role", "user creation")), t)
      case Some(j) =>
        (Ok(CreateSuccessResponse(JNull, "User created successfully")),
         t.(users := t.users + [UserRow(t.nextId, username, email, hashPassword(password))],
            mapping := t.mapping + [RoleMapping(t.nextId, t.roles[j].id)],
            nextId := t.nextId + 1))
  }

  /** Registration answers 422 for an empty field, 409 for a username or
      email already present, 500 when there is no viewer role, and
      otherwise succeeds; whenever it fails the tables are unchanged. */
  lemma {:induction false} RegisterOutcomes(t: UserTables, username: string, email: string, password: string,
                         hashPassword: PasswordHasher)
    ensures var (r, t') := Register(t, username, email, password, hashPassword);
            && (r.Err? ==> t' == t)
            && ((username == [] || email == [] || password == []) <==>
                  r == Err(HandleValidationError("credentials", RegistrationFieldsRequired)))
            && (r == Err(HttpException(HTTP_409_CONFLICT, AlreadyExists)) <==>
                  username != [] && email != [] && password != [] && Taken(t.users, username, email))
            && (r.Ok? <==> && username != [] && email != [] && password != []
                           && !Taken(t.users, username, email) && FindRole(t.roles, ViewerRole).Some?)
  {
  }

  /** A successful registration adds exactly one user row, with the new id
      and the hashed password, and exactly one mapping of that id to the
      viewer role; nothing else changes. */
  lemma {:induction false} RegisterAddsViewer(t: UserTables, username: string, email: string, password: string,
                           hashPassword: PasswordHasher)
    requires Register(t, username, email, password, hashPassword).0.Ok?
    ensures var (r, t') := Register(t, username, email, password, hashPassword);
            && r.value == map["success" := JBool(true), "message" := JStr("User created successfully")]
            && t'.users == t.users + [UserRow(t.nextId, username, email, hashPassword(password))]
            && |t'.mapping| == |t.mapping| + 1 && t'.mapping[..|t.mapping|] == t.mapping
            && t'.mapping[|t.mapping|].userId == t.nextId
            && ViewerRole in NamesWithId(t.roles, t'.mapping[|t.mapping|].roleId)
            && t'.roles == t.roles
  {
    var j := FindRole(t.roles, ViewerRole).value;
    assert t.roles[j].roleName == ViewerRole;
  }

  /** Registration keeps the tables valid. */
  lemma {:induction false} RegisterPreservesValid(t: UserTables, username: string, email: string, password: string,
                               hashPassword: PasswordHasher)
    requires ValidTables(t)
    ensures ValidTables(Register(t, username, email, password, hashPassword).1)
  {
    var (r, t') := Register(t, username, email, password, hashPassword);
    if r.Ok? {
      assert forall i :: 0 <= i < |t.users| ==>
        t.users[i].username != username && t.users[i].email != email;
    }
  }

  /** A user who has just registered can log in with the same password
      (given that bcrypt accepts the hash it made), and holds exactly the
      viewer role. */
  lemma {:induction false} LoginAfterRegister(t: UserTables, username: string, email: string, password: string,
                           hashPassword: PasswordHasher, checkPassword: PasswordCheck,
                           now: DateTime, sign: Security.Signer)
    requires ValidTables(t) && now.Valid()
    requires Register(t, username, email, password, hashPassword).0.Ok?
    requires checkPassword(password, hashPassword(password)) == Some(true)
    requires Security.GenerateToken(username, now, sign).Some?
    ensures Login(username, password, Register(t, username, email, password, hashPassword).1,
                  checkPassword, now, sign)
            == Ok(TokenResponse("Login successful", Security.GenerateToken(username, now, sign).value,
                                [ViewerRole]))
  {
    var t' := Register(t, username, email, password, hashPassword).1;
    var j := FindRole(t.roles, ViewerRole).value;
    FindNewUser(t.users, UserRow(t.nextId, username, email, hashPassword(password)));
    assert t'.users[|t.users|].id == t.nextId;
    NewUserRoles(t.mapping, t.roles, t.nextId, j);
    LoginFound(username, password, t', |t.users|, checkPassword, now, sign);
  }

  lemma {:induction false} LoginFound(username: string, password: string, t: UserTables, k: nat,
                   checkPassword: PasswordCheck, now: DateTime, sign: Security.Signer)
    requires now.Valid() && username != [] && password != []
    requires FindUser(t.users, username) == Some(k)
    requires checkPassword(password, t.users[k].passwordHash) == Some(true)
    requires Security.GenerateToken(username, now, sign).Some?
    ensures Login(username, password, t, checkPassword, now, sign)
            == Ok(TokenResponse("Login successful", Security.GenerateToken(username, now, sign).value,
                                RoleNames(t.mapping, t.roles, t.users[k].id)))
  {
  }

  lemma {:induction false} NoRolesForFreshId(mapping: seq<RoleMapping>, roles: seq<RoleRow>, newId: int)
    requires forall i :: 0 <= i < |mapping| ==> mapping[i].userId < newId
    ensures RoleNames(mapping, roles, newId) == []
  {
    if mapping != [] {
      NoRolesForFreshId(mapping[1..], roles, newId);
    }
  }

  /** A fresh id mapped once to the role at index j holds that role's name
      alone. */
  lemma {:induction false} NewUserRoles(mapping: seq<RoleMapping>, roles: seq<RoleRow>, newId: int, j: nat)
    requires j < |roles|
    requires forall i :: 0 <= i < |mapping| ==> mapping[i].userId < newId
    requires forall a, b :: 0 <= a < b < |roles| ==> roles[a].id != roles[b].id
    ensures RoleNames(mapping + [RoleMapping(newId, roles[j].id)], roles, newId) == [roles[j].roleName]
  {
    var newMapping := RoleMapping(newId, roles[j].id);
    RoleNamesAppend(mapping, [newMapping], roles, newId);
    NoRolesForFreshId(mapping, roles, newId);
    assert RoleNames([newMapping], roles, newId) == NamesWithId(roles, roles[j].id);
    NamesWithUniqueId(roles, j);
  }

  /** The route's own store: the three tables and the id counter, updated in
      place by registration. */
  class UserStore {
    var users: seq<UserRow>
    var roles: seq<RoleRow>
    var mapping: seq<RoleMapping>
    var nextId: int

    function Tables(): UserTables
      reads this
    {
      UserTables(users, roles, mapping, nextId)
    }

    predicate Valid()
      reads this
    {
      ValidTables(Tables())
    }

    /** Empty user and mapping tables over a fixed role table; ids start at 1. */
    constructor(roles: seq<RoleRow>)
      requires forall a, b :: 0 <= a < b < |roles| ==> roles[a].id != roles[b].id
      ensures Valid()
      ensures users == [] && mapping == [] && this.roles == roles && nextId == 1
    {
      users := [];
      this.roles := roles;
      mapping := [];
      nextId := 1;
    }

    /** create_user: check the fields, then inside one transaction check for
        a conflict, insert the user, look the new id up by username, look the
        viewer role up and insert the mapping; a missing viewer role rolls
        the insert back. */
    method CreateUser(username: string, email: string, password: string, hashPassword: PasswordHasher)
      returns (r: Result<JsonObject, HttpException>)
      requires Valid()
      modifies this
      ensures Valid()
      ensures (r, Tables()) == Register(old(Tables()), username, email, password, hashPassword)
    {
      RegisterPreservesValid(Tables(), username, email, password, hashPassword);
      ghost var want := Register(Tables(), username, email, password, hashPassword);
      if username == [] || email == [] || password == [] {
        return Err(HandleValidationError("credentials", RegistrationFieldsRequired));
      }
      var hashed := hashPassword(password);
      if Taken(users, username, email) {
        return Err(HttpException(HTTP_409_CONFLICT, AlreadyExists));
      }
      var savedUsers, savedNextId := users, nextId;
      users := users + [UserRow(nextId, username, email, hashed)];
      nextId := nextId + 1;
      FindNewUser(savedUsers, UserRow(savedNextId, username, email, hashed));
      var k := FindUser(users, username);
      var userId := users[k.value].id;
      var viewer := FindRole(roles, ViewerRole);
      if viewer.None? {
        users, nextId := savedUsers, savedNextId;
        assert Tables() == want.1;
        return Err(HandleDatabaseError("no viewer role", "user creation"));
      }
      mapping := mapping + [RoleMapping(userId, roles[viewer.value].id)];
      assert Tables() == want.1;
      r := Ok(CreateSuccessResponse(JNull, "User created successfully"));
    }
  }
}
