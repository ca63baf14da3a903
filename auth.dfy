/** Account creation and login (server/src/auth.rs) over the Users table. */
module Auth {
  import opened Wrappers
  import opened Schema
  import opened Storage
  import opened Utils
  import Password

  /** The `/auth/login` decision: the user with the submitted email, if any, logs in
      when the password verifies against the stored hash. It only reads the table. */
  function Login(users: seq<UserRow>, request: LoginRequest): (r: Result<LoginReply, RouteError>)
    ensures FindUserByEmail(users, request.email).None? <==> r == Err(RouteError(NotFound))
    ensures r.Ok? <==>
              var found := FindUserByEmail(users, request.email);
              found.Some? && Password.Parse(found.value.password).Some? &&
              Password.Verify(request.password, Password.Parse(found.value.password).value)
    ensures r.Ok? ==>
              exists i :: 0 <= i < |users| && users[i].email == request.email &&
                          r.value == LoginReply(users[i].userId, users[i].kind)
    ensures r == Err(RouteError(Unauthorized)) <==>
              var found := FindUserByEmail(users, request.email);
              found.Some? && Password.Parse(found.value.password).Some? &&
              !Password.Verify(request.password, Password.Parse(found.value.password).value)
    ensures r == Err(RouteError(InternalServerError)) <==>
              var found := FindUserByEmail(users, request.email);
              found.Some? && Password.Parse(found.value.password).None?
  {
    match FindUserByEmail(users, request.email)
    case None => Err(RouteError(NotFound))
    case Some(user) =>
      match Password.Parse(user.password)
      case None => Err(RouteError(InternalServerError))
      case Some(hash) =>
        if Password.Verify(request.password, hash) then Ok(LoginReply(user.userId, user.kind))
        else Err(RouteError(Unauthorized))
  }

  predicate HasEmptyField(request: CreateAccountRequest) {
    request.email == [] || request.name == [] || request.password == []
  }

  /** The `/auth/create-account` transition on the Users table, `salt` standing for the
      random salt the handler draws: the new table and the reply. */
  function CreateAccountStep(users: seq<UserRow>, request: CreateAccountRequest, salt: string): (r: (seq<UserRow>, Result<LoginReply, RouteError>))
    ensures r.1.Err? ==> r.0 == users
    ensures r.1 == Err(RouteError(BadRequest)) <==> HasEmptyField(request)
    ensures r.1 == Err(RouteError(InternalServerError)) <==>
              !HasEmptyField(request) && FindUserByEmail(users, request.email).Some?
    ensures r.1.Ok? <==> !HasEmptyField(request) && FindUserByEmail(users, request.email).None?
    ensures r.1.Ok? ==>
              r.1.value.kind == NormalUser &&
              (forall i :: 0 <= i < |users| ==> users[i].userId != r.1.value.id) &&
              r.0 == users + [UserRow(r.1.value.id, request.name, NormalUser, request.email,
                                      Password.Phc(Password.Hash(request.password, salt)))]
  {
    if HasEmptyField(request) then (users, Err(RouteError(BadRequest)))
    else if FindUserByEmail(users, request.email).Some? then (users, Err(RouteError(InternalServerError)))
    else
      var id := NextRowId(UserIds(users));
      (users + [UserRow(id, request.name, NormalUser, request.email, Password.Phc(Password.Hash(request.password, salt)))],
       Ok(LoginReply(id, NormalUser)))
  }

  /** The handler: rejects an empty field, hashes the password, and inserts the account
      with the normal-user type; the insert fails when the email is already registered. */
  method CreateAccount(db: Database, request: CreateAccountRequest, salt: string) returns (reply: Result<LoginReply, RouteError>)
    modifies db`users
    ensures (db.users, reply) == CreateAccountStep(old(db.users), request, salt)
  {
    if request.email == [] || request.name == [] || request.password == [] {
      return Err(RouteError(BadRequest));
    }
    var passwordHash := Password.Phc(Password.Hash(request.password, salt));
    if FindUserByEmail(db.users, request.email).Some? {
      return Err(RouteError(InternalServerError));
    }
    var id := NextRowId(UserIds(db.users));
    db.users := db.users + [UserRow(id, request.name, NormalUser, request.email, passwordHash)];
    reply := Ok(LoginReply(id, NormalUser));
  }

  /** Creating an account keeps user ids and emails unique. */
  lemma CreateAccountKeepsUsersValid(users: seq<UserRow>, request: CreateAccountRequest, salt: string)
    requires UsersValid(users)
    ensures UsersValid(CreateAccountStep(users, request, salt).0)
  {
  }

  /** Round trip: right after an account is created, logging in with its email and
      password succeeds with the new id and the normal-user type. */
  lemma LoginAfterCreateAccount(users: seq<UserRow>, request: CreateAccountRequest, salt: string)
    requires CreateAccountStep(users, request, salt).1.Ok?
    ensures var r := CreateAccountStep(users, request, salt);
            Login(r.0, LoginRequest(request.email, request.password)) == Ok(LoginReply(r.1.value.id, NormalUser))
  {
    var r := CreateAccountStep(users, request, salt);
    var row := r.0[|users|];
    assert FindUserByEmail(users, request.email).None?;
    assert forall i :: 0 <= i < |users| ==> r.0[i] == users[i];
    assert FindUserByEmail(r.0, request.email) == Some(row);
  }
}
