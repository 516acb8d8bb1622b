/** Registration and log-in. The password hasher and the token service
    are parameters: hashing, verification and token issue are opaque. */
module UserUseCases {

  import opened Common
  import opened Schema
  import opened Responses
  import opened UnitOfWork
  import UserRepository

  datatype RegisterRequest = RegisterRequest(
    email: string,
    password: string,
    firstName: string,
    lastName: string,
    isAdmin: bool)

  datatype LogInRequest = LogInRequest(email: string, password: string)

  /** The claims of an access token: `{"sub": str(user.id)}`. */
  datatype Claims = Claims(sub: Id)

  /** `PasswordHasherProtocol`: `hash` and `verify(plain, hashed)`. */
  datatype Hasher = Hasher(hash: string -> string, verify: (string, string) -> bool)

  /** What a hasher promises: a password verifies against its own hash. */
  ghost predicate LawfulHasher(h: Hasher)
  {
    forall p :: h.verify(p, h.hash(p))
  }

  function RoleOf(isAdmin: bool): (role: Role)
    ensures role == Admin <==> isAdmin
  {
    if isAdmin then Admin else Member
  }

  /** `RegisterUseCase`: the password is hashed before the unit of work;
      a taken e-mail is `UserAlreadyExist`, rolled back. */
  function Register(db: Db, req: RegisterRequest, hasher: Hasher): (r: Run<UserResponse>)
    ensures r.effects == [HashPassword, Write(Users), Finish(if r.result.Ok? then Commit else Rollback)]
    ensures r.result.Err? <==> UserRepository.EmailTaken(db, req.email)
    ensures r.result.Err? ==> r.result.error == UserAlreadyExist && r.db == db
    ensures r.result.Ok? ==>
      var v := r.result.value;
      && v.id !in db.users.rows
      && v.email == req.email && v.firstName == req.firstName && v.lastName == req.lastName
      && (v.role == Admin <==> req.isAdmin)
      && r.db == db.(users := r.db.users)
      && r.db.users.rows == db.users.rows[v.id := User(v.id, req.email, hasher.hash(req.password),
                                                        req.firstName, req.lastName, v.role)]
  {
    var hashed := hasher.hash(req.password);
    var s := UserRepository.Create(db, UserRepository.UserCreate(
      req.email, hashed, req.firstName, req.lastName, RoleOf(req.isAdmin)));
    var outcome := if s.result.Err? then Err(s.result.error) else Ok(OfUser(s.result.value));
    Transaction(db, [HashPassword, Write(Users)], outcome, s.db)
  }

  /** `LogInUseCase`: an unknown e-mail and a wrong password raise the
      same `InvalidCredentials`; the password is verified only against a
      stored user, and a token is issued only after it verifies. */
  function LogIn(db: Db, req: LogInRequest, hasher: Hasher, issue: Claims -> string): (r: Run<TokenResponse>)
    ensures r.db == db
    ensures !UserRepository.EmailTaken(db, req.email) ==>
      r == Run(Err(InvalidCredentials), db, [Read(Users)])
    ensures UserRepository.EmailTaken(db, req.email) ==>
      var u := UserRepository.FindByEmail(db, req.email).value;
      && (r.result.Ok? <==> hasher.verify(req.password, u.hashedPassword))
      && r.effects == [Read(Users), VerifyPassword] + (if r.result.Ok? then [IssueToken] else [])
      && (r.result.Ok? ==> r.result.value == TokenResponse(issue(Claims(u.id))))
    ensures r.result.Err? ==> r.result.error == InvalidCredentials
    ensures IssueToken in r.effects <==> r.result.Ok?
  {
    var u := UserRepository.FindByEmail(db, req.email);
    if u.None? then Run(Err(InvalidCredentials), db, [Read(Users)])
    else if !hasher.verify(req.password, u.value.hashedPassword) then
      Run(Err(InvalidCredentials), db, [Read(Users), VerifyPassword])
    else Run(Ok(TokenResponse(issue(Claims(u.value.id)))), db, [Read(Users), VerifyPassword, IssueToken])
  }

  /** With a lawful hasher, a registered user logs in with the password
      they registered with, and the token names them. */
  lemma RegisteredUserLogsIn(db: Db, req: RegisterRequest, hasher: Hasher, issue: Claims -> string)
    requires LawfulHasher(hasher)
    requires Register(db, req, hasher).result.Ok?
    ensures var r := Register(db, req, hasher);
      LogIn(r.db, LogInRequest(req.email, req.password), hasher, issue).result
        == Ok(TokenResponse(issue(Claims(r.result.value.id))))
  {
    var r := Register(db, req, hasher);
    var id := r.result.value.id;
    assert r.db.users.rows[id].email == req.email;
    assert UserRepository.EmailTaken(r.db, req.email);
    var u := UserRepository.FindByEmail(r.db, req.email).value;
    assert u.id == id;
    assert hasher.verify(req.password, hasher.hash(req.password));
  }

  /** A password that does not verify against the registered one's hash
      is refused, exactly as an unknown e-mail is. */
  lemma WrongPasswordRefused(db: Db, req: RegisterRequest, hasher: Hasher, issue: Claims -> string, password: string)
    requires Register(db, req, hasher).result.Ok?
    requires !hasher.verify(password, hasher.hash(req.password))
    ensures var r := Register(db, req, hasher);
      var attempt := LogIn(r.db, LogInRequest(req.email, password), hasher, issue);
      attempt.result == Err(InvalidCredentials) && IssueToken !in attempt.effects
  {
    var r := Register(db, req, hasher);
    var id := r.result.value.id;
    assert r.db.users.rows[id].email == req.email;
    assert UserRepository.EmailTaken(r.db, req.email);
    var u := UserRepository.FindByEmail(r.db, req.email).value;
    assert u.id == id;
  }
}
