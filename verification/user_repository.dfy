/** `UserRepository`: the `users` table; the e-mail is unique. */
module UserRepository {

  import opened Common
  import opened Tables
  import opened Schema

  datatype UserCreate = UserCreate(
    email: string,
    hashedPassword: string,
    firstName: string,
    lastName: string,
    role: Role)

  predicate EmailTaken(db: Db, email: string)
  {
    exists id :: id in db.users.rows && db.users.rows[id].email == email
  }

  /** Every integrity error of the flush becomes `UserAlreadyExist`. */
  function Create(db: Db, e: UserCreate): (s: Step<User>)
    ensures s.result.Err? <==> EmailTaken(db, e.email)
    ensures s.result.Err? ==> s.result.error == UserAlreadyExist && s.db == db
    ensures s.result.Ok? ==>
      var u := s.result.value;
      && u.id !in db.users.rows
      && u == User(u.id, e.email, e.hashedPassword, e.firstName, e.lastName, e.role)
      && s.db == db.(users := s.db.users)
      && s.db.users.rows == db.users.rows[u.id := u]
  {
    if FirstWhere(db.users, (u: User) => u.email == e.email).Some? then Step(Err(UserAlreadyExist), db)
    else
      var u := User(db.users.next, e.email, e.hashedPassword, e.firstName, e.lastName, e.role);
      Step(Ok(u), db.(users := Insert(db.users, u)))
  }

  function FindById(db: Db, id: Id): (r: Option<User>)
    ensures r.Some? <==> id in db.users.rows
    ensures r.Some? ==> r.value == db.users.rows[id]
  {
    if id in db.users.rows then Some(db.users.rows[id]) else None
  }

  function FindByEmail(db: Db, email: string): (r: Option<User>)
    ensures r.None? <==> !EmailTaken(db, email)
    ensures r.Some? ==> r.value.email == email && r.value.id in db.users.rows && db.users.rows[r.value.id] == r.value
  {
    var id := FirstWhere(db.users, (u: User) => u.email == email);
    if id.Some? then Some(db.users.rows[id.value]) else None
  }

  /** A created user is found again, by identifier and by e-mail, exactly
      as created. */
  lemma CreatedUserFound(db: Db, e: UserCreate)
    requires Create(db, e).result.Ok?
    ensures var s := Create(db, e);
      && FindById(s.db, s.result.value.id) == Some(s.result.value)
      && FindByEmail(s.db, e.email) == Some(s.result.value)
  {
    var s := Create(db, e);
    var u := s.result.value;
    var found := FindByEmail(s.db, e.email);
    assert s.db.users.rows[u.id].email == e.email;
  }
}
