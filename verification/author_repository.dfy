/** `AuthorRepository`: the `authors` table; name and slug are unique. */
module AuthorRepository {

  import opened Common
  import opened Tables
  import opened Schema

  datatype AuthorCreate = AuthorCreate(
    name: string,
    slug: string,
    bio: Option<string>,
    birthDate: Option<Date>,
    deathDate: Option<Date>,
    country: Option<string>)

  predicate NameTaken(db: Db, name: string)
  {
    exists id :: id in db.authors.rows && db.authors.rows[id].name == name
  }

  predicate SlugTaken(db: Db, slug: string)
  {
    exists id :: id in db.authors.rows && db.authors.rows[id].slug == slug
  }

  /** Every integrity error of the flush becomes `AuthorAlreadyExist`; a new
      author has no photo. */
  function Create(db: Db, e: AuthorCreate): (s: Step<Author>)
    ensures s.result.Err? <==> NameTaken(db, e.name) || SlugTaken(db, e.slug)
    ensures s.result.Err? ==> s.result.error == AuthorAlreadyExist && s.db == db
    ensures s.result.Ok? ==>
      var a := s.result.value;
      && a.id !in db.authors.rows
      && a == Author(a.id, e.name, e.slug, e.bio, e.birthDate, e.deathDate, e.country, None)
      && s.db == db.(authors := s.db.authors)
      && s.db.authors.rows == db.authors.rows[a.id := a]
  {
    var nameTaken := FirstWhere(db.authors, (a: Author) => a.name == e.name).Some?;
    var slugTaken := FirstWhere(db.authors, (a: Author) => a.slug == e.slug).Some?;
    if nameTaken || slugTaken then Step(Err(AuthorAlreadyExist), db)
    else
      var a := Author(db.authors.next, e.name, e.slug, e.bio, e.birthDate, e.deathDate, e.country, None);
      Step(Ok(a), db.(authors := Insert(db.authors, a)))
  }

  function FindBySlug(db: Db, slug: string): (r: Option<Author>)
    ensures r.None? <==> !SlugTaken(db, slug)
    ensures r.Some? ==> r.value.slug == slug && r.value.id in db.authors.rows && db.authors.rows[r.value.id] == r.value
  {
    var id := FirstWhere(db.authors, (a: Author) => a.slug == slug);
    if id.Some? then Some(db.authors.rows[id.value]) else None
  }

  function FindById(db: Db, id: Id): (r: Option<Author>)
    ensures r.Some? <==> id in db.authors.rows
    ensures r.Some? ==> r.value == db.authors.rows[id]
  {
    if id in db.authors.rows then Some(db.authors.rows[id]) else None
  }

  /** Deleting an author clears the reference of each of their books
      (`ON DELETE SET NULL`); the books themselves stay. */
  function DeleteById(db: Db, id: Id): (s: Step<bool>)
    ensures s.result == Ok(id in db.authors.rows)
    ensures s.db.authors.rows == db.authors.rows - {id}
    ensures s.db == db.(authors := s.db.authors, books := s.db.books)
    ensures s.db.books.rows.Keys == db.books.rows.Keys
    ensures forall k :: k in db.books.rows ==>
      var b := db.books.rows[k];
      s.db.books.rows[k] == if b.authorId == Some(id) then b.(authorId := None) else b
  {
    var db' := db.(
      authors := Remove(db.authors, id),
      books := MapRows(db.books, (b: Book) => if b.authorId == Some(id) then b.(authorId := None) else b));
    Step(Ok(id in db.authors.rows), db')
  }

  /** `UPDATE … RETURNING` followed by `scalar_one()`: a missing author is
      `NoResultFound`. */
  function UpdatePhotoUrl(db: Db, id: Id, photoUrl: string): (s: Step<Author>)
    ensures s.result.Err? <==> id !in db.authors.rows
    ensures s.result.Err? ==> s.result.error == NoResultFound && s.db == db
    ensures s.result.Ok? ==>
      var a := s.result.value;
      && a == db.authors.rows[id].(id := id, photoUrl := Some(photoUrl))
      && s.db == db.(authors := s.db.authors)
      && s.db.authors.rows == db.authors.rows[id := a]
  {
    if id !in db.authors.rows then Step(Err(NoResultFound), db)
    else
      var a := db.authors.rows[id].(id := id, photoUrl := Some(photoUrl));
      Step(Ok(a), db.(authors := Replace(db.authors, id, a)))
  }
}
