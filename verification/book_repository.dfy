/** `BookRepository`: the `books` table behind a session. Every call is a
    function from the session state to a result and the next state; a
    failed flush leaves the state as it was (the nested savepoint is rolled
    back). */
module BookRepository {

  import opened Common
  import opened Tables
  import opened Schema

  datatype BookCreate = BookCreate(
    title: string,
    slug: string,
    language: Option<string>,
    genre: Genre,
    description: Option<string>,
    shortDescription: Option<string>,
    publishYear: Option<int>,
    pageCount: Option<int>,
    authorId: Option<Id>)

  /** The columns an update rewrites; title and slug are not among them. */
  datatype BookUpdate = BookUpdate(
    id: Id,
    language: Option<string>,
    genre: Genre,
    description: Option<string>,
    shortDescription: Option<string>,
    publishYear: Option<int>,
    pageCount: Option<int>,
    authorId: Option<Id>)

  datatype BookFilter = BookFilter(
    genre: Option<Genre>,
    limit: Option<nat>,
    yearFrom: Option<int>,
    yearTo: Option<int>,
    pagesFrom: Option<int>,
    pagesTo: Option<int>)

  /** The column default of `language`: a create that leaves the language
      out stores this (the ORM omits a `None` attribute from the `INSERT`). */
  const DefaultLanguage := "Русский"

  function StoredLanguage(language: Option<string>): (stored: Option<string>)
    ensures stored.Some?
    ensures language.Some? ==> stored == language
  {
    if language.Some? then language else Some(DefaultLanguage)
  }

  predicate TitleTaken(db: Db, title: string)
  {
    exists id :: id in db.books.rows && db.books.rows[id].title == title
  }

  predicate SlugTaken(db: Db, slug: string)
  {
    exists id :: id in db.books.rows && db.books.rows[id].slug == slug
  }

  predicate DanglingAuthor(db: Db, authorId: Option<Id>)
  {
    authorId.Some? && authorId.value !in db.authors.rows
  }

  /** The flush of a new book fails: a unique column clashes or the author
      reference points nowhere. */
  predicate CreateConflicts(db: Db, e: BookCreate)
  {
    TitleTaken(db, e.title) || SlugTaken(db, e.slug) || DanglingAuthor(db, e.authorId)
  }

  /** Every integrity error of the flush becomes `BookAlreadyExist`; on
      success the new row, under a fresh identifier, is what comes back. */
  function Create(db: Db, e: BookCreate): (s: Step<Book>)
    ensures s.result.Err? <==> CreateConflicts(db, e)
    ensures s.result.Err? ==> s.result.error == BookAlreadyExist && s.db == db
    ensures s.result.Ok? ==>
      var b := s.result.value;
      && b.id !in db.books.rows
      && b == Book(b.id, e.title, e.slug, StoredLanguage(e.language), e.genre, e.description,
                   e.shortDescription, e.publishYear, e.pageCount, e.authorId)
      && s.db == db.(books := s.db.books)
      && s.db.books.rows == db.books.rows[b.id := b]
  {
    var titleTaken := FirstWhere(db.books, (b: Book) => b.title == e.title).Some?;
    var slugTaken := FirstWhere(db.books, (b: Book) => b.slug == e.slug).Some?;
    if titleTaken || slugTaken || DanglingAuthor(db, e.authorId) then
      Step(Err(BookAlreadyExist), db)
    else
      var b := Book(db.books.next, e.title, e.slug, StoredLanguage(e.language), e.genre, e.description,
                    e.shortDescription, e.publishYear, e.pageCount, e.authorId);
      Step(Ok(b), db.(books := Insert(db.books, b)))
  }

  function FindById(db: Db, id: Id): (r: Option<Book>)
    ensures r.Some? <==> id in db.books.rows
    ensures r.Some? ==> r.value == db.books.rows[id]
  {
    if id in db.books.rows then Some(db.books.rows[id]) else None
  }

  function FindBySlug(db: Db, slug: string): (r: Option<Book>)
    ensures r.None? <==> !SlugTaken(db, slug)
    ensures r.Some? ==> r.value.slug == slug && r.value.id in db.books.rows && db.books.rows[r.value.id] == r.value
  {
    var id := FirstWhere(db.books, (b: Book) => b.slug == slug);
    if id.Some? then Some(db.books.rows[id.value]) else None
  }

  /** The conjunction of the filters that are present. A bound on a column
      the row leaves NULL is not satisfied (SQL's unknown is not true). */
  predicate Matches(f: BookFilter, b: Book)
  {
    && (f.genre.Some? ==> b.genre == f.genre.value)
    && (f.yearFrom.Some? ==> b.publishYear.Some? && b.publishYear.value >= f.yearFrom.value)
    && (f.yearTo.Some? ==> b.publishYear.Some? && b.publishYear.value <= f.yearTo.value)
    && (f.pagesFrom.Some? ==> b.pageCount.Some? && b.pageCount.value >= f.pagesFrom.value)
    && (f.pagesTo.Some? ==> b.pageCount.Some? && b.pageCount.value <= f.pagesTo.value)
  }

  /** `LIMIT` applies after every `WHERE`, whichever order the clauses were
      added in; rows come in identifier order. */
  function FindAll(db: Db, f: BookFilter): (r: seq<Book>)
    ensures forall i :: 0 <= i < |r| ==> r[i].id in db.books.rows && db.books.rows[r[i].id] == r[i] && Matches(f, r[i])
    ensures f.limit.Some? ==> |r| <= f.limit.value
    ensures f.limit.None? || |r| < f.limit.value ==>
      forall id :: id in db.books.rows && Matches(f, db.books.rows[id]) ==> db.books.rows[id] in r
    ensures forall i, j :: 0 <= i < j < |r| ==> r[i].id != r[j].id
  {
    var ids := Where(db.books, (b: Book) => Matches(f, b));
    var kept := if f.limit.Some? && f.limit.value < |ids| then ids[..f.limit.value] else ids;
    var r := RowsOf(db.books, kept);
    assert f.limit.None? || |r| < f.limit.value ==> kept == ids;
    assert forall i :: 0 <= i < |kept| ==> r[i] == db.books.rows[kept[i]];
    r
  }

  /** Deleting a book deletes its favourites and reviews (`ON DELETE CASCADE`). */
  function DeleteById(db: Db, id: Id): (s: Step<bool>)
    ensures s.result == Ok(id in db.books.rows)
    ensures s.db.books.rows == db.books.rows - {id}
    ensures s.db.authors == db.authors && s.db.users == db.users
    ensures forall k :: k in s.db.favourites.rows <==>
      k in db.favourites.rows && db.favourites.rows[k].bookId != id
    ensures forall k :: k in s.db.reviews.rows <==>
      k in db.reviews.rows && db.reviews.rows[k].bookId != id
    ensures forall k :: k in s.db.favourites.rows ==> s.db.favourites.rows[k] == db.favourites.rows[k]
    ensures forall k :: k in s.db.reviews.rows ==> s.db.reviews.rows[k] == db.reviews.rows[k]
  {
    var db' := db.(
      books := Remove(db.books, id),
      favourites := Filter(db.favourites, (f: Favourite) => f.bookId != id),
      reviews := Filter(db.reviews, (r: Review) => r.bookId != id));
    Step(Ok(id in db.books.rows), db')
  }

  /** An update rewrites the seven editable columns of an existing row (a
      language left out becomes NULL: the column default applies to inserts
      only). A missing row is `None`; a dangling author reference is an
      integrity error the repository lets escape. */
  function Update(db: Db, e: BookUpdate): (s: Step<Option<Book>>)
    ensures e.id !in db.books.rows ==> s == Step(Ok(None), db)
    ensures e.id in db.books.rows && DanglingAuthor(db, e.authorId) ==>
      s == Step(Err(IntegrityViolation), db)
    ensures s.result.Ok? && s.result.value.Some? <==>
      e.id in db.books.rows && !DanglingAuthor(db, e.authorId)
    ensures s.result.Ok? && s.result.value.Some? ==>
      var old_ := db.books.rows[e.id];
      var b := s.result.value.value;
      && b == Book(e.id, old_.title, old_.slug, e.language, e.genre, e.description,
                   e.shortDescription, e.publishYear, e.pageCount, e.authorId)
      && s.db == db.(books := s.db.books)
      && s.db.books.rows == db.books.rows[e.id := b]
  {
    if e.id !in db.books.rows then Step(Ok(None), db)
    else if DanglingAuthor(db, e.authorId) then Step(Err(IntegrityViolation), db)
    else
      var b := db.books.rows[e.id].(
        id := e.id, language := e.language, genre := e.genre, description := e.description,
        shortDescription := e.shortDescription, publishYear := e.publishYear,
        pageCount := e.pageCount, authorId := e.authorId);
      Step(Ok(Some(b)), db.(books := Replace(db.books, e.id, b)))
  }

  /** A created book is found again, by identifier and by slug, exactly as
      created. */
  lemma CreatedBookFound(db: Db, e: BookCreate)
    requires Create(db, e).result.Ok?
    ensures var s := Create(db, e);
      && FindById(s.db, s.result.value.id) == Some(s.result.value)
      && FindBySlug(s.db, e.slug) == Some(s.result.value)
  {
    var s := Create(db, e);
    var b := s.result.value;
    var found := FindBySlug(s.db, e.slug);
    assert s.db.books.rows[b.id].slug == e.slug;
  }
}

/** `FavouriteBookRepository`: the `favourite_books` table, one row per
    (user, book) pair, read back with its book loaded. */
module FavouriteBookRepository {

  import opened Common
  import opened Tables
  import opened Strings
  import opened Schema

  const PairConstraint := "uq_user_book_favourite"
  const UserForeignKey := "favourite_books_user_id_fkey"
  const BookForeignKey := "favourite_books_book_id_fkey"
  /** The name `add` looks for in the integrity error: the review table's
      pair constraint, which no insert into this table can violate. */
  const ReviewPairConstraint := "uq_user_book_review"

  predicate PairTaken(db: Db, userId: Id, bookId: Id)
  {
    exists id :: id in db.favourites.rows
      && db.favourites.rows[id].userId == userId && db.favourites.rows[id].bookId == bookId
  }

  function PairIs(userId: Id, bookId: Id): Favourite -> bool
  {
    (f: Favourite) => f.userId == userId && f.bookId == bookId
  }

  /** The constraint a new row violates first, if any: the unique index is
      checked while the row is inserted, the foreign keys after it. */
  function Violated(db: Db, userId: Id, bookId: Id): (c: Option<string>)
    ensures c.None? <==> !PairTaken(db, userId, bookId) && userId in db.users.rows && bookId in db.books.rows
    ensures PairTaken(db, userId, bookId) <==> c == Some(PairConstraint)
    ensures c.Some? ==> c.value in {PairConstraint, UserForeignKey, BookForeignKey}
  {
    if FirstWhere(db.favourites, PairIs(userId, bookId)).Some? then Some(PairConstraint)
    else if userId !in db.users.rows then Some(UserForeignKey)
    else if bookId !in db.books.rows then Some(BookForeignKey)
    else None
  }

  /** The exception an integrity error on `constraint` becomes when
      `recognised` is the name taken to mean a repeated pair. */
  function Classify(constraint: string, recognised: string): (e: Error)
    ensures Contains(constraint, recognised) ==> e == FavouriteBookAlreadyExist
    ensures !Contains(constraint, recognised) ==> e == FavouriteBookRepositoryError
  {
    if Contains(constraint, recognised) then FavouriteBookAlreadyExist else FavouriteBookRepositoryError
  }

  /** Looking for the review constraint, no violation of this table is
      recognised as a repeated pair. */
  lemma NothingRecognisedAsWritten(c: string)
    requires c in {PairConstraint, UserForeignKey, BookForeignKey}
    ensures Classify(c, ReviewPairConstraint) == FavouriteBookRepositoryError
  {
    assert 'w' in ReviewPairConstraint;
    MissingCharNotContained(c, ReviewPairConstraint, 'w');
  }

  /** Looking for this table's own pair constraint recognises exactly the
      repeated pair. */
  lemma PairRecognised(c: string)
    requires c in {PairConstraint, UserForeignKey, BookForeignKey}
    ensures Classify(c, PairConstraint) ==
      if c == PairConstraint then FavouriteBookAlreadyExist else FavouriteBookRepositoryError
  {
    if c == PairConstraint {
      ContainsSelf(c);
    } else if c == UserForeignKey {
      assert PairConstraint[1] == 'q';
      MissingCharNotContained(UserForeignKey, PairConstraint, 'q');
    } else {
      assert PairConstraint[1] == 'q';
      MissingCharNotContained(BookForeignKey, PairConstraint, 'q');
    }
  }

  /** The row stored under `id`, read back with its book. */
  function Entity(db: Db, id: Id): (e: FavouriteEntity)
    requires id in db.favourites.rows && db.favourites.rows[id].bookId in db.books.rows
    ensures e.id == id && e.status == db.favourites.rows[id].status
    ensures e.book == db.books.rows[db.favourites.rows[id].bookId]
  {
    FavouriteEntity(id, db.favourites.rows[id].status, db.books.rows[db.favourites.rows[id].bookId])
  }

  /** The insert of `add`, translating a failed flush through `Classify`
      with the given constraint name. A new favourite starts `NotStarted`. */
  function AddRecognising(db: Db, userId: Id, bookId: Id, recognised: string): (s: Step<FavouriteEntity>)
    ensures s.result.Err? <==>
      PairTaken(db, userId, bookId) || userId !in db.users.rows || bookId !in db.books.rows
    ensures s.result.Err? ==>
      s.db == db && s.result.error == Classify(Violated(db, userId, bookId).value, recognised)
    ensures s.result.Ok? ==>
      var e := s.result.value;
      && e.id !in db.favourites.rows
      && e.status == NotStarted && e.book == db.books.rows[bookId]
      && s.db == db.(favourites := s.db.favourites)
      && s.db.favourites.rows == db.favourites.rows[e.id := Favourite(e.id, userId, bookId, NotStarted)]
  {
    var violated := Violated(db, userId, bookId);
    if violated.Some? then Step(Err(Classify(violated.value, recognised)), db)
    else
      var row := Favourite(db.favourites.next, userId, bookId, NotStarted);
      var db' := db.(favourites := Insert(db.favourites, row));
      Step(Ok(Entity(db', row.id)), db')
  }

  /** `add` as written: every failed flush, a repeated pair included,
      surfaces as `FavouriteBookRepositoryError`, so
      `FavouriteBookAlreadyExist` is never raised. */
  function AddAsWritten(db: Db, userId: Id, bookId: Id): (s: Step<FavouriteEntity>)
    ensures s.result.Err? <==>
      PairTaken(db, userId, bookId) || userId !in db.users.rows || bookId !in db.books.rows
    ensures s.result.Err? ==> s.result.error == FavouriteBookRepositoryError && s.db == db
    ensures s.result.Ok? ==> s == Add(db, userId, bookId)
  {
    var s := AddRecognising(db, userId, bookId, ReviewPairConstraint);
    if s.result.Err? then
      NothingRecognisedAsWritten(Violated(db, userId, bookId).value);
      s
    else s
  }

  /** `add` recognising its own pair constraint: a repeated pair is
      `FavouriteBookAlreadyExist`, a user or book that does not exist is
      `FavouriteBookRepositoryError`. */
  function Add(db: Db, userId: Id, bookId: Id): (s: Step<FavouriteEntity>)
    ensures s.result.Err? <==>
      PairTaken(db, userId, bookId) || userId !in db.users.rows || bookId !in db.books.rows
    ensures s.result.Err? ==> s.db == db
    ensures s.result.Err? ==>
      s.result.error == if PairTaken(db, userId, bookId) then FavouriteBookAlreadyExist else FavouriteBookRepositoryError
    ensures s.result.Ok? ==>
      var e := s.result.value;
      && e.id !in db.favourites.rows
      && e.status == NotStarted && e.book == db.books.rows[bookId]
      && s.db == db.(favourites := s.db.favourites)
      && s.db.favourites.rows == db.favourites.rows[e.id := Favourite(e.id, userId, bookId, NotStarted)]
  {
    var s := AddRecognising(db, userId, bookId, PairConstraint);
    if s.result.Err? then
      PairRecognised(Violated(db, userId, bookId).value);
      s
    else s
  }

  /** Deletes every row of the pair; reports whether there was one. */
  function Delete(db: Db, userId: Id, bookId: Id): (s: Step<bool>)
    ensures s.result == Ok(PairTaken(db, userId, bookId))
    ensures s.db == db.(favourites := s.db.favourites)
    ensures !PairTaken(s.db, userId, bookId)
    ensures forall k :: k in s.db.favourites.rows <==>
      k in db.favourites.rows && !(db.favourites.rows[k].userId == userId && db.favourites.rows[k].bookId == bookId)
    ensures forall k :: k in s.db.favourites.rows ==> s.db.favourites.rows[k] == db.favourites.rows[k]
  {
    var found := FirstWhere(db.favourites, PairIs(userId, bookId)).Some?;
    var db' := db.(favourites := Filter(db.favourites, (f: Favourite) => !PairIs(userId, bookId)(f)));
    Step(Ok(found), db')
  }

  /** The user's favourites, each with its book, in identifier order. */
  function FindAll(db: Db, userId: Id): (r: seq<FavouriteEntity>)
    requires FavouriteRefsOk(db)
    ensures forall i :: 0 <= i < |r| ==>
      && r[i].id in db.favourites.rows
      && db.favourites.rows[r[i].id].userId == userId
      && r[i] == Entity(db, r[i].id)
    ensures forall id :: id in db.favourites.rows && db.favourites.rows[id].userId == userId ==>
      exists i :: 0 <= i < |r| && r[i].id == id
    ensures forall i, j :: 0 <= i < j < |r| ==> r[i].id != r[j].id
  {
    var ids := Where(db.favourites, (f: Favourite) => f.userId == userId);
    var r := EntitiesOf(db, ids);
    EveryIdListed(r, ids);
    r
  }

  /** The favourites stored under `ids`, read back in that order. */
  function EntitiesOf(db: Db, ids: seq<Id>): (r: seq<FavouriteEntity>)
    requires FavouriteRefsOk(db)
    requires forall i :: 0 <= i < |ids| ==> ids[i] in db.favourites.rows
    ensures |r| == |ids|
    ensures forall i :: 0 <= i < |ids| ==> r[i] == Entity(db, ids[i])
  {
    seq(|ids|, i requires 0 <= i < |ids| => Entity(db, ids[i]))
  }

  lemma EveryIdListed(r: seq<FavouriteEntity>, ids: seq<Id>)
    requires |r| == |ids| && forall i :: 0 <= i < |ids| ==> r[i].id == ids[i]
    ensures forall id :: id in ids ==> exists i :: 0 <= i < |r| && r[i].id == id
  {
    forall id | id in ids
      ensures exists i :: 0 <= i < |r| && r[i].id == id
    {
      var i :| 0 <= i < |ids| && ids[i] == id;
      assert r[i].id == id;
    }
  }

  /** Sets the status of the pair's row and reads it back; `None` when the
      user has not added the book. */
  function UpdateStatus(db: Db, userId: Id, bookId: Id, status: ReadingStatus): (s: Step<Option<FavouriteEntity>>)
    requires FavouriteRefsOk(db)
    ensures s.result.Ok?
    ensures s.result.value.None? <==> !PairTaken(db, userId, bookId)
    ensures s.result.value.None? ==> s.db == db
    ensures s.db == db.(favourites := s.db.favourites)
    ensures s.db.favourites.rows.Keys == db.favourites.rows.Keys
    ensures forall k :: k in db.favourites.rows ==>
      var row := db.favourites.rows[k];
      s.db.favourites.rows[k] == if row.userId == userId && row.bookId == bookId then row.(status := status) else row
    ensures s.result.value.Some? ==>
      var e := s.result.value.value;
      && e.id in db.favourites.rows && e.status == status
      && db.favourites.rows[e.id].userId == userId && db.favourites.rows[e.id].bookId == bookId
      && e.book == db.books.rows[bookId]
  {
    var first := FirstWhere(db.favourites, PairIs(userId, bookId));
    if first.None? then Step(Ok(None), db)
    else
      var db' := db.(favourites := MapRows(db.favourites,
        (f: Favourite) => if PairIs(userId, bookId)(f) then f.(status := status) else f));
      Step(Ok(Some(Entity(db', first.value))), db')
  }

  /** A favourite just added is listed with the user's favourites, as
      added. */
  lemma AddedFavouriteListed(db: Db, userId: Id, bookId: Id)
    requires FavouriteRefsOk(db)
    requires Add(db, userId, bookId).result.Ok?
    ensures var s := Add(db, userId, bookId);
      && FavouriteRefsOk(s.db)
      && exists i :: 0 <= i < |FindAll(s.db, userId)| && FindAll(s.db, userId)[i] == s.result.value
  {
    var s := Add(db, userId, bookId);
    var e := s.result.value;
    assert FavouriteRefsOk(s.db);
    var listed := FindAll(s.db, userId);
    assert s.db.favourites.rows[e.id].userId == userId;
    var i :| 0 <= i < |listed| && listed[i].id == e.id;
    assert listed[i] == Entity(s.db, e.id);
  }
}
