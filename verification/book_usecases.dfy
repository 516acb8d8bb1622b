/** The book and favourite use cases: the catalogue listing, the cached
    book page, creating, updating and deleting books, and a user's
    favourites. */
module BookUseCases {

  import opened Common
  import opened Schema
  import opened Cache
  import opened Responses
  import opened UnitOfWork
  import opened ReadThrough
  import Utils
  import BooksQuery
  import BookRepository
  import FavouriteBookRepository

  /** The book page is cached for a minute. */
  const BookCacheTtl := 60

  function BookKey(slug: string): string
  {
    "book:slug:" + slug
  }

  // ------------------------------------------------------------ catalogue

  /** `GetBooksUseCase`: the query was validated on the way in. */
  function GetBooks(db: Db, q: BooksQuery.Query): (r: Run<seq<BookResponse>>)
    requires BooksQuery.Check(q).Accepted?
    ensures r.db == db && r.effects == [Read(Books)]
    ensures r.result.Err? ==> r.result.error == ResponseValidation
    ensures LanguagesKnown(db) ==> r.result.Ok?
    ensures r.result.Ok? ==> forall i :: 0 <= i < |r.result.value| ==>
      && r.result.value[i].id in db.books.rows && db.books.rows[r.result.value[i].id] == BookOf(r.result.value[i])
      && BookRepository.Matches(BooksQuery.Check(q).filter, BookOf(r.result.value[i]))
    ensures var found := BookRepository.FindAll(db, BooksQuery.Check(q).filter);
      && (r.result.Ok? <==> forall i :: 0 <= i < |found| ==> found[i].language.Some?)
      && (r.result.Ok? ==> |r.result.value| == |found| && forall i :: 0 <= i < |found| ==> BookOf(r.result.value[i]) == found[i])
  {
    var found := BookRepository.FindAll(db, BooksQuery.Check(q).filter);
    Run(OfBooks(found), db, [Read(Books)])
  }

  /** What the page shows when the cache misses. */
  function FetchBook(db: Db, slug: string): (r: Result<BookResponse>)
    ensures r.Err? <==> !BookRepository.SlugTaken(db, slug) || BookRepository.FindBySlug(db, slug).value.language.None?
    ensures !BookRepository.SlugTaken(db, slug) ==> r == Err(BookNotExist)
    ensures r.Err? && BookRepository.SlugTaken(db, slug) ==> r.error == ResponseValidation
    ensures r.Ok? ==> r.value.id in db.books.rows && db.books.rows[r.value.id] == BookOf(r.value) && r.value.slug == slug
  {
    var book := BookRepository.FindBySlug(db, slug);
    if book.None? then Err(BookNotExist) else OfBook(book.value)
  }

  /** `FindBookBySlugUseCase`: the book page through the cache. */
  function FindBookBySlug(db: Db, cache: Store, slug: string, env: CacheEnv<BookResponse>): (c: Cached<BookResponse>)
    ensures c.run.db == db
    ensures Hit(cache, BookKey(slug), env) ==> Read(Books) !in c.run.effects && c.cache == cache
    ensures !Hit(cache, BookKey(slug), env) ==> c.run.result == FetchBook(db, slug)
    ensures c.run.result == Err(BookNotExist) ==> CacheSet(BookKey(slug)) !in c.run.effects
  {
    Lookup(db, cache, BookKey(slug), BookCacheTtl, env, Books, FetchBook(db, slug))
  }

  /** Within the expiry the page is served from the cache, even when the
      book has changed in the database since: the first lookup stored it,
      the second does not read the database. */
  lemma BookPageServedFromCache(db: Db, cache: Store, slug: string, env: CacheEnv<BookResponse>, db': Db)
    requires !Hit(cache, BookKey(slug), env) && FetchBook(db, slug).Ok?
    requires RoundTrips(env, BookCacheTtl, FetchBook(db, slug).value)
    ensures var first := FindBookBySlug(db, cache, slug, env);
      var second := FindBookBySlug(db', first.cache, slug, env);
      && first.run.result == second.run.result == FetchBook(db, slug)
      && second.run.effects == [CacheGet(BookKey(slug))]
  {
    SecondLookupHits(db, cache, BookKey(slug), BookCacheTtl, env, Books, FetchBook(db, slug),
                     db', Books, FetchBook(db', slug));
  }

  // ---------------------------------------------------------------- writes

  /** `DeleteBookUseCase`: deleting a missing book raises inside the block
      and is rolled back. */
  function DeleteBook(db: Db, id: Id): (r: Run<()>)
    ensures r.result.Ok? <==> id in db.books.rows
    ensures r.result.Err? ==> r.result.error == BookNotExist && r.db == db
    ensures r.result.Ok? ==> r.db == BookRepository.DeleteById(db, id).db && id !in r.db.books.rows
    ensures r.effects == [Write(Books), Finish(if r.result.Ok? then Commit else Rollback)]
  {
    var s := BookRepository.DeleteById(db, id);
    Transaction(db, [Write(Books)], if s.result.value then Ok(()) else Err(BookNotExist), s.db)
  }

  datatype BookCreateRequest = BookCreateRequest(
    title: string,
    genre: Genre,
    language: Option<string>,
    description: Option<string>,
    shortDescription: Option<string>,
    publishYear: Option<int>,
    pageCount: Option<int>,
    authorId: Option<Id>)

  datatype BookUpdateRequest = BookUpdateRequest(
    genre: Genre,
    language: Option<string>,
    description: Option<string>,
    shortDescription: Option<string>,
    publishYear: Option<int>,
    pageCount: Option<int>,
    authorId: Option<Id>)

  /** The author check both writers make before they open the unit of work. */
  function AuthorCheck(authorId: Option<Id>): seq<Effect>
  {
    if authorId.Some? then [Read(Authors)] else []
  }

  function CreateEntity(req: BookCreateRequest): (e: BookRepository.BookCreate)
    ensures e.title == req.title && e.slug == Utils.GenerateSlug(req.title)
    ensures Utils.IsSlug(e.slug)
  {
    BookRepository.BookCreate(req.title, Utils.GenerateSlug(req.title), req.language, req.genre,
                              req.description, req.shortDescription, req.publishYear, req.pageCount, req.authorId)
  }

  /** `CreateBookUseCase`: a missing author is refused before anything is
      written; otherwise the book is created in a unit of work. */
  function CreateBook(db: Db, req: BookCreateRequest): (r: Run<BookResponse>)
    ensures BookRepository.DanglingAuthor(db, req.authorId) ==>
      r == Run(Err(AuthorNotExist), db, [Read(Authors)])
    ensures !BookRepository.DanglingAuthor(db, req.authorId) ==>
      && r.result == InsertBook(db, req).result
      && r.db == InsertBook(db, req).db
      && r.effects == AuthorCheck(req.authorId) + InsertBook(db, req).effects
  {
    if BookRepository.DanglingAuthor(db, req.authorId) then Refuse(db, [Read(Authors)], AuthorNotExist)
    else
      var inserted := InsertBook(db, req);
      Run(inserted.result, inserted.db, AuthorCheck(req.authorId) + inserted.effects)
  }

  /** The unit of work of `CreateBookUseCase`, once the author is known to
      exist: the slug is generated from the title, a clash on title or slug
      is `BookAlreadyExist`, and a book created without a language gets the
      column default. */
  function InsertBook(db: Db, req: BookCreateRequest): (r: Run<BookResponse>)
    requires !BookRepository.DanglingAuthor(db, req.authorId)
    ensures r.result.Err? <==>
      BookRepository.TitleTaken(db, req.title) || BookRepository.SlugTaken(db, Utils.GenerateSlug(req.title))
    ensures r.result.Err? ==> r.result.error == BookAlreadyExist && r.db == db
    ensures r.effects == [Write(Books), Finish(if r.result.Ok? then Commit else Rollback)]
    ensures r.result.Ok? ==>
      var b := r.result.value;
      && b.title == req.title && b.slug == Utils.GenerateSlug(req.title) && Utils.IsSlug(b.slug)
      && b.language == (if req.language.Some? then req.language.value else BookRepository.DefaultLanguage)
      && b.genre == req.genre && b.authorId == req.authorId
      && b.id !in db.books.rows
      && r.db == db.(books := r.db.books)
      && r.db.books.rows == db.books.rows[b.id := BookOf(b)]
  {
    var s := BookRepository.Create(db, CreateEntity(req));
    var outcome := if s.result.Err? then Err(s.result.error) else OfBook(s.result.value);
    Transaction(db, [Write(Books)], outcome, s.db)
  }

  function UpdateEntity(id: Id, req: BookUpdateRequest): BookRepository.BookUpdate
  {
    BookRepository.BookUpdate(id, req.language, req.genre, req.description, req.shortDescription,
                              req.publishYear, req.pageCount, req.authorId)
  }

  /** `UpdateBookUseCase`. Inside the unit of work the cached page of the
      book is deleted before the response is built, so the eviction
      happens before the commit, and also when the commit does not come:
      an update that leaves the language out stores NULL, the response
      refuses it, and the update is rolled back. */
  function UpdateBook(db: Db, cache: Store, id: Id, req: BookUpdateRequest, faults: Faults): (c: Cached<BookResponse>)
    ensures BookRepository.DanglingAuthor(db, req.authorId) ==>
      c == Cached(Run(Err(AuthorNotExist), db, [Read(Authors)]), cache)
    ensures !BookRepository.DanglingAuthor(db, req.authorId) && id !in db.books.rows ==>
      c.run.result == Err(BookNotExist) && c.run.db == db && c.cache == cache
    ensures c.run.result.Ok? <==>
      id in db.books.rows && !BookRepository.DanglingAuthor(db, req.authorId) && req.language.Some?
    ensures c.run.result.Err? ==> c.run.db == db
    ensures id in db.books.rows && !BookRepository.DanglingAuthor(db, req.authorId) ==>
      && c.cache == Cache.Delete(cache, BookKey(db.books.rows[id].slug), faults.deleteFails)
      && c.run.effects == AuthorCheck(req.authorId) +
           [Write(Books), CacheDelete(BookKey(db.books.rows[id].slug)),
            Finish(if req.language.Some? then Commit else Rollback)]
    ensures id in db.books.rows && !BookRepository.DanglingAuthor(db, req.authorId) && req.language.None? ==>
      c.run.result == Err(ResponseValidation)
    ensures c.run.result.Ok? ==>
      var old_ := db.books.rows[id];
      var b := c.run.result.value;
      && BookOf(b) == Book(id, old_.title, old_.slug, req.language, req.genre, req.description,
                           req.shortDescription, req.publishYear, req.pageCount, req.authorId)
      && c.run.db == db.(books := c.run.db.books)
      && c.run.db.books.rows == db.books.rows[id := BookOf(b)]
  {
    if BookRepository.DanglingAuthor(db, req.authorId) then
      Cached(Refuse(db, [Read(Authors)], AuthorNotExist), cache)
    else
      var inside := AuthorCheck(req.authorId) + [Write(Books)];
      var s := BookRepository.Update(db, UpdateEntity(id, req));
      if s.result.Err? then Cached(Transaction(db, inside, Err(IntegrityViolation), s.db), cache)
      else if s.result.value.None? then Cached(Transaction(db, inside, Err(BookNotExist), s.db), cache)
      else
        var key := BookKey(s.result.value.value.slug);
        var cache' := Cache.Delete(cache, key, faults.deleteFails);
        Cached(Transaction(db, inside + [CacheDelete(key)], OfBook(s.result.value.value), s.db), cache')
  }

  /** After an update that reached the book, without a client fault, its
      page is read from the database again, whether or not the update
      committed. */
  lemma UpdateEvictsBookPage(db: Db, cache: Store, id: Id, req: BookUpdateRequest, env: CacheEnv<BookResponse>)
    requires id in db.books.rows && !BookRepository.DanglingAuthor(db, req.authorId)
    requires !env.faults.deleteFails
    ensures var c := UpdateBook(db, cache, id, req, env.faults);
      var slug := db.books.rows[id].slug;
      Read(Books) in FindBookBySlug(c.run.db, c.cache, slug, env).run.effects
  {
    var c := UpdateBook(db, cache, id, req, env.faults);
    var slug := db.books.rows[id].slug;
    EvictedLookupReads(c.run.db, c.cache, BookKey(slug), BookCacheTtl, env, Books, FetchBook(c.run.db, slug));
  }

  // ------------------------------------------------------------ favourites

  /** `AddFavouriteBookUseCase` as written: the book is found by slug
      outside the unit of work and the repository's `add` cannot tell a
      repeated pair from any other failure, so both are the repository
      error; the favourite starts `NotStarted`. */
  function AddFavourite(db: Db, userId: Id, slug: string): (r: Run<FavouriteBookResponse>)
    ensures !BookRepository.SlugTaken(db, slug) ==> r == Run(Err(BookNotExist), db, [Read(Books)])
    ensures r.result.Err? ==> r.db == db
    ensures BookRepository.SlugTaken(db, slug) ==>
      var book := BookRepository.FindBySlug(db, slug).value;
      var s := FavouriteBookRepository.Add(db, userId, book.id);
      && (FavouriteBookRepository.PairTaken(db, userId, book.id) || userId !in db.users.rows ==>
            r.result == Err(FavouriteBookRepositoryError))
      && (r.result.Ok? <==>
            && !FavouriteBookRepository.PairTaken(db, userId, book.id) && userId in db.users.rows
            && db.books.rows[book.id].language.Some?)
      && (r.result.Ok? ==>
            && s.result.Ok? && r.result.value.status == NotStarted && BookOf(r.result.value.book) == db.books.rows[book.id]
            && r.result.value.id == s.result.value.id && r.db == s.db)
  {
    var book := BookRepository.FindBySlug(db, slug);
    if book.None? then Refuse(db, [Read(Books)], BookNotExist)
    else Favourited(db, FavouriteBookRepository.AddAsWritten(db, userId, book.value.id))
  }

  /** `AddFavouriteBookUseCase` over the corrected `add`: a repeated pair
      is "already exists". */
  function AddFavouriteIntended(db: Db, userId: Id, slug: string): (r: Run<FavouriteBookResponse>)
    ensures !BookRepository.SlugTaken(db, slug) ==> r == Run(Err(BookNotExist), db, [Read(Books)])
    ensures r.result.Err? ==> r.db == db
    ensures BookRepository.SlugTaken(db, slug) ==>
      var book := BookRepository.FindBySlug(db, slug).value;
      var s := FavouriteBookRepository.Add(db, userId, book.id);
      && (FavouriteBookRepository.PairTaken(db, userId, book.id) ==> r.result == Err(FavouriteBookAlreadyExist))
      && (userId !in db.users.rows && !FavouriteBookRepository.PairTaken(db, userId, book.id) ==>
            r.result == Err(FavouriteBookRepositoryError))
      && (r.result.Ok? <==>
            && !FavouriteBookRepository.PairTaken(db, userId, book.id) && userId in db.users.rows
            && db.books.rows[book.id].language.Some?)
      && (r.result.Ok? ==>
            && s.result.Ok? && r.result.value.status == NotStarted && BookOf(r.result.value.book) == db.books.rows[book.id]
            && r.result.value.id == s.result.value.id && r.db == s.db)
  {
    var book := BookRepository.FindBySlug(db, slug);
    if book.None? then Refuse(db, [Read(Books)], BookNotExist)
    else Favourited(db, FavouriteBookRepository.Add(db, userId, book.value.id))
  }

  /** The unit of work around the repository's `add`, and the response. */
  function Favourited(db: Db, s: Step<FavouriteEntity>): Run<FavouriteBookResponse>
  {
    var outcome := if s.result.Err? then Err(s.result.error) else OfFavourite(s.result.value);
    Transaction(db, [Read(Books), Write(Favourites)], outcome, s.db)
  }

  /** The slug names a book the user already keeps as a favourite. */
  predicate RepeatedFavourite(db: Db, userId: Id, slug: string)
  {
    && BookRepository.SlugTaken(db, slug)
    && FavouriteBookRepository.PairTaken(db, userId, BookRepository.FindBySlug(db, slug).value.id)
  }

  /** The two differ only on a repeated pair: the code as written reports
      the repository error where "already exists" is meant. */
  lemma AddFavouriteDiffersOnlyOnRepeat(db: Db, userId: Id, slug: string)
    ensures RepeatedFavourite(db, userId, slug) ==>
      && AddFavourite(db, userId, slug).result == Err(FavouriteBookRepositoryError)
      && AddFavouriteIntended(db, userId, slug).result == Err(FavouriteBookAlreadyExist)
    ensures !RepeatedFavourite(db, userId, slug) ==>
      AddFavourite(db, userId, slug) == AddFavouriteIntended(db, userId, slug)
  {
    var book := BookRepository.FindBySlug(db, slug);
    if book.Some? {
      var asWritten := FavouriteBookRepository.AddAsWritten(db, userId, book.value.id);
      var intended := FavouriteBookRepository.Add(db, userId, book.value.id);
      if !FavouriteBookRepository.PairTaken(db, userId, book.value.id) {
        assert asWritten == intended;
      }
    }
  }

  /** `DeleteFavouriteBookUseCase`. */
  function DeleteFavourite(db: Db, userId: Id, slug: string): (r: Run<()>)
    ensures !BookRepository.SlugTaken(db, slug) ==> r == Run(Err(BookNotExist), db, [Read(Books)])
    ensures r.result.Err? ==> r.db == db
    ensures BookRepository.SlugTaken(db, slug) ==>
      var book := BookRepository.FindBySlug(db, slug).value;
      && (r.result.Ok? <==> FavouriteBookRepository.PairTaken(db, userId, book.id))
      && (r.result.Err? ==> r.result.error == FavouriteBookNotExist)
      && (r.result.Ok? ==> r.db == FavouriteBookRepository.Delete(db, userId, book.id).db)
      && !FavouriteBookRepository.PairTaken(r.db, userId, book.id)
  {
    var book := BookRepository.FindBySlug(db, slug);
    if book.None? then Refuse(db, [Read(Books)], BookNotExist)
    else
      var s := FavouriteBookRepository.Delete(db, userId, book.value.id);
      Transaction(db, [Read(Books), Write(Favourites)],
                  if s.result.value then Ok(()) else Err(FavouriteBookNotExist), s.db)
  }

  /** `FindFavouriteBooksUseCase`: the user's favourites as the repository
      lists them, each rendered. */
  function FindFavourites(db: Db, userId: Id): (r: Run<seq<FavouriteBookResponse>>)
    requires FavouriteRefsOk(db)
    ensures r.db == db && r.effects == [Read(Favourites)]
    ensures LanguagesKnown(db) ==> r.result.Ok?
    ensures r.result.Err? ==> r.result.error == ResponseValidation
    ensures r.result.Ok? ==>
      var es := FavouriteBookRepository.FindAll(db, userId);
      && |r.result.value| == |es|
      && forall i :: 0 <= i < |es| ==>
           && OfFavourite(es[i]) == Ok(r.result.value[i])
           && r.result.value[i].id == es[i].id && r.result.value[i].status == es[i].status
           && BookOf(r.result.value[i].book) == es[i].book
  {
    var es := FavouriteBookRepository.FindAll(db, userId);
    FavouriteBooksKnown(db, userId);
    var r := OfFavourites(es);
    Run(r, db, [Read(Favourites)])
  }

  /** The books of listed favourites are stored books, so they have a
      language when every stored book has one. */
  lemma FavouriteBooksKnown(db: Db, userId: Id)
    requires FavouriteRefsOk(db)
    ensures var es := FavouriteBookRepository.FindAll(db, userId);
      LanguagesKnown(db) ==> forall i :: 0 <= i < |es| ==> es[i].book.language.Some?
  {
  }

  /** Every favourite of the user is listed, once. */
  lemma FavouritesListed(db: Db, userId: Id, id: Id)
    requires FavouriteRefsOk(db) && LanguagesKnown(db)
    requires id in db.favourites.rows && db.favourites.rows[id].userId == userId
    ensures var fs := FindFavourites(db, userId).result.value;
      exists i :: 0 <= i < |fs| && fs[i].id == id
  {
    var es := FavouriteBookRepository.FindAll(db, userId);
    var fs := FindFavourites(db, userId).result.value;
    var i :| 0 <= i < |es| && es[i].id == id;
    assert fs[i].id == id;
  }

  /** `UpdateFavouriteBookStatusUseCase`. */
  function UpdateFavouriteStatus(db: Db, userId: Id, slug: string, status: ReadingStatus): (r: Run<FavouriteBookResponse>)
    requires FavouriteRefsOk(db)
    ensures !BookRepository.SlugTaken(db, slug) ==> r == Run(Err(BookNotExist), db, [Read(Books)])
    ensures r.result.Err? ==> r.db == db
    ensures BookRepository.SlugTaken(db, slug) ==>
      var book := BookRepository.FindBySlug(db, slug).value;
      && (!FavouriteBookRepository.PairTaken(db, userId, book.id) ==> r.result == Err(FavouriteBookNotExist))
      && (FavouriteBookRepository.PairTaken(db, userId, book.id) && book.language.Some? ==> r.result.Ok?)
      && (r.result.Ok? ==>
            && r.result.value.status == status && BookOf(r.result.value.book) == db.books.rows[book.id]
            && r.db == FavouriteBookRepository.UpdateStatus(db, userId, book.id, status).db)
  {
    var book := BookRepository.FindBySlug(db, slug);
    if book.None? then Refuse(db, [Read(Books)], BookNotExist)
    else
      var s := FavouriteBookRepository.UpdateStatus(db, userId, book.value.id, status);
      var outcome := if s.result.value.None? then Err(FavouriteBookNotExist) else OfFavourite(s.result.value.value);
      Transaction(db, [Read(Books), Write(Favourites)], outcome, s.db)
  }
}
