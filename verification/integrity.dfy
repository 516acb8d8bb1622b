/** The schema's constraints as an invariant of the service: starting
    from a database that satisfies them, every use case that writes leaves
    one that still does, and every book keeps a language. */
module Integrity {

  import opened Common
  import opened Schema
  import opened Cache
  import opened Responses
  import opened UnitOfWork
  import BookRepository
  import FavouriteBookRepository
  import ReviewRepository
  import AuthorRepository
  import UserRepository
  import BookUseCases
  import AuthorUseCases
  import ReviewUseCases
  import UserUseCases

  /** What every committed state satisfies. */
  predicate Invariant(db: Db)
  {
    Consistent(db) && LanguagesKnown(db)
  }

  /** The empty database is where the service starts. */
  lemma EmptyDbInvariant()
    ensures Invariant(EmptyDb())
  {
  }

  // ---------------------------------------------------- what a change keeps

  // A constraint holds on as long as the tables it reads are unchanged, or
  // the tables it only points into have grown.

  lemma AuthorsKept(db: Db, db': Db)
    requires AuthorsOk(db) && db'.authors == db.authors
    ensures AuthorsOk(db')
  {
  }

  lemma UsersKept(db: Db, db': Db)
    requires UsersOk(db) && db'.users == db.users
    ensures UsersOk(db')
  {
  }

  lemma BooksKept(db: Db, db': Db)
    requires BooksOk(db) && db'.books == db.books && db.authors.rows.Keys <= db'.authors.rows.Keys
    ensures BooksOk(db')
  {
  }

  lemma LanguagesKept(db: Db, db': Db)
    requires LanguagesKnown(db) && db'.books == db.books
    ensures LanguagesKnown(db')
  {
  }

  lemma FavouritesKept(db: Db, db': Db)
    requires FavouritesOk(db) && db'.favourites == db.favourites
    requires db.users.rows.Keys <= db'.users.rows.Keys && db.books.rows.Keys <= db'.books.rows.Keys
    ensures FavouritesOk(db')
  {
  }

  lemma ReviewsKept(db: Db, db': Db)
    requires ReviewsOk(db) && db'.reviews == db.reviews
    requires db.users.rows.Keys <= db'.users.rows.Keys && db.books.rows.Keys <= db'.books.rows.Keys
    ensures ReviewsOk(db')
  {
  }

  // ------------------------------------------------------- one table at a time

  /** A new book with a fresh title and slug, an author that exists, and a
      language. */
  lemma BookInserted(db: Db, db': Db, b: Book)
    requires Invariant(db)
    requires db' == db.(books := db'.books) && b.id !in db.books.rows && db'.books.rows == db.books.rows[b.id := b]
    requires !BookRepository.TitleTaken(db, b.title) && !BookRepository.SlugTaken(db, b.slug)
    requires !BookRepository.DanglingAuthor(db, b.authorId) && b.language.Some?
    ensures Invariant(db')
  {
    AuthorsKept(db, db');
    UsersKept(db, db');
    FavouritesKept(db, db');
    ReviewsKept(db, db');
    BookInsertedOk(db, db', b);
  }

  lemma BookInsertedOk(db: Db, db': Db, b: Book)
    requires BooksOk(db) && LanguagesKnown(db)
    requires db'.authors == db.authors && b.id !in db.books.rows && db'.books.rows == db.books.rows[b.id := b]
    requires !BookRepository.TitleTaken(db, b.title) && !BookRepository.SlugTaken(db, b.slug)
    requires !BookRepository.DanglingAuthor(db, b.authorId) && b.language.Some?
    ensures BooksOk(db') && LanguagesKnown(db')
  {
  }

  /** A book rewritten under its own title and slug, with an author that
      exists and a language. */
  lemma BookReplaced(db: Db, db': Db, b: Book)
    requires Invariant(db)
    requires db' == db.(books := db'.books) && b.id in db.books.rows && db'.books.rows == db.books.rows[b.id := b]
    requires b.title == db.books.rows[b.id].title && b.slug == db.books.rows[b.id].slug
    requires !BookRepository.DanglingAuthor(db, b.authorId) && b.language.Some?
    ensures Invariant(db')
  {
    AuthorsKept(db, db');
    UsersKept(db, db');
    FavouritesKept(db, db');
    ReviewsKept(db, db');
    BookReplacedOk(db, db', b);
  }

  lemma BookReplacedOk(db: Db, db': Db, b: Book)
    requires BooksOk(db) && LanguagesKnown(db)
    requires db'.authors == db.authors && b.id in db.books.rows && db'.books.rows == db.books.rows[b.id := b]
    requires b.title == db.books.rows[b.id].title && b.slug == db.books.rows[b.id].slug
    requires !BookRepository.DanglingAuthor(db, b.authorId) && b.language.Some?
    ensures BooksOk(db') && LanguagesKnown(db')
  {
  }

  /** A book removed with its favourites and reviews. */
  lemma BookRemoved(db: Db, id: Id)
    requires Invariant(db)
    ensures Invariant(BookRepository.DeleteById(db, id).db)
  {
    var db' := BookRepository.DeleteById(db, id).db;
    AuthorsKept(db, db');
    UsersKept(db, db');
    BookRemovedBooksOk(db, id);
    BookRemovedFavouritesOk(db, id);
    BookRemovedReviewsOk(db, id);
  }

  lemma BookRemovedBooksOk(db: Db, id: Id)
    requires BooksOk(db) && LanguagesKnown(db)
    ensures var db' := BookRepository.DeleteById(db, id).db;
      BooksOk(db') && LanguagesKnown(db')
  {
  }

  lemma BookRemovedFavouritesOk(db: Db, id: Id)
    requires FavouritesOk(db)
    ensures FavouritesOk(BookRepository.DeleteById(db, id).db)
  {
  }

  lemma BookRemovedReviewsOk(db: Db, id: Id)
    requires ReviewsOk(db)
    ensures ReviewsOk(BookRepository.DeleteById(db, id).db)
  {
  }

  /** A new favourite of a pair not yet taken, whose user and book exist. */
  lemma FavouriteInserted(db: Db, db': Db, f: Favourite)
    requires Invariant(db)
    requires db' == db.(favourites := db'.favourites) && f.id !in db.favourites.rows
    requires db'.favourites.rows == db.favourites.rows[f.id := f]
    requires !FavouriteBookRepository.PairTaken(db, f.userId, f.bookId)
    requires f.userId in db.users.rows && f.bookId in db.books.rows
    ensures Invariant(db')
  {
    AuthorsKept(db, db');
    UsersKept(db, db');
    BooksKept(db, db');
    LanguagesKept(db, db');
    ReviewsKept(db, db');
    FavouriteInsertedOk(db, db', f);
  }

  lemma FavouriteInsertedOk(db: Db, db': Db, f: Favourite)
    requires FavouritesOk(db) && db'.users == db.users && db'.books == db.books
    requires f.id !in db.favourites.rows && db'.favourites.rows == db.favourites.rows[f.id := f]
    requires !FavouriteBookRepository.PairTaken(db, f.userId, f.bookId)
    requires f.userId in db.users.rows && f.bookId in db.books.rows
    ensures FavouritesOk(db')
  {
  }

  /** Some favourites removed, the rest untouched. */
  lemma FavouritesShrunk(db: Db, db': Db)
    requires Invariant(db)
    requires db' == db.(favourites := db'.favourites)
    requires forall k :: k in db'.favourites.rows ==> k in db.favourites.rows && db'.favourites.rows[k] == db.favourites.rows[k]
    ensures Invariant(db')
  {
    AuthorsKept(db, db');
    UsersKept(db, db');
    BooksKept(db, db');
    LanguagesKept(db, db');
    ReviewsKept(db, db');
    FavouritesShrunkOk(db, db');
  }

  lemma FavouritesShrunkOk(db: Db, db': Db)
    requires FavouritesOk(db) && db'.users == db.users && db'.books == db.books
    requires forall k :: k in db'.favourites.rows ==> k in db.favourites.rows && db'.favourites.rows[k] == db.favourites.rows[k]
    ensures FavouritesOk(db')
  {
  }

  /** Favourites whose status changed and nothing else. */
  lemma FavouriteStatusesChanged(db: Db, db': Db)
    requires Invariant(db)
    requires db' == db.(favourites := db'.favourites)
    requires db'.favourites.rows.Keys == db.favourites.rows.Keys
    requires forall k :: k in db.favourites.rows ==>
      db'.favourites.rows[k] == db.favourites.rows[k].(status := db'.favourites.rows[k].status)
    ensures Invariant(db')
  {
    AuthorsKept(db, db');
    UsersKept(db, db');
    BooksKept(db, db');
    LanguagesKept(db, db');
    ReviewsKept(db, db');
    FavouriteStatusesOk(db, db');
  }

  lemma FavouriteStatusesOk(db: Db, db': Db)
    requires FavouritesOk(db) && db'.users == db.users && db'.books == db.books
    requires db'.favourites.rows.Keys == db.favourites.rows.Keys
    requires forall k :: k in db.favourites.rows ==>
      db'.favourites.rows[k] == db.favourites.rows[k].(status := db'.favourites.rows[k].status)
    ensures FavouritesOk(db')
  {
  }

  /** A new author with a fresh name and slug. */
  lemma AuthorInserted(db: Db, db': Db, a: Author)
    requires Invariant(db)
    requires db' == db.(authors := db'.authors) && a.id !in db.authors.rows
    requires db'.authors.rows == db.authors.rows[a.id := a]
    requires !AuthorRepository.NameTaken(db, a.name) && !AuthorRepository.SlugTaken(db, a.slug)
    ensures Invariant(db')
  {
    UsersKept(db, db');
    BooksKept(db, db');
    LanguagesKept(db, db');
    FavouritesKept(db, db');
    ReviewsKept(db, db');
    AuthorInsertedOk(db, db', a);
  }

  lemma AuthorInsertedOk(db: Db, db': Db, a: Author)
    requires AuthorsOk(db)
    requires a.id !in db.authors.rows && db'.authors.rows == db.authors.rows[a.id := a]
    requires !AuthorRepository.NameTaken(db, a.name) && !AuthorRepository.SlugTaken(db, a.slug)
    ensures AuthorsOk(db')
  {
  }

  /** An author rewritten under their own name and slug. */
  lemma AuthorReplaced(db: Db, db': Db, a: Author)
    requires Invariant(db)
    requires db' == db.(authors := db'.authors) && a.id in db.authors.rows
    requires db'.authors.rows == db.authors.rows[a.id := a]
    requires a.name == db.authors.rows[a.id].name && a.slug == db.authors.rows[a.id].slug
    ensures Invariant(db')
  {
    UsersKept(db, db');
    BooksKept(db, db');
    LanguagesKept(db, db');
    FavouritesKept(db, db');
    ReviewsKept(db, db');
    AuthorReplacedOk(db, db', a);
  }

  lemma AuthorReplacedOk(db: Db, db': Db, a: Author)
    requires AuthorsOk(db)
    requires a.id in db.authors.rows && db'.authors.rows == db.authors.rows[a.id := a]
    requires a.name == db.authors.rows[a.id].name && a.slug == db.authors.rows[a.id].slug
    ensures AuthorsOk(db')
  {
  }

  /** An author removed, their books kept without an author. */
  lemma AuthorRemoved(db: Db, id: Id)
    requires Invariant(db)
    ensures Invariant(AuthorRepository.DeleteById(db, id).db)
  {
    var db' := AuthorRepository.DeleteById(db, id).db;
    UsersKept(db, db');
    AuthorRemovedAuthorsOk(db, id);
    AuthorRemovedBooksOk(db, id);
    FavouritesKept(db, db');
    ReviewsKept(db, db');
  }

  lemma AuthorRemovedAuthorsOk(db: Db, id: Id)
    requires AuthorsOk(db)
    ensures AuthorsOk(AuthorRepository.DeleteById(db, id).db)
  {
  }

  lemma AuthorRemovedBooksOk(db: Db, id: Id)
    requires BooksOk(db) && LanguagesKnown(db)
    ensures var db' := AuthorRepository.DeleteById(db, id).db;
      BooksOk(db') && LanguagesKnown(db')
  {
    AuthorRemovedBooksUnique(db, id);
    AuthorRemovedBooksRefer(db, id);
  }

  lemma AuthorRemovedBooksUnique(db: Db, id: Id)
    requires BooksOk(db) && LanguagesKnown(db)
    ensures var rows := AuthorRepository.DeleteById(db, id).db.books.rows;
      && (forall i, j :: i in rows && j in rows && rows[i].title == rows[j].title ==> i == j)
      && (forall i, j :: i in rows && j in rows && rows[i].slug == rows[j].slug ==> i == j)
      && (forall k :: k in rows ==> rows[k].language.Some?)
  {
    var rows := AuthorRepository.DeleteById(db, id).db.books.rows;
    forall k | k in rows
      ensures rows[k].title == db.books.rows[k].title && rows[k].slug == db.books.rows[k].slug
      ensures rows[k].language == db.books.rows[k].language
    {
    }
  }

  lemma AuthorRemovedBooksRefer(db: Db, id: Id)
    requires BooksOk(db)
    ensures var db' := AuthorRepository.DeleteById(db, id).db;
      forall k :: k in db'.books.rows && db'.books.rows[k].authorId.Some? ==>
        db'.books.rows[k].authorId.value in db'.authors.rows
  {
  }

  /** A new review of a pair not yet taken, whose user and book exist,
      within the request's bounds. */
  lemma ReviewInserted(db: Db, db': Db, v: Review)
    requires Invariant(db)
    requires db' == db.(reviews := db'.reviews) && v.id !in db.reviews.rows
    requires db'.reviews.rows == db.reviews.rows[v.id := v]
    requires !ReviewRepository.PairTaken(db, v.userId, v.bookId)
    requires v.userId in db.users.rows && v.bookId in db.books.rows
    requires ValidReviewContent(v.review, v.rating)
    ensures Invariant(db')
  {
    AuthorsKept(db, db');
    UsersKept(db, db');
    BooksKept(db, db');
    LanguagesKept(db, db');
    FavouritesKept(db, db');
    ReviewInsertedOk(db, db', v);
  }

  lemma ReviewInsertedOk(db: Db, db': Db, v: Review)
    requires ReviewsOk(db) && db'.users == db.users && db'.books == db.books
    requires v.id !in db.reviews.rows && db'.reviews.rows == db.reviews.rows[v.id := v]
    requires !ReviewRepository.PairTaken(db, v.userId, v.bookId)
    requires v.userId in db.users.rows && v.bookId in db.books.rows
    requires ValidReviewContent(v.review, v.rating)
    ensures ReviewsOk(db')
  {
  }

  /** Some reviews removed, the rest untouched. */
  lemma ReviewsShrunk(db: Db, db': Db)
    requires Invariant(db)
    requires db' == db.(reviews := db'.reviews)
    requires forall k :: k in db'.reviews.rows ==> k in db.reviews.rows && db'.reviews.rows[k] == db.reviews.rows[k]
    ensures Invariant(db')
  {
    AuthorsKept(db, db');
    UsersKept(db, db');
    BooksKept(db, db');
    LanguagesKept(db, db');
    FavouritesKept(db, db');
    ReviewsShrunkOk(db, db');
  }

  lemma ReviewsShrunkOk(db: Db, db': Db)
    requires ReviewsOk(db) && db'.users == db.users && db'.books == db.books
    requires forall k :: k in db'.reviews.rows ==> k in db.reviews.rows && db'.reviews.rows[k] == db.reviews.rows[k]
    ensures ReviewsOk(db')
  {
  }

  /** Reviews whose text and rating changed, within the request's bounds. */
  lemma ReviewContentsChanged(db: Db, db': Db, review: string, rating: int)
    requires Invariant(db) && ValidReviewContent(review, rating)
    requires db' == db.(reviews := db'.reviews)
    requires db'.reviews.rows.Keys == db.reviews.rows.Keys
    requires forall k :: k in db.reviews.rows ==>
      || db'.reviews.rows[k] == db.reviews.rows[k]
      || db'.reviews.rows[k] == db.reviews.rows[k].(review := review, rating := rating)
    ensures Invariant(db')
  {
    AuthorsKept(db, db');
    UsersKept(db, db');
    BooksKept(db, db');
    LanguagesKept(db, db');
    FavouritesKept(db, db');
    ReviewContentsOk(db, db', review, rating);
  }

  lemma ReviewContentsOk(db: Db, db': Db, review: string, rating: int)
    requires ReviewsOk(db) && ValidReviewContent(review, rating)
    requires db'.users == db.users && db'.books == db.books
    requires db'.reviews.rows.Keys == db.reviews.rows.Keys
    requires forall k :: k in db.reviews.rows ==>
      || db'.reviews.rows[k] == db.reviews.rows[k]
      || db'.reviews.rows[k] == db.reviews.rows[k].(review := review, rating := rating)
    ensures ReviewsOk(db')
  {
  }

  /** A new user with a fresh e-mail. */
  lemma UserInserted(db: Db, db': Db, u: User)
    requires Invariant(db)
    requires db' == db.(users := db'.users) && u.id !in db.users.rows
    requires db'.users.rows == db.users.rows[u.id := u]
    requires !UserRepository.EmailTaken(db, u.email)
    ensures Invariant(db')
  {
    AuthorsKept(db, db');
    BooksKept(db, db');
    LanguagesKept(db, db');
    FavouritesKept(db, db');
    ReviewsKept(db, db');
    UserInsertedOk(db, db', u);
  }

  lemma UserInsertedOk(db: Db, db': Db, u: User)
    requires UsersOk(db)
    requires u.id !in db.users.rows && db'.users.rows == db.users.rows[u.id := u]
    requires !UserRepository.EmailTaken(db, u.email)
    ensures UsersOk(db')
  {
  }

  // ------------------------------------------------------------------ books

  lemma CreateBookKeepsInvariant(db: Db, req: BookUseCases.BookCreateRequest)
    requires Invariant(db)
    ensures Invariant(BookUseCases.CreateBook(db, req).db)
  {
    var r := BookUseCases.CreateBook(db, req);
    if r.result.Ok? {
      BookInserted(db, r.db, BookOf(r.result.value));
    }
  }

  lemma UpdateBookKeepsInvariant(db: Db, cache: Store, id: Id, req: BookUseCases.BookUpdateRequest, faults: Faults)
    requires Invariant(db)
    ensures Invariant(BookUseCases.UpdateBook(db, cache, id, req, faults).run.db)
  {
    var c := BookUseCases.UpdateBook(db, cache, id, req, faults);
    if c.run.result.Ok? {
      BookReplaced(db, c.run.db, BookOf(c.run.result.value));
    }
  }

  lemma DeleteBookKeepsInvariant(db: Db, id: Id)
    requires Invariant(db)
    ensures Invariant(BookUseCases.DeleteBook(db, id).db)
  {
    if BookUseCases.DeleteBook(db, id).result.Ok? {
      BookRemoved(db, id);
    }
  }

  // ------------------------------------------------------------- favourites

  lemma AddFavouriteKeepsInvariant(db: Db, userId: Id, slug: string)
    requires Invariant(db)
    ensures Invariant(BookUseCases.AddFavourite(db, userId, slug).db)
  {
    var r := BookUseCases.AddFavourite(db, userId, slug);
    if r.result.Ok? {
      var book := BookRepository.FindBySlug(db, slug).value;
      var s := FavouriteBookRepository.Add(db, userId, book.id);
      FavouriteInserted(db, r.db, Favourite(s.result.value.id, userId, book.id, NotStarted));
    }
  }

  lemma AddFavouriteIntendedKeepsInvariant(db: Db, userId: Id, slug: string)
    requires Invariant(db)
    ensures Invariant(BookUseCases.AddFavouriteIntended(db, userId, slug).db)
  {
    var r := BookUseCases.AddFavouriteIntended(db, userId, slug);
    if r.result.Ok? {
      var book := BookRepository.FindBySlug(db, slug).value;
      var s := FavouriteBookRepository.Add(db, userId, book.id);
      FavouriteInserted(db, r.db, Favourite(s.result.value.id, userId, book.id, NotStarted));
    }
  }

  lemma DeleteFavouriteKeepsInvariant(db: Db, userId: Id, slug: string)
    requires Invariant(db)
    ensures Invariant(BookUseCases.DeleteFavourite(db, userId, slug).db)
  {
    var r := BookUseCases.DeleteFavourite(db, userId, slug);
    if r.result.Ok? {
      var book := BookRepository.FindBySlug(db, slug).value;
      var s := FavouriteBookRepository.Delete(db, userId, book.id);
      FavouritesShrunk(db, s.db);
    }
  }

  lemma UpdateFavouriteStatusKeepsInvariant(db: Db, userId: Id, slug: string, status: ReadingStatus)
    requires Invariant(db)
    ensures Invariant(BookUseCases.UpdateFavouriteStatus(db, userId, slug, status).db)
  {
    var r := BookUseCases.UpdateFavouriteStatus(db, userId, slug, status);
    if r.result.Ok? {
      StatusSetKeepsInvariant(db, userId, BookRepository.FindBySlug(db, slug).value.id, status);
    }
  }

  lemma StatusSetKeepsInvariant(db: Db, userId: Id, bookId: Id, status: ReadingStatus)
    requires Invariant(db)
    ensures Invariant(FavouriteBookRepository.UpdateStatus(db, userId, bookId, status).db)
  {
    var db' := FavouriteBookRepository.UpdateStatus(db, userId, bookId, status).db;
    forall k | k in db.favourites.rows
      ensures db'.favourites.rows[k] == db.favourites.rows[k].(status := db'.favourites.rows[k].status)
    {
    }
    FavouriteStatusesChanged(db, db');
  }

  // ---------------------------------------------------------------- authors

  lemma CreateAuthorKeepsInvariant(db: Db, req: AuthorUseCases.AuthorCreateRequest)
    requires Invariant(db)
    ensures Invariant(AuthorUseCases.CreateAuthor(db, req).db)
  {
    var r := AuthorUseCases.CreateAuthor(db, req);
    if r.result.Ok? {
      AuthorInserted(db, r.db, AuthorOf(r.result.value));
    }
  }

  lemma DeleteAuthorKeepsInvariant(db: Db, id: Id)
    requires Invariant(db)
    ensures Invariant(AuthorUseCases.DeleteAuthor(db, id).db)
  {
    if AuthorUseCases.DeleteAuthor(db, id).result.Ok? {
      AuthorRemoved(db, id);
    }
  }

  /** The photo update keeps the invariant even when it raises after the
      commit. */
  lemma UpdateAuthorPhotoKeepsInvariant(db: Db, cache: Store, authorId: Id, file: AuthorUseCases.Upload,
                                        env: AuthorUseCases.PhotoEnv)
    requires Invariant(db)
    ensures Invariant(AuthorUseCases.UpdateAuthorPhoto(db, cache, authorId, file, env).run.db)
  {
    var block := AuthorUseCases.ReplacePhoto(db, authorId, file, env);
    if block.result.Ok? {
      AuthorReplaced(db, block.db, block.result.value);
    }
  }

  // ---------------------------------------------------------------- reviews

  lemma CreateReviewKeepsInvariant(db: Db, slug: string, userId: Id, req: ReviewUseCases.ReviewRequest, now: Timestamp)
    requires Invariant(db) && ValidReviewContent(req.review, req.rating)
    ensures Invariant(ReviewUseCases.CreateReview(db, slug, userId, req, now).db)
  {
    var r := ReviewUseCases.CreateReview(db, slug, userId, req, now);
    if r.result.Ok? {
      var book := BookRepository.FindBySlug(db, slug).value;
      ReviewInserted(db, r.db, Review(r.result.value.id, req.review, req.rating, now, userId, book.id));
    }
  }

  lemma UpdateReviewKeepsInvariant(db: Db, slug: string, userId: Id, req: ReviewUseCases.ReviewRequest)
    requires Invariant(db) && ValidReviewContent(req.review, req.rating)
    ensures Invariant(ReviewUseCases.UpdateReview(db, slug, userId, req).db)
  {
    var r := ReviewUseCases.UpdateReview(db, slug, userId, req);
    if r.result.Ok? {
      var book := BookRepository.FindBySlug(db, slug).value;
      var s := ReviewRepository.Update(db, ReviewRepository.ReviewUpdate(req.review, req.rating, userId, book.id));
      ReviewContentsChanged(db, s.db, req.review, req.rating);
    }
  }

  lemma DeleteReviewKeepsInvariant(db: Db, userId: Id, slug: string)
    requires Invariant(db)
    ensures Invariant(ReviewUseCases.DeleteReview(db, userId, slug).db)
  {
    var r := ReviewUseCases.DeleteReview(db, userId, slug);
    if r.result.Ok? {
      var book := BookRepository.FindBySlug(db, slug).value;
      var s := ReviewRepository.DeleteById(db, userId, book.id);
      ReviewsShrunk(db, s.db);
    }
  }

  // ------------------------------------------------------------------ users

  lemma RegisterKeepsInvariant(db: Db, req: UserUseCases.RegisterRequest, hasher: UserUseCases.Hasher)
    requires Invariant(db)
    ensures Invariant(UserUseCases.Register(db, req, hasher).db)
  {
    var r := UserUseCases.Register(db, req, hasher);
    if r.result.Ok? {
      var v := r.result.value;
      UserInserted(db, r.db, User(v.id, req.email, hasher.hash(req.password), req.firstName, req.lastName, v.role));
    }
  }
}
