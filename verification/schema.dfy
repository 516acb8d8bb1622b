/** The persistent entities (the SQLAlchemy models and the domain entity
    dataclasses, which copy each other field for field), the database as a
    record of tables, and the constraints the schema enforces. */
module Schema {

  import opened Common
  import opened Tables

  datatype Genre = Fantasy | ScienceFiction | Detective | Romance | Nonfiction

  datatype ReadingStatus = NotStarted | Reading | Finished

  datatype Role = Admin | Member

  datatype Date = Date(year: int, month: int, day: int)

  /** The server-side `now()` of a review row, left uninterpreted. */
  type Timestamp = int

  datatype Book = Book(
    id: Id,
    title: string,
    slug: string,
    language: Option<string>,
    genre: Genre,
    description: Option<string>,
    shortDescription: Option<string>,
    publishYear: Option<int>,
    pageCount: Option<int>,
    authorId: Option<Id>)

  datatype Author = Author(
    id: Id,
    name: string,
    slug: string,
    bio: Option<string>,
    birthDate: Option<Date>,
    deathDate: Option<Date>,
    country: Option<string>,
    photoUrl: Option<string>)

  datatype User = User(
    id: Id,
    email: string,
    hashedPassword: string,
    firstName: string,
    lastName: string,
    role: Role)

  /** A `favourite_books` row. */
  datatype Favourite = Favourite(id: Id, userId: Id, bookId: Id, status: ReadingStatus)

  /** A `reviews` row. */
  datatype Review = Review(
    id: Id,
    review: string,
    rating: int,
    createdAt: Timestamp,
    userId: Id,
    bookId: Id)

  /** A favourite read back with its book loaded. */
  datatype FavouriteEntity = FavouriteEntity(id: Id, status: ReadingStatus, book: Book)

  /** A review read back with its user and book loaded. */
  datatype ReviewEntity = ReviewEntity(
    id: Id,
    createdAt: Timestamp,
    review: string,
    rating: int,
    fullName: string,
    book: Book)

  // Each `id` column is its table's primary key: a row is stored under its
  // own identifier.

  predicate AuthorsKeyed(t: Table<Author>)
  {
    forall id :: id in t.rows ==> t.rows[id].id == id
  }

  predicate BooksKeyed(t: Table<Book>)
  {
    forall id :: id in t.rows ==> t.rows[id].id == id
  }

  predicate UsersKeyed(t: Table<User>)
  {
    forall id :: id in t.rows ==> t.rows[id].id == id
  }

  predicate FavouritesKeyed(t: Table<Favourite>)
  {
    forall id :: id in t.rows ==> t.rows[id].id == id
  }

  predicate ReviewsKeyed(t: Table<Review>)
  {
    forall id :: id in t.rows ==> t.rows[id].id == id
  }

  type AuthorTable = t: Table<Author> | AuthorsKeyed(t) witness RawTable(map[], 0)
  type BookTable = t: Table<Book> | BooksKeyed(t) witness RawTable(map[], 0)
  type UserTable = t: Table<User> | UsersKeyed(t) witness RawTable(map[], 0)
  type FavouriteTable = t: Table<Favourite> | FavouritesKeyed(t) witness RawTable(map[], 0)
  type ReviewTable = t: Table<Review> | ReviewsKeyed(t) witness RawTable(map[], 0)

  datatype Db = Db(
    authors: AuthorTable,
    books: BookTable,
    users: UserTable,
    favourites: FavouriteTable,
    reviews: ReviewTable)

  /** A repository call that may raise: its result and the session state after it. */
  datatype Step<T> = Step(result: Result<T>, db: Db)

  /** What a review request admits (`min_length=10`, `ge=1`, `le=5`). */
  predicate ValidReviewContent(review: string, rating: int)
  {
    1 <= rating <= 5 && |review| >= 10
  }

  /** `first_name + " " + last_name`, the denormalised review author. */
  function FullName(u: User): string
  {
    u.firstName + " " + u.lastName
  }

  // ------------------------------------------------------- schema constraints

  predicate AuthorsOk(db: Db)
  {
    var rows := db.authors.rows;
    && (forall i, j :: i in rows && j in rows && rows[i].name == rows[j].name ==> i == j)
    && (forall i, j :: i in rows && j in rows && rows[i].slug == rows[j].slug ==> i == j)
  }

  predicate BooksOk(db: Db)
  {
    var rows := db.books.rows;
    && (forall i, j :: i in rows && j in rows && rows[i].title == rows[j].title ==> i == j)
    && (forall i, j :: i in rows && j in rows && rows[i].slug == rows[j].slug ==> i == j)
    && (forall id :: id in rows && rows[id].authorId.Some? ==> rows[id].authorId.value in db.authors.rows)
  }

  predicate UsersOk(db: Db)
  {
    var rows := db.users.rows;
    && (forall i, j :: i in rows && j in rows && rows[i].email == rows[j].email ==> i == j)
  }

  /** Foreign keys of the favourites: what a read-back needs. */
  predicate FavouriteRefsOk(db: Db)
  {
    forall id :: id in db.favourites.rows ==>
      db.favourites.rows[id].userId in db.users.rows && db.favourites.rows[id].bookId in db.books.rows
  }

  predicate FavouritesOk(db: Db)
  {
    var rows := db.favourites.rows;
    && (forall i, j :: i in rows && j in rows && rows[i].userId == rows[j].userId && rows[i].bookId == rows[j].bookId ==> i == j)
    && FavouriteRefsOk(db)
  }

  /** Foreign keys of the reviews: what a read-back needs. */
  predicate ReviewRefsOk(db: Db)
  {
    forall id :: id in db.reviews.rows ==>
      db.reviews.rows[id].userId in db.users.rows && db.reviews.rows[id].bookId in db.books.rows
  }

  predicate ReviewsOk(db: Db)
  {
    var rows := db.reviews.rows;
    && (forall i, j :: i in rows && j in rows && rows[i].userId == rows[j].userId && rows[i].bookId == rows[j].bookId ==> i == j)
    && ReviewRefsOk(db)
    && (forall id :: id in rows ==> ValidReviewContent(rows[id].review, rows[id].rating))
  }

  /** Every constraint of the schema, plus the review content rule the
      request schema guarantees for every stored review. */
  predicate Consistent(db: Db)
  {
    AuthorsOk(db) && BooksOk(db) && UsersOk(db) && FavouritesOk(db) && ReviewsOk(db)
  }

  /** Every book has a language. The column is nullable, but a create
      that gives none stores the column default, and an update that clears
      it cannot commit: the book response demands a language. */
  predicate LanguagesKnown(db: Db)
  {
    forall id :: id in db.books.rows ==> db.books.rows[id].language.Some?
  }

  function EmptyDb(): (db: Db)
    ensures Consistent(db) && LanguagesKnown(db)
  {
    Db(Empty(), Empty(), Empty(), Empty(), Empty())
  }
}
