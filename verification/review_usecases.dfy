/** The review use cases. Each finds the book by slug before anything
    else; the request schema has already bounded the text and rating. */
module ReviewUseCases {

  import opened Common
  import opened Schema
  import opened Responses
  import opened UnitOfWork
  import BookRepository
  import ReviewRepository

  /** A review request that passed its schema. */
  datatype ReviewRequest = ReviewRequest(review: string, rating: int)

  /** `CreateReviewUseCase`: an unknown book stops it before the unit of
      work; otherwise the review is created in a unit of work. */
  function CreateReview(db: Db, slug: string, userId: Id, req: ReviewRequest, now: Timestamp): (r: Run<ReviewResponse>)
    requires ValidReviewContent(req.review, req.rating)
    ensures !BookRepository.SlugTaken(db, slug) ==> r == Run(Err(BookNotExist), db, [Read(Books)])
    ensures BookRepository.SlugTaken(db, slug) ==>
      var book := BookRepository.FindBySlug(db, slug).value;
      && r == InsertReview(db, book, userId, req, now)
      && book.slug == slug
  {
    var book := BookRepository.FindBySlug(db, slug);
    if book.None? then Refuse(db, [Read(Books)], BookNotExist)
    else InsertReview(db, book.value, userId, req, now)
  }

  /** The unit of work of `CreateReviewUseCase`, once the book is found: a
      second review of the same book by the same user is
      `ReviewAlreadyExist`, an unknown user `ReviewRepositoryError`, and a
      book without a language cannot be rendered. */
  function InsertReview(db: Db, book: Book, userId: Id, req: ReviewRequest, now: Timestamp): (r: Run<ReviewResponse>)
    requires book.id in db.books.rows && db.books.rows[book.id] == book
    requires ValidReviewContent(req.review, req.rating)
    ensures r.result.Err? ==> r.db == db
    ensures r.effects == [Read(Books), Write(Reviews), Finish(if r.result.Ok? then Commit else Rollback)]
    ensures ReviewRepository.PairTaken(db, userId, book.id) ==> r.result == Err(ReviewAlreadyExist)
    ensures !ReviewRepository.PairTaken(db, userId, book.id) && userId !in db.users.rows ==>
      r.result == Err(ReviewRepositoryError)
    ensures r.result.Ok? <==>
      !ReviewRepository.PairTaken(db, userId, book.id) && userId in db.users.rows && book.language.Some?
    ensures r.result.Ok? ==>
      var v := r.result.value;
      && v.id !in db.reviews.rows
      && BookOf(v.book) == book
      && v.review == req.review && v.rating == req.rating && v.createdAt == now
      && v.fullName == FullName(db.users.rows[userId])
      && r.db == db.(reviews := r.db.reviews)
      && r.db.reviews.rows == db.reviews.rows[v.id := Review(v.id, req.review, req.rating, now, userId, book.id)]
  {
    var s := ReviewRepository.Create(db, ReviewRepository.ReviewCreate(req.review, req.rating, userId, book.id), now);
    var outcome := if s.result.Err? then Err(s.result.error) else OfReview(s.result.value);
    Transaction(db, [Read(Books), Write(Reviews)], outcome, s.db)
  }

  /** `FindReviewsUseCase`: an unknown book has no reviews, and its
      reviews are not read; otherwise every review of the book, rendered,
      in the repository's order. */
  function FindReviews(db: Db, slug: string): (r: Run<seq<ReviewResponse>>)
    requires ReviewRefsOk(db)
    ensures r.db == db
    ensures !BookRepository.SlugTaken(db, slug) ==> r == Run(Ok([]), db, [Read(Books)])
    ensures BookRepository.SlugTaken(db, slug) ==> r.effects == [Read(Books), Read(Reviews)]
    ensures r.result.Err? ==> r.result.error == ResponseValidation
    ensures r.result.Ok? && BookRepository.SlugTaken(db, slug) ==>
      var es := ReviewRepository.FindAllByBookId(db, BookRepository.FindBySlug(db, slug).value.id);
      && |r.result.value| == |es|
      && forall i :: 0 <= i < |es| ==> OfReview(es[i]) == Ok(r.result.value[i])
  {
    var book := BookRepository.FindBySlug(db, slug);
    if book.None? then Run(Ok([]), db, [Read(Books)])
    else
      var es := ReviewRepository.FindAllByBookId(db, book.value.id);
      Run(OfReviews(es), db, [Read(Books), Read(Reviews)])
  }

  /** Stored reviews satisfy the request's bounds and their books have a
      language, so every review of a book renders. */
  lemma StoredReviewsRender(db: Db, bookId: Id)
    requires ReviewsOk(db) && LanguagesKnown(db)
    ensures OfReviews(ReviewRepository.FindAllByBookId(db, bookId)).Ok?
  {
    var es := ReviewRepository.FindAllByBookId(db, bookId);
    forall i | 0 <= i < |es|
      ensures OfReview(es[i]).Ok?
    {
      var row := db.reviews.rows[es[i].id];
      assert ValidReviewContent(row.review, row.rating);
      assert es[i].book == db.books.rows[row.bookId];
    }
  }

  /** The listing shows the repository's reviews in its order. */
  lemma ListedIds(db: Db, slug: string)
    requires ReviewRefsOk(db) && BookRepository.SlugTaken(db, slug)
    requires FindReviews(db, slug).result.Ok?
    ensures var r := FindReviews(db, slug).result.value;
      var es := ReviewRepository.FindAllByBookId(db, BookRepository.FindBySlug(db, slug).value.id);
      |r| == |es| && forall i :: 0 <= i < |r| ==> r[i].id == es[i].id
  {
  }

  /** In a database whose reviews keep their constraints and whose books
      all have a language, listing a book's reviews succeeds and shows each
      of its reviews. */
  lemma ReviewsListed(db: Db, slug: string, id: Id)
    requires ReviewsOk(db) && LanguagesKnown(db)
    requires BookRepository.SlugTaken(db, slug)
    requires id in db.reviews.rows && db.reviews.rows[id].bookId == BookRepository.FindBySlug(db, slug).value.id
    ensures var r := FindReviews(db, slug).result;
      r.Ok? && exists i :: 0 <= i < |r.value| && r.value[i].id == id
  {
    var bookId := BookRepository.FindBySlug(db, slug).value.id;
    var es := ReviewRepository.FindAllByBookId(db, bookId);
    StoredReviewsRender(db, bookId);
    var r := FindReviews(db, slug).result;
    ListedIds(db, slug);
    var k :| 0 <= k < |es| && es[k].id == id;
    assert r.value[k].id == id;
  }

  /** No review is listed twice. */
  lemma ReviewsListedOnce(db: Db, slug: string)
    requires ReviewRefsOk(db) && BookRepository.SlugTaken(db, slug)
    requires FindReviews(db, slug).result.Ok?
    ensures var r := FindReviews(db, slug).result.value;
      forall i, j :: 0 <= i < j < |r| ==> r[i].id != r[j].id
  {
    ListedIds(db, slug);
  }

  /** `UpdateReviewUseCase`: an unknown book stops it before the unit of
      work; otherwise the review is rewritten in a unit of work. */
  function UpdateReview(db: Db, slug: string, userId: Id, req: ReviewRequest): (r: Run<ReviewResponse>)
    requires ReviewRefsOk(db)
    requires ValidReviewContent(req.review, req.rating)
    ensures !BookRepository.SlugTaken(db, slug) ==> r == Run(Err(BookNotExist), db, [Read(Books)])
    ensures BookRepository.SlugTaken(db, slug) ==>
      var book := BookRepository.FindBySlug(db, slug).value;
      && r == RewriteReview(db, book, userId, req)
      && book.slug == slug
  {
    var book := BookRepository.FindBySlug(db, slug);
    if book.None? then Refuse(db, [Read(Books)], BookNotExist)
    else RewriteReview(db, book.value, userId, req)
  }

  /** The unit of work of `UpdateReviewUseCase`, once the book is found: a
      user who has not reviewed the book gets `ReviewNotExist`, rolled
      back; otherwise text and rating change and the review keeps its
      identifier and creation time. */
  function RewriteReview(db: Db, book: Book, userId: Id, req: ReviewRequest): (r: Run<ReviewResponse>)
    requires ReviewRefsOk(db)
    requires book.id in db.books.rows && db.books.rows[book.id] == book
    requires ValidReviewContent(req.review, req.rating)
    ensures r.result.Err? ==> r.db == db
    ensures r.effects == [Read(Books), Write(Reviews), Finish(if r.result.Ok? then Commit else Rollback)]
    ensures !ReviewRepository.PairTaken(db, userId, book.id) ==> r.result == Err(ReviewNotExist)
    ensures r.result.Ok? <==> ReviewRepository.PairTaken(db, userId, book.id) && book.language.Some?
    ensures r.result.Ok? ==>
      r.db == ReviewRepository.Update(db, ReviewRepository.ReviewUpdate(req.review, req.rating, userId, book.id)).db
    ensures r.result.Ok? ==>
      var v := r.result.value;
      && v.id in db.reviews.rows
      && db.reviews.rows[v.id].userId == userId && db.reviews.rows[v.id].bookId == book.id
      && BookOf(v.book) == book
      && v.review == req.review && v.rating == req.rating && v.createdAt == db.reviews.rows[v.id].createdAt
  {
    var s := ReviewRepository.Update(db, ReviewRepository.ReviewUpdate(req.review, req.rating, userId, book.id));
    var outcome := if s.result.value.None? then Err(ReviewNotExist) else OfReview(s.result.value.value);
    Transaction(db, [Read(Books), Write(Reviews)], outcome, s.db)
  }

  /** `DeleteReviewUseCase`: an unknown book stops it before the unit of
      work; no review of the pair is `ReviewNotExist`, rolled back. */
  function DeleteReview(db: Db, userId: Id, slug: string): (r: Run<()>)
    ensures !BookRepository.SlugTaken(db, slug) ==> r == Run(Err(BookNotExist), db, [Read(Books)])
    ensures r.result.Err? ==> r.db == db
    ensures BookRepository.SlugTaken(db, slug) ==>
      var book := BookRepository.FindBySlug(db, slug).value;
      && r.effects == [Read(Books), Write(Reviews), Finish(if r.result.Ok? then Commit else Rollback)]
      && (r.result.Ok? <==> ReviewRepository.PairTaken(db, userId, book.id))
      && (r.result.Err? ==> r.result.error == ReviewNotExist)
      && (r.result.Ok? ==> r.db == ReviewRepository.DeleteById(db, userId, book.id).db)
      && !ReviewRepository.PairTaken(r.db, userId, book.id)
  {
    var book := BookRepository.FindBySlug(db, slug);
    if book.None? then Refuse(db, [Read(Books)], BookNotExist)
    else
      var s := ReviewRepository.DeleteById(db, userId, book.value.id);
      Transaction(db, [Read(Books), Write(Reviews)], if s.result.value then Ok(()) else Err(ReviewNotExist), s.db)
  }

  /** A created review is listed with its book's reviews, as created. */
  lemma CreatedReviewListed(db: Db, slug: string, userId: Id, req: ReviewRequest, now: Timestamp)
    requires ReviewRefsOk(db) && ValidReviewContent(req.review, req.rating)
    requires CreateReview(db, slug, userId, req, now).result.Ok?
    ensures var c := CreateReview(db, slug, userId, req, now);
      var found := FindReviews(c.db, slug);
      found.result.Ok? ==> exists i :: 0 <= i < |found.result.value| && found.result.value[i] == c.result.value
  {
    var c := CreateReview(db, slug, userId, req, now);
    var v := c.result.value;
    assert ReviewRefsOk(c.db);
    var book := BookRepository.FindBySlug(db, slug).value;
    assert BookRepository.FindBySlug(c.db, slug) == BookRepository.FindBySlug(db, slug);
    var es := ReviewRepository.FindAllByBookId(c.db, book.id);
    assert c.db.reviews.rows[v.id].bookId == book.id;
    var found := FindReviews(c.db, slug);
    if found.result.Ok? {
      var k :| 0 <= k < |es| && es[k].id == v.id;
      assert es[k] == ReviewRepository.Entity(c.db, v.id);
      assert OfReview(es[k]) == Ok(found.result.value[k]);
    }
  }
}
