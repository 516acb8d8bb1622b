/** `ReviewRepository`: the `reviews` table, one review per (user, book)
    pair, read back with the reviewer's full name and the book. */
module ReviewRepository {

  import opened Common
  import opened Tables
  import opened Strings
  import opened Schema

  const PairConstraint := "uq_user_book_review"
  const UserForeignKey := "reviews_user_id_fkey"
  const BookForeignKey := "reviews_book_id_fkey"

  datatype ReviewCreate = ReviewCreate(review: string, rating: int, userId: Id, bookId: Id)

  datatype ReviewUpdate = ReviewUpdate(review: string, rating: int, userId: Id, bookId: Id)

  predicate PairTaken(db: Db, userId: Id, bookId: Id)
  {
    exists id :: id in db.reviews.rows
      && db.reviews.rows[id].userId == userId && db.reviews.rows[id].bookId == bookId
  }

  function PairIs(userId: Id, bookId: Id): Review -> bool
  {
    (r: Review) => r.userId == userId && r.bookId == bookId
  }

  /** The constraint a new row violates first, if any: the unique index is
      checked while the row is inserted, the foreign keys after it. */
  function Violated(db: Db, userId: Id, bookId: Id): (c: Option<string>)
    ensures c.None? <==> !PairTaken(db, userId, bookId) && userId in db.users.rows && bookId in db.books.rows
    ensures PairTaken(db, userId, bookId) <==> c == Some(PairConstraint)
  {
    if FirstWhere(db.reviews, PairIs(userId, bookId)).Some? then Some(PairConstraint)
    else if userId !in db.users.rows then Some(UserForeignKey)
    else if bookId !in db.books.rows then Some(BookForeignKey)
    else None
  }

  /** The exception an integrity error on `constraint` is translated into. */
  function Classify(constraint: string): (e: Error)
    ensures Contains(constraint, PairConstraint) ==> e == ReviewAlreadyExist
    ensures !Contains(constraint, PairConstraint) ==> e == ReviewRepositoryError
  {
    if Contains(constraint, PairConstraint) then ReviewAlreadyExist else ReviewRepositoryError
  }

  /** Only the pair constraint is recognised as a repeated review. */
  lemma ConstraintsClassified(c: string)
    requires c in {PairConstraint, UserForeignKey, BookForeignKey}
    ensures Classify(c) == if c == PairConstraint then ReviewAlreadyExist else ReviewRepositoryError
  {
    if c == PairConstraint {
      ContainsSelf(c);
    } else if c == UserForeignKey {
      assert PairConstraint[1] == 'q';
      MissingCharNotContained(UserForeignKey, PairConstraint, 'q');
    } else {
      assert PairConstraint[1] == 'q';
      MissingCharNotContained(BookForeignKey, PairConstraint, 'q');
    }
  }

  /** The row stored under `id`, read back with its user and book. */
  function Entity(db: Db, id: Id): (e: ReviewEntity)
    requires id in db.reviews.rows
    requires db.reviews.rows[id].userId in db.users.rows && db.reviews.rows[id].bookId in db.books.rows
    ensures e.id == id
    ensures var row := db.reviews.rows[id];
      && e.createdAt == row.createdAt && e.review == row.review && e.rating == row.rating
      && e.fullName == db.users.rows[row.userId].firstName + " " + db.users.rows[row.userId].lastName
      && e.book == db.books.rows[row.bookId]
  {
    var row := db.reviews.rows[id];
    ReviewEntity(id, row.createdAt, row.review, row.rating,
                 FullName(db.users.rows[row.userId]), db.books.rows[row.bookId])
  }

  /** A repeated pair is `ReviewAlreadyExist`; a user or book that does not
      exist is `ReviewRepositoryError`. The content is stored unchecked;
      `now` is the server clock's `created_at`. */
  function Create(db: Db, e: ReviewCreate, now: Timestamp): (s: Step<ReviewEntity>)
    ensures s.result.Err? <==>
      PairTaken(db, e.userId, e.bookId) || e.userId !in db.users.rows || e.bookId !in db.books.rows
    ensures s.result.Err? ==> s.db == db
    ensures s.result.Err? ==>
      s.result.error == if PairTaken(db, e.userId, e.bookId) then ReviewAlreadyExist else ReviewRepositoryError
    ensures s.result.Ok? ==>
      var r := s.result.value;
      && r.id !in db.reviews.rows
      && r.review == e.review && r.rating == e.rating && r.createdAt == now
      && r.fullName == FullName(db.users.rows[e.userId]) && r.book == db.books.rows[e.bookId]
      && s.db == db.(reviews := s.db.reviews)
      && s.db.reviews.rows == db.reviews.rows[r.id := Review(r.id, e.review, e.rating, now, e.userId, e.bookId)]
  {
    var violated := Violated(db, e.userId, e.bookId);
    if violated.Some? then
      ConstraintsClassified(violated.value);
      Step(Err(Classify(violated.value)), db)
    else
      var row := Review(db.reviews.next, e.review, e.rating, now, e.userId, e.bookId);
      var db' := db.(reviews := Insert(db.reviews, row));
      Step(Ok(Entity(db', row.id)), db')
  }

  /** The book's reviews in identifier order; an unknown book has none. */
  function FindAllByBookId(db: Db, bookId: Id): (r: seq<ReviewEntity>)
    requires ReviewRefsOk(db)
    ensures forall i :: 0 <= i < |r| ==>
      && r[i].id in db.reviews.rows
      && db.reviews.rows[r[i].id].bookId == bookId
      && r[i] == Entity(db, r[i].id)
    ensures forall id :: id in db.reviews.rows && db.reviews.rows[id].bookId == bookId ==>
      exists i :: 0 <= i < |r| && r[i].id == id
    ensures forall i, j :: 0 <= i < j < |r| ==> r[i].id != r[j].id
  {
    var ids := Where(db.reviews, (r: Review) => r.bookId == bookId);
    var r := EntitiesOf(db, ids);
    EveryIdListed(r, ids);
    r
  }

  /** The reviews stored under `ids`, read back in that order. */
  function EntitiesOf(db: Db, ids: seq<Id>): (r: seq<ReviewEntity>)
    requires ReviewRefsOk(db)
    requires forall i :: 0 <= i < |ids| ==> ids[i] in db.reviews.rows
    ensures |r| == |ids|
    ensures forall i :: 0 <= i < |ids| ==> r[i] == Entity(db, ids[i])
  {
    seq(|ids|, i requires 0 <= i < |ids| => Entity(db, ids[i]))
  }

  lemma EveryIdListed(r: seq<ReviewEntity>, ids: seq<Id>)
    requires |r| == |ids| && forall i :: 0 <= i < |ids| ==> r[i].id == ids[i]
    ensures forall id :: id in ids ==> exists i :: 0 <= i < |r| && r[i].id == id
  {
    forall id | id in ids
      ensures exists i :: 0 <= i < |r| && r[i].id == id
    {
      var i :| 0 <= i < |ids| && ids[i] == id;
      assert r[i].id == id;
    }
  }

  /** Rewrites text and rating of the pair's review and reads it back;
      `None` when the user has not reviewed the book. */
  function Update(db: Db, e: ReviewUpdate): (s: Step<Option<ReviewEntity>>)
    requires ReviewRefsOk(db)
    ensures s.result.Ok?
    ensures s.result.value.None? <==> !PairTaken(db, e.userId, e.bookId)
    ensures s.result.value.None? ==> s.db == db
    ensures s.db == db.(reviews := s.db.reviews)
    ensures s.db.reviews.rows.Keys == db.reviews.rows.Keys
    ensures forall k :: k in db.reviews.rows ==>
      var row := db.reviews.rows[k];
      s.db.reviews.rows[k] ==
        if row.userId == e.userId && row.bookId == e.bookId then row.(review := e.review, rating := e.rating) else row
    ensures s.result.value.Some? ==>
      var r := s.result.value.value;
      && r.id in db.reviews.rows
      && db.reviews.rows[r.id].userId == e.userId && db.reviews.rows[r.id].bookId == e.bookId
      && r.review == e.review && r.rating == e.rating
      && r.createdAt == db.reviews.rows[r.id].createdAt
      && r.fullName == FullName(db.users.rows[e.userId]) && r.book == db.books.rows[e.bookId]
  {
    var first := FirstWhere(db.reviews, PairIs(e.userId, e.bookId));
    if first.None? then Step(Ok(None), db)
    else
      var db' := db.(reviews := MapRows(db.reviews,
        (r: Review) => if PairIs(e.userId, e.bookId)(r) then r.(review := e.review, rating := e.rating) else r));
      Step(Ok(Some(Entity(db', first.value))), db')
  }

  /** Deletes the pair's review; reports whether there was one. */
  function DeleteById(db: Db, userId: Id, bookId: Id): (s: Step<bool>)
    ensures s.result == Ok(PairTaken(db, userId, bookId))
    ensures s.db == db.(reviews := s.db.reviews)
    ensures !PairTaken(s.db, userId, bookId)
    ensures forall k :: k in s.db.reviews.rows <==>
      k in db.reviews.rows && !(db.reviews.rows[k].userId == userId && db.reviews.rows[k].bookId == bookId)
    ensures forall k :: k in s.db.reviews.rows ==> s.db.reviews.rows[k] == db.reviews.rows[k]
  {
    var found := FirstWhere(db.reviews, PairIs(userId, bookId)).Some?;
    var db' := db.(reviews := Filter(db.reviews, (r: Review) => !PairIs(userId, bookId)(r)));
    Step(Ok(found), db')
  }
}
