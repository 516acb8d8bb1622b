/** The response schemas and the mappers that build them. Building a
    pydantic model validates it: a book without a language, or a review
    outside the request's bounds, is refused with `ResponseValidation`. */
module Responses {

  import opened Common
  import opened Schema
  import opened Cache

  datatype BookResponse = BookResponse(
    id: Id,
    title: string,
    slug: string,
    genre: Genre,
    language: string,
    description: Option<string>,
    shortDescription: Option<string>,
    publishYear: Option<int>,
    pageCount: Option<int>,
    authorId: Option<Id>)

  datatype FavouriteBookResponse = FavouriteBookResponse(id: Id, status: ReadingStatus, book: BookResponse)

  datatype AuthorResponse = AuthorResponse(
    id: Id,
    name: string,
    slug: string,
    bio: Option<string>,
    birthDate: Option<Date>,
    deathDate: Option<Date>,
    country: Option<string>,
    photoUrl: Option<string>)

  datatype ReviewResponse = ReviewResponse(
    id: Id,
    fullName: string,
    review: string,
    rating: int,
    book: BookResponse,
    createdAt: Timestamp)

  datatype UserResponse = UserResponse(id: Id, email: string, firstName: string, lastName: string, role: Role)

  datatype TokenResponse = TokenResponse(accessToken: string)

  /** The book a response describes: the inverse of `OfBook`. */
  function BookOf(r: BookResponse): Book
  {
    Book(r.id, r.title, r.slug, Some(r.language), r.genre, r.description,
         r.shortDescription, r.publishYear, r.pageCount, r.authorId)
  }

  /** `BookSchemaMapper`: `language` is a required string in the response. */
  function OfBook(b: Book): (r: Result<BookResponse>)
    ensures r.Ok? <==> b.language.Some?
    ensures r.Err? ==> r.error == ResponseValidation
    ensures r.Ok? ==> BookOf(r.value) == b
  {
    if b.language.None? then Err(ResponseValidation)
    else Ok(BookResponse(b.id, b.title, b.slug, b.genre, b.language.value, b.description,
                         b.shortDescription, b.publishYear, b.pageCount, b.authorId))
  }

  function OfFavourite(e: FavouriteEntity): (r: Result<FavouriteBookResponse>)
    ensures r.Ok? <==> e.book.language.Some?
    ensures r.Err? ==> r.error == ResponseValidation
    ensures r.Ok? ==> r.value.id == e.id && r.value.status == e.status && BookOf(r.value.book) == e.book
  {
    var book :- OfBook(e.book);
    Ok(FavouriteBookResponse(e.id, e.status, book))
  }

  /** `AuthorSchemaMapper`: every author renders. */
  function OfAuthor(a: Author): (r: AuthorResponse)
    ensures AuthorOf(r) == a
  {
    AuthorResponse(a.id, a.name, a.slug, a.bio, a.birthDate, a.deathDate, a.country, a.photoUrl)
  }

  function AuthorOf(r: AuthorResponse): Author
  {
    Author(r.id, r.name, r.slug, r.bio, r.birthDate, r.deathDate, r.country, r.photoUrl)
  }

  /** `ReviewSchemaMapper`: the response repeats the request's bounds
      (`min_length=10`, `ge=1`, `le=5`) and embeds the book. */
  function OfReview(e: ReviewEntity): (r: Result<ReviewResponse>)
    ensures r.Ok? <==> ValidReviewContent(e.review, e.rating) && e.book.language.Some?
    ensures r.Err? ==> r.error == ResponseValidation
    ensures r.Ok? ==>
      && r.value.id == e.id && r.value.fullName == e.fullName && r.value.review == e.review
      && r.value.rating == e.rating && r.value.createdAt == e.createdAt && BookOf(r.value.book) == e.book
  {
    if !ValidReviewContent(e.review, e.rating) then Err(ResponseValidation)
    else
      var book :- OfBook(e.book);
      Ok(ReviewResponse(e.id, e.fullName, e.review, e.rating, book, e.createdAt))
  }

  /** `UserSchemaMapper`: the password hash is not part of the response. */
  function OfUser(u: User): (r: UserResponse)
    ensures r.id == u.id && r.email == u.email && r.role == u.role
    ensures r.firstName == u.firstName && r.lastName == u.lastName
  {
    UserResponse(u.id, u.email, u.firstName, u.lastName, u.role)
  }

  /** Renders every element, or fails with the first refusal. */
  function OfBooks(bs: seq<Book>): (r: Result<seq<BookResponse>>)
    ensures r.Ok? <==> forall i :: 0 <= i < |bs| ==> bs[i].language.Some?
    ensures r.Err? ==> r.error == ResponseValidation
    ensures r.Ok? ==> |r.value| == |bs| && forall i :: 0 <= i < |bs| ==> BookOf(r.value[i]) == bs[i]
  {
    if bs == [] then Ok([])
    else
      var head :- OfBook(bs[0]);
      var tail :- OfBooks(bs[1..]);
      Ok([head] + tail)
  }

  function OfFavourites(es: seq<FavouriteEntity>): (r: Result<seq<FavouriteBookResponse>>)
    ensures r.Ok? <==> forall i :: 0 <= i < |es| ==> es[i].book.language.Some?
    ensures r.Err? ==> r.error == ResponseValidation
    ensures r.Ok? ==> |r.value| == |es| && forall i :: 0 <= i < |es| ==> OfFavourite(es[i]) == Ok(r.value[i])
  {
    if es == [] then Ok([])
    else
      var head :- OfFavourite(es[0]);
      var tail :- OfFavourites(es[1..]);
      Ok([head] + tail)
  }

  function OfReviews(es: seq<ReviewEntity>): (r: Result<seq<ReviewResponse>>)
    ensures r.Ok? <==> forall i :: 0 <= i < |es| ==> OfReview(es[i]).Ok?
    ensures r.Err? ==> r.error == ResponseValidation
    ensures r.Ok? ==> |r.value| == |es| && forall i :: 0 <= i < |es| ==> OfReview(es[i]) == Ok(r.value[i])
  {
    if es == [] then Ok([])
    else
      var head :- OfReview(es[0]);
      var tail :- OfReviews(es[1..]);
      Ok([head] + tail)
  }

  /** A pydantic model's `model_dump(mode="json")` and `model_validate`. */
  datatype ModelCodec<!R> = ModelCodec(dump: R -> Json, validate: Json -> Option<R>)

  /** What pydantic promises of a model: a dump is an object that validates
      back to the same response, and a bare JSON string is never an object. */
  ghost predicate LawfulModel<R(!new)>(c: ModelCodec<R>)
  {
    && (forall r :: c.dump(r).JObject?)
    && (forall r :: c.validate(c.dump(r)) == Some(r))
    && (forall s :: c.validate(JString(s)) == None)
  }
}
