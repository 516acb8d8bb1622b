# BookWise core in Dafny

BookWise is a small book-catalogue service: books with authors, users who
keep favourite books with a reading status and write one review per book,
an author photo kept in an object store, and a Redis cache in front of the
book and author pages. This project models its core as pure functions over
an in-memory database and proves what the code promises.

Structure, one module per component of the service:

- `common.dfy`: identifiers, the `Result`/`Option` wrappers and the domain
  error taxonomy (`BookNotExist`, `FavouriteBookAlreadyExist`, `MinioNotValidUrl`, …).
- `strings.dfy`: `Strings`, the string helpers (`StripLeading`, `IndexOf`,
  `Contains`).
- `tables.dfy`: `Tables`, a table as a map from identifier to row, with the
  next fresh identifier. Listings come in identifier order.
- `schema.dfy`: `Schema`, the rows of the five tables. Also the schema's
  unique and foreign-key constraints as predicates.
- `utils.dfy`: `Utils`, `generate_slug` and the upload content-type
  whitelist.
- `books_query.dfy`: `BooksQuery`, the validation of the book listing's
  query.
- `cache.dfy`: `Cache`, the fail-soft `RedisCacheManager`. The store is a map
  from key to (text, expiry), client failures are flags, and JSON is a codec
  parameter.
- `storage.dfy`: `Storage`, the `MinioClient` string logic:
  - the base URL;
  - object names;
  - the public URL of an upload;
  - the way back from a URL to (bucket, object);
  - the outcomes of `save_file` and `delete_file`.
- `uow.dfy`: `UnitOfWork`, `SQLAlchemyUoW`. A use case is a `Run`: what it
  returned or raised, the committed database, and the effects it had, in
  order.
- `responses.dfy`: `Responses`, the response schemas and mappers, where they
  can refuse (a book response demands a language).
- `read_through.dfy`: `ReadThrough`, the read-through cache lookup shared by
  the book and author pages.
- Repositories:
  - `book_repository.dfy`: `BookRepository` and `FavouriteBookRepository`;
  - `review_repository.dfy`: `ReviewRepository`;
  - `author_repository.dfy`: `AuthorRepository`;
  - `user_repository.dfy`: `UserRepository`.
- Use cases:
  - `book_usecases.dfy`: `BookUseCases`;
  - `author_usecases.dfy`: `AuthorUseCases`;
  - `review_usecases.dfy`: `ReviewUseCases`;
  - `user_usecases.dfy`: `UserUseCases`.
- `integrity.dfy`: `Integrity`. Every writing use case keeps the schema's
  constraints, and keeps a language on every book.

The effect trace carries the orchestration properties:

- a cache hit never reads the database;
- a missing author or book is refused before any write;
- the cache key is evicted before or after the commit, as each use case does;
- a token is issued only after the password verifies.

Where the code's evident intent and its behaviour disagree, the model
follows the code:

- A duplicate favourite surfaces as `FavouriteBookRepositoryException`.
  The `FavouriteBookAlreadyExistException` branch at
  src/infrastructure/database/books/repositories.py:165-166 tests for
  "uq_user_book_review", the review table's constraint
  (src/infrastructure/database/reviews/models.py:42). The favourites
  constraint is "uq_user_book_favourite"
  (src/infrastructure/database/books/models.py:62), so the branch never
  fires.
- The author page's cache hit does not give the miss's output.
  src/application/usecases/author.py:34-37 passes the raw text from `get`
  to `AuthorResponse.model_validate`. The book page decodes with `get_json`
  first (src/application/usecases/books.py:55-57).
- A malformed old photo URL is not swallowed after the photo update
  commits. `delete_file` raises `MinioNotValidUrlException` for it
  (src/infrastructure/storage/file_storage.py:80,85). The handler at
  src/application/usecases/author.py:135-136 catches only
  `MinioFileDeleteException`.
- A book update that clears the language stores NULL. The column is
  nullable (src/infrastructure/database/books/models.py:16), and the update
  writes `entity.language` as given
  (src/infrastructure/database/books/repositories.py:122). The response
  declares `language` as a plain `str`
  (src/adapters/schemas/responses/books.py:14), so it refuses the row and
  the update rolls back.

The first two are under "## Findings".

## Model

| member | source | states |
|---|---|---|
| Utils.GenerateSlug | src/core/utils.py:13-18 | the slug holds only `[a-z0-9-]`, never starts or ends with '-', and never holds "--"; without its hyphens it is exactly the letters and digits of the lower-cased input, in order |
| Utils.SlugIdempotent | src/core/utils.py:13-18 | slugging a slug gives it back unchanged |
| Utils.SlugEmptyIff | src/core/utils.py:15-16 | the slug is empty exactly when the input has no ASCII letter or digit |
| Utils.SlugJoin | src/core/utils.py:14-16 | two texts that each hold a letter or digit, with a non-empty run of non-alphanumerics between them, slug to their two slugs joined by exactly one hyphen |
| Utils.SlugIgnoresLeadingSeparators | src/core/utils.py:15-16 | a run of non-alphanumerics in front of a text leaves its slug unchanged |
| Utils.SlugIgnoresTrailingSeparators | src/core/utils.py:15-16 | a run of non-alphanumerics after a text leaves its slug unchanged |
| Utils.SlugExampleBook | tests/books/test_books_unit.py:167-169 | "Big Life" becomes "big-life" |
| Utils.SlugExampleAuthor | tests/author/test_author_unit.py:99-102 | "Thomas Shelby" becomes "thomas-shelby" |
| Utils.IsAllowedContentType | src/core/utils.py:6-22 | a content type is allowed iff it is image/jpeg, image/png or image/webp; an absent one never is |
| BooksQuery.Check | src/adapters/schemas/requests/books.py:32-48 | a query is accepted iff every present bound is in range (limit and years ≥ 0, pages ≥ 1) and neither range is inverted. Every reported violation holds. The range check runs only once the fields pass, and reports the year range before the page range. An accepted query's filter carries the query's values |
| BooksQuery.FieldViolations | src/adapters/schemas/requests/books.py:34-38 | reports only bounds that are violated, and nothing iff every present bound is in range |
| BooksQuery.EmptyQueryAccepted | src/adapters/schemas/requests/books.py:32-48 | a query without parameters is accepted |
| BooksQuery.PointRangeAccepted | src/adapters/schemas/requests/books.py:42-46 | equal bounds are a valid range |
| BooksQuery.AcceptedFilterMeaning | src/infrastructure/database/books/repositories.py:83-99 | a book passes an accepted query's filter iff it has the genre asked for and falls inside every range given. A NULL year or page count fails any bound on it |
| Cache.Get | src/infrastructure/cache/manager.py:14-18 | returns the stored text when the key is present and the client does not fail, and a miss otherwise |
| Cache.Set | src/infrastructure/cache/manager.py:20-32 | a positive expiry without failure stores (value, ttl) under the key; otherwise the store is unchanged; other keys are never touched |
| Cache.Delete | src/infrastructure/cache/manager.py:34-38 | removes only that key; a failure leaves the store unchanged |
| Cache.GetJson | src/infrastructure/cache/manager.py:40-50 | a document comes back iff the text is there and decodes to something other than JSON `null`: `null` loads as Python's `None`, which callers cannot tell from a miss. A text that does not decode is deleted; otherwise the store is unchanged |
| Cache.SetJson | src/infrastructure/cache/manager.py:52-66 | writes the serialised value with its expiry; nothing when the expiry is not positive, the value does not serialise or the client fails |
| Cache.JsonRoundTrip | src/infrastructure/cache/manager.py:40-66 | with a lawful codec, a value written with a positive expiry reads back unchanged, except JSON `null`, which reads back as a miss |
| Cache.NullReadsAsMiss | src/infrastructure/cache/manager.py:40-50 | a stored JSON `null` reads back as `None`, like a miss, and is not deleted |
| Cache.DeleteThenMiss | src/infrastructure/cache/manager.py:34-50 | a key deleted without fault reads as a miss |
| Cache.GetJsonOnlyEvicts | src/infrastructure/cache/manager.py:40-50 | reading never adds or rewrites an entry |
| UnitOfWork.Transaction | src/core/uow.py:8-15 | the block's outcome is returned unchanged; the session commits (once) iff the block finished and rolls back (once) iff it raised; a rollback restores the state before the block |
| UnitOfWork.TransactionAtomic | src/core/uow.py:11-15 | the state after the unit of work is the staged one iff it committed, and the one before it otherwise |
| Storage.BuildBaseUrl | src/infrastructure/storage/file_storage.py:42-49 | the base URL always has a scheme and never ends with '/'. It is a non-empty public endpoint if there is one, the endpoint otherwise, with `http://` put in front when the scheme is missing and only trailing slashes removed. A chosen endpoint that has a scheme and no trailing '/' is returned unchanged |
| Storage.WithScheme | src/infrastructure/storage/file_storage.py:46-47 | a URL with a scheme is kept; one without gets `http://` in front of it, its leading slashes dropped |
| Storage.Suffix | src/infrastructure/storage/file_storage.py:53 | the suffix is empty or a '.' followed by at least one character and no further '.', and holds no '/' |
| Storage.SuffixOfBaseName | src/infrastructure/storage/file_storage.py:53 | a non-empty suffix ends the file's base name without being all of it. The suffix is empty iff the base name has no '.', ends with '.', or has its only '.' in front |
| Storage.GenerateName | src/infrastructure/storage/file_storage.py:51-54 | the object name is the unique identifier followed by the suffix of the uploaded file's name |
| Storage.SplitObjectPath | src/infrastructure/storage/file_storage.py:77-90 | the path is rejected with `MinioNotValidUrl` iff it has no '/' with text on both sides of the first one. Otherwise the bucket is the text before the first '/' and the object is the decoded rest |
| Storage.CutParamsAtFirstSemicolon | src/infrastructure/storage/file_storage.py:76-77 | the path keeps a prefix: all of it when its last segment has no ';', otherwise up to the first ';' after its last '/' |
| Storage.ExtractObjectInfoSplits | src/infrastructure/storage/file_storage.py:75-90 | a URL is refused with `MinioNotValidUrl` iff its path, leading slashes dropped, has no '/' with text on both sides of the first one. Otherwise the bucket is that first segment and the object is the decoded rest |
| Storage.PublicUrlRoundTrip | src/infrastructure/storage/file_storage.py:131-133 | for a base `scheme://host`, names without URL delimiters or escapes, and an object name without ';', extracting from the public URL gives back (bucket, object) |
| Storage.SaveFile | src/infrastructure/storage/file_storage.py:92-140 | a bucket error other than "already exists" stops the upload before any put; otherwise the put is made, and the save succeeds exactly when the put does not fail. A put is of the generated name with the declared or default content type, and a failed put is `MinioUploadFile`. A public save returns `base/bucket/object` |
| Storage.DeleteFile | src/infrastructure/storage/file_storage.py:142-152 | a URL that names no object is `MinioNotValidUrl` before the store is contacted; a failed removal is `MinioFileDelete`; otherwise the removal succeeds with the URL's (bucket, object) |
| BookRepository.StoredLanguage | src/infrastructure/database/books/models.py:16 | a book created without a language stores the column default; a given language is kept |
| BookRepository.Create | src/infrastructure/database/books/repositories.py:29-50 | fails with `BookAlreadyExist`, state unchanged, iff the title or slug is taken or the author reference dangles. Otherwise adds exactly the new row under a fresh identifier |
| BookRepository.FindById | src/infrastructure/database/books/repositories.py:52-64 | the stored book with that identifier, or none iff absent |
| BookRepository.FindBySlug | src/infrastructure/database/books/repositories.py:66-78 | a stored book with that slug, or none iff no book has it |
| BookRepository.FindAll | src/infrastructure/database/books/repositories.py:80-107 | only stored books matching every present filter, at most `limit` of them, and every matching book when the limit does not cut; no book is listed twice |
| BookRepository.DeleteById | src/infrastructure/database/books/repositories.py:109-116 | reports whether the book existed. Afterwards it is gone with its favourites and reviews (cascade); other rows are unchanged |
| BookRepository.Update | src/infrastructure/database/books/repositories.py:118-140 | an absent book gives none and changes nothing. Otherwise exactly the seven editable columns are rewritten, and id, title and slug are kept |
| BookRepository.CreatedBookFound | src/infrastructure/database/books/repositories.py:29-78 | a created book is found again by identifier and by slug, as created |
| FavouriteBookRepository.Classify | src/infrastructure/database/books/repositories.py:164-167 | an error naming the recognised constraint is "already exists", any other a repository error |
| FavouriteBookRepository.NothingRecognisedAsWritten | src/infrastructure/database/books/repositories.py:165 | matching the review table's constraint name, no violation of the favourites table is recognised as a repeated pair |
| FavouriteBookRepository.PairRecognised | src/infrastructure/database/books/models.py:59-64 | matching the table's own constraint name recognises exactly the repeated pair |
| FavouriteBookRepository.AddAsWritten | src/infrastructure/database/books/repositories.py:153-181 | as written: every failed add, a repeated pair included, is `FavouriteBookRepositoryError` |
| FavouriteBookRepository.Add | src/infrastructure/database/books/repositories.py:153-181 | fails, state unchanged, iff the pair exists or the user or book does not. A repeated pair is "already exists". A new favourite starts `NotStarted` and is the only row added |
| FavouriteBookRepository.Delete | src/infrastructure/database/books/repositories.py:183-195 | reports whether the pair existed; removes exactly the pair's rows |
| FavouriteBookRepository.FindAll | src/infrastructure/database/books/repositories.py:197-210 | exactly the user's favourites, each with its book, each once |
| FavouriteBookRepository.UpdateStatus | src/infrastructure/database/books/repositories.py:212-245 | none iff the pair is absent; otherwise only the pair's status changes |
| FavouriteBookRepository.AddedFavouriteListed | src/infrastructure/database/books/repositories.py:153-210 | a favourite just added is listed with the user's favourites, as added |
| ReviewRepository.Classify | src/infrastructure/database/reviews/repositories.py:39-42 | an error naming `uq_user_book_review` is `ReviewAlreadyExist`, any other `ReviewRepositoryError` |
| ReviewRepository.ConstraintsClassified | src/infrastructure/database/reviews/models.py:39-44 | of the table's three constraints only the pair constraint is recognised as a repeated review |
| ReviewRepository.Entity | src/infrastructure/database/reviews/repositories.py:44-59 | a review reads back with its fields, its book and the full name `first_name + " " + last_name` |
| ReviewRepository.Create | src/infrastructure/database/reviews/repositories.py:26-59 | a repeated pair is `ReviewAlreadyExist`, an unknown user or book `ReviewRepositoryError`, state unchanged. Otherwise the review is stored as given under a fresh identifier |
| ReviewRepository.FindAllByBookId | src/infrastructure/database/reviews/repositories.py:61-77 | exactly the book's reviews, each once, each read back |
| ReviewRepository.Update | src/infrastructure/database/reviews/repositories.py:79-113 | none iff the pair has no review; otherwise only the review text and rating of the pair's row change |
| ReviewRepository.DeleteById | src/infrastructure/database/reviews/repositories.py:115-127 | reports whether the pair had a review; removes exactly that pair's rows |
| AuthorRepository.Create | src/infrastructure/database/author/repositories.py:25-43 | fails with `AuthorAlreadyExist`, state unchanged, iff the name or slug is taken. Otherwise adds the author, without a photo, under a fresh identifier |
| AuthorRepository.FindBySlug | src/infrastructure/database/author/repositories.py:45-57 | a stored author with that slug, or none iff no author has it |
| AuthorRepository.FindById | src/infrastructure/database/author/repositories.py:59-71 | the stored author with that identifier, or none iff absent |
| AuthorRepository.DeleteById | src/infrastructure/database/author/repositories.py:73-80 | reports whether the author existed; the author's books stay with their author cleared (`SET NULL`) |
| AuthorRepository.UpdatePhotoUrl | src/infrastructure/database/author/repositories.py:82-91 | an absent author is an error, not none. Otherwise only the photo URL changes and the updated author is returned |
| UserRepository.Create | src/infrastructure/database/user/repositories.py:24-41 | fails with `UserAlreadyExist`, state unchanged, iff the e-mail is taken; otherwise adds the user as given |
| UserRepository.FindById | src/infrastructure/database/user/repositories.py:43-55 | the stored user, or none iff absent |
| UserRepository.FindByEmail | src/infrastructure/database/user/repositories.py:57-69 | a stored user with that e-mail, or none iff no user has it |
| UserRepository.CreatedUserFound | src/infrastructure/database/user/repositories.py:24-69 | a created user is found again by identifier and by e-mail, as created |
| Responses.OfBook | src/adapters/schemas/responses/books.py:9-20 | a book renders iff it has a language, and the response describes exactly that book |
| Responses.OfReview | src/adapters/schemas/responses/reviews.py:10-16 | a review renders iff its text and rating are in the response's bounds and its book renders |
| ReadThrough.Revive | src/application/usecases/books.py:57 | a cached document gives the response the model validates it into, or a validation error |
| ReadThrough.Lookup | src/application/usecases/books.py:52-72 | a hit does not read the database or write the cache. A miss reads it once. A cached text that does not decode is deleted first, and no other miss deletes anything. Only a successful fetch is written back, under the key and with the expiry |
| ReadThrough.SecondLookupHits | src/application/usecases/books.py:53-72 | with lawful codecs and no faults, the next lookup after a fetch returns the same response from the cache without reading the database |
| ReadThrough.EvictedLookupReads | src/application/usecases/books.py:55-59 | after the key is deleted the lookup reads the database |
| BookUseCases.GetBooks | src/application/usecases/books.py:30-37 | lists exactly the books the repository finds for the accepted query's filter, in its order, each rendered; these are stored books that match it. It fails iff one of them has no language |
| BookUseCases.FetchBook | src/application/usecases/books.py:59-64 | `BookNotExist` iff no book has the slug; otherwise the stored book with that slug, rendered |
| BookUseCases.FindBookBySlug | src/application/usecases/books.py:52-72 | a hit under `book:slug:<slug>` does not consult the repository. A miss returns what the database has. `BookNotExist` is never cached |
| BookUseCases.BookPageServedFromCache | src/application/usecases/books.py:50-72 | a page fetched once is served by the next request from the cache, even if the book has changed since |
| BookUseCases.DeleteBook | src/application/usecases/books.py:84-89 | `BookNotExist`, rolled back, iff the repository delete reports false; otherwise the book is gone |
| BookUseCases.CreateEntity | src/application/usecases/books.py:112-123 | the stored slug is `generate_slug(title)`, a well-formed slug |
| BookUseCases.CreateBook | src/application/usecases/books.py:105-127 | a dangling author is `AuthorNotExist` after one author read and before any write; a null author is never looked up |
| BookUseCases.InsertBook | src/application/usecases/books.py:112-127 | `BookAlreadyExist` iff title or slug is taken. Otherwise the book is stored with slug `generate_slug(title)` and the default language when none was given |
| BookUseCases.UpdateBook | src/application/usecases/books.py:145-172 | a dangling author is refused before any write. An absent book is `BookNotExist`. A found book's page is evicted inside the unit of work, before it ends. Success rewrites the editable columns only |
| BookUseCases.UpdateEvictsBookPage | src/application/usecases/books.py:163-170 | after an update reached the book, its page is read from the database again |
| BookUseCases.AddFavourite | src/application/usecases/books.py:188-200 | an unknown slug is `BookNotExist` before the unit of work. As written, a repeated pair or an unknown user is the repository error. The use case succeeds iff the pair is new, the user exists and the book has a language. A new favourite starts `NotStarted` |
| BookUseCases.AddFavouriteIntended | src/application/usecases/books.py:188-200 | the same use case over the corrected `add`: a repeated pair "already exists". It succeeds iff the pair is new, the user exists and the book has a language |
| BookUseCases.AddFavouriteDiffersOnlyOnRepeat | src/infrastructure/database/books/repositories.py:164-181 | the two agree on every input except a repeated pair: there the code as written reports the repository error and the corrected one "already exists" |
| BookUseCases.DeleteFavourite | src/application/usecases/books.py:214-227 | an unknown slug is `BookNotExist`; a false delete is `FavouriteBookNotExist`; afterwards the pair is gone |
| BookUseCases.FindFavourites | src/application/usecases/books.py:239-245 | the repository's favourites of the user, in its order, each rendered with its identifier, reading status and book |
| BookUseCases.FavouritesListed | src/application/usecases/books.py:239-245 | every favourite of the user is listed |
| BookUseCases.UpdateFavouriteStatus | src/application/usecases/books.py:261-282 | an unknown slug is `BookNotExist`; an absent pair `FavouriteBookNotExist`; success sets exactly the pair's status |
| AuthorUseCases.FetchAuthor | src/application/usecases/author.py:39-44 | `AuthorNotExist` iff no author has the slug; otherwise that author's response |
| AuthorUseCases.FindAuthorAsWritten | src/application/usecases/author.py:32-52 | as written: a hit validates the raw cached text and never reads the database; a miss reads it and caches only a found author |
| AuthorUseCases.AsWrittenCachedPageRefused | src/application/usecases/author.py:34-37 | as written, the request after one that cached the page fails validation, though the author exists |
| AuthorUseCases.FindAuthor | src/application/usecases/author.py:30-52 | a hit under `author:slug:<slug>` does not consult the repository. A miss returns what the database has. `AuthorNotExist` is never cached |
| AuthorUseCases.AuthorPageServedFromCache | src/application/usecases/author.py:32-52 | a page fetched once is served by the next request from the cache, unchanged |
| AuthorUseCases.CreateAuthor | src/application/usecases/author.py:66-79 | `AuthorAlreadyExist`, rolled back, iff name or slug is taken. Otherwise the author is stored with slug `generate_slug(name)` and no photo |
| AuthorUseCases.CreatedAuthorFound | src/application/usecases/author.py:66-79 | a created author's page shows the created author |
| AuthorUseCases.DeleteAuthor | src/application/usecases/author.py:91-96 | `AuthorNotExist`, rolled back, iff the delete reports false; the author's books lose their author |
| AuthorUseCases.ReplacePhoto | src/application/usecases/author.py:114-131 | a missing author is `AuthorNotExist` with no upload and no write. Otherwise the file is uploaded and the photo URL becomes its public URL, committed iff the upload succeeded |
| AuthorUseCases.RemoveOld | src/application/usecases/author.py:133-137 | no old photo: nothing to do. A malformed old URL propagates. A failed removal is swallowed |
| AuthorUseCases.UpdateAuthorPhoto | src/application/usecases/author.py:114-142 | the old photo is removed only after the commit. The page key is evicted only after the removal step and only when that step did not raise. The result is the author with the new photo URL |
| AuthorUseCases.PhotoUpdateShownOnPage | src/application/usecases/author.py:139-142 | after a successful update the author page is read from the database and shows the new photo |
| ReviewUseCases.CreateReview | src/application/usecases/reviews.py:29-49 | an unknown book slug is `BookNotExist` before the review repository is touched |
| ReviewUseCases.InsertReview | src/application/usecases/reviews.py:40-49 | a repeated pair is `ReviewAlreadyExist`, an unknown user `ReviewRepositoryError`. Success stores the review with the request's text and rating and the reviewer's full name |
| ReviewUseCases.FindReviews | src/application/usecases/reviews.py:63-73 | an unknown slug lists nothing and does not query reviews; otherwise one response per repository review, in its order |
| ReviewUseCases.StoredReviewsRender | src/application/usecases/reviews.py:69-73 | in a consistent database every review of a book renders |
| ReviewUseCases.ReviewsListed | src/application/usecases/reviews.py:63-73 | every review of the book is listed |
| ReviewUseCases.ReviewsListedOnce | src/application/usecases/reviews.py:69-73 | no review is listed twice |
| ReviewUseCases.UpdateReview | src/application/usecases/reviews.py:89-113 | an unknown book slug is `BookNotExist` before the unit of work |
| ReviewUseCases.RewriteReview | src/application/usecases/reviews.py:100-113 | no review of the pair is `ReviewNotExist`, rolled back. Otherwise text and rating change, and identifier and creation time are kept |
| ReviewUseCases.DeleteReview | src/application/usecases/reviews.py:127-140 | an unknown slug is `BookNotExist`; a false delete `ReviewNotExist`; afterwards the pair has no review |
| ReviewUseCases.CreatedReviewListed | src/application/usecases/reviews.py:29-73 | a created review is listed with its book's reviews, as created |
| UserUseCases.RoleOf | src/application/usecases/user.py:33 | the role is admin iff `is_admin` |
| UserUseCases.Register | src/application/usecases/user.py:25-38 | the password is hashed before the unit of work and only the hash is stored. A taken e-mail is `UserAlreadyExist`, rolled back |
| UserUseCases.LogIn | src/application/usecases/user.py:52-67 | an unknown e-mail is `InvalidCredentials` without verifying. A wrong password is the same error. A token from the claims `sub = user id` is issued iff the password verifies |
| UserUseCases.RegisteredUserLogsIn | src/application/usecases/user.py:25-67 | with a lawful hasher, a registered user logs in with their password and the token names them |
| UserUseCases.WrongPasswordRefused | src/application/usecases/user.py:58-62 | a password that does not verify against the stored hash is refused and gets no token |
| Integrity.CreateBookKeepsInvariant | src/application/usecases/books.py:105-127 | creating a book keeps every schema constraint and a language on every book |
| Integrity.UpdateBookKeepsInvariant | src/application/usecases/books.py:145-172 | updating a book keeps them |
| Integrity.DeleteBookKeepsInvariant | src/application/usecases/books.py:84-89 | deleting a book keeps them (its favourites and reviews go with it) |
| Integrity.AddFavouriteKeepsInvariant | src/application/usecases/books.py:188-200 | adding a favourite keeps them |
| Integrity.AddFavouriteIntendedKeepsInvariant | src/application/usecases/books.py:188-200 | so does adding one through the corrected `add` |
| Integrity.DeleteFavouriteKeepsInvariant | src/application/usecases/books.py:214-227 | deleting a favourite keeps them |
| Integrity.UpdateFavouriteStatusKeepsInvariant | src/application/usecases/books.py:261-282 | changing a reading status keeps them |
| Integrity.CreateAuthorKeepsInvariant | src/application/usecases/author.py:66-79 | creating an author keeps them |
| Integrity.DeleteAuthorKeepsInvariant | src/application/usecases/author.py:91-96 | deleting an author keeps them (the author's books stay, unreferenced) |
| Integrity.UpdateAuthorPhotoKeepsInvariant | src/application/usecases/author.py:114-142 | replacing a photo keeps them, also when it raises after the commit |
| Integrity.CreateReviewKeepsInvariant | src/application/usecases/reviews.py:29-49 | creating a review that passed its request schema keeps them |
| Integrity.UpdateReviewKeepsInvariant | src/application/usecases/reviews.py:89-113 | updating a review with content that passed its request schema keeps them |
| Integrity.DeleteReviewKeepsInvariant | src/application/usecases/reviews.py:127-140 | deleting a review keeps them |
| Integrity.RegisterKeepsInvariant | src/application/usecases/user.py:25-38 | registering a user keeps them |

## Left out

- Transliteration (`unidecode`): slugs are modelled on ASCII input, where it changes nothing. Any other character, a Cyrillic letter included, acts as a separator in the model, so a title written only in such letters slugs to "" here.
- JSON text, pydantic validation and dumping, password hashing, token
  issuing, percent decoding (`unquote`) and the random object-name
  identifier are function parameters. Lawfulness predicates state what the
  proofs assume of them. A pydantic model is assumed to dump to a JSON
  object, never to `null`.
- AuthorUseCases: the storage base URL (`PhotoEnv.base`) is a free parameter. It is not tied to Storage.BuildBaseUrl, which models how the storage client computes it from its settings.
- The network and the clock. Failures of Redis calls and of the object store are flags. The server's `created_at` is a parameter.
- The object store's state: uploads and removals appear only as effects in the trace.
- `get_client`, endpoint and key settings, bucket creation and presigned URLs: a presigned URL is a given string.
- `urlparse` is modelled only as far as the path of a URL goes: scheme, `//netloc`, query, fragment and the `;params` of the last segment are cut off. Its removal of surrounding whitespace and of tab and newline characters is not modelled.
- SQLAlchemy sessions, nested savepoints and isolation.
  - A failed flush leaves the state unchanged.
  - Integrity errors are reduced to the name of the first constraint violated.
  - The unique index is checked before the foreign keys.
- Identifiers are naturals, not UUIDs. A new row gets the next unused one, and listings come in identifier order where SQL gives no order.
- The HTTP layer, dependency wiring, metrics and concurrency are not part of this model.
- Request schema bounds other than the review's and the book query's (BooksQuery) are not part of this model. For example, the length of names and e-mails: no use case depends on them.
- Utils.GenerateSlug: does not model the 50-character limit of the slug and title columns (25 for the language). BookRepository.Create, BookRepository.Update and AuthorRepository.Create accept values of any length. On PostgreSQL an over-long value raises a `DataError`, which their `except IntegrityError` does not catch, so it escapes untranslated. SQLite, which the tests use, does not enforce the length. No request schema bounds it.
- Storage.BuildBaseUrl: an endpoint that is not set is taken as empty, giving `http:`. The code would fail on `None.lstrip` when neither endpoint is set.
- Storage.BaseName: does not drop the `.` components that `PurePath` normalises away.
- ReviewUseCases.CreateReview and ReviewUseCases.UpdateReview: they take the review bounds as a precondition. The request schema enforces them before the use case runs.
- ReviewUseCases.FindReviews, ReviewUseCases.UpdateReview, ReviewUseCases.RewriteReview, BookUseCases.FindFavourites and BookUseCases.UpdateFavouriteStatus: they require the read-back foreign keys to hold, which the schema guarantees. So do the repository readers FavouriteBookRepository.FindAll, FavouriteBookRepository.UpdateStatus, ReviewRepository.FindAllByBookId and ReviewRepository.Update. Each reads back a row's book (and, for reviews, its user), which the foreign keys keep present.

## Findings

| source | as written | input that shows it | evidently intended | confidence | as-written member | corrected member |
|---|---|---|---|---|---|---|
| src/infrastructure/database/books/repositories.py:165 | `add` looks for the review table's constraint name `uq_user_book_review` in the integrity error | adding a (user, book) pair that is already a favourite: the error names `uq_user_book_favourite`, so it becomes `FavouriteBookRepositoryException` | a repeated pair raises `FavouriteBookAlreadyExistException`, the exception the branch exists for | medium, not executed (an integration test expects the repository exception for a repeated pair) | FavouriteBookRepository.AddAsWritten, BookUseCases.AddFavourite | FavouriteBookRepository.Add, BookUseCases.AddFavouriteIntended |
| src/application/usecases/author.py:34-37 | a cache hit reads the stored text with `get` and passes that string to `AuthorResponse.model_validate`, which accepts a mapping, not JSON text | any request for an author page within two minutes after a request that cached it | decode the text first (`get_json`, as the book page does) and return the cached author | high, not executed | AuthorUseCases.FindAuthorAsWritten | AuthorUseCases.FindAuthor |
