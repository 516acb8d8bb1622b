/** The author use cases: the cached author page, creating and deleting
    authors, and replacing an author's photo in the object store. */
module AuthorUseCases {

  import opened Common
  import opened Schema
  import opened Cache
  import opened Responses
  import opened UnitOfWork
  import opened ReadThrough
  import Storage
  import Utils
  import AuthorRepository

  /** The author page is cached for two minutes. */
  const AuthorCacheTtl := 120

  function AuthorKey(slug: string): string
  {
    "author:slug:" + slug
  }

  // ------------------------------------------------------------ the page

  /** What the page shows when the cache misses. */
  function FetchAuthor(db: Db, slug: string): (r: Result<AuthorResponse>)
    ensures r.Err? <==> !AuthorRepository.SlugTaken(db, slug)
    ensures r.Err? ==> r.error == AuthorNotExist
    ensures r.Ok? ==>
      r.value.slug == slug && r.value.id in db.authors.rows && db.authors.rows[r.value.id] == AuthorOf(r.value)
  {
    var author := AuthorRepository.FindBySlug(db, slug);
    if author.None? then Err(AuthorNotExist) else Ok(OfAuthor(author.value))
  }

  /** `FindAuthorUseCase` as written: a hit reads the stored text with
      `get`, not `get_json`, and hands that string to `model_validate`,
      which only accepts a mapping. A miss is the same as the book page's. */
  function FindAuthorAsWritten(db: Db, cache: Store, slug: string, env: CacheEnv<AuthorResponse>): (c: Cached<AuthorResponse>)
    ensures c.run.db == db
    ensures Get(cache, AuthorKey(slug), env.faults.getFails).Some? ==>
      && c.run.effects == [CacheGet(AuthorKey(slug))]
      && c.cache == cache
      && c.run.result == Revive(JString(cache[AuthorKey(slug)].value), env.model)
    ensures Get(cache, AuthorKey(slug), env.faults.getFails).None? ==>
      && c.run.result == FetchAuthor(db, slug)
      && c.run.effects == [CacheGet(AuthorKey(slug)), Read(Authors)]
                          + (if c.run.result.Ok? then [CacheSet(AuthorKey(slug))] else [])
      && (c.run.result.Err? ==> c.cache == cache)
      && (c.run.result.Ok? ==>
            c.cache == SetJson(cache, AuthorKey(slug), env.model.dump(c.run.result.value),
                               AuthorCacheTtl, env.json, env.faults))
  {
    var key := AuthorKey(slug);
    var raw := Get(cache, key, env.faults.getFails);
    if raw.Some? then Cached(Run(Revive(JString(raw.value), env.model), db, [CacheGet(key)]), cache)
    else
      var fetched := FetchAuthor(db, slug);
      if fetched.Err? then Cached(Run(fetched, db, [CacheGet(key), Read(Authors)]), cache)
      else
        var written := SetJson(cache, key, env.model.dump(fetched.value), AuthorCacheTtl, env.json, env.faults);
        Cached(Run(fetched, db, [CacheGet(key), Read(Authors), CacheSet(key)]), written)
  }

  /** As written, a page the first request cached is refused by the
      second: the cached text is a string, never a valid author, so every
      hit is a validation error while the database still has the author. */
  lemma {:induction false} AsWrittenCachedPageRefused(db: Db, cache: Store, slug: string,
                                                     env: CacheEnv<AuthorResponse>, db': Db)
    requires AuthorKey(slug) !in cache && AuthorRepository.SlugTaken(db, slug)
    requires RoundTrips(env, AuthorCacheTtl, FetchAuthor(db, slug).value)
    ensures var first := FindAuthorAsWritten(db, cache, slug, env);
      var second := FindAuthorAsWritten(db', first.cache, slug, env);
      && first.run.result.Ok?
      && second.run.result == Err(ResponseValidation)
  {
    var key := AuthorKey(slug);
    var first := FindAuthorAsWritten(db, cache, slug, env);
    var doc := env.model.dump(FetchAuthor(db, slug).value);
    assert first.cache == SetJson(cache, key, doc, AuthorCacheTtl, env.json, env.faults);
    assert key in first.cache;
    var raw := first.cache[key].value;
    assert env.model.validate(JString(raw)) == None;
  }

  /** `FindAuthorUseCase` as evidently intended: the same read-through
      lookup as the book page, under `author:slug:<slug>` for two minutes. */
  function FindAuthor(db: Db, cache: Store, slug: string, env: CacheEnv<AuthorResponse>): (c: Cached<AuthorResponse>)
    ensures c.run.db == db
    ensures Hit(cache, AuthorKey(slug), env) ==> Read(Authors) !in c.run.effects && c.cache == cache
    ensures !Hit(cache, AuthorKey(slug), env) ==> c.run.result == FetchAuthor(db, slug)
    ensures c.run.result == Err(AuthorNotExist) ==> CacheSet(AuthorKey(slug)) !in c.run.effects
  {
    Lookup(db, cache, AuthorKey(slug), AuthorCacheTtl, env, Authors, FetchAuthor(db, slug))
  }

  /** With the lookup, a page the first request cached is served by the
      second without reading the database, and it is the same page. */
  lemma AuthorPageServedFromCache(db: Db, cache: Store, slug: string, env: CacheEnv<AuthorResponse>, db': Db)
    requires !Hit(cache, AuthorKey(slug), env) && FetchAuthor(db, slug).Ok?
    requires RoundTrips(env, AuthorCacheTtl, FetchAuthor(db, slug).value)
    ensures var first := FindAuthor(db, cache, slug, env);
      var second := FindAuthor(db', first.cache, slug, env);
      && first.run.result == second.run.result == FetchAuthor(db, slug)
      && second.run.effects == [CacheGet(AuthorKey(slug))]
  {
    SecondLookupHits(db, cache, AuthorKey(slug), AuthorCacheTtl, env, Authors, FetchAuthor(db, slug),
                     db', Authors, FetchAuthor(db', slug));
  }

  // ---------------------------------------------------------------- writes

  datatype AuthorCreateRequest = AuthorCreateRequest(
    name: string,
    bio: Option<string>,
    birthDate: Option<Date>,
    deathDate: Option<Date>,
    country: Option<string>)

  /** `CreateAuthorUseCase`: the slug is generated from the name; a clash
      on name or slug is `AuthorAlreadyExist` and is rolled back. */
  function CreateAuthor(db: Db, req: AuthorCreateRequest): (r: Run<AuthorResponse>)
    ensures r.result.Err? <==>
      AuthorRepository.NameTaken(db, req.name) || AuthorRepository.SlugTaken(db, Utils.GenerateSlug(req.name))
    ensures r.result.Err? ==> r.result.error == AuthorAlreadyExist && r.db == db
    ensures r.effects == [Write(Authors), Finish(if r.result.Ok? then Commit else Rollback)]
    ensures r.result.Ok? ==>
      var a := AuthorOf(r.result.value);
      && a.id !in db.authors.rows
      && a == Author(a.id, req.name, Utils.GenerateSlug(req.name), req.bio, req.birthDate, req.deathDate,
                     req.country, None)
      && Utils.IsSlug(a.slug)
      && r.db == db.(authors := r.db.authors)
      && r.db.authors.rows == db.authors.rows[a.id := a]
  {
    var slug := Utils.GenerateSlug(req.name);
    var s := AuthorRepository.Create(db, AuthorRepository.AuthorCreate(
      req.name, slug, req.bio, req.birthDate, req.deathDate, req.country));
    var outcome := if s.result.Err? then Err(s.result.error) else Ok(OfAuthor(s.result.value));
    Transaction(db, [Write(Authors)], outcome, s.db)
  }

  /** A created author's page is the response the creation returned. */
  lemma CreatedAuthorFound(db: Db, req: AuthorCreateRequest)
    requires CreateAuthor(db, req).result.Ok?
    ensures var r := CreateAuthor(db, req);
      FetchAuthor(r.db, Utils.GenerateSlug(req.name)) == r.result
  {
    var r := CreateAuthor(db, req);
    var slug := Utils.GenerateSlug(req.name);
    var a := AuthorOf(r.result.value);
    assert r.db.authors.rows[a.id] == a;
    assert AuthorRepository.SlugTaken(r.db, slug);
    var found := FetchAuthor(r.db, slug);
    assert found.value.id == a.id;
  }

  /** `DeleteAuthorUseCase`: a missing author raises inside the block and
      is rolled back; the author's books lose their author and stay. */
  function DeleteAuthor(db: Db, id: Id): (r: Run<()>)
    ensures r.result.Ok? <==> id in db.authors.rows
    ensures r.result.Err? ==> r.result.error == AuthorNotExist && r.db == db
    ensures r.effects == [Write(Authors), Finish(if r.result.Ok? then Commit else Rollback)]
    ensures r.result.Ok? ==> r.db == AuthorRepository.DeleteById(db, id).db
    ensures r.result.Ok? ==>
      && r.db.authors.rows == db.authors.rows - {id}
      && r.db == db.(authors := r.db.authors, books := r.db.books)
      && r.db.books.rows.Keys == db.books.rows.Keys
      && (forall k :: k in r.db.books.rows ==> r.db.books.rows[k].authorId != Some(id))
      && (forall k :: k in db.books.rows && db.books.rows[k].authorId != Some(id) ==>
            r.db.books.rows[k] == db.books.rows[k])
  {
    var s := AuthorRepository.DeleteById(db, id);
    Transaction(db, [Write(Authors)], if s.result.value then Ok(()) else Err(AuthorNotExist), s.db)
  }

  // ----------------------------------------------------------------- photo

  /** The uploaded file: its name and declared content type. */
  datatype Upload = Upload(filename: Option<string>, contentType: Option<string>)

  /** The world during one photo update: the avatar bucket, the store's
      public base URL, the fresh object name (`uuid4().hex`), `unquote`,
      the outcome of each object-store call, and the cache client's faults. */
  datatype PhotoEnv = PhotoEnv(
    bucket: string,
    base: string,
    unique: string,
    unquote: string -> string,
    calls: Storage.StoreCalls,
    removeFails: bool,
    cacheFaults: Faults)

  /** The public upload of the new photo. */
  function Save(file: Upload, env: PhotoEnv): Storage.Saved
  {
    Storage.SaveFile(env.bucket, true, env.base, env.unique, file.filename, file.contentType, env.calls)
  }

  /** The URL a successful upload returns. */
  function NewPhotoUrl(file: Upload, env: PhotoEnv): string
  {
    Storage.PublicUrl(env.base, env.bucket, Storage.GenerateName(env.unique, file.filename))
  }

  /** The object-store write the upload attempted, if it got that far. */
  function Uploaded(file: Upload, env: PhotoEnv): seq<Effect>
  {
    if Save(file, env).put.Some? then [PutObject(Save(file, env).put.value)] else []
  }

  /** The unit of work of `UpdateAuthorPhotoUseCase`: find the author,
      upload the new photo and store its URL. A missing author stops it
      before the upload; a failed upload rolls it back. */
  function ReplacePhoto(db: Db, authorId: Id, file: Upload, env: PhotoEnv): (r: Run<Author>)
    ensures authorId !in db.authors.rows ==>
      r == Run(Err(AuthorNotExist), db, [Read(Authors), Finish(Rollback)])
    ensures r.result.Ok? <==> authorId in db.authors.rows && Save(file, env).result.Ok?
    ensures r.result.Err? ==> r.db == db
    ensures authorId in db.authors.rows ==>
      r.effects == [Read(Authors)] + Uploaded(file, env)
                   + (if r.result.Ok? then [Write(Authors), Finish(Commit)] else [Finish(Rollback)])
    ensures authorId in db.authors.rows && Save(file, env).result.Err? ==>
      r.result.error == Save(file, env).result.error
    ensures r.result.Ok? ==>
      && r.result.value == db.authors.rows[authorId].(photoUrl := Some(NewPhotoUrl(file, env)))
      && r.db == db.(authors := r.db.authors)
      && r.db.authors.rows == db.authors.rows[authorId := r.result.value]
  {
    if authorId !in db.authors.rows then Transaction(db, [Read(Authors)], Err(AuthorNotExist), db)
    else
      var saved := Save(file, env);
      if saved.result.Err? then
        Transaction(db, [Read(Authors)] + Uploaded(file, env), Err(saved.result.error), db)
      else
        var s := AuthorRepository.UpdatePhotoUrl(db, authorId, saved.result.value);
        Transaction(db, [Read(Authors)] + Uploaded(file, env) + [Write(Authors)], s.result, s.db)
  }

  /** Whether the previous photo's URL names an object the store could
      remove; a missing photo needs no removal. */
  predicate OldPhotoRemovable(photoUrl: Option<string>, unquote: string -> string)
  {
    photoUrl.None? || Storage.ExtractObjectInfo(photoUrl.value, unquote).Ok?
  }

  /** The removal of the previous photo after the block: a URL that names
      no object raises `MinioNotValidUrl`, a failed removal is swallowed. */
  function RemoveOld(photoUrl: Option<string>, env: PhotoEnv): (r: (Result<()>, seq<Effect>))
    ensures r.0.Ok? <==> OldPhotoRemovable(photoUrl, env.unquote)
    ensures r.0.Err? ==> r.0.error == MinioNotValidUrl && r.1 == []
    ensures r.0.Ok? ==> r.1 == if photoUrl.Some? then [RemoveObject(photoUrl.value)] else []
  {
    if photoUrl.None? then (Ok(()), [])
    else
      var removed := Storage.DeleteFile(photoUrl.value, env.unquote, env.removeFails);
      if removed == Err(MinioNotValidUrl) then (Err(MinioNotValidUrl), [])
      else (Ok(()), [RemoveObject(photoUrl.value)])
  }

  /** `UpdateAuthorPhotoUseCase`. After the commit the previous photo is
      removed and the author's cached page deleted, in that order; a
      previous URL that names no object raises after the commit, so the
      new URL stays stored and the cached page is not deleted. */
  function UpdateAuthorPhoto(db: Db, cache: Store, authorId: Id, file: Upload, env: PhotoEnv): (c: Cached<AuthorResponse>)
    ensures authorId !in db.authors.rows ==>
      c == Cached(Run(Err(AuthorNotExist), db, [Read(Authors), Finish(Rollback)]), cache)
    ensures c.run.result.Ok? <==>
      && authorId in db.authors.rows && Save(file, env).result.Ok?
      && OldPhotoRemovable(db.authors.rows[authorId].photoUrl, env.unquote)
    ensures c.run.db == ReplacePhoto(db, authorId, file, env).db
    ensures !ReplacePhoto(db, authorId, file, env).result.Ok? ==> c.run.db == db && c.cache == cache
    ensures ReplacePhoto(db, authorId, file, env).result.Ok? ==>
      var old_ := db.authors.rows[authorId];
      var key := AuthorKey(old_.slug);
      var removal := RemoveOld(old_.photoUrl, env);
      && c.run.effects == [Read(Authors)] + Uploaded(file, env) + [Write(Authors), Finish(Commit)]
                          + removal.1 + (if removal.0.Ok? then [CacheDelete(key)] else [])
      && c.cache == if removal.0.Ok? then Cache.Delete(cache, key, env.cacheFaults.deleteFails) else cache
    ensures c.run.result.Ok? ==>
      AuthorOf(c.run.result.value) == db.authors.rows[authorId].(photoUrl := Some(NewPhotoUrl(file, env)))
    ensures c.run.result.Err? && authorId in db.authors.rows && Save(file, env).result.Ok? ==>
      c.run.result.error == MinioNotValidUrl
  {
    var block := ReplacePhoto(db, authorId, file, env);
    if block.result.Err? then Cached(Run(Err(block.result.error), block.db, block.effects), cache)
    else
      var old_ := db.authors.rows[authorId];
      var removal := RemoveOld(old_.photoUrl, env);
      if removal.0.Err? then Cached(Run(Err(MinioNotValidUrl), block.db, block.effects + removal.1), cache)
      else
        var key := AuthorKey(old_.slug);
        Cached(Run(Ok(OfAuthor(block.result.value)), block.db, block.effects + removal.1 + [CacheDelete(key)]),
               Cache.Delete(cache, key, env.cacheFaults.deleteFails))
  }

  /** After a successful photo update, without a client fault, the author
      page is read from the database again and shows the new photo. */
  lemma PhotoUpdateShownOnPage(db: Db, cache: Store, authorId: Id, file: Upload, env: PhotoEnv,
                               cacheEnv: CacheEnv<AuthorResponse>)
    requires AuthorsOk(db) && !env.cacheFaults.deleteFails
    requires UpdateAuthorPhoto(db, cache, authorId, file, env).run.result.Ok?
    ensures var c := UpdateAuthorPhoto(db, cache, authorId, file, env);
      var page := FindAuthor(c.run.db, c.cache, db.authors.rows[authorId].slug, cacheEnv);
      && Read(Authors) in page.run.effects
      && page.run.result == c.run.result
  {
    var c := UpdateAuthorPhoto(db, cache, authorId, file, env);
    var slug := db.authors.rows[authorId].slug;
    var key := AuthorKey(slug);
    assert c.cache == Cache.Delete(cache, key, false);
    assert !Hit(c.cache, key, cacheEnv);
    EvictedLookupReads(c.run.db, c.cache, key, AuthorCacheTtl, cacheEnv, Authors, FetchAuthor(c.run.db, slug));
    var a := AuthorOf(c.run.result.value);
    assert c.run.db.authors.rows[authorId] == a;
    assert AuthorRepository.SlugTaken(c.run.db, slug);
    var found := FetchAuthor(c.run.db, slug);
    assert found.value.id == authorId;
  }
}
