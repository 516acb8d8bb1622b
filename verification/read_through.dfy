/** The read-through cache in front of the book and author pages: look the
    key up with `get_json`; on a hit, validate the cached document into the
    response model; on a miss, read the database and store the response's
    JSON dump with a time to live. */
module ReadThrough {

  import opened Common
  import opened Schema
  import opened Cache
  import opened Responses
  import opened UnitOfWork

  /** The JSON codec, the response model and the cache client's faults
      during one request. */
  datatype CacheEnv<!R> = CacheEnv(json: JsonCodec, model: ModelCodec<R>, faults: Faults)

  /** A run that also used the cache, with the cache after it. */
  datatype Cached<T> = Cached(run: Run<T>, cache: Store)

  /** Whether `get_json` finds a document under `key`. */
  predicate Hit<R>(cache: Store, key: string, env: CacheEnv<R>)
  {
    GetJson(cache, key, env.json, env.faults).0.Some?
  }

  /** Whether `get_json` reads a text under `key` that does not decode, and
      so deletes the key. */
  predicate Corrupt<R>(cache: Store, key: string, env: CacheEnv<R>)
  {
    !env.faults.getFails && key in cache && env.json.loads(cache[key].value).None?
  }

  /** The cache calls of a `get_json` that found nothing. */
  function MissEffects<R>(cache: Store, key: string, env: CacheEnv<R>): seq<Effect>
  {
    [CacheGet(key)] + (if Corrupt(cache, key, env) then [CacheDelete(key)] else [])
  }

  /** `model_validate` of a cached document; a refusal is a validation error. */
  function Revive<R>(doc: Json, model: ModelCodec<R>): (r: Result<R>)
    ensures r.Ok? <==> model.validate(doc).Some?
    ensures r.Ok? ==> model.validate(doc) == Some(r.value)
    ensures r.Err? ==> r.error == ResponseValidation
  {
    var v := model.validate(doc);
    if v.Some? then Ok(v.value) else Err(ResponseValidation)
  }

  /** The lookup: `fetched` is what the database read from `relation`
      yields, as a response or the error the use case raises. A hit never
      reads the database; a text that does not decode is deleted before
      the database is read; only a successful fetch is written back. */
  function Lookup<R>(db: Db, cache: Store, key: string, ttl: int, env: CacheEnv<R>,
                     relation: Relation, fetched: Result<R>): (c: Cached<R>)
    ensures c.run.db == db
    ensures Hit(cache, key, env) ==>
      && c.run.effects == [CacheGet(key)]
      && c.cache == cache
      && c.run.result == Revive(GetJson(cache, key, env.json, env.faults).0.value, env.model)
    ensures !Hit(cache, key, env) ==>
      && c.run.result == fetched
      && c.run.effects == MissEffects(cache, key, env) + [Read(relation)] + (if fetched.Ok? then [CacheSet(key)] else [])
    ensures !Hit(cache, key, env) ==>
      (CacheDelete(key) in c.run.effects <==> Corrupt(cache, key, env))
    ensures !Hit(cache, key, env) && fetched.Err? ==>
      c.cache == GetJson(cache, key, env.json, env.faults).1
    ensures !Hit(cache, key, env) && fetched.Ok? ==>
      c.cache == SetJson(GetJson(cache, key, env.json, env.faults).1, key,
                         env.model.dump(fetched.value), ttl, env.json, env.faults)
  {
    var (doc, afterGet) := GetJson(cache, key, env.json, env.faults);
    if doc.Some? then
      Cached(Run(Revive(doc.value, env.model), db, [CacheGet(key)]), afterGet)
    else
      var missed := MissEffects(cache, key, env) + [Read(relation)];
      if fetched.Err? then
        Cached(Run(fetched, db, missed), afterGet)
      else
        var written := SetJson(afterGet, key, env.model.dump(fetched.value), ttl, env.json, env.faults);
        Cached(Run(fetched, db, missed + [CacheSet(key)]), written)
  }

  /** What the round trip through the cache needs: lawful codecs, a client
      without faults, a positive expiry and a response whose dump
      serialises. */
  ghost predicate RoundTrips<R(!new)>(env: CacheEnv<R>, ttl: int, response: R)
  {
    && Lawful(env.json) && LawfulModel(env.model) && env.faults == NoFaults
    && ttl > 0 && env.json.dumps(env.model.dump(response)).Some?
  }

  /** A lookup that fetched a response leaves it in the cache: the next
      lookup of the same key, whatever the database holds by then, returns
      the same response without reading the database. */
  lemma {:induction false} SecondLookupHits<R(!new)>(db: Db, cache: Store, key: string, ttl: int, env: CacheEnv<R>,
                                                      relation: Relation, fetched: Result<R>,
                                                      db': Db, relation': Relation, fetched': Result<R>)
    requires !Hit(cache, key, env) && fetched.Ok?
    requires RoundTrips(env, ttl, fetched.value)
    ensures var first := Lookup(db, cache, key, ttl, env, relation, fetched);
      var second := Lookup(db', first.cache, key, ttl, env, relation', fetched');
      && second.run.result == fetched
      && second.run.effects == [CacheGet(key)]
  {
    var first := Lookup(db, cache, key, ttl, env, relation, fetched);
    var afterGet := GetJson(cache, key, env.json, env.faults).1;
    var doc := env.model.dump(fetched.value);
    assert first.cache == SetJson(afterGet, key, doc, ttl, env.json, env.faults);
    JsonRoundTrip(afterGet, key, doc, ttl, env.json);
    assert GetJson(first.cache, key, env.json, env.faults).0 == Some(doc);
    assert env.model.validate(doc) == Some(fetched.value);
  }

  /** After the key is deleted without fault, the lookup goes to the
      database again. */
  lemma EvictedLookupReads<R>(db: Db, cache: Store, key: string, ttl: int, env: CacheEnv<R>,
                              relation: Relation, fetched: Result<R>)
    requires key !in cache
    ensures Read(relation) in Lookup(db, cache, key, ttl, env, relation, fetched).run.effects
  {
    var c := Lookup(db, cache, key, ttl, env, relation, fetched);
    assert !Hit(cache, key, env);
    assert c.run.effects[1] == Read(relation);
  }
}
