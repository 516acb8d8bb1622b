/** `RedisCacheManager`: a best-effort string cache in front of Redis. A
    client failure never escapes: a failed read is a miss, a failed write
    or delete leaves the store as it was. The JSON text codec is a
    parameter. */
module Cache {

  import opened Common

  /** A JSON document, as `json.loads` produces it. */
  datatype Json =
    | JNull
    | JBool(b: bool)
    | JNumber(n: int)
    | JString(s: string)
    | JArray(items: seq<Json>)
    | JObject(members: seq<(string, Json)>)

  /** `json.dumps` (`None` where it raises) and `json.loads` (`None` on a
      `JSONDecodeError`). */
  datatype JsonCodec = JsonCodec(dumps: Json -> Option<string>, loads: string -> Option<Json>)

  /** What a codec promises: whatever it writes, it reads back. */
  ghost predicate Lawful(codec: JsonCodec)
  {
    forall j :: codec.dumps(j).Some? ==> codec.loads(codec.dumps(j).value) == Some(j)
  }

  /** A stored value with the expiry (in seconds) it was written with. */
  datatype Entry = Entry(value: string, ttl: nat)

  type Store = map<string, Entry>

  /** Whether the client raises on each kind of call during one request. */
  datatype Faults = Faults(getFails: bool, setFails: bool, deleteFails: bool)

  const NoFaults := Faults(false, false, false)

  function Get(store: Store, key: string, fails: bool): (r: Option<string>)
    ensures r.Some? <==> !fails && key in store
    ensures r.Some? ==> r.value == store[key].value
  {
    if fails || key !in store then None else Some(store[key].value)
  }

  /** A non-positive expiry writes nothing. */
  function Set(store: Store, key: string, value: string, ttl: int, fails: bool): (s: Store)
    ensures ttl <= 0 || fails ==> s == store
    ensures ttl > 0 && !fails ==> key in s && s[key] == Entry(value, ttl)
    ensures forall k :: k != key ==> (k in s <==> k in store) && (k in s ==> s[k] == store[k])
  {
    if ttl <= 0 || fails then store else store[key := Entry(value, ttl)]
  }

  function Delete(store: Store, key: string, fails: bool): (s: Store)
    ensures fails ==> s == store
    ensures !fails ==> key !in s
    ensures forall k :: k != key ==> (k in s <==> k in store) && (k in s ==> s[k] == store[k])
  {
    if fails then store else store - {key}
  }

  /** The decoded document, or `None`: a miss, a stored text that does not
      decode (evicted on the way), or a stored JSON `null`, which `json.loads`
      turns into Python's `None` and so reads as a miss. */
  function GetJson(store: Store, key: string, codec: JsonCodec, faults: Faults): (r: (Option<Json>, Store))
    ensures r.0.Some? <==>
      && !faults.getFails && key in store && codec.loads(store[key].value).Some?
      && codec.loads(store[key].value).value != JNull
    ensures r.0.Some? ==> r.0.value == codec.loads(store[key].value).value
    ensures !faults.getFails && key in store && codec.loads(store[key].value).None? ==>
      r.1 == Delete(store, key, faults.deleteFails)
    ensures faults.getFails || key !in store || codec.loads(store[key].value).Some? ==> r.1 == store
  {
    var raw := Get(store, key, faults.getFails);
    if raw.None? then (None, store)
    else
      var decoded := codec.loads(raw.value);
      if decoded.None? then (None, Delete(store, key, faults.deleteFails))
      else if decoded.value == JNull then (None, store)
      else (decoded, store)
  }

  /** Writes the compact JSON text of `value`; nothing when the expiry is
      not positive or the value does not serialise. */
  function SetJson(store: Store, key: string, value: Json, ttl: int, codec: JsonCodec, faults: Faults): (s: Store)
    ensures ttl <= 0 || codec.dumps(value).None? || faults.setFails ==> s == store
    ensures ttl > 0 && codec.dumps(value).Some? && !faults.setFails ==>
      s == store[key := Entry(codec.dumps(value).value, ttl)]
  {
    if ttl <= 0 then store
    else
      var raw := codec.dumps(value);
      if raw.None? then store else Set(store, key, raw.value, ttl, faults.setFails)
  }

  /** A value written with a positive expiry reads back unchanged, except
      `null`, which reads back as a miss. */
  lemma JsonRoundTrip(store: Store, key: string, value: Json, ttl: int, codec: JsonCodec)
    requires Lawful(codec) && ttl > 0 && codec.dumps(value).Some?
    ensures GetJson(SetJson(store, key, value, ttl, codec, NoFaults), key, codec, NoFaults)
      == (if value == JNull then None else Some(value), SetJson(store, key, value, ttl, codec, NoFaults))
  {
  }

  /** A stored JSON `null` reads as a miss and stays in the store. */
  lemma NullReadsAsMiss(store: Store, key: string, codec: JsonCodec, faults: Faults)
    requires Lawful(codec) && codec.dumps(JNull).Some?
    requires key in store && store[key].value == codec.dumps(JNull).value
    ensures GetJson(store, key, codec, faults) == (None, store)
  {
  }

  /** A key deleted without fault reads as a miss. */
  lemma DeleteThenMiss(store: Store, key: string, codec: JsonCodec, faults: Faults)
    requires !faults.deleteFails
    ensures GetJson(Delete(store, key, faults.deleteFails), key, codec, faults).0 == None
  {
  }

  /** Reading never adds or rewrites an entry: it can only evict the key it read. */
  lemma GetJsonOnlyEvicts(store: Store, key: string, codec: JsonCodec, faults: Faults)
    ensures var s := GetJson(store, key, codec, faults).1;
      forall k :: k in s ==> k in store && s[k] == store[k]
  {
  }
}
