/** The short-link table of the URL shortener and the meaning of each route
    handler as a function from the old table to a response and a new table.

    The URL check (`new URL(...)` wrapped in `isValidUrl`) is a foreign parser;
    every function that needs it takes it as the parameter `valid`, so nothing
    here depends on how URLs are parsed. */
module LinkStore {

  datatype Option<+T> = None | Some(value: T)

  /** An ISO-8601 timestamp, taken as an opaque string supplied by the caller. */
  type Timestamp = string

  /** The short code that keys the table. */
  type Code = string

  /** One stored link, with the fields of the object built at index.js:38-45. */
  datatype LinkRecord = LinkRecord(
    id: Code,
    url: string,
    shortCode: Code,
    createdAt: Timestamp,
    updatedAt: Timestamp,
    accessCount: int)

  /** The module-level `urls` Map. */
  type Store = map<Code, LinkRecord>

  /** What a handler answers, stripped of HTTP status codes and JSON. */
  datatype Response =
    | Ok(record: LinkRecord)        // 200 with the record
    | Created(record: LinkRecord)   // 201 with the record
    | NoContent                     // 204
    | Redirect(location: string)    // 302 to the stored url
    | InvalidURL                    // 400 "Invalid URL"
    | NotFound                      // 404 "Short URL not found"

  /** A handler's response together with the table it leaves behind. */
  datatype Outcome = Outcome(response: Response, store: Store)

  /** The guard `!url || !isValidUrl(url)` negated: the body field is a
      non-empty string that the URL parser accepts. `None` is a missing field. */
  predicate Accepts(valid: string -> bool, body: Option<string>): (ok: bool)
    ensures body == None || body == Some("") ==> !ok
    ensures ok ==> body.Some? && valid(body.value)
    ensures body.Some? && body.value != "" ==> (ok <==> valid(body.value))
  {
    body.Some? && body.value != "" && valid(body.value)
  }

  /** The store invariant: every key names its own record, counters are
      non-negative and every stored url passed the check when it was stored. */
  ghost predicate StoreInv(m: Store, valid: string -> bool)
  {
    forall k :: k in m ==>
      m[k].id == k && m[k].shortCode == k && m[k].accessCount >= 0 &&
      m[k].url != "" && valid(m[k].url)
  }

  /** `m'` agrees with `m` on every key other than `code`: the same keys are
      present and they map to the same records. */
  ghost predicate SameOutside(m: Store, m': Store, code: Code)
  {
    forall k :: k != code ==> (k in m <==> k in m') && (k in m ==> m'[k] == m[k])
  }

  /** POST /shorten, with `code` the value `nanoid(6)` returned and `now` the
      clock reading. A colliding code overwrites the record stored under it. */
  function Create(m: Store, valid: string -> bool, body: Option<string>, code: Code, now: Timestamp): (o: Outcome)
    ensures !Accepts(valid, body) ==> o == Outcome(InvalidURL, m)
    ensures Accepts(valid, body) ==>
      && code in o.store
      && o.store.Keys == m.Keys + {code}
      && SameOutside(m, o.store, code)
      && o.store[code].id == code && o.store[code].shortCode == code
      && o.store[code].url == body.value
      && o.store[code].createdAt == now && o.store[code].updatedAt == now
      && o.store[code].accessCount == 0
      && o.response == Created(o.store[code])
    ensures StoreInv(m, valid) ==> StoreInv(o.store, valid)
  {
    if !Accepts(valid, body) then
      Outcome(InvalidURL, m)
    else
      var data := LinkRecord(code, body.value, code, now, now, 0);
      Outcome(Created(data), m[code := data])
  }

  /** GET /shorten/:code and GET /shorten/:code/stats: the stored record, or
      NotFound. Neither reads anything but the table. */
  function Lookup(m: Store, code: Code): (r: Response)
    ensures code in m <==> r.Ok?
    ensures code in m ==> r == Ok(m[code])
    ensures code !in m ==> r == NotFound
  {
    if code in m then Ok(m[code]) else NotFound
  }

  /** PUT /shorten/:code. Existence is checked before the body, so an absent
      code answers NotFound whatever the url. */
  function Update(m: Store, valid: string -> bool, code: Code, body: Option<string>, now: Timestamp): (o: Outcome)
    ensures code !in m ==> o == Outcome(NotFound, m)
    ensures code in m && !Accepts(valid, body) ==> o == Outcome(InvalidURL, m)
    ensures code in m && Accepts(valid, body) ==>
      && code in o.store
      && o.store.Keys == m.Keys
      && SameOutside(m, o.store, code)
      && o.store[code].url == body.value
      && o.store[code].updatedAt == now
      && o.store[code].id == m[code].id
      && o.store[code].shortCode == m[code].shortCode
      && o.store[code].createdAt == m[code].createdAt
      && o.store[code].accessCount == m[code].accessCount
      && o.response == Ok(o.store[code])
    ensures StoreInv(m, valid) ==> StoreInv(o.store, valid)
  {
    if code !in m then
      Outcome(NotFound, m)
    else if !Accepts(valid, body) then
      Outcome(InvalidURL, m)
    else
      var data := m[code].(url := body.value, updatedAt := now);
      Outcome(Ok(data), m[code := data])
  }

  /** DELETE /shorten/:code. */
  function Delete(m: Store, code: Code): (o: Outcome)
    ensures code !in m ==> o == Outcome(NotFound, m)
    ensures code in m ==>
      && o.response == NoContent
      && o.store.Keys == m.Keys - {code}
      && SameOutside(m, o.store, code)
    ensures forall valid :: StoreInv(m, valid) ==> StoreInv(o.store, valid)
  {
    if code !in m then Outcome(NotFound, m) else Outcome(NoContent, m - {code})
  }

  /** GET /:code: a read that bumps the counter of the record it finds. */
  function Visit(m: Store, code: Code): (o: Outcome)
    ensures code !in m ==> o == Outcome(NotFound, m)
    ensures code in m ==>
      && code in o.store
      && o.store.Keys == m.Keys
      && SameOutside(m, o.store, code)
      && o.store[code].accessCount == m[code].accessCount + 1
      && o.store[code].(accessCount := 0) == m[code].(accessCount := 0)
      && o.response == Redirect(m[code].url)
    ensures forall valid :: StoreInv(m, valid) ==> StoreInv(o.store, valid)
  {
    if code !in m then
      Outcome(NotFound, m)
    else
      var data := m[code];
      Outcome(Redirect(data.url), m[code := data.(accessCount := data.accessCount + 1)])
  }
}
