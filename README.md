# Short-link store of a minimal URL shortener

This project models the in-memory short-link table of an Express URL shortener
(`index.js`). The table `urls` maps a short code to a link record
`{id, url, shortCode, createdAt, updatedAt, accessCount}`. Six route handlers
use it: create (POST /shorten), get (GET /shorten/:code), update
(PUT /shorten/:code), delete (DELETE /shorten/:code), stats
(GET /shorten/:code/stats) and redirect (GET /:code).

The project has three modules:

- `LinkStore` (`link_store.dfy`) defines the record and the responses. Each
  handler that changes the table is a pure function from the old table to an
  `Outcome`, which holds a response and the new table. The two read handlers
  share `Lookup`, which returns a bare `Response`. The contracts state the success and error cases,
  the "nothing else changes" frames and the store invariant `StoreInv`. The
  invariant says that every key equals the record's `id` and `shortCode`, that
  counters are non-negative, and that every stored url passed the URL check.
- `LinkStoreProperties` (`link_store_properties.dfy`) covers whole request
  sequences. `Step` is the route table and `Run` folds it over a sequence.
  Lemmas by induction prove that the invariant holds throughout, that N
  redirects add N, and that a code never issued stays absent. They also prove
  that while nothing deletes or re-issues a code, its counter never decreases
  and its creation time stays put.
- `ShortLinks` (`short_link_store.dfy`) is the class `ShortLinkStore`. It has
  the field `urls` and one imperative method per handler. Create, Update,
  Delete and Redirect update the field in place, and each is proved equal to
  its `LinkStore` function. Get and Stats only read the field.

Inputs from outside the table are parameters:

- The code from `nanoid(6)` is the `code` argument of `Create`.
- The timestamp from `new Date().toISOString()` is the `now` argument.
- The URL parser behind `isValidUrl` is a function-valued constant of the
  object, or the `valid` parameter in the pure functions. The WHATWG URL
  Standard defines that parser, but nothing here assumes anything about it.
- The JSON body field `url` is an `Option<string>`. Both `None` (missing) and
  `""` are falsy.
- HTTP statuses become `Response` constructors: `Ok` (200), `Created` (201),
  `NoContent` (204), `Redirect` (302), `InvalidURL` (400) and `NotFound` (404).

Two facts about `index.js` shape the model:

- Create stores under the generated code with no collision check, so a
  colliding code overwrites the earlier record (`CreateOverwritesOnCollision`).
- The stored record has no `lastAccessAt` field.

## Model

| member | source | states |
|---|---|---|
| LinkStore.Accepts | index.js:31 | The guard shared by Create (index.js:31) and Update (index.js:78). A missing or empty url field is rejected. A non-empty url is accepted exactly when the URL predicate accepts it, and an accepted field is always present and parseable. |
| LinkStore.Create | index.js:28-50 | A missing, empty or unparseable url gives InvalidURL and leaves the table unchanged. Otherwise the table gains the key `code` and every other key is unchanged. The new record has `id == shortCode == code`, the given url, `createdAt == updatedAt == now` and `accessCount == 0`. The response carries exactly the stored record. The invariant is preserved. |
| LinkStore.Lookup | index.js:56-64 | The response is Ok exactly when the code is present, and then carries the stored record. Otherwise it is NotFound. |
| LinkStore.Update | index.js:70-86 | An absent code gives NotFound whatever the body, with the table unchanged. A present code with an invalid url gives InvalidURL, with the table unchanged. Otherwise only the record under `code` changes: its `url` becomes the new url and `updatedAt` becomes `now`. Its `id`, `shortCode`, `createdAt` and `accessCount` stay the same, and so does every other key. The response is the updated record. The invariant is preserved. |
| LinkStore.Delete | index.js:92-99 | An absent code gives NotFound with the table unchanged. A present code gives NoContent and removes exactly that key, leaving every other key unchanged. The invariant is preserved. |
| LinkStore.Visit | index.js:119-128 | An absent code gives NotFound with the table unchanged. For a present code the counter goes up by exactly 1. Every other field and every other key is unchanged. The response is a redirect to the stored url. The invariant is preserved. |
| LinkStoreProperties.Step | index.js:28-128 | Each route keeps the store invariant. The two read routes leave the table unchanged. |
| LinkStoreProperties.RunPreservesInv | index.js:28-128 | Any sequence of requests, starting from a table that satisfies the invariant, ends in one that satisfies it. |
| LinkStoreProperties.VisitsAddN | index.js:126 | N consecutive redirects of a present code add N to its counter and change nothing else. |
| LinkStoreProperties.NeverIssuedNotFound | index.js:57-61 | A code that was absent, and that no accepted POST in the sequence generated, is still absent at the end, so a lookup gives NotFound. |
| LinkStoreProperties.CounterNeverDecreases | index.js:28-128 | While no request deletes the code (index.js:97) or overwrites it with a new record (index.js:47), its record stays present. Its `id`, `shortCode` and `createdAt` stay the same through updates (index.js:82-83), and its counter never decreases, since only the redirect (index.js:126) changes it. |
| LinkStoreProperties.CounterChangesOnlyByVisit | index.js:126 | In one step, a surviving record's counter goes up by 1 if the request is a redirect of that code, and otherwise stays the same. Re-issuing the code is the exception. |
| LinkStoreProperties.CreateThenGet | index.js:47-49 | After a successful create, a lookup of the code returns the same record that create returned. |
| LinkStoreProperties.CreateOverwritesOnCollision | index.js:47 | A generated code that is already present replaces the stored record with a fresh one, and the table does not grow. |
| LinkStoreProperties.UpdateThenGet | index.js:82-85 | After a successful update, a lookup returns the record with the new url and time, which is the record update returned. |
| LinkStoreProperties.DeleteThenGet | index.js:93-97 | After a delete, a lookup of the code gives NotFound. |
| LinkStoreProperties.TwoVisitsScenario | index.js:28-128 | Start from an empty table and create a link. Redirect twice and the record shows `accessCount == 2`. A PUT on a different code gives NotFound. |
| ShortLinks.ShortLinkStore.constructor | index.js:10 | The table starts empty, with the invariant holding. |
| ShortLinks.ShortLinkStore.Create | index.js:28-50 | The response and the new `urls` are those of `LinkStore.Create`, and the invariant is kept. |
| ShortLinks.ShortLinkStore.Get | index.js:56-64 | Returns the stored record exactly when the code is present, and NotFound otherwise. Changes nothing. |
| ShortLinks.ShortLinkStore.Update | index.js:70-86 | The response and the new `urls` are those of `LinkStore.Update`, and the invariant is kept. |
| ShortLinks.ShortLinkStore.Delete | index.js:92-99 | The response and the new `urls` are those of `LinkStore.Delete`, and the invariant is kept. |
| ShortLinks.ShortLinkStore.Stats | index.js:105-113 | The same lookup as Get: the stored record or NotFound. Changes nothing. |
| ShortLinks.ShortLinkStore.Redirect | index.js:119-128 | The response and the new `urls` are those of `LinkStore.Visit`, and the invariant is kept. |
| ShortLinks.TwoRedirects | index.js:28-128 | A client that uses only the class contracts: create, redirect twice and read the stats. Stats then returns the created url with `accessCount == 2`. |

## Left out

- Express routing, `req`/`res`, status codes, JSON parsing and serialisation, and `app.listen` with its logging (index.js:1-7, 130-132): these are transport plumbing. Responses are the `Response` constructors.
- `nanoid(6)` randomness (index.js:35): an external library. The code is an argument, and no uniqueness is claimed because the source does not check for one.
- The WHATWG URL parser inside `isValidUrl` (index.js:15-22): an external parser. It is an arbitrary function `string -> bool` fixed when the store is constructed.
- Timestamps (index.js:36, 83): opaque strings supplied by the caller. Nothing is claimed about `createdAt <= updatedAt`, since the clock is not known to be monotonic.
- Truthiness of non-string `url` values in the request body: the body field is `Option<string>`.
- Aliasing of record objects: records are values, and changing a field replaces the map entry. The handler serialises the record immediately and only the table holds it, so no other holder can observe the difference.
- Number precision: `accessCount` is an unbounded integer. A JavaScript number stops incrementing exactly beyond 2^53, which this model does not capture.
