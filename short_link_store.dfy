/** The server's in-memory table as an object: the `urls` Map is a field that
    the handlers update in place, one method per route. */
module ShortLinks {
  import opened LinkStore

  class ShortLinkStore {
    /** The in-memory database `urls` of index.js:10. */
    var urls: Store
    /** The helper `isValidUrl`: true exactly when the URL parser accepts the string. */
    const isValidUrl: string -> bool

    ghost predicate Valid()
      reads this
    {
      StoreInv(urls, isValidUrl)
    }

    /** The table at process start: empty. */
    constructor (isValidUrl: string -> bool)
      ensures Valid()
      ensures urls == map[] && this.isValidUrl == isValidUrl
    {
      urls := map[];
      this.isValidUrl := isValidUrl;
    }

    /** POST /shorten. `code` is what `nanoid(6)` returned and `now` the clock. */
    method Create(body: Option<string>, code: Code, now: Timestamp) returns (r: Response)
      requires Valid()
      modifies this
      ensures Valid()
      ensures Outcome(r, urls) == LinkStore.Create(old(urls), isValidUrl, body, code, now)
    {
      if !Accepts(isValidUrl, body) {
        return InvalidURL;
      }
      var data := LinkRecord(code, body.value, code, now, now, 0);
      urls := urls[code := data];
      r := Created(data);
    }

    /** GET /shorten/:code. */
    method Get(code: Code) returns (r: Response)
      ensures r == Lookup(urls, code)
      ensures r.Ok? <==> code in urls
      ensures r.Ok? ==> r.record == urls[code]
    {
      if code !in urls {
        return NotFound;
      }
      r := Ok(urls[code]);
    }

    /** PUT /shorten/:code: existence first, then the body. */
    method Update(code: Code, body: Option<string>, now: Timestamp) returns (r: Response)
      requires Valid()
      modifies this
      ensures Valid()
      ensures Outcome(r, urls) == LinkStore.Update(old(urls), isValidUrl, code, body, now)
    {
      if code !in urls {
        return NotFound;
      }
      var data := urls[code];
      if !Accepts(isValidUrl, body) {
        return InvalidURL;
      }
      data := data.(url := body.value);
      data := data.(updatedAt := now);
      urls := urls[code := data];
      r := Ok(data);
    }

    /** DELETE /shorten/:code. */
    method Delete(code: Code) returns (r: Response)
      requires Valid()
      modifies this
      ensures Valid()
      ensures Outcome(r, urls) == LinkStore.Delete(old(urls), code)
    {
      if code !in urls {
        return NotFound;
      }
      urls := urls - {code};
      r := NoContent;
    }

    /** GET /shorten/:code/stats: the same lookup as Get. */
    method Stats(code: Code) returns (r: Response)
      ensures r == Lookup(urls, code)
      ensures r.Ok? <==> code in urls
      ensures r.Ok? ==> r.record == urls[code]
    {
      if code !in urls {
        return NotFound;
      }
      r := Ok(urls[code]);
    }

    /** GET /:code: bump the counter, then answer with the stored url. */
    method Redirect(code: Code) returns (r: Response)
      requires Valid()
      modifies this
      ensures Valid()
      ensures Outcome(r, urls) == Visit(old(urls), code)
    {
      if code !in urls {
        return NotFound;
      }
      var data := urls[code];
      data := data.(accessCount := data.accessCount + 1);
      urls := urls[code := data];
      r := Response.Redirect(data.url);
    }
  }

  /** A client of the class alone: create, follow twice, read the stats. */
  method TwoRedirects(isValidUrl: string -> bool, url: string, code: Code, now: Timestamp)
    returns (stats: Response)
    requires url != "" && isValidUrl(url)
    ensures stats.Ok? && stats.record.url == url && stats.record.accessCount == 2
  {
    var store := new ShortLinkStore(isValidUrl);
    var created := store.Create(Some(url), code, now);
    assert created == Created(LinkRecord(code, url, code, now, now, 0));
    var first := store.Redirect(code);
    assert first == Response.Redirect(url);
    var second := store.Redirect(code);
    assert second == Response.Redirect(url);
    stats := store.Stats(code);
  }
}
