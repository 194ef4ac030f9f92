/** Properties of the short-link table over whole sequences of requests, as
    the single-threaded server handles them one after another. */
module LinkStoreProperties {
  import opened LinkStore

  /** One request to one of the six routes, with the values the handler would
      draw from the body, the code generator and the clock. */
  datatype Request =
    | PostShorten(body: Option<string>, generated: Code, now: Timestamp)
    | GetShorten(code: Code)
    | PutShorten(code: Code, body: Option<string>, now: Timestamp)
    | DeleteShorten(code: Code)
    | GetStats(code: Code)
    | GetCode(code: Code)

  /** The route table: which handler a request reaches. */
  function Step(m: Store, valid: string -> bool, req: Request): (o: Outcome)
    ensures StoreInv(m, valid) ==> StoreInv(o.store, valid)
    ensures (req.GetShorten? || req.GetStats?) ==> o.store == m
  {
    match req
    case PostShorten(body, code, now) => Create(m, valid, body, code, now)
    case GetShorten(code) => Outcome(Lookup(m, code), m)
    case PutShorten(code, body, now) => Update(m, valid, code, body, now)
    case DeleteShorten(code) => Delete(m, code)
    case GetStats(code) => Outcome(Lookup(m, code), m)
    case GetCode(code) => Visit(m, code)
  }

  /** The table after handling `reqs` in order. */
  function Run(m: Store, valid: string -> bool, reqs: seq<Request>): Store
    decreases |reqs|
  {
    if reqs == [] then m else Run(Step(m, valid, reqs[0]).store, valid, reqs[1..])
  }

  /** A request that puts a new record under `code`: an accepted POST whose
      generated code is `code`. */
  predicate Issues(req: Request, valid: string -> bool, code: Code)
  {
    req.PostShorten? && req.generated == code && Accepts(valid, req.body)
  }

  /** `n` consecutive visits of `code`. */
  function Visits(code: Code, n: nat): (reqs: seq<Request>)
    ensures |reqs| == n
    ensures forall i :: 0 <= i < n ==> reqs[i] == GetCode(code)
  {
    if n == 0 then [] else [GetCode(code)] + Visits(code, n - 1)
  }

  /** Every sequence of requests keeps the store invariant. */
  lemma {:induction false} RunPreservesInv(m: Store, valid: string -> bool, reqs: seq<Request>)
    requires StoreInv(m, valid)
    ensures StoreInv(Run(m, valid, reqs), valid)
    decreases |reqs|
  {
    if reqs != [] {
      RunPreservesInv(Step(m, valid, reqs[0]).store, valid, reqs[1..]);
    }
  }

  /** Handling `req` first and then `reqs` is handling `[req] + reqs`. */
  lemma RunCons(m: Store, valid: string -> bool, req: Request, reqs: seq<Request>)
    ensures Run(m, valid, [req] + reqs) == Run(Step(m, valid, req).store, valid, reqs)
  {
    assert ([req] + reqs)[0] == req && ([req] + reqs)[1..] == reqs;
  }

  /** The table with the counter of `code` raised by `k`, all else as in `m`. */
  function Bumped(m: Store, code: Code, k: nat): Store
    requires code in m
  {
    m[code := m[code].(accessCount := m[code].accessCount + k)]
  }

  lemma BumpedTwice(m: Store, code: Code, j: nat, k: nat)
    requires code in m
    ensures code in Bumped(m, code, j)
    ensures Bumped(Bumped(m, code, j), code, k) == Bumped(m, code, j + k)
  {
  }

  /** A redirect of a present code, then `reqs`, is `reqs` on the bumped table. */
  lemma RunAfterVisit(m: Store, valid: string -> bool, code: Code, reqs: seq<Request>)
    requires code in m
    ensures Run(m, valid, [GetCode(code)] + reqs) == Run(Bumped(m, code, 1), valid, reqs)
  {
    RunCons(m, valid, GetCode(code), reqs);
    assert Step(m, valid, GetCode(code)).store == Bumped(m, code, 1);
  }

  /** N redirects add N to the counter and change nothing else. */
  lemma {:induction false} VisitsAddN(m: Store, valid: string -> bool, code: Code, n: nat)
    requires code in m
    ensures Run(m, valid, Visits(code, n)) == Bumped(m, code, n)
  {
    if n == 0 {
      assert Bumped(m, code, 0) == m;
    } else {
      assert Visits(code, n) == [GetCode(code)] + Visits(code, n - 1);
      RunAfterVisit(m, valid, code, Visits(code, n - 1));
      BumpedTwice(m, code, 1, n - 1);
      VisitsAddN(Bumped(m, code, 1), valid, code, n - 1);
    }
  }

  /** A code that no request in `reqs` issues, and that was absent to begin
      with, is still absent: Get of a code never issued answers NotFound. */
  lemma {:induction false} NeverIssuedNotFound(m: Store, valid: string -> bool, reqs: seq<Request>, code: Code)
    requires code !in m
    requires forall i :: 0 <= i < |reqs| ==> !Issues(reqs[i], valid, code)
    ensures code !in Run(m, valid, reqs)
    ensures Lookup(Run(m, valid, reqs), code) == NotFound
    decreases |reqs|
  {
    if reqs != [] {
      var m1 := Step(m, valid, reqs[0]).store;
      assert !Issues(reqs[0], valid, code);
      assert code !in m1;
      forall i | 0 <= i < |reqs[1..]| ensures !Issues(reqs[1..][i], valid, code) {
        assert reqs[1..][i] == reqs[i + 1];
      }
      NeverIssuedNotFound(m1, valid, reqs[1..], code);
    }
  }

  /** While nothing deletes or re-issues `code`, its record stays, keeps its
      identity and creation time, and its counter never decreases. */
  lemma {:induction false} CounterNeverDecreases(m: Store, valid: string -> bool, reqs: seq<Request>, code: Code)
    requires code in m
    requires forall i :: 0 <= i < |reqs| ==> !Issues(reqs[i], valid, code) && reqs[i] != DeleteShorten(code)
    ensures code in Run(m, valid, reqs)
    ensures Run(m, valid, reqs)[code].id == m[code].id
    ensures Run(m, valid, reqs)[code].shortCode == m[code].shortCode
    ensures Run(m, valid, reqs)[code].createdAt == m[code].createdAt
    ensures Run(m, valid, reqs)[code].accessCount >= m[code].accessCount
    decreases |reqs|
  {
    if reqs != [] {
      var m1 := Step(m, valid, reqs[0]).store;
      assert !Issues(reqs[0], valid, code) && reqs[0] != DeleteShorten(code);
      assert code in m1 && m1[code].id == m[code].id && m1[code].shortCode == m[code].shortCode;
      assert m1[code].createdAt == m[code].createdAt && m1[code].accessCount >= m[code].accessCount;
      forall i | 0 <= i < |reqs[1..]|
        ensures !Issues(reqs[1..][i], valid, code) && reqs[1..][i] != DeleteShorten(code)
      {
        assert reqs[1..][i] == reqs[i + 1];
      }
      CounterNeverDecreases(m1, valid, reqs[1..], code);
    }
  }

  /** Only a redirect of `code` changes its counter, and then by one; only an
      accepted POST that draws `code` again (an overwrite) resets it. */
  lemma CounterChangesOnlyByVisit(m: Store, valid: string -> bool, req: Request, code: Code)
    requires code in m && code in Step(m, valid, req).store
    requires !Issues(req, valid, code)
    ensures Step(m, valid, req).store[code].accessCount
      == m[code].accessCount + (if req == GetCode(code) then 1 else 0)
  {
  }

  /** Get after a successful Create returns the very record Create returned. */
  lemma CreateThenGet(m: Store, valid: string -> bool, body: Option<string>, code: Code, now: Timestamp)
    requires Accepts(valid, body)
    ensures var o := Create(m, valid, body, code, now);
      o.response.Created? && Lookup(o.store, code) == Ok(o.response.record)
  {
  }

  /** A colliding code replaces the record stored under it: the table keeps
      no uniqueness guarantee, and the old counter is lost. */
  lemma CreateOverwritesOnCollision(m: Store, valid: string -> bool, body: Option<string>, code: Code, now: Timestamp)
    requires code in m && Accepts(valid, body)
    ensures var m' := Create(m, valid, body, code, now).store;
      |m'| == |m| && m'[code] == LinkRecord(code, body.value, code, now, now, 0)
  {
    assert m.Keys + {code} == m.Keys;
  }

  /** Get after a successful Update sees the new url and the new time. */
  lemma UpdateThenGet(m: Store, valid: string -> bool, code: Code, body: Option<string>, now: Timestamp)
    requires code in m && Accepts(valid, body)
    ensures var o := Update(m, valid, code, body, now);
      Lookup(o.store, code) == o.response
      && o.response == Ok(m[code].(url := body.value, updatedAt := now))
  {
  }

  /** Get after a Delete answers NotFound, whether or not the code existed. */
  lemma DeleteThenGet(m: Store, code: Code)
    ensures Lookup(Delete(m, code).store, code) == NotFound
  {
  }

  /** The scenario of a fresh table: shorten a url, follow the code twice, and
      the stats show two accesses; a PUT on an unknown code answers NotFound. */
  lemma TwoVisitsScenario(valid: string -> bool, url: string, code: Code, now: Timestamp, other: Code)
    requires url != "" && valid(url) && other != code
    ensures var m := Create(map[], valid, Some(url), code, now).store;
      var m2 := Run(m, valid, Visits(code, 2));
      Lookup(m2, code).Ok? && Lookup(m2, code).record.accessCount == 2
      && Update(m2, valid, other, Some(url), now).response == NotFound
  {
    var m := Create(map[], valid, Some(url), code, now).store;
    VisitsAddN(m, valid, code, 2);
  }
}
