/** Checking expectations (`pkg/assertion/assertion.go`): the checks that append errors to a shared result, proved
    against the predicate they decide. */
module Assertions {
  import opened Common
  import opened Text

  datatype ResponseExpectation = ResponseExpectation(
    status: int, headers: map<string, string>, bodyContains: string)

  datatype BackendExpectation = BackendExpectation(
    name: string, calls: Option<int>, used: string, perBackend: map<string, int>)

  datatype CacheExpectation = CacheExpectation(hit: Option<bool>, ageGt: Option<int>, ageLt: Option<int>)

  datatype Expectations = Expectations(
    response: ResponseExpectation,
    backend: Option<BackendExpectation>,
    cache: Option<CacheExpectation>,
    cookies: map<string, string>)

  datatype HttpResponse = HttpResponse(status: int, headers: map<string, string>, body: string)

  /** Cookies of the jar for the request's URL; none when there is no jar or no URL. */
  type Jar = Option<map<string, string>>

  /** Which expectation an error reports; the message text is not modelled. */
  datatype Failure =
    | WrongStatus
    | WrongHeader(key: string)
    | BodyLacks
    | NotCalled(backend: string)
    | WrongTotal
    | WrongCalls(backend: string)
    | WrongHit
    | NoAge
    | BadAge
    | AgeTooLow
    | AgeTooHigh
    | NoJar
    | NoCookie(name: string)
    | WrongCookie(name: string)

  // ---------------------------------------------------------------- what is expected

  function Header(r: HttpResponse, key: string): string {
    if key in r.headers then r.headers[key] else ""
  }

  predicate ResponseMet(e: ResponseExpectation, r: HttpResponse) {
    && r.status == e.status
    && (forall key :: key in e.headers ==> Header(r, key) == e.headers[key])
    && (e.bodyContains == "" || Contains(r.body, e.bodyContains))
  }

  function CallsTo(calls: map<string, int>, name: string): int {
    if name in calls then calls[name] else 0
  }

  /** A bare name asks for that backend alone; otherwise every given part must hold. */
  ghost predicate BackendMet(e: BackendExpectation, calls: map<string, int>) {
    if e.name != "" then CallsTo(calls, e.name) != 0
    else
      && (e.used != "" ==> CallsTo(calls, e.used) != 0)
      && (e.calls.Some? ==> Total(calls) == e.calls.value)
      && (forall name :: name in e.perBackend ==> CallsTo(calls, name) == e.perBackend[name])
  }

  /** Two words in X-Varnish, or else a positive Age, mean a cache hit. */
  function CheckIfCached(r: HttpResponse): bool {
    || |Fields(Header(r, "X-Varnish"))| == 2
    || (Atoi(Header(r, "Age")).Some? && Atoi(Header(r, "Age")).value > 0)
  }

  predicate CacheMet(e: CacheExpectation, r: HttpResponse) {
    var age := Atoi(Header(r, "Age"));
    && (e.hit.Some? ==> CheckIfCached(r) == e.hit.value)
    && (e.ageGt.Some? ==> age.Some? && age.value > e.ageGt.value)
    && (e.ageLt.Some? ==> age.Some? && age.value < e.ageLt.value)
  }

  predicate CookiesMet(expected: map<string, string>, jar: Jar) {
    expected != map[] ==>
      jar.Some? && forall name :: name in expected ==> name in jar.value && jar.value[name] == expected[name]
  }

  ghost predicate Meets(e: Expectations, r: HttpResponse, calls: map<string, int>, jar: Jar) {
    && ResponseMet(e.response, r)
    && (e.backend.Some? ==> BackendMet(e.backend.value, calls))
    && (e.cache.Some? ==> CacheMet(e.cache.value, r))
    && CookiesMet(e.cookies, jar)
  }

  // ---------------------------------------------------------------- totals

  /** The sum of the counts, whatever the order they are added in. */
  ghost function Total(calls: map<string, int>): int
    decreases |calls|
  {
    if calls == map[] then 0
    else
      var name :| name in calls;
      calls[name] + Total(calls - {name})
  }

  lemma {:induction false} TotalSplit(calls: map<string, int>, name: string)
    requires name in calls
    ensures Total(calls) == calls[name] + Total(calls - {name})
    decreases |calls|
  {
    var first :| first in calls && Total(calls) == calls[first] + Total(calls - {first});
    if first != name {
      TotalSplit(calls - {first}, name);
      TotalSplit(calls - {name}, first);
      assert calls - {first} - {name} == calls - {name} - {first};
    }
  }

  method TotalCalls(calls: map<string, int>) returns (total: int)
    ensures total == Total(calls)
  {
    total := 0;
    var rest := calls;
    while rest.Keys != {}
      invariant rest.Keys <= calls.Keys && forall name :: name in rest ==> rest[name] == calls[name]
      invariant total + Total(rest) == Total(calls)
      decreases |rest|
    {
      var name := Pick(rest.Keys);
      TotalSplit(rest, name);
      total := total + rest[name];
      rest := rest - {name};
    }
    assert rest == map[];
  }

  // ---------------------------------------------------------------- the checks

  /** The result the checks share.  Every failing check clears `passed` and appends an error, so the two never
      disagree. */
  class Result {
    var passed: bool
    var errors: seq<Failure>

    constructor ()
      ensures passed && errors == []
    {
      passed, errors := true, [];
    }

    ghost predicate Agrees()
      reads this
    {
      passed <==> errors == []
    }

    method Fail(failure: Failure)
      requires Agrees()
      modifies this
      ensures Agrees() && !passed && errors == old(errors) + [failure]
    {
      passed := false;
      errors := errors + [failure];
    }
  }

  method CheckResponse(e: ResponseExpectation, r: HttpResponse, result: Result)
    requires result.Agrees()
    modifies result
    ensures result.Agrees() && result.passed == (old(result.passed) && ResponseMet(e, r))
  {
    if r.status != e.status {
      result.Fail(WrongStatus);
    }
    var rest := e.headers.Keys;
    while rest != {}
      invariant rest <= e.headers.Keys && result.Agrees()
      invariant result.passed == (old(result.passed) && r.status == e.status
                                  && forall key :: key in e.headers.Keys - rest ==> Header(r, key) == e.headers[key])
      decreases rest
    {
      var key := Pick(rest);
      rest := rest - {key};
      if Header(r, key) != e.headers[key] {
        assert key in e.headers.Keys - rest;
        result.Fail(WrongHeader(key));
      }
    }
    if e.bodyContains != "" {
      if !Contains(r.body, e.bodyContains) {
        result.Fail(BodyLacks);
      }
    }
  }

  method CheckBackend(e: BackendExpectation, calls: map<string, int>, result: Result)
    requires result.Agrees()
    modifies result
    ensures result.Agrees() && result.passed == (old(result.passed) && BackendMet(e, calls))
  {
    if e.name != "" {
      if e.name !in calls || calls[e.name] == 0 {
        result.Fail(NotCalled(e.name));
      }
      return;
    }
    if e.used != "" {
      if e.used !in calls || calls[e.used] == 0 {
        result.Fail(NotCalled(e.used));
      }
    }
    if e.calls.Some? {
      var total := TotalCalls(calls);
      if total != e.calls.value {
        result.Fail(WrongTotal);
      }
    }
    ghost var before := result.passed;
    var rest := e.perBackend.Keys;
    while rest != {}
      invariant rest <= e.perBackend.Keys && result.Agrees()
      invariant result.passed == (before && forall name :: name in e.perBackend.Keys - rest ==>
                                                             CallsTo(calls, name) == e.perBackend[name])
      decreases rest
    {
      var name := Pick(rest);
      rest := rest - {name};
      if CallsTo(calls, name) != e.perBackend[name] {
        assert name in e.perBackend.Keys - rest;
        result.Fail(WrongCalls(name));
      }
    }
  }

  method CheckCache(e: CacheExpectation, r: HttpResponse, result: Result)
    requires result.Agrees()
    modifies result
    ensures result.Agrees() && result.passed == (old(result.passed) && CacheMet(e, r))
  {
    if e.hit.Some? && CheckIfCached(r) != e.hit.value {
      result.Fail(WrongHit);
    }
    if e.ageGt.Some? || e.ageLt.Some? {
      var text := Header(r, "Age");
      if text == "" {
        result.Fail(NoAge);
      } else {
        var age := Atoi(text);
        if age.None? {
          result.Fail(BadAge);
        } else {
          if e.ageGt.Some? && age.value <= e.ageGt.value {
            result.Fail(AgeTooLow);
          }
          if e.ageLt.Some? && age.value >= e.ageLt.value {
            result.Fail(AgeTooHigh);
          }
        }
      }
    }
  }

  method CheckCookies(expected: map<string, string>, jar: Jar, result: Result)
    requires result.Agrees() && expected != map[]
    modifies result
    ensures result.Agrees() && result.passed == (old(result.passed) && CookiesMet(expected, jar))
  {
    if jar.None? {
      result.Fail(NoJar);
      return;
    }
    var rest := expected.Keys;
    while rest != {}
      invariant rest <= expected.Keys && result.Agrees()
      invariant result.passed ==
                (old(result.passed) && forall name ::
                   name in expected.Keys - rest ==> name in jar.value && jar.value[name] == expected[name])
      decreases rest
    {
      var name := Pick(rest);
      rest := rest - {name};
      assert name in expected.Keys - rest;
      if name !in jar.value {
        result.Fail(NoCookie(name));
      } else if jar.value[name] != expected[name] {
        result.Fail(WrongCookie(name));
      }
    }
  }

  /** All the checks: the verdict is the full expectation predicate, and it agrees with the errors. */
  method Check(e: Expectations, r: HttpResponse, calls: map<string, int>, jar: Jar)
    returns (passed: bool, errors: seq<Failure>)
    ensures passed <==> Meets(e, r, calls, jar)
    ensures passed <==> errors == []
  {
    var result := new Result();
    CheckResponse(e.response, r, result);
    if e.backend.Some? {
      CheckBackend(e.backend.value, calls, result);
    }
    if e.cache.Some? {
      CheckCache(e.cache.value, r, result);
    }
    if |e.cookies| > 0 {
      CheckCookies(e.cookies, jar, result);
    }
    return result.passed, result.errors;
  }
}
