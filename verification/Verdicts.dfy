/** What expectations mean for a response: the cache expectations in the words of the X-Varnish header and the number
    of the Age header (section 5.1 of RFC 9111), and every other expectation on its own. */
module Verdicts {
  import opened Common
  import opened Text
  import opened Assertions

  function HitExpected(hit: bool): CacheExpectation {
    CacheExpectation(Some(hit), None, None)
  }

  /** Two words in X-Varnish are a hit, whatever Age is. */
  lemma TwoWordsAreAHit(r: HttpResponse, s: Spaced, a: string, b: string, hit: bool)
    requires "X-Varnish" in r.headers && r.headers["X-Varnish"] == Spelled(s) && Proper(s) && SpacedWords(s) == [a, b]
    ensures CacheMet(HitExpected(hit), r) <==> hit
  {
    FieldsAreWords(s);
  }

  /** What Age has to say. */
  datatype Age = NoHeader | Number(n: nat) | Garbled(text: string)

  predicate AgeIs(r: HttpResponse, age: Age) {
    match age
    case NoHeader => "Age" !in r.headers
    case Number(n) => n <= MAX_INT && "Age" in r.headers && r.headers["Age"] == Decimal(n)
    case Garbled(text) => NoNumber(text) && "Age" in r.headers && r.headers["Age"] == text
  }

  lemma AgeReads(r: HttpResponse, age: Age)
    requires AgeIs(r, age)
    ensures Atoi(Header(r, "Age")) == if age.Number? then Some(age.n) else None
  {
    match age
    case NoHeader => NoNumberReads("");
    case Number(n) => AtoiDecimal(n);
    case Garbled(text) => NoNumberReads(text);
  }

  /** Without X-Varnish, or with none, one, three or more words in it, Age decides: a number above 0 is a hit, anything
      else is a miss. */
  lemma OtherwiseAgeDecides(r: HttpResponse, s: Spaced, age: Age, hit: bool)
    requires "X-Varnish" !in r.headers || (r.headers["X-Varnish"] == Spelled(s) && Proper(s) && |SpacedWords(s)| != 2)
    requires AgeIs(r, age)
    ensures CacheMet(HitExpected(hit), r) <==> hit == (age.Number? && age.n > 0)
  {
    if "X-Varnish" in r.headers {
      FieldsAreWords(s);
    }
    AgeReads(r, age);
  }

  /** Age bounds are strict, and no bound is met without a number. */
  lemma AgeBounds(r: HttpResponse, age: Age, bound: int)
    requires AgeIs(r, age)
    ensures CacheMet(CacheExpectation(None, Some(bound), None), r) <==> age.Number? && bound < age.n
    ensures CacheMet(CacheExpectation(None, None, Some(bound)), r) <==> age.Number? && age.n < bound
  {
    AgeReads(r, age);
  }

  /** The verdicts of the check: a response that is as expected otherwise passes on the cache alone. */
  method CheckHit(r: HttpResponse, hit: bool) returns (passed: bool)
    ensures passed <==> CacheMet(HitExpected(hit), r)
  {
    var e := Expectations(ResponseExpectation(r.status, map[], ""), None, Some(HitExpected(hit)), map[]);
    var verdict, _ := Check(e, r, map[], None);
    passed := verdict;
  }

  /** One transaction id is a miss, two are a hit. */
  method MissAndHit() returns (miss: bool, hit: bool)
    ensures !miss && hit
  {
    var alone, pair := More("", "32770", End("")), More("", "32770", More(" ", "3", End("")));
    assert Spelled(alone) == "32770" && Spelled(pair) == "32770 3";
    assert SpacedWords(alone) == ["32770"] && SpacedWords(pair) == ["32770", "3"];
    var missed := HttpResponse(200, map["X-Varnish" := "32770"], "");
    var cached := HttpResponse(200, map["X-Varnish" := "32770 3"], "");
    OtherwiseAgeDecides(missed, alone, NoHeader, true);
    TwoWordsAreAHit(cached, pair, "32770", "3", true);
    miss := CheckHit(missed, true);
    hit := CheckHit(cached, true);
  }

  // ---------------------------------------------------------------- one expectation at a time

  function Expecting(response: ResponseExpectation, backend: Option<BackendExpectation>, cookies: map<string, string>)
    : Expectations
  {
    Expectations(response, backend, None, cookies)
  }

  /** The status decides where nothing else is expected. */
  lemma StatusDecides(status: int, r: HttpResponse, calls: map<string, int>, jar: Jar)
    ensures Meets(Expecting(ResponseExpectation(status, map[], ""), None, map[]), r, calls, jar) <==> r.status == status
  {
  }

  /** A missing header counts as empty. */
  lemma HeaderDecides(key: string, value: string, r: HttpResponse, calls: map<string, int>, jar: Jar)
    ensures Meets(Expecting(ResponseExpectation(r.status, map[key := value], ""), None, map[]), r, calls, jar)
            <==> if key in r.headers then r.headers[key] == value else value == ""
  {
    var headers := map[key := value];
    assert key in headers && headers[key] == value;
  }

  lemma BodyDecides(word: string, r: HttpResponse, calls: map<string, int>, jar: Jar)
    ensures Meets(Expecting(ResponseExpectation(r.status, map[], word), None, map[]), r, calls, jar)
            <==> exists before :: OccursAfter(r.body, word, before)
  {
    ContainsExactly(r.body, word);
    if word == "" {
      assert JoinsTo(r.body, "", "", r.body);
      assert OccursAfter(r.body, word, "");
    }
  }

  /** A bare name asks for one call at least of that backend, whatever else is expected of backends. */
  lemma BareNameDecides(
    name: string, e: BackendExpectation, r: HttpResponse, calls: map<string, int>, jar: Jar)
    requires name != "" && e.name == name
    ensures Meets(Expecting(ResponseExpectation(r.status, map[], ""), Some(e), map[]), r, calls, jar)
            <==> name in calls && calls[name] != 0
  {
  }

  /** Without a bare name each part counts: the backend used, the total, and the calls of single backends, where a
      backend not there has none. */
  lemma PartsDecide(
    used: string, total: int, name: string, count: int, r: HttpResponse, a: string, m: int, b: string, n: int, jar: Jar)
    requires used != "" && a != b
    ensures var calls := map[a := m, b := n];
            var response := ResponseExpectation(r.status, map[], "");
            var byUse := Some(BackendExpectation("", None, used, map[]));
            var byTotal := Some(BackendExpectation("", Some(total), "", map[]));
            var byName := Some(BackendExpectation("", None, "", map[name := count]));
            && (Meets(Expecting(response, byUse, map[]), r, calls, jar)
                <==> (used == a && m != 0) || (used == b && n != 0))
            && (Meets(Expecting(response, byTotal, map[]), r, calls, jar) <==> m + n == total)
            && (Meets(Expecting(response, byName, map[]), r, calls, jar)
                <==> count == if name == a then m else if name == b then n else 0)
  {
    var calls := map[a := m, b := n];
    TotalSplit(calls, a);
    TotalSplit(calls - {a}, b);
    assert calls - {a} - {b} == map[];
    var single := map[name := count];
    assert name in single && single[name] == count;
  }

  /** A cookie must be in the jar with that value, and there must be a jar. */
  lemma CookieDecides(name: string, value: string, r: HttpResponse, calls: map<string, int>, jar: Jar)
    ensures Meets(Expecting(ResponseExpectation(r.status, map[], ""), None, map[name := value]), r, calls, jar)
            <==> jar.Some? && name in jar.value && jar.value[name] == value
  {
    var cookies := map[name := value];
    assert name in cookies && cookies[name] == value;
  }
}
