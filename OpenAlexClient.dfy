/** The OpenAlex HTTP client (`lib/openalex/client.ts`): the query
    parameters of each request and how each response status is handled.
    The environment variables and the responses are parameters; the
    request itself is a path under `https://api.openalex.org` and a list
    of parameters in the order they are set. */
module OpenAlexClient {
  import opened Text
  import opened Extract

  const OpenAlexBase := "https://api.openalex.org"

  /** The names of the query parameters the client sets. */
  datatype Param = ApiKey | Mailto | Search | Page | PerPage | Filter | Sort {
    function Name(): string {
      match this
      case ApiKey => "api_key"
      case Mailto => "mailto"
      case Search => "search"
      case Page => "page"
      case PerPage => "per_page"
      case Filter => "filter"
      case Sort => "sort"
    }
  }

  /** Query parameters in insertion order, as `URLSearchParams` writes
      them. */
  type Params = seq<(Param, string)>

  /** A request: a path under the base URL and its query parameters. */
  datatype Request = Request(path: string, params: Params)

  /** `OPENALEX_API_KEY` and `OPENALEX_EMAIL`. */
  datatype Env = Env(apiKey: Option<string>, email: Option<string>)

  /** A JavaScript string is truthy unless absent or empty. */
  predicate Present(s: Option<string>) { s.Some? && s.value != "" }

  /** A JavaScript number is truthy unless absent or zero. */
  predicate NonZero(n: Option<int>) { n.Some? && n.value != 0 }

  /** The names a parameter list sets. */
  function Keys(p: Params): set<Param> {
    if p == [] then {} else {p[0].0} + Keys(p[1..])
  }

  /** The value of the first parameter named `k`. */
  function Lookup(p: Params, k: Param): Option<string>
  {
    if p == [] then None
    else if p[0].0 == k then Some(p[0].1)
    else Lookup(p[1..], k)
  }

  /** A name is found exactly when the list names it, and what is found
      is one of its values. */
  lemma {:induction false} LookupFound(p: Params, k: Param)
    ensures Lookup(p, k).None? <==> k !in Keys(p)
    ensures Lookup(p, k).Some? ==> (k, Lookup(p, k).value) in p
  {
    if p != [] {
      LookupFound(p[1..], k);
    }
  }

  /** Every parameter name occurs once. */
  predicate DistinctKeys(p: Params) {
    p == [] || (p[0].0 !in Keys(p[1..]) && DistinctKeys(p[1..]))
  }

  /** `buildParams`: the API key when there is one, otherwise the contact
      email when there is one; never both. */
  function BuildParams(env: Env): (r: Params)
    ensures DistinctKeys(r)
    ensures Lookup(r, ApiKey) == if Present(env.apiKey) then env.apiKey else None
    ensures Lookup(r, Mailto) == if !Present(env.apiKey) && Present(env.email) then env.email else None
    ensures Keys(r) <= {ApiKey, Mailto} && !(ApiKey in Keys(r) && Mailto in Keys(r))
  {
    if Present(env.apiKey) then [(ApiKey, env.apiKey.value)]
    else if Present(env.email) then [(Mailto, env.email.value)]
    else []
  }

  // ---------------------------------------------------------------------
  // searchWorks
  // ---------------------------------------------------------------------

  /** One clause of the year filter: `publication_year:>n` or
      `publication_year:<n`. */
  datatype YearBound = After(year: int) | Before(year: int)

  function RenderBound(b: YearBound): string {
    match b
    case After(n) => "publication_year:>" + IntToString(n)
    case Before(n) => "publication_year:<" + IntToString(n)
  }

  /** What OpenAlex does with a clause: keeps the works whose year is
      strictly beyond the bound. */
  predicate Admits(b: YearBound, year: int) {
    match b
    case After(n) => year > n
    case Before(n) => year < n
  }

  /** The clauses for `fromYear` and `toYear`; a missing or zero year adds
      none. */
  function YearBounds(fromYear: Option<int>, toYear: Option<int>): (r: seq<YearBound>)
    ensures |r| <= 2
    ensures r == [] <==> !NonZero(fromYear) && !NonZero(toYear)
  {
    (if NonZero(fromYear) then [After(fromYear.value - 1)] else [])
    + (if NonZero(toYear) then [Before(toYear.value + 1)] else [])
  }

  /** The strict bounds one year outside the range make the filter
      inclusive: a year passes every clause exactly when it lies between
      the given years, ends included. */
  lemma YearBoundsInclusive(fromYear: Option<int>, toYear: Option<int>, year: int)
    ensures (forall b :: b in YearBounds(fromYear, toYear) ==> Admits(b, year))
        <==> (NonZero(fromYear) ==> fromYear.value <= year) && (NonZero(toYear) ==> year <= toYear.value)
  {
    var bs := YearBounds(fromYear, toYear);
    if NonZero(fromYear) {
      assert After(fromYear.value - 1) in bs;
    }
    if NonZero(toYear) {
      assert Before(toYear.value + 1) in bs;
    }
  }

  /** The `filter` parameter: the clauses joined with commas, absent when
      there are none. */
  function YearFilter(fromYear: Option<int>, toYear: Option<int>): (r: Option<string>)
    ensures r.None? <==> !NonZero(fromYear) && !NonZero(toYear)
  {
    var bs := YearBounds(fromYear, toYear);
    if |bs| == 0 then None
    else Some(Join(seq(|bs|, i requires 0 <= i < |bs| => RenderBound(bs[i])), ","))
  }

  /** The `sort` parameter for the sort options the search form offers;
      relevance, an empty or an unknown option sends none. */
  function SortParam(sort: Option<string>): (r: Option<string>)
    ensures r.Some? <==> sort.Some? && sort.value in {"cited_by_count", "newest", "oldest"}
    ensures sort == Some("cited_by_count") ==> r == Some("cited_by_count:desc")
    ensures sort == Some("newest") ==> r == Some("publication_date:desc")
    ensures sort == Some("oldest") ==> r == Some("publication_date:asc")
  {
    if !Present(sort) then None
    else match sort.value
      case "cited_by_count" => Some("cited_by_count:desc")
      case "newest" => Some("publication_date:desc")
      case "oldest" => Some("publication_date:asc")
      case _ => None
  }

  function OptionalParam(k: Param, v: Option<string>): Params {
    if v.Some? then [(k, v.value)] else []
  }

  /** The request `searchWorks` sends; `page` and `perPage` default to 1
      and 20: the credentials, the query, the page, the page size, then
      the filter and the sort when present. */
  function SearchRequest(env: Env, query: string, page: Option<int>, perPage: Option<int>,
                         fromYear: Option<int>, toYear: Option<int>, sort: Option<string>): (r: Request)
    ensures r.path == "/works"
    ensures |BuildParams(env)| + 3 <= |r.params| <= |BuildParams(env)| + 5
  {
    Request("/works", BuildParams(env)
      + ([(Search, query), (Page, IntToString(page.GetOr(1))), (PerPage, IntToString(perPage.GetOr(20)))]
         + (OptionalParam(Filter, YearFilter(fromYear, toYear)) + OptionalParam(Sort, SortParam(sort)))))
  }

  /** Looking a name up in two lists put together. */
  lemma {:induction false} LookupAppend(a: Params, b: Params, k: Param)
    ensures Lookup(a + b, k) == if k in Keys(a) then Lookup(a, k) else Lookup(b, k)
  {
    if a != [] {
      assert (a + b)[1..] == a[1..] + b;
      LookupAppend(a[1..], b, k);
    } else {
      assert a + b == b;
    }
  }

  /** Lists with distinct names and no name in common stay distinct when
      put together. */
  lemma {:induction false} DistinctKeysAppend(a: Params, b: Params)
    requires DistinctKeys(a) && DistinctKeys(b) && Keys(a) !! Keys(b)
    ensures DistinctKeys(a + b) && Keys(a + b) == Keys(a) + Keys(b)
  {
    if a == [] {
      assert a + b == b;
    } else {
      assert (a + b)[1..] == a[1..] + b;
      DistinctKeysAppend(a[1..], b);
    }
  }

  /** The optional filter and sort parameters: each named once, and each
      present exactly when it has a value. */
  lemma TailParams(filter: Option<string>, sort: Option<string>)
    ensures var p := OptionalParam(Filter, filter) + OptionalParam(Sort, sort);
            && DistinctKeys(p) && Keys(p) <= {Filter, Sort}
            && Lookup(p, Filter) == filter && Lookup(p, Sort) == sort
  {
    var f := OptionalParam(Filter, filter);
    var t := OptionalParam(Sort, sort);
    DistinctKeysAppend(f, t);
    LookupAppend(f, t, Filter);
    LookupAppend(f, t, Sort);
  }

  /** One parameter put in front of a list. */
  lemma ConsParam(x: (Param, string), p: Params)
    ensures Keys([x] + p) == {x.0} + Keys(p)
    ensures DistinctKeys([x] + p) <==> x.0 !in Keys(p) && DistinctKeys(p)
    ensures forall k :: Lookup([x] + p, k) == if k == x.0 then Some(x.1) else Lookup(p, k)
  {
    assert ([x] + p)[1..] == p;
  }

  /** The query, page and size parameters before the optional ones. */
  lemma FixedParams(query: string, page: string, perPage: string, tail: Params)
    requires DistinctKeys(tail) && Keys(tail) <= {Filter, Sort}
    ensures var p := [(Search, query), (Page, page), (PerPage, perPage)] + tail;
            && DistinctKeys(p) && Keys(p) !! {ApiKey, Mailto}
            && Lookup(p, Search) == Some(query) && Lookup(p, Page) == Some(page)
            && Lookup(p, PerPage) == Some(perPage)
            && Lookup(p, Filter) == Lookup(tail, Filter) && Lookup(p, Sort) == Lookup(tail, Sort)
  {
    var p3 := [(PerPage, perPage)] + tail;
    ConsParam((PerPage, perPage), tail);
    var p2 := [(Page, page)] + p3;
    ConsParam((Page, page), p3);
    ConsParam((Search, query), p2);
    assert [(Search, query), (Page, page), (PerPage, perPage)] + tail == [(Search, query)] + p2;
  }

  /** The credentials put in front of the other parameters. */
  lemma AuthParams(auth: Params, rest: Params)
    requires DistinctKeys(auth) && Keys(auth) <= {ApiKey, Mailto}
    requires DistinctKeys(rest) && Keys(rest) !! {ApiKey, Mailto}
    ensures DistinctKeys(auth + rest)
    ensures forall k :: Lookup(auth + rest, k) == if k == ApiKey || k == Mailto then Lookup(auth, k) else Lookup(rest, k)
  {
    DistinctKeysAppend(auth, rest);
    forall k
      ensures Lookup(auth + rest, k) == if k == ApiKey || k == Mailto then Lookup(auth, k) else Lookup(rest, k)
    {
      LookupAppend(auth, rest, k);
      LookupFound(auth, k);
      LookupFound(rest, k);
    }
  }

  /** Each parameter of a search is set once, and each holds what the
      caller asked for: the credentials of `buildParams`, the query, the
      page and size, and the filter and sort exactly when they apply. */
  lemma SearchRequestParams(env: Env, query: string, page: Option<int>, perPage: Option<int>,
                            fromYear: Option<int>, toYear: Option<int>, sort: Option<string>)
    ensures var p := SearchRequest(env, query, page, perPage, fromYear, toYear, sort).params;
            && DistinctKeys(p)
            && Lookup(p, ApiKey) == Lookup(BuildParams(env), ApiKey)
            && Lookup(p, Mailto) == Lookup(BuildParams(env), Mailto)
            && Lookup(p, Search) == Some(query)
            && Lookup(p, Page) == Some(IntToString(page.GetOr(1)))
            && Lookup(p, PerPage) == Some(IntToString(perPage.GetOr(20)))
            && Lookup(p, Filter) == YearFilter(fromYear, toYear)
            && Lookup(p, Sort) == SortParam(sort)
  {
    var auth := BuildParams(env);
    var filter, sortBy := YearFilter(fromYear, toYear), SortParam(sort);
    var pageText, sizeText := IntToString(page.GetOr(1)), IntToString(perPage.GetOr(20));
    var tail := OptionalParam(Filter, filter) + OptionalParam(Sort, sortBy);
    TailParams(filter, sortBy);
    var rest := [(Search, query), (Page, pageText), (PerPage, sizeText)] + tail;
    FixedParams(query, pageText, sizeText, tail);
    AuthParams(auth, rest);
    assert SearchRequest(env, query, page, perPage, fromYear, toYear, sort).params == auth + rest;
  }

  /** The year clauses of `searchWorks`, pushed one at a time. */
  method YearClauses(fromYear: Option<int>, toYear: Option<int>) returns (filters: seq<string>)
    ensures var bs := YearBounds(fromYear, toYear);
            filters == seq(|bs|, i requires 0 <= i < |bs| => RenderBound(bs[i]))
  {
    filters := [];
    if NonZero(fromYear) {
      filters := filters + [RenderBound(After(fromYear.value - 1))];
    }
    if NonZero(toYear) {
      filters := filters + [RenderBound(Before(toYear.value + 1))];
    }
  }

  /** `searchWorks` up to the fetch: the parameters are set one after the
      other; the result is the request described above. */
  method SearchParams(env: Env, query: string, page: Option<int>, perPage: Option<int>,
                      fromYear: Option<int>, toYear: Option<int>, sort: Option<string>) returns (params: Params)
    ensures params == SearchRequest(env, query, page, perPage, fromYear, toYear, sort).params
  {
    var fixed := [(Search, query), (Page, IntToString(page.GetOr(1))), (PerPage, IntToString(perPage.GetOr(20)))];
    var filters := YearClauses(fromYear, toYear);
    var filter: Params := [];
    if |filters| > 0 {
      filter := [(Filter, Join(filters, ","))];
    }
    var sortBy := SortParam(sort);
    var order: Params := [];
    if sortBy.Some? {
      order := [(Sort, sortBy.value)];
    }
    params := BuildParams(env) + (fixed + (filter + order));
  }

  // ---------------------------------------------------------------------
  // Responses
  // ---------------------------------------------------------------------

  /** A response: its status and its parsed body. */
  datatype Response<T> = Response(status: int, body: T)

  /** `Response.ok`. */
  predicate IsOk(status: int) { 200 <= status <= 299 }

  /** A call either returns a value or throws with a message. */
  datatype Outcome<T> = Returned(value: T) | Thrown(message: string)

  /** The body of a list response: `results`, possibly missing. */
  datatype ListBody = ListBody(results: Option<seq<OaWork>>)

  /** `searchWorks` and `batchGetWorks` after the request: a failed
      status throws, otherwise the results, `[]` when missing. */
  function ListOutcome(resp: Response<ListBody>, what: string): (r: Outcome<seq<OaWork>>)
    ensures r.Thrown? <==> !IsOk(resp.status)
    ensures r.Returned? && resp.body.results.Some? ==> r.value == resp.body.results.value
    ensures r.Returned? && resp.body.results.None? ==> r.value == []
  {
    if !IsOk(resp.status) then Thrown("OpenAlex " + what + " failed: " + IntToString(resp.status))
    else Returned(resp.body.results.GetOr([]))
  }

  /** The request `getWork` sends. */
  function GetWorkRequest(env: Env, openalexId: string): (r: Request)
    ensures r.path == "/works/" + openalexId && r.params == BuildParams(env)
  {
    Request("/works/" + openalexId, BuildParams(env))
  }

  /** `getWork` after the request: not found is no work, any other failed
      status throws, a success is the work. */
  function GetWorkOutcome(resp: Response<OaWork>): (r: Outcome<Option<OaWork>>)
    ensures resp.status == 404 <==> r == Returned(None)
    ensures r.Thrown? <==> resp.status != 404 && !IsOk(resp.status)
    ensures IsOk(resp.status) ==> r == Returned(Some(resp.body))
  {
    if resp.status == 404 then Returned(None)
    else if !IsOk(resp.status) then Thrown("OpenAlex get_work failed: " + IntToString(resp.status))
    else Returned(Some(resp.body))
  }

  // ---------------------------------------------------------------------
  // batchGetWorks
  // ---------------------------------------------------------------------

  const BatchFilterPrefix := "openalex:"

  function MinInt(a: int, b: int): int { if a < b then a else b }

  /** The request `batchGetWorks` sends: none for no ids; otherwise the
      credentials, one filter naming every id, and a page size. */
  function BatchRequest(env: Env, ids: seq<string>): (r: Option<Request>)
    ensures r.None? <==> ids == []
    ensures r.Some? ==> r.value.path == "/works"
  {
    if ids == [] then None
    else Some(Request("/works", BuildParams(env)
      + [(Filter, BatchFilterPrefix + Join(ids, "|")), (PerPage, IntToString(MinInt(|ids|, 100)))]))
  }

  /** A batch request names each parameter once, keeps the credentials of
      `buildParams`, filters on every id separated by `|`, and asks for as
      many results as there are ids, up to 100. */
  lemma BatchRequestParams(env: Env, ids: seq<string>)
    requires ids != []
    ensures var p := BatchRequest(env, ids).value.params;
            && DistinctKeys(p)
            && Lookup(p, ApiKey) == Lookup(BuildParams(env), ApiKey)
            && Lookup(p, Mailto) == Lookup(BuildParams(env), Mailto)
            && Lookup(p, Filter) == Some(BatchFilterPrefix + Join(ids, "|"))
            && Lookup(p, PerPage) == Some(IntToString(MinInt(|ids|, 100)))
  {
    FilterSizeParams(BuildParams(env), BatchFilterPrefix + Join(ids, "|"), IntToString(MinInt(|ids|, 100)));
  }

  /** The credentials followed by a filter and a page size. */
  lemma FilterSizeParams(auth: Params, filter: string, size: string)
    requires DistinctKeys(auth) && Keys(auth) <= {ApiKey, Mailto}
    ensures var p := auth + [(Filter, filter), (PerPage, size)];
            && DistinctKeys(p)
            && Lookup(p, ApiKey) == Lookup(auth, ApiKey) && Lookup(p, Mailto) == Lookup(auth, Mailto)
            && Lookup(p, Filter) == Some(filter) && Lookup(p, PerPage) == Some(size)
  {
    ConsParam((PerPage, size), []);
    ConsParam((Filter, filter), [(PerPage, size)]);
    assert [(Filter, filter)] + [(PerPage, size)] == [(Filter, filter), (PerPage, size)];
    AuthParams(auth, [(Filter, filter), (PerPage, size)]);
  }

  /** The ids can be read back from the batch filter: dropping the prefix
      and splitting on `|` gives the ids, when no id contains `|`. */
  lemma {:induction false} BatchFilterRoundTrip(ids: seq<string>)
    requires ids != []
    requires forall i :: 0 <= i < |ids| ==> '|' !in ids[i]
    ensures SplitChar((BatchFilterPrefix + Join(ids, "|"))[|BatchFilterPrefix|..], '|') == ids
  {
    assert (BatchFilterPrefix + Join(ids, "|"))[|BatchFilterPrefix|..] == Join(ids, "|");
    JoinSplit(ids, '|');
  }
}
