/** The URLs the Jaeger query API is called at: the two endpoint paths, the
    endpoint URL built from the agent's base URL, and the query string a
    `ParamBuilder` adds to a request. The HTTP call and the JSON decoding of
    the answer are not modelled; a request is its URL and its query pairs. */
module Api {
  import opened Wrappers
  import Seqs
  import Decimal

  /** Path of the traces endpoint */
  const TRACES: string := "/api/traces"
  /** Path of the services endpoint */
  const SERVICES: string := "/api/services"

  datatype Endpoint = Traces | Services

  /** `Display for Endpoint`: the endpoint's path */
  function Path(e: Endpoint): (p: string)
    ensures |p| > 5 && p[..5] == "/api/"
    ensures e.Traces? <==> p == TRACES
    ensures e.Services? <==> p == SERVICES
  {
    match e
    case Traces => TRACES
    case Services => SERVICES
  }

  /** `endpoint`: the base URL followed directly by the endpoint's path (no
      separator is inserted and none is removed) */
  function EndpointUrl(url: string, e: Endpoint): (r: string)
    ensures |r| == |url| + |Path(e)|
    ensures r[..|url|] == url && r[|url|..] == Path(e)
  {
    url + Path(e)
  }

  /** `s` ends with `suffix` */
  predicate EndsWith(s: string, suffix: string) {
    |suffix| <= |s| && s[|s| - |suffix|..] == suffix
  }

  /** Splits a URL into the base URL and the endpoint whose path ends it */
  function SplitEndpointUrl(u: string): (r: Option<(string, Endpoint)>)
    ensures r.Some? ==> EndpointUrl(r.value.0, r.value.1) == u
    ensures r.None? <==> !EndsWith(u, TRACES) && !EndsWith(u, SERVICES)
  {
    if EndsWith(u, TRACES) then Some((u[..|u| - |TRACES|], Traces))
    else if EndsWith(u, SERVICES) then Some((u[..|u| - |SERVICES|], Services))
    else None
  }

  /** Neither path ends with the other, so an endpoint URL is split at the
      path it was built with */
  lemma SplitEndpointUrlInverse(url: string, e: Endpoint)
    ensures SplitEndpointUrl(EndpointUrl(url, e)) == Some((url, e))
  {
    var u := EndpointUrl(url, e);
    if e.Services? {
      assert u[|u| - |TRACES|..] == SERVICES[|SERVICES| - |TRACES|..];
      assert SERVICES[|SERVICES| - |TRACES|..] != TRACES by {
        assert SERVICES[|SERVICES| - |TRACES|..][0] != TRACES[0];
      }
    }
    assert u[..|u| - |Path(e)|] == url;
  }

  /** Two endpoint URLs are equal only if built from the same base URL and endpoint */
  lemma EndpointUrlInjective(url1: string, e1: Endpoint, url2: string, e2: Endpoint)
    requires EndpointUrl(url1, e1) == EndpointUrl(url2, e2)
    ensures url1 == url2 && e1 == e2
  {
    SplitEndpointUrlInverse(url1, e1);
    SplitEndpointUrlInverse(url2, e2);
  }

  /** `usize` */
  type USize = x: nat | x < 0x1_0000_0000_0000_0000

  /** A request as far as the query string goes: its URL and the query
      pairs added to it, in order. The query encoding of the HTTP client is
      not modelled. */
  datatype Request = Request(url: string, query: seq<(string, string)>)

  /** The HTTP client's `query`: one more pair at the end */
  function Query(req: Request, key: string, value: string): (r: Request)
    ensures r.url == req.url && |r.query| == |req.query| + 1
    ensures r.query[..|req.query|] == req.query && r.query[|req.query|] == (key, value)
  {
    req.(query := req.query + [(key, value)])
  }

  /** `ParamBuilder`: the parameters a query may set */
  datatype ParamBuilder = ParamBuilder(limit: Option<USize>, service: Option<string>, lookback: Option<string>)

  /** `ParamBuilder::new`: no parameter set */
  function NewBuilder(): (b: ParamBuilder)
    ensures b.limit.None? && b.service.None? && b.lookback.None?
  {
    ParamBuilder(None, None, None)
  }

  /** `ParamBuilder::limit` */
  function WithLimit(b: ParamBuilder, limit: Option<USize>): (r: ParamBuilder)
    ensures r.limit == limit && r.service == b.service && r.lookback == b.lookback
  {
    b.(limit := limit)
  }

  /** `ParamBuilder::service` */
  function WithService(b: ParamBuilder, service: Option<string>): (r: ParamBuilder)
    ensures r.service == service && r.limit == b.limit && r.lookback == b.lookback
  {
    b.(service := service)
  }

  /** `ParamBuilder::lookback` */
  function WithLookback(b: ParamBuilder, lookback: Option<string>): (r: ParamBuilder)
    ensures r.lookback == lookback && r.limit == b.limit && r.service == b.service
  {
    b.(lookback := lookback)
  }

  /** Each setter changes its own parameter only: setters of different
      parameters commute, and a second call of one setter overrides the first */
  lemma SettersIndependent(b: ParamBuilder, l: Option<USize>, l': Option<USize>, s: Option<string>, s': Option<string>, lb: Option<string>, lb': Option<string>)
    ensures WithLimit(b, l).service == b.service && WithLimit(b, l).lookback == b.lookback && WithLimit(b, l).limit == l
    ensures WithService(b, s).limit == b.limit && WithService(b, s).lookback == b.lookback && WithService(b, s).service == s
    ensures WithLookback(b, lb).limit == b.limit && WithLookback(b, lb).service == b.service && WithLookback(b, lb).lookback == lb
    ensures WithService(WithLimit(b, l), s) == WithLimit(WithService(b, s), l)
    ensures WithLookback(WithLimit(b, l), lb) == WithLimit(WithLookback(b, lb), l)
    ensures WithLookback(WithService(b, s), lb) == WithService(WithLookback(b, lb), s)
    ensures WithLimit(WithLimit(b, l), l') == WithLimit(b, l')
    ensures WithService(WithService(b, s), s') == WithService(b, s')
    ensures WithLookback(WithLookback(b, lb), lb') == WithLookback(b, lb')
    ensures WithLookback(WithLimit(WithService(NewBuilder(), s), l), lb) == ParamBuilder(l, s, lb)
  {
  }

  /** The keys `Build` adds for `b`, in order */
  function AddedKeys(b: ParamBuilder): seq<string> {
    (if b.service.Some? then ["service"] else [])
    + (if b.limit.Some? then ["limit"] else [])
    + (if b.lookback.Some? then ["lookback"] else [])
  }

  /** No key is added twice */
  lemma AddedKeysDistinct(b: ParamBuilder)
    ensures Seqs.Distinct(AddedKeys(b))
  {
    var ks := AddedKeys(b);
    forall i, j | 0 <= i < j < |ks| ensures ks[i] != ks[j] {
      assert ks[i][0] != ks[j][0] || ks[i][1] != ks[j][1];
    }
  }

  /** The keys of `pairs`, in order */
  function Keys(pairs: seq<(string, string)>): (ks: seq<string>)
    ensures |ks| == |pairs| && forall i | 0 <= i < |pairs| :: ks[i] == pairs[i].0
  {
    seq(|pairs|, i requires 0 <= i < |pairs| => pairs[i].0)
  }

  /** The pair `(key, v)` if `v` is set, else nothing */
  function OptionalPair(key: string, v: Option<string>): seq<(string, string)> {
    if v.Some? then [(key, v.value)] else []
  }

  /** The limit's query value: its decimal form */
  function LimitText(limit: Option<USize>): Option<string> {
    if limit.Some? then Some(Decimal.FromNat(limit.value)) else None
  }

  /** The pairs added for `b`, in the order of `AddedKeys` */
  function AddedPairs(b: ParamBuilder): seq<(string, string)> {
    OptionalPair("service", b.service) + OptionalPair("limit", LimitText(b.limit)) + OptionalPair("lookback", b.lookback)
  }

  lemma AddedPairsFacts(b: ParamBuilder)
    ensures Keys(AddedPairs(b)) == AddedKeys(b)
    ensures forall v :: ("service", v) in AddedPairs(b) <==> b.service == Some(v)
    ensures forall v :: ("limit", v) in AddedPairs(b) <==> b.limit.Some? && v == Decimal.FromNat(b.limit.value)
    ensures forall v :: ("lookback", v) in AddedPairs(b) <==> b.lookback == Some(v)
  {
    var s, l, k := OptionalPair("service", b.service), OptionalPair("limit", LimitText(b.limit)), OptionalPair("lookback", b.lookback);
    assert Keys(s + l + k) == Keys(s) + Keys(l) + Keys(k);
  }

  /** One `if let Some(v) = … { req = req.query(key, v) }` step of `build` */
  function QueryIf(req: Request, key: string, v: Option<string>): (r: Request)
    ensures r.url == req.url && r.query == req.query + OptionalPair(key, v)
  {
    if v.Some? then Query(req, key, v.value) else req
  }

  /** `ParamBuilder::build`: adds `service`, then `limit` in decimal, then
      `lookback`, each only when set, after the pairs already there. What
      the added pairs hold, key by key, is stated by `AddedPairsFacts`,
      `BuildAdds` and `BuildReadsBack` */
  function Build(b: ParamBuilder, req: Request): (r: Request)
    ensures r.url == req.url && r.query == req.query + AddedPairs(b)
  {
    var withService := QueryIf(req, "service", b.service);
    var withLimit := QueryIf(withService, "limit", LimitText(b.limit));
    QueryIf(withLimit, "lookback", b.lookback)
  }

  /** `Build` keeps the request's URL and pairs, and adds one pair for each
      parameter set, with its value, in the order service, limit, lookback */
  lemma BuildAdds(b: ParamBuilder, req: Request)
    ensures var r := Build(b, req);
            && r.url == req.url
            && |req.query| <= |r.query| && r.query[..|req.query|] == req.query
            && Keys(r.query[|req.query|..]) == AddedKeys(b)
            && (forall v :: ("service", v) in r.query[|req.query|..] <==> b.service == Some(v))
            && (forall v :: ("limit", v) in r.query[|req.query|..] <==> b.limit.Some? && v == Decimal.FromNat(b.limit.value))
            && (forall v :: ("lookback", v) in r.query[|req.query|..] <==> b.lookback == Some(v))
  {
    var r := Build(b, req);
    assert r.query[..|req.query|] == req.query;
    assert r.query[|req.query|..] == AddedPairs(b);
    AddedPairsFacts(b);
  }

  /** Building on a fresh builder adds nothing */
  lemma BuildNew(req: Request)
    ensures Build(NewBuilder(), req) == req
  {
    assert Build(NewBuilder(), req).query[|req.query|..] == [];
  }

  /** The value of the first pair whose key is `key` */
  function QueryValue(pairs: seq<(string, string)>, key: string): (r: Option<string>)
    ensures r.Some? <==> exists i | 0 <= i < |pairs| :: pairs[i].0 == key
    ensures r.Some? ==> (key, r.value) in pairs
  {
    match Seqs.FirstIndex(pairs, (p: (string, string)) => p.0 == key)
    case None => None
    case Some(i) => Some(pairs[i].1)
  }

  /** With no key repeated, the value read for a key is the one paired with it */
  lemma QueryValueOfDistinct(pairs: seq<(string, string)>, key: string, v: string)
    requires Seqs.Distinct(Keys(pairs)) && (key, v) in pairs
    ensures QueryValue(pairs, key) == Some(v)
  {
    var i :| 0 <= i < |pairs| && pairs[i] == (key, v);
    var j := Seqs.FirstIndex(pairs, (p: (string, string)) => p.0 == key).value;
    assert Keys(pairs)[i] == Keys(pairs)[j];
  }

  /** How a server would read the parameters back from a query: the first
      value of each key, the limit parsed as a decimal `usize` */
  function ReadParams(pairs: seq<(string, string)>): ParamBuilder {
    var limit :=
      match QueryValue(pairs, "limit")
      case None => None
      case Some(text) =>
        match Decimal.Parse(text)
        case Some(n) => if n < 0x1_0000_0000_0000_0000 then Some(n as USize) else None
        case None => None;
    ParamBuilder(limit, QueryValue(pairs, "service"), QueryValue(pairs, "lookback"))
  }

  /** With no key repeated, the value read for a key is the one paired
      with it, and none when no pair has the key */
  lemma QueryValueIs(pairs: seq<(string, string)>, key: string, v: Option<string>)
    requires Seqs.Distinct(Keys(pairs))
    requires forall w :: (key, w) in pairs <==> v == Some(w)
    ensures QueryValue(pairs, key) == v
  {
    if v.Some? {
      QueryValueOfDistinct(pairs, key, v.value);
    }
  }

  /** The query pairs `Build` adds carry every parameter of the builder and
      nothing else: reading them back gives the builder */
  lemma BuildReadsBack(b: ParamBuilder, req: Request)
    ensures ReadParams(Build(b, req).query[|req.query|..]) == b
  {
    var q := Build(b, req).query[|req.query|..];
    BuildAdds(b, req);
    AddedKeysDistinct(b);
    QueryValueIs(q, "service", b.service);
    QueryValueIs(q, "lookback", b.lookback);
    QueryValueIs(q, "limit", LimitText(b.limit));
    if b.limit.Some? {
      Decimal.ParseFromNat(b.limit.value);
    }
  }

  /** The query options of the command line that `build_parameters` reads */
  datatype QueryOptions = QueryOptions(service: Option<string>, limit: Option<USize>, lookback: Option<string>)

  /** `build_parameters`: adds the options' service, limit and lookback to
      the request, as a server reads them back */
  function BuildParameters(req: Request, app: QueryOptions): (r: Request)
    ensures r.url == req.url
    ensures |req.query| <= |r.query| && r.query[..|req.query|] == req.query
    ensures ReadParams(r.query[|req.query|..]) == ParamBuilder(app.limit, app.service, app.lookback)
  {
    var b := WithLookback(WithLimit(WithService(NewBuilder(), app.service), app.limit), app.lookback);
    BuildReadsBack(b, req);
    Build(b, req)
  }
}
