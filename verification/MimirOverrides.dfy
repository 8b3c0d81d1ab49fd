/** The blocking decision of pkg/gateway/mimir_overrides.go and the validation of its settings. */
module MimirOverrides {
  import opened Common
  import opened ByteStrings
  import RouteMatching
  import opened RoutesMatcher

  /** The settings of one category: reads, writes, ruler or aggregations. */
  datatype Block = Block(block: Option<bool>, message: Str, code: int, retryAfter: Str)

  /** The four categories in the order in which Wrap visits them. */
  datatype Overrides = Overrides(queries: Block, writes: Block, ruler: Block, aggregations: Block)

  const CATEGORIES := 4

  function Category(o: Overrides, i: nat): Block
    requires i < CATEGORIES
  {
    if i == 0 then o.queries else if i == 1 then o.writes else if i == 2 then o.ruler else o.aggregations
  }

  // ----- Loading -----

  /** Go's integer division truncates towards zero. */
  function GoDiv(a: int, b: int): int
    requires b > 0
  {
    if a >= 0 then a / b else -(-a / b)
  }

  predicate BlockingCode(code: int) {
    400 <= code <= 599
  }

  datatype LoadError = BadResponseCode | BadRetryAfter

  datatype Loaded = Accepted(overrides: Overrides) | Rejected(error: LoadError)

  method CheckCode(code: int) returns (ok: bool)
    ensures ok <==> 400 <= code <= 599
  {
    ok := GoDiv(code, 100) == 4 || GoDiv(code, 100) == 5;
  }

  /** The checks after decoding; `sanitize` is sanitizeHTTPRetryAfter, None for its error. */
  method Validate(o: Overrides, sanitize: Str -> Option<Str>) returns (r: Loaded)
    ensures r.Accepted? <==> forall i :: 0 <= i < CATEGORIES ==>
      400 <= Category(o, i).code <= 599 && sanitize(Category(o, i).retryAfter).Some?
    ensures r.Accepted? ==> forall i :: 0 <= i < CATEGORIES ==>
      var c := Category(o, i);
      sanitize(c.retryAfter).Some? && Category(r.overrides, i) == c.(retryAfter := sanitize(c.retryAfter).value)
    ensures r.Rejected? ==>
      (r.error == BadResponseCode <==> exists i :: 0 <= i < CATEGORIES && !BlockingCode(Category(o, i).code))
  {
    for i := 0 to CATEGORIES
      invariant forall j :: 0 <= j < i ==> BlockingCode(Category(o, j).code)
    {
      var ok := CheckCode(Category(o, i).code);
      if !ok {
        return Rejected(BadResponseCode);
      }
    }
    assert Category(o, 0) == o.queries && Category(o, 1) == o.writes;
    assert Category(o, 2) == o.ruler && Category(o, 3) == o.aggregations;
    var queries, writes := sanitize(o.queries.retryAfter), sanitize(o.writes.retryAfter);
    var ruler, aggregations := sanitize(o.ruler.retryAfter), sanitize(o.aggregations.retryAfter);
    if queries.None? || writes.None? || ruler.None? || aggregations.None? {
      return Rejected(BadRetryAfter);
    }
    return Accepted(Overrides(
      o.queries.(retryAfter := queries.value), o.writes.(retryAfter := writes.value),
      o.ruler.(retryAfter := ruler.value), o.aggregations.(retryAfter := aggregations.value)));
  }

  ghost predicate WellLoaded(o: Overrides) {
    forall i :: 0 <= i < CATEGORIES ==> BlockingCode(Category(o, i).code)
  }

  // ----- Deciding -----

  /** The tenant's setting when it has one, otherwise the global one, which defaults to off. */
  predicate Effective(global: Option<bool>, tenant: Option<bool>) {
    if tenant.Some? then tenant.value else global.Some? && global.value
  }

  /** The settings whose message and status answer the request. */
  function Answer(global: Overrides, tenant: Overrides, i: nat): Block
    requires i < CATEGORIES
  {
    if Category(tenant, i).block.Some? then Category(tenant, i) else Category(global, i)
  }

  datatype Decision = Forward | Respond(category: nat, answer: Block)

  ghost predicate Blocks(global: Overrides, tenant: Overrides, routes: seq<seq<Str>>, i: nat, path: Str)
    requires i < CATEGORIES && |routes| == CATEGORIES
  {
    && Effective(Category(global, i).block, Category(tenant, i).block)
    && exists k :: 0 <= k < |routes[i]| && RouteMatching.RouteMatches(routes[i][k], path)
  }

  /** Switched on for the tenant, or globally and not set for the tenant. */
  predicate SwitchedOn(global: Block, tenant: Block) {
    tenant.block == Some(true) || (tenant.block == None && global.block == Some(true))
  }

  ghost predicate SomeMatches(routes: seq<Str>, path: Str) {
    exists k :: 0 <= k < |routes| && RouteMatching.RouteMatches(routes[k], path)
  }

  /** Which settings and which routes decide for each category, field by field. */
  lemma BlocksByField(global: Overrides, tenant: Overrides, routes: seq<seq<Str>>, path: Str)
    requires |routes| == CATEGORIES
    ensures Blocks(global, tenant, routes, 0, path) <==> SwitchedOn(global.queries, tenant.queries) && SomeMatches(routes[0], path)
    ensures Blocks(global, tenant, routes, 1, path) <==> SwitchedOn(global.writes, tenant.writes) && SomeMatches(routes[1], path)
    ensures Blocks(global, tenant, routes, 2, path) <==> SwitchedOn(global.ruler, tenant.ruler) && SomeMatches(routes[2], path)
    ensures Blocks(global, tenant, routes, 3, path) <==>
      SwitchedOn(global.aggregations, tenant.aggregations) && SomeMatches(routes[3], path)
  {
  }

  /** Whose message and status answer: the tenant's if its own setting decided. */
  lemma AnswersByField(global: Overrides, tenant: Overrides)
    ensures Answer(global, tenant, 0) == if tenant.queries.block != None then tenant.queries else global.queries
    ensures Answer(global, tenant, 1) == if tenant.writes.block != None then tenant.writes else global.writes
    ensures Answer(global, tenant, 2) == if tenant.ruler.block != None then tenant.ruler else global.ruler
    ensures Answer(global, tenant, 3) == if tenant.aggregations.block != None then tenant.aggregations else global.aggregations
  {
  }

  ghost predicate GoodMatchers(matchers: seq<Matcher>)
    reads matchers
  {
    |matchers| == CATEGORIES && forall i :: 0 <= i < CATEGORIES ==>
      matchers[i].Valid() && forall k :: 0 <= k < |matchers[i].routes| ==> GoodRoute(matchers[i].routes[k])
  }

  ghost function RoutesOf(matchers: seq<Matcher>): (routes: seq<seq<Str>>)
    reads matchers
    ensures |routes| == |matchers| && forall i :: 0 <= i < |matchers| ==> routes[i] == matchers[i].routes
  {
    seq(|matchers|, i requires 0 <= i < |matchers| reads matchers => matchers[i].routes)
  }

  /** Wrap answers for the first category that is switched on and has a route matching the path
      segment by segment, with that category's own settings; otherwise it forwards. */
  method Wrap(global: Overrides, tenant: Overrides, matchers: seq<Matcher>, path: Str) returns (d: Decision)
    requires GoodMatchers(matchers)
    ensures d.Forward? ==> forall i :: 0 <= i < CATEGORIES ==> !Blocks(global, tenant, RoutesOf(matchers), i, path)
    ensures d.Respond? ==>
      && d.category < CATEGORIES
      && Blocks(global, tenant, RoutesOf(matchers), d.category, path)
      && (forall i :: 0 <= i < d.category ==> !Blocks(global, tenant, RoutesOf(matchers), i, path))
      && d.answer == Answer(global, tenant, d.category)
    ensures WellLoaded(global) && WellLoaded(tenant) && d.Respond? ==> 400 <= d.answer.code <= 599
  {
    for i := 0 to CATEGORIES
      invariant forall j :: 0 <= j < i ==> !Blocks(global, tenant, RoutesOf(matchers), j, path)
    {
      var on := Effective(Category(global, i).block, Category(tenant, i).block);
      if on {
        var found := matchers[i].Match(path);
        FoundSegmentwise(matchers[i].routes, path);
        if found {
          return Respond(i, Answer(global, tenant, i));
        }
      }
    }
    return Forward;
  }
}
