/** The caching handlers (proxy.go, handle_compact_departures.go): what they decide from the upstream
    outcomes alone, and how they use the cache. */
module Proxy {
  import opened Instants
  import opened Wire
  import opened Recency
  import opened Expiry
  import opened BoardTransform
  import opened FanOut
  import opened LruCache
  import CompactParams
  import Aggregate

  /** What one provider of a standard route comes back with; the body may be nil. */
  datatype Outcome = ProviderFailed | ProviderOk(body: Option<Body>, header: Header)

  /** A standard route: its empty answer, and its expiry rule unless it is static. */
  datatype Route = Route(emptyBody: Body, rule: Option<Rule>)

  datatype XCache = NoXCache | Hit | Miss

  datatype Response = Response(status: int, xCache: XCache, header: Header, body: Body)

  /** A request, with everything it will meet outside the cache: what the providers answer, and the
      clock readings when the response is composed, when its expiry is compared, and when the cache is
      looked up. */
  datatype Request =
    | Standard(uri: Key, route: Route, outcomes: seq<Outcome>, decidedAt: Instant, lookedUpAt: Instant)
    | CompactDepartures(stops: string, duration: string, limit: string, feed: Feed,
                        composedAt: Instant, decidedAt: Instant, lookedUpAt: Instant)

  const JSON: Header := map["Content-Type" := ["application/json"]]

  const BAD_REQUEST: Body := Other("{\"error\":\"bad_request\"}")
  const UPSTREAM: Body := Other("{\"error\":\"upstream\"}")

  /** What a handler has decided to do once the upstreams have answered. */
  datatype Action =
    | LookUp(key: Key, onMiss: Response)
    | Store(key: Key, entry: CacheEntry, reply: Response)
    | JustReply(reply: Response)

  /** The first success, or failure. */
  function Winner(outcomes: seq<Outcome>): Outcome {
    if outcomes == [] then ProviderFailed
    else if outcomes[0].ProviderOk? then outcomes[0]
    else Winner(outcomes[1..])
  }

  function DecideStandard(uri: Key, route: Route, outcomes: seq<Outcome>, decidedAt: Instant): Action {
    match Winner(outcomes)
    case ProviderFailed => LookUp(uri, Response(200, Miss, JSON, route.emptyBody))
    case ProviderOk(None, _) => LookUp(uri, Response(200, Miss, JSON, route.emptyBody))
    case ProviderOk(Some(body), header) =>
      var expiresAt := if route.rule.Some? then RouteExpiry(route.rule.value, body) else ZERO;
      var reply := Response(200, NoXCache, header, body);
      if route.rule.None? || (expiresAt != ZERO && expiresAt > decidedAt) then
        Store(uri, CacheEntry(200, header, body, expiresAt), reply)
      else JustReply(reply)
  }

  function DecideDepartures(stops: seq<string>, duration: int, limit: nat, workers: seq<Worker>,
                            composedAt: Instant, decidedAt: Instant): Action {
    var key := CompactParams.CacheKey(stops, duration, limit);
    var results := Outcomes(workers);
    var boards := Aggregate.Boards(results, limit);
    if boards == [] then LookUp(key, Response(502, NoXCache, JSON, UPSTREAM))
    else
      var resp := Aggregate.ResponseOf(results, limit, composedAt);
      var reply := Response(200, NoXCache, JSON, Compact(resp));
      if resp.partiality == 0 && Aggregate.ExpiryOf(boards) > decidedAt then
        Store(key, CacheEntry(200, map[], Compact(resp), Aggregate.ExpiryOf(boards)), reply)
      else JustReply(reply)
  }

  /** The workers of a compact request for the given stops. */
  function WorkersOf(req: Request, stops: seq<string>): seq<Worker>
    requires req.CompactDepartures?
  {
    WorkersFor(stops, CompactParams.Duration(req.duration), req.feed)
  }

  /** The decision: a function of the request alone, whatever the cache holds. */
  function Decide(req: Request): Action {
    match req
    case Standard(uri, route, outcomes, decidedAt, _) => DecideStandard(uri, route, outcomes, decidedAt)
    case CompactDepartures(stops, duration, limit, _, composedAt, decidedAt, _) =>
      match CompactParams.ParseStops(stops)
      case None => JustReply(Response(400, NoXCache, JSON, BAD_REQUEST))
      case Some(ids) =>
        DecideDepartures(ids, CompactParams.Duration(duration), CompactParams.Limit(limit), WorkersOf(req, ids), composedAt, decidedAt)
  }

  /** The one cache operation a request performs, if any. */
  function OpOf(req: Request): Option<Op> {
    match Decide(req)
    case LookUp(key, _) => Some(Get(key, req.lookedUpAt))
    case Store(key, entry, _) => Some(Set(key, entry))
    case JustReply(_) => None
  }

  /** A cached entry replayed: the standard handler repeats its status and header, the compact one
      its body only. */
  function Replay(req: Request, entry: CacheEntry): Response {
    if req.Standard? then Response(entry.statusCode, Hit, entry.header, entry.body)
    else Response(200, Hit, JSON, entry.body)
  }

  /** The response, given what the cache answered. */
  function Respond(req: Request, answer: Option<CacheEntry>): Response {
    match Decide(req)
    case LookUp(_, onMiss) => if answer.Some? then Replay(req, answer.value) else onMiss
    case Store(_, _, reply) => reply
    case JustReply(reply) => reply
  }

  /** The cache after a request, and what the cache answered it. */
  function CacheAfter(cap: int, l: Recency, req: Request): Recency {
    match OpOf(req)
    case None => l
    case Some(op) => Step(cap, l, op)
  }

  function CacheAnswer(cap: int, l: Recency, req: Request): Option<CacheEntry> {
    match OpOf(req)
    case Some(Get(key, now)) => Answer(cap, l, key, now)
    case _ => None
  }

  // -- what a standard request is answered, provider by provider --

  /** The i-th provider is the first to succeed. */
  ghost predicate FirstOk(outcomes: seq<Outcome>, i: int) {
    0 <= i < |outcomes| && outcomes[i].ProviderOk? && forall j :: 0 <= j < i ==> outcomes[j].ProviderFailed?
  }

  /** The providers give no body: all fail, or the first to succeed gives a nil one. */
  ghost predicate NoBody(outcomes: seq<Outcome>) {
    (forall i :: 0 <= i < |outcomes| ==> outcomes[i].ProviderFailed?)
    || exists i :: FirstOk(outcomes, i) && outcomes[i].body.None?
  }

  lemma {:induction false} WinnerExactly(outcomes: seq<Outcome>)
    ensures forall i :: FirstOk(outcomes, i) ==> Winner(outcomes) == outcomes[i]
    ensures (forall i :: 0 <= i < |outcomes| ==> outcomes[i].ProviderFailed?) <==> Winner(outcomes) == ProviderFailed
  {
    if outcomes == [] {
    } else {
      WinnerExactly(outcomes[1..]);
      forall i | FirstOk(outcomes, i)
        ensures Winner(outcomes) == outcomes[i]
      {
        if i > 0 {
          assert FirstOk(outcomes[1..], i - 1);
        }
      }
      assert forall i :: 1 <= i < |outcomes| ==> outcomes[i] == outcomes[1..][i - 1];
    }
  }

  lemma {:induction false} SomeFirst(outcomes: seq<Outcome>) returns (i: nat)
    requires Winner(outcomes).ProviderOk?
    ensures FirstOk(outcomes, i)
  {
    if outcomes[0].ProviderOk? {
      i := 0;
    } else {
      i := SomeFirst(outcomes[1..]);
      i := i + 1;
    }
  }

  /** With a body from the first provider to succeed, the response is that body with its header.  It is
      stored, under the request's URI, if the route is static, never to expire, or if the body mentions
      a time still to come, to expire with the latest it mentions. */
  lemma StandardSuccessExactly(req: Request, i: int, answer: Option<CacheEntry>)
    requires req.Standard? && req.decidedAt >= ZERO && FirstOk(req.outcomes, i) && req.outcomes[i].body.Some?
    ensures var body, header, rule := req.outcomes[i].body.value, req.outcomes[i].header, req.route.rule;
            && !Decide(req).LookUp?
            && Respond(req, answer) == Response(200, NoXCache, header, body)
            && (Decide(req).Store? <==> rule.None? || exists t :: Mentions(rule.value, body, t) && t > req.decidedAt)
            && (Decide(req).Store? ==>
                  && Decide(req).key == req.uri
                  && Decide(req).entry == CacheEntry(200, header, body, Decide(req).entry.expiresAt)
                  && (rule.None? ==> Decide(req).entry.expiresAt == ZERO)
                  && (rule.Some? ==>
                        && Mentions(rule.value, body, Decide(req).entry.expiresAt)
                        && forall t :: Mentions(rule.value, body, t) ==> t <= Decide(req).entry.expiresAt))
  {
    hide Mentions, RouteExpiry, Winner;
    WinnerExactly(req.outcomes);
    if req.route.rule.Some? {
      CacheableExactly(req.route.rule.value, req.outcomes[i].body.value, req.decidedAt);
      ExpiryIsLatestMentioned(req.route.rule.value, req.outcomes[i].body.value);
    }
  }

  /** With no body from the providers, the cached entry under the URI is replayed, or else the route's
      empty answer is given. */
  lemma StandardFallbackExactly(req: Request, answer: Option<CacheEntry>)
    requires req.Standard? && NoBody(req.outcomes)
    ensures Decide(req).LookUp? && Decide(req).key == req.uri
    ensures Respond(req, answer)
         == match answer
            case Some(e) => Response(e.statusCode, Hit, e.header, e.body)
            case None => Response(200, Miss, map["Content-Type" := ["application/json"]], req.route.emptyBody)
  {
    hide Winner;
    WinnerExactly(req.outcomes);
  }

  /** Every standard request is in one of the two cases. */
  lemma StandardCases(outcomes: seq<Outcome>)
    ensures NoBody(outcomes) <==> !exists i :: FirstOk(outcomes, i) && outcomes[i].body.Some?
  {
    hide Winner;
    WinnerExactly(outcomes);
    if Winner(outcomes).ProviderOk? {
      var i := SomeFirst(outcomes);
    }
  }

  // -- the handlers, on the cache object --

  method FirstSuccess(outcomes: seq<Outcome>) returns (body: Option<Body>, header: Header)
    ensures match Winner(outcomes)
            case ProviderFailed => body == None
            case ProviderOk(b, h) => body == b && header == h
    ensures forall i :: FirstOk(outcomes, i) ==> body == outcomes[i].body && header == outcomes[i].header
    ensures (forall i :: 0 <= i < |outcomes| ==> outcomes[i].ProviderFailed?) ==> body == None
  {
    WinnerExactly(outcomes);
    body, header := None, map[];
    var i := 0;
    while i < |outcomes|
      invariant i <= |outcomes| && body == None
      invariant Winner(outcomes) == Winner(outcomes[i..])
    {
      if outcomes[i].ProviderOk? {
        return outcomes[i].body, outcomes[i].header;
      }
      i := i + 1;
    }
  }

  /** `newStandardHandler` with `serveFallback`. */
  method ServeStandard(cache: Cache, uri: Key, route: Route, outcomes: seq<Outcome>, decidedAt: Instant, lookedUpAt: Instant)
    returns (resp: Response)
    requires cache.Valid()
    modifies cache.Repr
    ensures cache.Valid() && fresh(cache.Repr - old(cache.Repr))
    ensures var req := Standard(uri, route, outcomes, decidedAt, lookedUpAt);
            && cache.Contents == CacheAfter(cache.cap, old(cache.Contents), req)
            && resp == Respond(req, CacheAnswer(cache.cap, old(cache.Contents), req))
  {
    hide AfterGet, AfterSet, Answer, RouteExpiry, RouteTimes, Winner, Cache.Valid;
    var body, header := FirstSuccess(outcomes);
    if body == None {
      var entry := cache.Get(uri, lookedUpAt);
      if entry.Some? {
        return Response(entry.value.statusCode, Hit, entry.value.header, entry.value.body);
      }
      return Response(200, Miss, JSON, route.emptyBody);
    }
    var expiresAt := ZERO;
    if route.rule.Some? {
      expiresAt := ComputeExpiry(route.rule.value, body.value);
    }
    if route.rule.None? || (expiresAt != ZERO && expiresAt > decidedAt) {
      cache.Set(uri, CacheEntry(200, header, body.value, expiresAt));
    }
    return Response(200, NoXCache, header, body.value);
  }

  method FetchCompactBoard(id: string, fetch: RestFetch) returns (r: FetchResult)
    ensures r == FromRest(id, fetch)
  {
    hide BoardOf;
    if fetch.RestFailed? {
      return FetchResult(None, 0, true);
    }
    var board := TransformCompactBoard(id, fetch.upstream, fetch.at);
    r := FetchResult(Some(board), fetch.upstream.realtimeDataUpdatedAt, false);
  }

  method FetchCompactBoardFromHafas(id: string, fetch: HafasFetch) returns (r: FetchResult)
    ensures r == FromHafas(id, fetch)
  {
    hide HafasBoardOf;
    if fetch.HafasFailed? {
      return FetchResult(None, 0, true);
    }
    var board := TransformHafasCompactBoard(id, fetch.res, fetch.at);
    r := FetchResult(Some(board), PlanrtTS(fetch.res.planrtTS), false);
  }

  /** One worker per stop, run one after the other; by schedule independence any interleaving leaves
      the same array. */
  method RunWorkers(stops: seq<string>, duration: int, feed: Feed) returns (results: seq<FetchResult>)
    ensures results == Outcomes(WorkersFor(stops, duration, feed))
    ensures |results| == |stops|
    ensures forall k :: 0 <= k < |stops| ==>
              match feed(k, stops[k], duration)
              case Answers(RestFetched(upstream, at), _) =>
                results[k] == FetchResult(Some(BoardOf(stops[k], upstream, at)), upstream.realtimeDataUpdatedAt, false)
              case Answers(RestFailed, Some(HafasFetched(res, at))) =>
                results[k] == FetchResult(Some(HafasBoardOf(stops[k], res, at)), PlanrtTS(res.planrtTS), false)
              case _ => results[k] == FetchResult(None, 0, true)
  {
    hide BoardOf, HafasBoardOf;
    var slots := new FetchResult[|stops|](i => ZERO_RESULT);
    for i := 0 to |stops|
      invariant forall j :: 0 <= j < i ==> slots[j] == FanOut.Outcome(WorkersFor(stops, duration, feed)[j])
    {
      var answers := feed(i, stops[i], duration);
      var local := FetchCompactBoard(stops[i], answers.rest);
      if local.failed && answers.hafas.Some? {
        local := FetchCompactBoardFromHafas(stops[i], answers.hafas.value);
      }
      slots[i] := local;
    }
    results := slots[..];
  }

  lemma OutcomesSound(workers: seq<Worker>)
    ensures Aggregate.Sound(Outcomes(workers))
  {
    hide BoardOf, HafasBoardOf;
  }

  /** `handleCompactDepartures`. */
  method ServeDepartures(cache: Cache, stops: string, duration: string, limit: string, feed: Feed,
                         composedAt: Instant, decidedAt: Instant, lookedUpAt: Instant) returns (resp: Response)
    requires cache.Valid()
    modifies cache.Repr
    ensures cache.Valid() && fresh(cache.Repr - old(cache.Repr))
    ensures var req := CompactDepartures(stops, duration, limit, feed, composedAt, decidedAt, lookedUpAt);
            && cache.Contents == CacheAfter(cache.cap, old(cache.Contents), req)
            && resp == Respond(req, CacheAnswer(cache.cap, old(cache.Contents), req))
  {
    hide AfterGet, AfterSet, Answer, CompactParams.ParseStops, CompactParams.CacheKey, CompactParams.Clamped, Outcomes,
      Aggregate.Boards, Aggregate.Failures, Aggregate.Freshest, Aggregate.ExpiryOf, Cache.Valid;
    var parsed := CompactParams.ParseCompactStops(stops);
    if parsed.None? {
      return Response(400, NoXCache, JSON, BAD_REQUEST);
    }
    var max := CompactParams.Limit(limit);
    var key := CompactParams.CacheKey(parsed.value, CompactParams.Duration(duration), max);
    var results := RunWorkers(parsed.value, CompactParams.Duration(duration), feed);
    OutcomesSound(WorkersFor(parsed.value, CompactParams.Duration(duration), feed));
    var boards, asOf, failed := Aggregate.Collect(results, max);
    if |boards| == 0 {
      var entry := cache.Get(key, lookedUpAt);
      if entry.Some? {
        return Response(200, Hit, JSON, entry.value.body);
      }
      return Response(502, NoXCache, JSON, UPSTREAM);
    }
    if asOf == 0 {
      asOf := Unix(composedAt);
    }
    var partiality := 0;
    if failed {
      partiality := 1;
    }
    var body := Compact(CompactResponse(asOf, partiality, boards));
    if partiality == 0 {
      var expiresAt := Aggregate.CompactCacheExpiry(boards);
      if expiresAt > decidedAt {
        cache.Set(key, CacheEntry(200, map[], body, expiresAt));
      }
    }
    return Response(200, NoXCache, JSON, body);
  }
}
