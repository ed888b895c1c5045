/** The proxy as a whole: many requests, one shared cache. */
module Service {
  import opened Instants
  import opened Wire
  import opened Recency
  import opened Inclusion
  import opened Retention
  import opened FanOut
  import opened BoardTransform
  import opened CompactBody
  import opened Proxy
  import opened LockedCache
  import CompactParams
  import Aggregate
  import Expiry

  // -- a sequence of requests --

  /** The cache operations of a sequence of requests. */
  function TraceOf(reqs: seq<Request>): seq<Op> {
    if reqs == [] then []
    else
      var op := OpOf(reqs[|reqs| - 1]);
      TraceOf(reqs[..|reqs| - 1]) + (if op.Some? then [op.value] else [])
  }

  /** What the i-th request of a sequence is answered, the cache having capacity `cap`. */
  function ReplyAt(cap: int, reqs: seq<Request>, i: nat): Response
    requires i < |reqs|
  {
    Respond(reqs[i], CacheAnswer(cap, Run(cap, TraceOf(reqs[..i])), reqs[i]))
  }

  /** The response a request gets when neither upstream nor cache can help. */
  predicate IsFallback(req: Request, resp: Response) {
    Decide(req).LookUp? && resp == Decide(req).onMiss
  }

  lemma TraceSnoc(reqs: seq<Request>, req: Request)
    ensures TraceOf(reqs + [req]) == TraceOf(reqs) + (if OpOf(req).Some? then [OpOf(req).value] else [])
  {
    hide OpOf;
    assert (reqs + [req])[..|reqs|] == reqs;
  }

  lemma {:induction false} TraceAppend(a: seq<Request>, b: seq<Request>)
    ensures TraceOf(a + b) == TraceOf(a) + TraceOf(b)
    decreases |b|
  {
    hide OpOf;
    if b == [] {
      assert a + b == a;
    } else {
      var n := |b| - 1;
      var more := if OpOf(b[n]).Some? then [OpOf(b[n]).value] else [];
      calc {
        TraceOf(a + b);
        { assert a + b == (a + b[..n]) + [b[n]]; TraceSnoc(a + b[..n], b[n]); }
        TraceOf(a + b[..n]) + more;
        { TraceAppend(a, b[..n]); }
        TraceOf(a) + TraceOf(b[..n]) + more;
        { TraceSnoc(b[..n], b[n]); assert b == b[..n] + [b[n]]; }
        TraceOf(a) + TraceOf(b);
      }
    }
  }

  /** The trace is what the handlers do, one request after the other. */
  lemma CacheFollowsTrace(cap: int, reqs: seq<Request>, req: Request)
    ensures Run(cap, TraceOf([])) == []
    ensures Run(cap, TraceOf(reqs + [req])) == CacheAfter(cap, Run(cap, TraceOf(reqs)), req)
  {
    hide OpOf, TraceOf;
    TraceSnoc(reqs, req);
    assert |TraceOf([])| == 0 by { EmptyTrace(); }
    if OpOf(req).Some? {
      RunSnoc(cap, TraceOf(reqs), OpOf(req).value);
    } else {
      assert TraceOf(reqs) + [] == TraceOf(reqs);
    }
  }

  lemma EmptyTrace()
    ensures TraceOf([]) == []
  {
  }

  /** Raising the capacity never costs anyone a hit: for the same requests, upstream outcomes and
      clock readings, each response is the same, or a fallback has become a hit. */
  lemma LargerCacheServesMore(k: int, m: int, reqs: seq<Request>, i: nat)
    requires k <= m && i < |reqs|
    ensures ReplyAt(m, reqs, i) == ReplyAt(k, reqs, i)
         || (IsFallback(reqs[i], ReplyAt(k, reqs, i)) && ReplyAt(m, reqs, i).xCache == Hit)
    ensures ReplyAt(k, reqs, i).xCache == Hit ==> ReplyAt(m, reqs, i) == ReplyAt(k, reqs, i)
  {
    hide DecideStandard, DecideDepartures, CompactParams.ParseStops, Step, Distinct, Subsequences.Subsequence;
    var ops := TraceOf(reqs[..i]);
    CapacityInclusion(k, m, ops);
    var op := OpOf(reqs[i]);
    if op.Some? && op.value.Get? && Find(Run(k, ops), op.value.key).Some? {
      FindInLarger(Run(k, ops), Run(m, ops), op.value.key);
    }
    FreshIsNoHit(reqs[i]);
  }

  /** Only a replayed entry is marked as a hit. */
  lemma FreshIsNoHit(req: Request)
    ensures match Decide(req)
            case LookUp(_, onMiss) => onMiss.xCache != Hit
            case Store(_, _, reply) => reply.xCache != Hit
            case JustReply(reply) => reply.xCache != Hit
  {
  }

  /** On failure the last good response is served: once `good` has stored its response, and until
      the entry expires, a later request for the same key whose upstreams all fail is answered with
      it, as long as nothing else is stored under the key and fewer than `cap` other keys are used. */
  lemma LastGoodIsServed(cap: int, before: seq<Request>, good: Request, after: seq<Request>, bad: Request)
    requires 0 < cap && Decide(good).Store? && Decide(bad).LookUp? && Decide(good).key == Decide(bad).key
    requires forall op :: op in TraceOf(after) ==> !(op.Set? && op.key == Decide(good).key)
    requires forall op :: op in TraceOf(after) && op.Get? ==> op.now <= bad.lookedUpAt
    requires Decide(good).entry.expiresAt == ZERO || bad.lookedUpAt <= Decide(good).entry.expiresAt
    requires |Touched(cap, Run(cap, TraceOf(before + [good])), TraceOf(after), Decide(good).key)| < cap
    ensures ReplyAt(cap, before + [good] + after + [bad], |before| + 1 + |after|) == Replay(bad, Decide(good).entry)
  {
    hide Decide, Run, Replay, Touched, LastSet, Expired, TraceOf;
    var reqs, n := before + [good] + after + [bad], |before| + 1 + |after|;
    var touch := Set(Decide(good).key, Decide(good).entry);
    assert OpOf(good) == Some(touch);
    assert reqs[..n] == before + [good] + after && reqs[n] == bad;
    TraceSnoc(before, good);
    TraceAppend(before + [good], after);
    var ops := TraceOf(before) + [touch];
    LastSetSnoc(TraceOf(before), touch);
    LastSetUnchanged(ops, TraceOf(after), touch.key);
    RetentionGuarantee(cap, TraceOf(before), touch, TraceOf(after), bad.lookedUpAt);
  }

  lemma LastSetSnoc(ops: seq<Op>, op: Op)
    requires op.Set?
    ensures LastSet(ops + [op], op.key) == Some(op.entry)
  {
    assert (ops + [op])[|ops|] == op;
  }

  // -- what a compact request is decided on --

  /** The status codes of the compact endpoint: 400 exactly for invalid stops, 502 exactly when
      every stop asked for failed on every provider and the cache had nothing, 200 otherwise. */
  lemma CompactStatusExactly(req: Request, answer: Option<CacheEntry>)
    requires req.CompactDepartures?
    ensures var status, stops := Respond(req, answer).status, CompactParams.ParseStops(req.stops);
            && (status == 400 <==> stops.None?)
            && (status == 502 <==>
                  && stops.Some?
                  && answer.None?
                  && forall k :: 0 <= k < |stops.value| ==> !Answered(req.feed(k, stops.value[k], CompactParams.Duration(req.duration))))
            && (status == 200 || status == 400 || status == 502)
  {
    hide CompactParams.ParseStops, CompactParams.CacheKey, CompactParams.Clamped, Aggregate.Boards, Aggregate.ResponseOf,
      Aggregate.ExpiryOf, Outcomes, Serves, Fails, WorkersFor, Answered;
    if CompactParams.ParseStops(req.stops).Some? {
      var stops := CompactParams.ParseStops(req.stops).value;
      BoardsServe(WorkersOf(req, stops), CompactParams.Limit(req.limit));
      ThoseExactly(WorkersOf(req, stops));
      FailsByStop(stops, CompactParams.Duration(req.duration), req.feed);
    }
  }

  /** What is said when there is nothing to serve: an error for invalid stops, whatever the cache; and
      when no stop is answered, the cached body under the key of the request, or else an error. */
  lemma CompactFallbackExactly(req: Request, answer: Option<CacheEntry>)
    requires req.CompactDepartures?
    ensures var stops, duration := CompactParams.ParseStops(req.stops), CompactParams.Duration(req.duration);
            var json: Header := map["Content-Type" := ["application/json"]];
            && (stops.None? ==>
                  Decide(req).JustReply? && Respond(req, answer) == Response(400, NoXCache, json, Other("{\"error\":\"bad_request\"}")))
            && (stops.Some? && (forall k :: 0 <= k < |stops.value| ==> !Answered(req.feed(k, stops.value[k], duration))) ==>
                  && Decide(req).LookUp?
                  && Decide(req).key == CompactParams.CacheKey(stops.value, duration, CompactParams.Limit(req.limit))
                  && Respond(req, answer)
                     == match answer
                        case Some(e) => Response(200, Hit, json, e.body)
                        case None => Response(502, NoXCache, json, Other("{\"error\":\"upstream\"}")))
  {
    hide CompactParams.ParseStops, CompactParams.CacheKey, CompactParams.Clamped, Aggregate.Boards, Aggregate.ResponseOf,
      Aggregate.ExpiryOf, Outcomes, Serves, Fails, WorkersFor, Answered;
    if CompactParams.ParseStops(req.stops).Some? {
      var stops := CompactParams.ParseStops(req.stops).value;
      BoardsServe(WorkersOf(req, stops), CompactParams.Limit(req.limit));
      ThoseExactly(WorkersOf(req, stops));
      FailsByStop(stops, CompactParams.Duration(req.duration), req.feed);
    }
  }

  /** The upstreams are asked for the stops of the request, each at its place, for the duration of the
      request, and for nothing else: what they would answer to any other question has no influence. */
  lemma OnlyTheseFetches(req: Request, req': Request)
    requires req.CompactDepartures? && req'.CompactDepartures?
    requires req' == req.(feed := req'.feed)
    requires var stops, duration := CompactParams.ParseStops(req.stops), CompactParams.Duration(req.duration);
             stops.Some? ==> forall k :: 0 <= k < |stops.value| ==> req.feed(k, stops.value[k], duration) == req'.feed(k, stops.value[k], duration)
    ensures Decide(req) == Decide(req') && forall answer :: Respond(req, answer) == Respond(req', answer)
  {
    hide CompactParams.ParseStops, CompactParams.Clamped, DecideDepartures;
    var stops := CompactParams.ParseStops(req.stops);
    if stops.Some? {
      assert WorkersOf(req, stops.value) == WorkersOf(req', stops.value);
    }
  }

  /** Some departure of the response leaves at `t`. */
  ghost predicate Shows(r: CompactResponse, t: int) {
    exists b, d :: 0 <= b < |r.boards| && 0 <= d < |r.boards[b].departures| && r.boards[b].departures[d].time == t
  }

  lemma LatestIsShown(r: CompactResponse)
    requires Aggregate.LatestDeparture(r.boards) != 0
    ensures Shows(r, Aggregate.LatestDeparture(r.boards))
  {
    hide Aggregate.LatestDeparture, Aggregate.LatestRow;
    Aggregate.LatestDepartureIsMaximum(r.boards);
    var b :| 0 <= b < |r.boards| && Aggregate.LatestRow(r.boards[b].departures) == Aggregate.LatestDeparture(r.boards);
    Aggregate.LatestRowPositive(r.boards[b].departures);
    var d :| 0 <= d < |r.boards[b].departures| && r.boards[b].departures[d].time == Aggregate.LatestRow(r.boards[b].departures);
  }

  lemma ShownIsBounded(r: CompactResponse, t: int)
    requires Shows(r, t)
    ensures t <= Aggregate.LatestDeparture(r.boards)
  {
    hide Aggregate.LatestDeparture, Aggregate.LatestRow;
    var b, d :| 0 <= b < |r.boards| && 0 <= d < |r.boards[b].departures| && r.boards[b].departures[d].time == t;
    Aggregate.LatestDepartureIsMaximum(r.boards);
    Aggregate.LatestRowPositive(r.boards[b].departures);
  }

  /** Some departure of the response leaves after `now`. */
  ghost predicate ShowsAfter(r: CompactResponse, now: Instant) {
    exists t :: Shows(r, t) && t > 0 && FromUnix(t) > now
  }

  lemma ExpiresAfterExactly(r: CompactResponse, now: Instant)
    requires now >= ZERO
    ensures Aggregate.ExpiryOf(r.boards) > now <==> ShowsAfter(r, now)
  {
    hide Shows, Aggregate.LatestDeparture;
    var latest := Aggregate.LatestDeparture(r.boards);
    Aggregate.LatestDepartureIsMaximum(r.boards);
    if Aggregate.ExpiryOf(r.boards) > now {
      LatestIsShown(r);
    }
    if ShowsAfter(r, now) {
      var t :| Shows(r, t) && t > 0 && FromUnix(t) > now;
      ShownIsBounded(r, t);
    }
  }

  /** What is decided on the workers' outcomes, when one of them succeeds. */
  lemma WorkersAnswer(req: Request, stops: seq<string>) returns (r: CompactResponse)
    requires req.CompactDepartures? && CompactParams.ParseStops(req.stops) == Some(stops) && req.decidedAt >= ZERO
    requires exists w :: w in WorkersOf(req, stops) && !Fails(w)
    ensures r == Aggregate.ResponseOf(Outcomes(WorkersOf(req, stops)), CompactParams.Limit(req.limit), req.composedAt)
    ensures BodyFor(r, WorkersOf(req, stops), CompactParams.Limit(req.limit), req.composedAt)
    ensures !Decide(req).LookUp? && Decide(req).reply == Response(200, NoXCache, JSON, Compact(r))
    ensures Decide(req).Store? <==> r.partiality == 0 && ShowsAfter(r, req.decidedAt)
    ensures Decide(req).Store? ==>
              && Decide(req).key == CompactParams.CacheKey(stops, CompactParams.Duration(req.duration), CompactParams.Limit(req.limit))
              && Decide(req).entry == CacheEntry(200, map[], Compact(r), Aggregate.ExpiryOf(r.boards))
              && ExpiresWithLast(r.boards, Aggregate.ExpiryOf(r.boards))
  {
    hide CompactParams.ParseStops, CompactParams.CacheKey, CompactParams.Clamped, Aggregate.Boards, Aggregate.Failures,
      Aggregate.Freshest, Aggregate.ExpiryOf, Outcomes, Serves, Fails, WorkersFor, BodyFor, ShowsAfter, ExpiresWithLast;
    var workers, limit := WorkersOf(req, stops), CompactParams.Limit(req.limit);
    r := Aggregate.ResponseOf(Outcomes(workers), limit, req.composedAt);
    BoardsServe(workers, limit);
    ThoseExactly(workers);
    BodyExactly(workers, limit, req.composedAt);
    ExpiresAfterExactly(r, req.decidedAt);
    ExpiryExactly(workers, limit);
  }

  /** A compact request for valid stops of which at least one is answered.  The response is the body
      for exactly these stops, made of what the upstreams answer to each of them.  It is stored under
      the key of the request, to expire with the latest of its boards' last departures, if and only if
      every stop is answered and it shows a departure still to come. */
  lemma CompactAnswerExactly(req: Request, stops: seq<string>, answer: Option<CacheEntry>) returns (r: CompactResponse)
    requires req.CompactDepartures? && CompactParams.ParseStops(req.stops) == Some(stops) && req.decidedAt >= ZERO
    requires exists k :: 0 <= k < |stops| && Answered(req.feed(k, stops[k], CompactParams.Duration(req.duration)))
    ensures BodyFrom(r, stops, CompactParams.Duration(req.duration), req.feed, CompactParams.Limit(req.limit), req.composedAt)
    ensures !Decide(req).LookUp?
    ensures Respond(req, answer) == Response(200, NoXCache, map["Content-Type" := ["application/json"]], Compact(r))
    ensures Decide(req).Store? <==> r.partiality == 0 && ShowsAfter(r, req.decidedAt)
    ensures Decide(req).Store? ==>
              && Decide(req).key == CompactParams.CacheKey(stops, CompactParams.Duration(req.duration), CompactParams.Limit(req.limit))
              && Decide(req).entry == CacheEntry(200, map[], Compact(r), Decide(req).entry.expiresAt)
              && ExpiresWithLast(r.boards, Decide(req).entry.expiresAt)
  {
    hide Decide, CompactParams.ParseStops, CompactParams.CacheKey, CompactParams.Clamped, Aggregate.ResponseOf, Outcomes, Serves,
      Fails, WorkersFor, BodyFor, BodyFrom, ShowsAfter, ExpiresWithLast, Answered;
    FailsByStop(stops, CompactParams.Duration(req.duration), req.feed);
    r := WorkersAnswer(req, stops);
    BodyForIsBodyFrom(r, stops, CompactParams.Duration(req.duration), req.feed, CompactParams.Limit(req.limit), req.composedAt);
  }

  // -- uncacheable requests --

  /** A request whose upstreams gave something to answer with, but nothing to store: a body of a
      dynamic route that mentions no time still to come; a compact body that is partial or shows no
      departure still to come; or stops that are not valid. */
  ghost predicate Uncacheable(req: Request) {
    match req
    case Standard(_, route, outcomes, decidedAt, _) =>
      && route.rule.Some?
      && exists i :: FirstOk(outcomes, i) && outcomes[i].body.Some?
           && forall t :: Expiry.Mentions(route.rule.value, outcomes[i].body.value, t) ==> t <= decidedAt
    case CompactDepartures(raw, rawDuration, limit, feed, composedAt, decidedAt, _) =>
      match CompactParams.ParseStops(raw)
      case None => true
      case Some(stops) =>
        var duration := CompactParams.Duration(rawDuration);
        var r := Aggregate.ResponseOf(Outcomes(WorkersOf(req, stops)), CompactParams.Limit(limit), composedAt);
        && (exists k :: 0 <= k < |stops| && Answered(feed(k, stops[k], duration)))
        && ((exists k :: 0 <= k < |stops| && !Answered(feed(k, stops[k], duration))) || !ShowsAfter(r, decidedAt))
  }

  /** These are exactly the requests that leave the cache alone. */
  lemma UncacheableExactly(req: Request)
    requires req.decidedAt >= ZERO
    ensures Decide(req).JustReply? <==> Uncacheable(req)
  {
    if req.Standard? {
      UncacheableStandard(req);
    } else {
      UncacheableCompact(req);
    }
  }

  lemma UncacheableStandard(req: Request)
    requires req.Standard? && req.decidedAt >= ZERO
    ensures Decide(req).JustReply? <==> Uncacheable(req)
  {
    hide Decide, Expiry.Mentions, NoBody;
    StandardCases(req.outcomes);
    if NoBody(req.outcomes) {
      StandardFallbackExactly(req, None);
    }
    forall i | FirstOk(req.outcomes, i) && req.outcomes[i].body.Some?
      ensures Decide(req).Store? <==>
                req.route.rule.None? || exists t :: Expiry.Mentions(req.route.rule.value, req.outcomes[i].body.value, t) && t > req.decidedAt
      ensures !Decide(req).LookUp?
    {
      StandardSuccessExactly(req, i, None);
    }
  }

  lemma UncacheableCompact(req: Request)
    requires req.CompactDepartures? && req.decidedAt >= ZERO
    ensures Decide(req).JustReply? <==> Uncacheable(req)
  {
    hide Decide, CompactParams.ParseStops, CompactParams.CacheKey, CompactParams.Clamped, Aggregate.ResponseOf, Outcomes,
      Fails, WorkersFor, ShowsAfter, FreshestOf, Serves, Answered;
    if CompactParams.ParseStops(req.stops).None? {
      CompactFallbackExactly(req, None);
    } else {
      var stops := CompactParams.ParseStops(req.stops).value;
      ThoseExactly(WorkersOf(req, stops));
      FailsByStop(stops, CompactParams.Duration(req.duration), req.feed);
      if exists w :: w in WorkersOf(req, stops) && !Fails(w) {
        var r := WorkersAnswer(req, stops);
        assert r.partiality == 0 <==> !exists w :: w in WorkersOf(req, stops) && Fails(w);
      } else {
        CompactFallbackExactly(req, None);
      }
    }
  }

  /** A request that is not cacheable can be dropped from the sequence without any other response
      noticing: older entries stay in place. */
  lemma UncacheableIsInvisible(cap: int, before: seq<Request>, req: Request, after: seq<Request>, i: nat)
    requires Uncacheable(req) && req.decidedAt >= ZERO && i < |after|
    ensures ReplyAt(cap, before + [req] + after, |before| + 1 + i) == ReplyAt(cap, before + after, |before| + i)
  {
    hide Decide, Run, Respond, CacheAnswer, Uncacheable;
    UncacheableExactly(req);
    var x, y := before + [req] + after, before + after;
    assert OpOf(req) == None;
    assert x[..|before| + 1 + i] == before + [req] + after[..i];
    assert y[..|before| + i] == before + after[..i];
    TraceAppend(before + [req], after[..i]);
    TraceAppend(before, after[..i]);
    TraceSnoc(before, req);
    assert TraceOf(before) + [] == TraceOf(before);
  }

  // -- requests in flight together --

  /** Each request is a process of the locked cache, with its one operation. */
  function ProgramOf(reqs: seq<Request>): Program {
    seq(|reqs|, p requires 0 <= p < |reqs| => OpOf(reqs[p]))
  }

  function StateAfter(cap: int, reqs: seq<Request>, schedule: seq<nat>): (s: LockedCache.State)
    ensures |s.pcs| == |reqs|
  {
    LockedCache.After(cap, ProgramOf(reqs), schedule)
  }

  /** Request `p` has been answered from the cache. */
  predicate AnsweredFromCache(cap: int, reqs: seq<Request>, schedule: seq<nat>, p: nat) {
    && p < |reqs|
    && StateAfter(cap, reqs, schedule).pcs[p].Finished?
    && Respond(reqs[p], StateAfter(cap, reqs, schedule).pcs[p].answer).xCache == Hit
  }

  /** The `at`-th request to take the mutex was `q`, which stored `entry` under `key`. */
  ghost predicate StoredBy(s: LockedCache.State, reqs: seq<Request>, at: nat, q: nat, key: Key, entry: CacheEntry) {
    && at < |s.log| && s.log[at] == q < |reqs|
    && Decide(reqs[q]).Store? && Decide(reqs[q]).key == key && Decide(reqs[q]).entry == entry
  }

  lemma HitNeedsAnswer(req: Request, answer: Option<CacheEntry>)
    requires Respond(req, answer).xCache == Hit
    ensures Decide(req).LookUp? && answer.Some? && Respond(req, answer) == Replay(req, answer.value)
  {
    FreshIsNoHit(req);
    hide Decide;
  }

  /** Stale-if-error safety.  In every interleaving, a hit is the answer to a request whose upstreams
      gave nothing; it replays an entry that another request stored under the same key before it in
      lock order; no request in between stored anything under that key; and the entry had not expired
      when it was looked up. */
  lemma StaleIfErrorSafety(cap: int, reqs: seq<Request>, schedule: seq<nat>, p: nat)
      returns (entry: CacheEntry, q: nat, j: nat, i: nat)
    requires AnsweredFromCache(cap, reqs, schedule, p)
    ensures var s := StateAfter(cap, reqs, schedule);
            && Decide(reqs[p]).LookUp?
            && Respond(reqs[p], s.pcs[p].answer) == Replay(reqs[p], entry)
            && StoredBy(s, reqs, j, q, Decide(reqs[p]).key, entry)
            && j < i < |s.log| && s.log[i] == p
            && (forall k :: j < k < i ==> s.log[k] < |reqs| && !(Decide(reqs[s.log[k]]).Store? && Decide(reqs[s.log[k]]).key == Decide(reqs[p]).key))
            && (entry.expiresAt == ZERO || reqs[p].lookedUpAt <= entry.expiresAt)
  {
    hide Decide, Run, Replay, Respond, LastSet, Answer;
    var ops, s := ProgramOf(reqs), StateAfter(cap, reqs, schedule);
    HitNeedsAnswer(reqs[p], s.pcs[p].answer);
    var key := Decide(reqs[p]).key;
    i := AnswersAreSequential(cap, ops, schedule, p);
    var trace := OpsOf(ops, s.log);
    entry := s.pcs[p].answer.value;
    HitIsLastSet(cap, trace, i);
    assert trace[i] == OpOf(reqs[p]).value == Get(key, reqs[p].lookedUpAt);
    j := LastSetIsASet(trace[..i], key);
    q := s.log[j];
    assert trace[j] == OpOf(reqs[q]).value == Set(key, entry);
    forall k | j < k < i
      ensures s.log[k] < |reqs| && !(Decide(reqs[s.log[k]]).Store? && Decide(reqs[s.log[k]]).key == key)
    {
      assert trace[..i][k] == trace[k] == OpOf(reqs[s.log[k]]).value;
    }
  }

  // -- compact hits --

  /** Routing keeps the two kinds of keys apart: no standard request URI is a compact key. */
  ghost predicate RoutedApart(reqs: seq<Request>) {
    forall r :: r in reqs && r.Standard? ==> !(CompactParams.KEY_PREFIX <= r.uri)
  }

  /** Static routes have a cache of their own; these requests are the ones of the other cache. */
  ghost predicate OnlyDynamic(reqs: seq<Request>) {
    forall r :: r in reqs && r.Standard? ==> r.route.rule.Some?
  }

  /** The clock never reads before the zero instant. */
  ghost predicate AfterZero(reqs: seq<Request>) {
    forall r :: r in reqs ==> r.decidedAt >= ZERO
  }

  lemma CompactKeyPrefix(stops: seq<string>, duration: int, limit: int)
    ensures CompactParams.KEY_PREFIX <= CompactParams.CacheKey(stops, duration, limit)
  {
  }

  /** A compact request that looks up or stores does so under the key of its own parameters. */
  lemma CompactKeyOf(req: Request)
    requires req.CompactDepartures? && !Decide(req).JustReply?
    ensures CompactParams.ParseStops(req.stops).Some?
    ensures Decide(req).key == CompactParams.CacheKey(
              CompactParams.ParseStops(req.stops).value, CompactParams.Duration(req.duration), CompactParams.Limit(req.limit))
  {
    hide CompactParams.ParseStops, CompactParams.CacheKey, CompactParams.Clamped, Outcomes, Aggregate.Boards,
      Aggregate.Failures, Aggregate.Freshest, Aggregate.ExpiryOf;
  }

  /** A stored compact entry: the complete body for the stops of the request, expiring with a
      departure it shows. */
  lemma StoredCompact(req: Request, stops: seq<string>)
    requires req.CompactDepartures? && Decide(req).Store? && req.decidedAt >= ZERO
    requires CompactParams.ParseStops(req.stops) == Some(stops)
    ensures var e := Decide(req).entry;
            && e.body == Decide(req).reply.body
            && e.body.Compact?
            && CompleteFor(e.body.board, WorkersOf(req, stops), CompactParams.Limit(req.limit), req.composedAt)
            && e.expiresAt != ZERO
            && e.expiresAt == FromUnix(Aggregate.LatestDeparture(e.body.board.boards))
            && Aggregate.LatestDeparture(e.body.board.boards) != 0
  {
    hide CompactParams.ParseStops, CompactParams.CacheKey, CompactParams.Clamped, Aggregate.LatestDeparture, WorkersFor,
      BodyFor, ExpiresWithLast, ShowsAfter, CompleteFor;
    SomeAnswered(req, stops);
    var r := WorkersAnswer(req, stops);
    CompleteExactly(r, WorkersOf(req, stops), CompactParams.Limit(req.limit), req.composedAt);
    hide Decide;
    ExpiresAfterExactly(r, req.decidedAt);
  }

  /** Something is only stored when a stop was answered. */
  lemma SomeAnswered(req: Request, stops: seq<string>)
    requires req.CompactDepartures? && Decide(req).Store? && CompactParams.ParseStops(req.stops) == Some(stops)
    ensures exists w :: w in WorkersOf(req, stops) && !Fails(w)
  {
    hide CompactParams.ParseStops, CompactParams.CacheKey, CompactParams.Clamped, Aggregate.Boards, Aggregate.Failures,
      Aggregate.Freshest, Aggregate.ExpiryOf, Outcomes, Serves, Fails, WorkersFor;
    var workers := WorkersOf(req, stops);
    BoardsServe(workers, CompactParams.Limit(req.limit));
    ThoseExactly(workers);
  }

  /** `r` is a body with a board for every worker. */
  ghost predicate CompleteFor(r: CompactResponse, workers: seq<Worker>, limit: nat, now: Instant) {
    && r.partiality == 0
    && |r.boards| == |workers|
    && (forall k :: 0 <= k < |workers| ==> Serves(r.boards[k], workers[k], limit))
    && BodyFor(r, workers, limit, now)
  }

  lemma CompleteExactly(r: CompactResponse, workers: seq<Worker>, limit: nat, now: Instant)
    requires BodyFor(r, workers, limit, now) && r.partiality == 0
    ensures CompleteFor(r, workers, limit, now)
  {
    hide Serves, Fails, FreshestOf;
    ThoseExactly(workers);
  }

  /** Compact freshness.  In every interleaving, a compact response served from the cache is the body
      an earlier request for the same stops, duration and limit was answered with.  It has a board for
      each of these stops, in their order, made of what the upstreams answered that request; and it
      shows a departure that has not left at the time of the lookup. */
  lemma CompactHitFreshness(cap: int, reqs: seq<Request>, schedule: seq<nat>, p: nat)
      returns (q: nat, stops: seq<string>, r: CompactResponse, t: int)
    requires AnsweredFromCache(cap, reqs, schedule, p) && reqs[p].CompactDepartures?
    requires RoutedApart(reqs) && AfterZero(reqs)
    ensures Respond(reqs[p], StateAfter(cap, reqs, schedule).pcs[p].answer).body == Compact(r)
    ensures q < |reqs| && reqs[q].CompactDepartures? && Decide(reqs[q]).Store? && Decide(reqs[q]).reply.body == Compact(r)
    ensures CompactParams.ParseStops(reqs[q].stops) == CompactParams.ParseStops(reqs[p].stops) == Some(stops)
    ensures CompactParams.Duration(reqs[q].duration) == CompactParams.Duration(reqs[p].duration)
    ensures CompactParams.Limit(reqs[q].limit) == CompactParams.Limit(reqs[p].limit)
    ensures |r.boards| == |stops|
    ensures forall k :: 0 <= k < |stops| ==>
              BoardFrom(r.boards[k], stops[k], reqs[q].feed(k, stops[k], CompactParams.Duration(reqs[p].duration)), CompactParams.Limit(reqs[p].limit))
    ensures Shows(r, t) && FromUnix(t) >= reqs[p].lookedUpAt
  {
    hide Decide, Respond, CompactParams.ParseStops, CompactParams.CacheKey, CompactParams.Clamped, Aggregate.LatestDeparture,
      Shows, StateAfter, CompleteFor;
    var entry, j, i;
    entry, q, j, i := StaleIfErrorSafety(cap, reqs, schedule, p);
    CompactKeyOf(reqs[p]);
    stops := CompactParams.ParseStops(reqs[p].stops).value;
    CompactKeyPrefix(stops, CompactParams.Duration(reqs[p].duration), CompactParams.Limit(reqs[p].limit));
    if reqs[q].Standard? {
      StandardKeyOf(reqs[q]);
      assert false;
    }
    CompactKeyOf(reqs[q]);
    CompactParams.SameKeySameRequest(reqs[q].stops, reqs[q].duration, reqs[q].limit, reqs[p].stops, reqs[p].duration, reqs[p].limit);
    StoredCompact(reqs[q], stops);
    r := entry.body.board;
    t := Aggregate.LatestDeparture(r.boards);
    LatestIsShown(r);
    CompleteHasBoards(r, stops, CompactParams.Duration(reqs[q].duration), reqs[q].feed, CompactParams.Limit(reqs[q].limit), reqs[q].composedAt);
  }

  lemma CompleteHasBoards(r: CompactResponse, stops: seq<string>, duration: int, feed: Feed, limit: nat, now: Instant)
    requires CompleteFor(r, WorkersFor(stops, duration, feed), limit, now)
    ensures |r.boards| == |stops|
    ensures forall k :: 0 <= k < |stops| ==> BoardFrom(r.boards[k], stops[k], feed(k, stops[k], duration), limit)
  {
    hide Serves, BoardFrom, BodyFor;
    forall k | 0 <= k < |stops|
      ensures BoardFrom(r.boards[k], stops[k], feed(k, stops[k], duration), limit)
    {
      ServesFrom(r.boards[k], WorkersFor(stops, duration, feed)[k], limit);
    }
  }

  lemma StandardKeyOf(req: Request)
    requires req.Standard? && !Decide(req).JustReply?
    ensures Decide(req).key == req.uri
  {
  }

  /** A stored entry of a dynamic route expires with a time its body mentions. */
  lemma StoredStandard(req: Request)
    requires req.Standard? && Decide(req).Store? && req.route.rule.Some?
    ensures var e := Decide(req).entry;
            && e.body == Decide(req).reply.body
            && e.expiresAt != ZERO
            && Expiry.Mentions(req.route.rule.value, e.body, e.expiresAt)
  {
    hide Expiry.Mentions, Expiry.RouteExpiry, Winner;
    Expiry.ExpiryIsLatestMentioned(req.route.rule.value, Decide(req).entry.body);
  }

  /** In every interleaving, a standard response served from the cache is the response an earlier request
      for the same URI was given by the upstreams, status, header and body, but for the mark. */
  lemma StandardHitReplays(cap: int, reqs: seq<Request>, schedule: seq<nat>, p: nat)
      returns (q: nat, i: int)
    requires AnsweredFromCache(cap, reqs, schedule, p) && reqs[p].Standard?
    requires RoutedApart(reqs)
    ensures q < |reqs| && reqs[q].Standard? && reqs[q].uri == reqs[p].uri && Decide(reqs[q]).Store?
    ensures FirstOk(reqs[q].outcomes, i) && reqs[q].outcomes[i].body.Some?
    ensures Respond(reqs[p], StateAfter(cap, reqs, schedule).pcs[p].answer)
         == Response(200, Hit, reqs[q].outcomes[i].header, reqs[q].outcomes[i].body.value)
  {
    hide Decide, CompactParams.CacheKey, StateAfter, Winner, NoBody;
    var entry, j, k;
    entry, q, j, k := StaleIfErrorSafety(cap, reqs, schedule, p);
    StandardKeyOf(reqs[p]);
    if reqs[q].CompactDepartures? {
      CompactKeyOf(reqs[q]);
      CompactKeyPrefix(CompactParams.ParseStops(reqs[q].stops).value, CompactParams.Duration(reqs[q].duration), CompactParams.Limit(reqs[q].limit));
      assert false;
    }
    StandardKeyOf(reqs[q]);
    i := StoredReply(reqs[q]);
  }

  lemma StoredReply(req: Request) returns (i: int)
    requires req.Standard? && Decide(req).Store?
    ensures FirstOk(req.outcomes, i) && req.outcomes[i].body.Some?
    ensures var e := Decide(req).entry;
            e.statusCode == 200 && e.header == req.outcomes[i].header && e.body == req.outcomes[i].body.value
  {
    hide Winner, Expiry.RouteExpiry;
    i := SomeFirst(req.outcomes);
    WinnerExactly(req.outcomes);
  }

  /** Standard freshness.  In every interleaving of the requests that share the dynamic cache, a
      standard response served from it is the body an earlier request for the same URI was answered
      with, and it mentions a time that has not passed at the lookup. */
  lemma StandardHitFreshness(cap: int, reqs: seq<Request>, schedule: seq<nat>, p: nat)
      returns (q: nat, body: Body, t: Instant)
    requires AnsweredFromCache(cap, reqs, schedule, p) && reqs[p].Standard?
    requires RoutedApart(reqs) && OnlyDynamic(reqs)
    ensures Respond(reqs[p], StateAfter(cap, reqs, schedule).pcs[p].answer).body == body
    ensures q < |reqs| && reqs[q].Standard? && reqs[q].uri == reqs[p].uri
    ensures Decide(reqs[q]).Store? && Decide(reqs[q]).reply.body == body
    ensures reqs[q].route.rule.Some? && Expiry.Mentions(reqs[q].route.rule.value, body, t) && t >= reqs[p].lookedUpAt
  {
    hide Decide, Respond, CompactParams.CacheKey, Expiry.Mentions, StateAfter;
    var entry, j, i;
    entry, q, j, i := StaleIfErrorSafety(cap, reqs, schedule, p);
    StandardKeyOf(reqs[p]);
    if reqs[q].CompactDepartures? {
      CompactKeyOf(reqs[q]);
      CompactKeyPrefix(CompactParams.ParseStops(reqs[q].stops).value, CompactParams.Duration(reqs[q].duration), CompactParams.Limit(reqs[q].limit));
      assert false;
    }
    StandardKeyOf(reqs[q]);
    body, t := entry.body, entry.expiresAt;
    StoredStandard(reqs[q]);
  }
}
