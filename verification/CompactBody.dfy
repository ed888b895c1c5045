/** What a compact response says of the stops asked for: the fan-out and the aggregation together
    (handle_compact_departures.go). */
module CompactBody {
  import opened Instants
  import opened Wire
  import opened StableSort
  import opened BoardTransform
  import opened FanOut
  import opened Aggregate
  import Hafas

  // -- one worker --

  /** Every provider fails the worker. */
  predicate Fails(w: Worker) {
    w.answers.rest.RestFailed? && (w.answers.hafas.None? || w.answers.hafas.value.HafasFailed?)
  }

  /** The departures a worker keeps, in upstream order. */
  function KeptRows(w: Worker): Rows
    requires !Fails(w)
  {
    match w.answers.rest
    case RestFetched(upstream, at) => Kept(upstream.departures, at - PAST_GRACE)
    case RestFailed =>
      var fetch := w.answers.hafas.value;
      HafasKept(fetch.res, fetch.res.jnyL, fetch.at - PAST_GRACE)
  }

  /** The name its upstream gives the stop, or else the ID. */
  function StopName(w: Worker): string
    requires !Fails(w)
  {
    match w.answers.rest
    case RestFetched(upstream, _) => NameOr(FirstName(StopNames(upstream.departures)), w.id)
    case RestFailed => NameOr(FirstName(HafasNames(w.answers.hafas.value.res, w.answers.hafas.value.res.jnyL)), w.id)
  }

  function UpdatedAt(w: Worker): int
    requires !Fails(w)
  {
    match w.answers.rest
    case RestFetched(upstream, _) => upstream.realtimeDataUpdatedAt
    case RestFailed => PlanrtTS(w.answers.hafas.value.res.planrtTS)
  }

  /** The clock when the worker made its board. */
  function MadeAt(w: Worker): Instant
    requires !Fails(w)
  {
    match w.answers.rest
    case RestFetched(_, at) => at
    case RestFailed => w.answers.hafas.value.at
  }

  /** `b` is the worker's board: its own stop, and the first departures of the stable time order of
      the ones it keeps. */
  ghost predicate Serves(b: CompactBoard, w: Worker, limit: nat) {
    && !Fails(w)
    && b.id == w.id
    && b.name == StopName(w)
    && TopOf(KeptRows(w), limit, b.departures)
  }

  lemma OutcomeServes(w: Worker, limit: nat)
    ensures Outcome(w).failed <==> Fails(w)
    ensures !Fails(w) ==>
              && Outcome(w).board.Some?
              && Outcome(w).updatedAt == UpdatedAt(w)
              && Serves(ShownBoard(Outcome(w).board.value, limit), w, limit)
  {
    hide Kept, HafasKept, FirstName, HafasNames, StopNames, SortRows, TopOf, Shown;
    if !Fails(w) {
      SortedCut(KeptRows(w), limit);
    }
  }

  /** A served board shows nothing more than the grace period back of the moment it was made. */
  lemma ServedIsCurrent(b: CompactBoard, w: Worker, limit: nat)
    requires Serves(b, w, limit)
    ensures AllFrom(b.departures, Unix(MadeAt(w) - 30_000_000_000))
  {
    hide Kept, HafasKept, AllFrom, SortRows, Unix, TopOf, FirstName, StopNames, HafasNames;
    SortedCut(KeptRows(w), limit);
    TopIsUnique(KeptRows(w), limit, b.departures, Shown(SortRows(KeptRows(w)), limit));
    match w.answers.rest
    case RestFetched(upstream, at) =>
      BoardsAreCurrent(w.id, upstream, Hafas.StationBoard([], [], [], ""), at);
      CutFrom(SortRows(KeptRows(w)), limit, Unix(at - PAST_GRACE));
    case RestFailed =>
      var fetch := w.answers.hafas.value;
      BoardsAreCurrent(w.id, UpstreamResponse([], 0), fetch.res, fetch.at);
      CutFrom(SortRows(KeptRows(w)), limit, Unix(fetch.at - PAST_GRACE));
  }

  lemma CutFrom(rows: Rows, limit: nat, t: int)
    requires AllFrom(rows, t)
    ensures AllFrom(Shown(rows, limit), t)
  {
  }

  // -- all workers --

  /** The workers that succeed, or those that fail, in order. */
  function Those(workers: seq<Worker>, failing: bool): seq<Worker> {
    if workers == [] then []
    else
      var n := |workers| - 1;
      Those(workers[..n], failing) + (if Fails(workers[n]) == failing then [workers[n]] else [])
  }

  lemma {:induction false} ThoseCount(workers: seq<Worker>)
    ensures |Those(workers, false)| + |Those(workers, true)| == |workers|
    ensures |Those(workers, true)| == 0 ==> Those(workers, false) == workers
  {
    hide Fails;
    if workers == [] {
    } else {
      var n := |workers| - 1;
      ThoseCount(workers[..n]);
      assert workers == workers[..n] + [workers[n]];
    }
  }

  lemma {:induction false} ThoseMembers(workers: seq<Worker>, failing: bool, w: Worker)
    ensures w in Those(workers, failing) <==> w in workers && Fails(w) == failing
  {
    hide Fails;
    if workers == [] {
    } else {
      var n := |workers| - 1;
      ThoseMembers(workers[..n], failing, w);
      assert workers == workers[..n] + [workers[n]];
    }
  }

  /** The two selections part the workers. */
  lemma ThoseExactly(workers: seq<Worker>)
    ensures |Those(workers, false)| + |Those(workers, true)| == |workers|
    ensures forall w :: w in Those(workers, false) <==> w in workers && !Fails(w)
    ensures |Those(workers, false)| == 0 <==> forall w :: w in workers ==> Fails(w)
    ensures |Those(workers, true)| == 0 <==> forall w :: w in workers ==> !Fails(w)
    ensures |Those(workers, true)| == 0 ==> Those(workers, false) == workers
  {
    hide Fails, Those;
    ThoseCount(workers);
    forall w
      ensures w in Those(workers, false) <==> w in workers && !Fails(w)
      ensures w in Those(workers, true) <==> w in workers && Fails(w)
    {
      ThoseMembers(workers, false, w);
      ThoseMembers(workers, true, w);
    }
    assert |Those(workers, false)| > 0 ==> Those(workers, false)[0] in Those(workers, false);
    assert |Those(workers, true)| > 0 ==> Those(workers, true)[0] in Those(workers, true);
  }

  lemma OutcomesSnoc(workers: seq<Worker>)
    requires workers != []
    ensures var n := |workers| - 1; Outcomes(workers)[..n] == Outcomes(workers[..n]) && Outcomes(workers)[n] == Outcome(workers[n])
  {
    hide Outcome;
  }

  /** The boards are the boards of the workers that succeed, in the order of the stops. */
  lemma {:induction false} BoardsServe(workers: seq<Worker>, limit: nat)
    ensures var boards, served := Boards(Outcomes(workers), limit), Those(workers, false);
            |boards| == |served| && forall k :: 0 <= k < |served| ==> Serves(boards[k], served[k], limit)
    ensures Failures(Outcomes(workers)) == |Those(workers, true)|
  {
    hide Serves, Outcome, Outcomes, ShownBoard, Fails;
    if workers == [] {
    } else {
      var n := |workers| - 1;
      BoardsServe(workers[..n], limit);
      OutcomesSnoc(workers);
      OutcomeServes(workers[n], limit);
    }
  }

  /** `asOf` is the latest positive update stamp of the served boards, or else the clock. */
  ghost predicate FreshestOf(served: seq<Worker>, now: Instant, asOf: int)
    requires forall w :: w in served ==> !Fails(w)
  {
    if exists w :: w in served && UpdatedAt(w) > 0 then
      && (exists w :: w in served && UpdatedAt(w) == asOf)
      && (forall w :: w in served ==> UpdatedAt(w) <= asOf)
    else asOf == Unix(now)
  }

  /** `r` is the body for these workers.  Its boards are those of the workers that succeed, in the
      order of the stops, each with its own stop and departures; together with the workers that fail
      they account for every stop; `partial` tells whether any failed, and `asOf` how fresh it is. */
  ghost predicate BodyFor(r: CompactResponse, workers: seq<Worker>, limit: nat, now: Instant) {
    var served, failed := Those(workers, false), Those(workers, true);
    && |r.boards| == |served|
    && (forall k :: 0 <= k < |served| ==> Serves(r.boards[k], served[k], limit))
    && |r.boards| + |failed| == |workers|
    && r.partiality == (if |failed| == 0 then 0 else 1)
    && (forall w :: w in served ==> !Fails(w))
    && FreshestOf(served, now, r.asOf)
  }

  /** The aggregation of the fan-out's results is that body. */
  lemma BodyExactly(workers: seq<Worker>, limit: nat, now: Instant)
    ensures BodyFor(ResponseOf(Outcomes(workers), limit, now), workers, limit, now)
  {
    hide Outcome, Outcomes, Boards, Failures, Freshest, Fails, UpdatedAt, Those, Serves, Unix;
    ThoseExactly(workers);
    BoardsServe(workers, limit);
    FreshestServed(workers);
  }

  lemma {:induction false} FreshestServed(workers: seq<Worker>)
    ensures Freshest(Outcomes(workers)) >= 0
    ensures forall w :: w in Those(workers, false) ==> !Fails(w) && UpdatedAt(w) <= Freshest(Outcomes(workers))
    ensures Freshest(Outcomes(workers)) > 0
        ==> exists w :: w in Those(workers, false) && !Fails(w) && UpdatedAt(w) == Freshest(Outcomes(workers))
  {
    hide Outcome, Outcomes, Fails, UpdatedAt, Serves;
    if workers == [] {
    } else {
      var n := |workers| - 1;
      FreshestServed(workers[..n]);
      OutcomesSnoc(workers);
      OutcomeServes(workers[n], 0);
    }
  }

  /** There is only one such body. */
  lemma BodyIsUnique(r: CompactResponse, r': CompactResponse, workers: seq<Worker>, limit: nat, now: Instant)
    requires BodyFor(r, workers, limit, now) && BodyFor(r', workers, limit, now)
    ensures r == r'
  {
    hide Those, Fails, TopOf, KeptRows, StopName, UpdatedAt;
    var served := Those(workers, false);
    forall k | 0 <= k < |served|
      ensures r.boards[k] == r'.boards[k]
    {
      TopIsUnique(KeptRows(served[k]), limit, r.boards[k].departures, r'.boards[k].departures);
    }
  }

  // -- the body in terms of what the upstreams answered each stop --

  /** Some provider answers. */
  predicate Answered(a: Answers) {
    a.rest.RestFetched? || (a.hafas.Some? && a.hafas.value.HafasFetched?)
  }

  /** `b` is the board of stop `id`, made from what transport.rest answered, or else HAFAS. */
  ghost predicate BoardFrom(b: CompactBoard, id: string, a: Answers, limit: nat) {
    && Answered(a)
    && b.id == id
    && match a.rest
       case RestFetched(upstream, at) =>
         && RestNamed(upstream.departures, id, b.name)
         && TopOf(Kept(upstream.departures, at - 30_000_000_000), limit, b.departures)
       case RestFailed =>
         var res, at := a.hafas.value.res, a.hafas.value.at;
         && HafasNamed(res, res.jnyL, id, b.name)
         && TopOf(HafasKept(res, res.jnyL, at - 30_000_000_000), limit, b.departures)
  }

  /** The update stamp an answer comes with. */
  function StampOf(a: Answers): int
    requires Answered(a)
  {
    match a.rest
    case RestFetched(upstream, _) => upstream.realtimeDataUpdatedAt
    case RestFailed => PlanrtTS(a.hafas.value.res.planrtTS)
  }

  /** How many of the first `k` stops are answered. */
  function AnsweredBefore(stops: seq<string>, duration: int, feed: Feed, k: nat): nat
    requires k <= |stops|
  {
    if k == 0 then 0
    else AnsweredBefore(stops, duration, feed, k - 1) + (if Answered(feed(k - 1, stops[k - 1], duration)) then 1 else 0)
  }

  /** `r` is the body for these stops: each stop that is answered, for the duration asked for, has its
      board, behind those of the answered stops before it; `partial` tells whether a stop is missing;
      and `asOf` is the latest positive stamp, or else the clock. */
  ghost predicate BodyFrom(r: CompactResponse, stops: seq<string>, duration: int, feed: Feed, limit: nat, now: Instant) {
    && |r.boards| == AnsweredBefore(stops, duration, feed, |stops|)
    && (forall k :: 0 <= k < |stops| && Answered(feed(k, stops[k], duration)) ==>
          && AnsweredBefore(stops, duration, feed, k) < |r.boards|
          && BoardFrom(r.boards[AnsweredBefore(stops, duration, feed, k)], stops[k], feed(k, stops[k], duration), limit))
    && (r.partiality == 0 || r.partiality == 1)
    && (r.partiality == 0 <==> forall k :: 0 <= k < |stops| ==> Answered(feed(k, stops[k], duration)))
    && (if exists k :: 0 <= k < |stops| && Answered(feed(k, stops[k], duration)) && StampOf(feed(k, stops[k], duration)) > 0 then
          && (exists k :: 0 <= k < |stops| && Answered(feed(k, stops[k], duration)) && StampOf(feed(k, stops[k], duration)) == r.asOf)
          && (forall k :: 0 <= k < |stops| && Answered(feed(k, stops[k], duration)) ==> StampOf(feed(k, stops[k], duration)) <= r.asOf)
        else r.asOf == Unix(now))
  }

  lemma ServesFrom(b: CompactBoard, w: Worker, limit: nat)
    requires Serves(b, w, limit)
    ensures BoardFrom(b, w.id, w.answers, limit)
    ensures UpdatedAt(w) == StampOf(w.answers)
  {
    hide Kept, HafasKept, TopOf, FirstName, StopNames, HafasNames, RestNamed, HafasNamed;
    match w.answers.rest
    case RestFetched(upstream, at) => RestNamedExactly(upstream.departures, w.id);
    case RestFailed => HafasNamedExactly(w.answers.hafas.value.res, w.answers.hafas.value.res.jnyL, w.id);
  }

  lemma {:induction false} ThoseInOrder(a: seq<Worker>, b: seq<Worker>, failing: bool)
    ensures Those(a + b, failing) == Those(a, failing) + Those(b, failing)
    decreases |b|
  {
    hide Fails;
    if b == [] {
      assert a + b == a;
    } else {
      var n := |b| - 1;
      ThoseInOrder(a, b[..n], failing);
      assert (a + b)[..|a| + n] == a + b[..n];
    }
  }

  /** A worker that succeeds stands behind those that succeed before it. */
  lemma ThosePlace(workers: seq<Worker>, k: nat)
    requires k < |workers| && !Fails(workers[k])
    ensures var j := |Those(workers[..k], false)|; j < |Those(workers, false)| && Those(workers, false)[j] == workers[k]
  {
    hide Fails;
    ThoseInOrder(workers[..k + 1], workers[k + 1..], false);
    assert workers == workers[..k + 1] + workers[k + 1..];
    assert workers[..k + 1][..k] == workers[..k];
  }

  lemma {:induction false} AnsweredCount(stops: seq<string>, duration: int, feed: Feed, k: nat)
    requires k <= |stops|
    ensures AnsweredBefore(stops, duration, feed, k) == |Those(WorkersFor(stops, duration, feed)[..k], false)|
  {
    hide Fails, Answered;
    var workers := WorkersFor(stops, duration, feed);
    if k == 0 {
    } else {
      AnsweredCount(stops, duration, feed, k - 1);
      assert workers[..k][..k - 1] == workers[..k - 1];
      FailsExactly(workers[k - 1]);
    }
  }

  lemma FailsExactly(w: Worker)
    ensures Fails(w) <==> !Answered(w.answers)
  {
  }

  /** The workers of these stops fail where the upstreams do not answer. */
  lemma FailsByStop(stops: seq<string>, duration: int, feed: Feed)
    ensures (exists w :: w in WorkersFor(stops, duration, feed) && !Fails(w))
       <==> exists k :: 0 <= k < |stops| && Answered(feed(k, stops[k], duration))
    ensures (exists w :: w in WorkersFor(stops, duration, feed) && Fails(w))
       <==> exists k :: 0 <= k < |stops| && !Answered(feed(k, stops[k], duration))
  {
    hide Fails, Answered;
    var workers := WorkersFor(stops, duration, feed);
    forall k | 0 <= k < |stops|
      ensures workers[k] in workers && (Fails(workers[k]) <==> !Answered(feed(k, stops[k], duration)))
    {
      FailsExactly(workers[k]);
    }
  }

  /** The body for the workers of these stops is the body for these stops. */
  lemma BodyForIsBodyFrom(r: CompactResponse, stops: seq<string>, duration: int, feed: Feed, limit: nat, now: Instant)
    requires BodyFor(r, WorkersFor(stops, duration, feed), limit, now)
    ensures BodyFrom(r, stops, duration, feed, limit, now)
  {
    hide Fails, Answered, Serves, BoardFrom, UpdatedAt, StampOf, Those, AnsweredBefore;
    var workers := WorkersFor(stops, duration, feed);
    AnsweredCount(stops, duration, feed, |stops|);
    assert workers[..|stops|] == workers;
    ThoseExactly(workers);
    forall k | 0 <= k < |stops|
      ensures workers[k] in workers && workers[k] == Worker(stops[k], feed(k, stops[k], duration))
      ensures Fails(workers[k]) <==> !Answered(feed(k, stops[k], duration))
      ensures !Fails(workers[k]) ==>
                var j := AnsweredBefore(stops, duration, feed, k);
                && j < |r.boards|
                && BoardFrom(r.boards[j], stops[k], feed(k, stops[k], duration), limit)
                && UpdatedAt(workers[k]) == StampOf(feed(k, stops[k], duration))
    {
      FailsExactly(workers[k]);
      if !Fails(workers[k]) {
        AnsweredCount(stops, duration, feed, k);
        ThosePlace(workers, k);
        ServesFrom(r.boards[AnsweredBefore(stops, duration, feed, k)], workers[k], limit);
      }
    }
  }

  // -- when it expires --

  predicate HasDepartures(b: CompactBoard) {
    b.departures != []
  }

  function LastTime(b: CompactBoard): int
    requires HasDepartures(b)
  {
    b.departures[|b.departures| - 1].time
  }

  lemma {:induction false} LatestLastIsMaximum(boards: seq<CompactBoard>)
    ensures LatestLast(boards) >= 0
    ensures forall b :: b in boards && HasDepartures(b) ==> LastTime(b) <= LatestLast(boards)
    ensures LatestLast(boards) > 0 ==> exists b :: b in boards && HasDepartures(b) && LastTime(b) == LatestLast(boards)
  {
    if boards == [] {
    } else {
      var n := |boards| - 1;
      LatestLastIsMaximum(boards[..n]);
      assert boards == boards[..n] + [boards[n]];
      assert LatestLast(boards) == LatestLast(boards[..n]) || (HasDepartures(boards[n]) && LastTime(boards[n]) == LatestLast(boards));
    }
  }

  /** `expiresAt` is the latest of the boards' positive last times, or zero if there are none. */
  ghost predicate ExpiresWithLast(boards: seq<CompactBoard>, expiresAt: Instant) {
    && (forall b :: b in boards && HasDepartures(b) && LastTime(b) > 0 ==> FromUnix(LastTime(b)) <= expiresAt)
    && (expiresAt == ZERO
        || exists b :: b in boards && HasDepartures(b) && LastTime(b) > 0 && FromUnix(LastTime(b)) == expiresAt)
  }

  lemma ExpiryExactly(workers: seq<Worker>, limit: nat)
    ensures var boards := Boards(Outcomes(workers), limit); ExpiresWithLast(boards, ExpiryOf(boards))
  {
    hide Outcome, Outcomes, Boards, LatestDeparture, LatestLast, Those, TopOf, Sorted, HasDepartures, LastTime;
    var boards := Boards(Outcomes(workers), limit);
    BoardsServe(workers, limit);
    forall i | 0 <= i < |boards|
      ensures Sorted(boards[i].departures)
    {
      assert Serves(boards[i], Those(workers, false)[i], limit);
      var omitted := StableTopK(KeptRows(Those(workers, false)[i]), limit, boards[i].departures);
    }
    ExpiryIsLastDeparture(boards);
    LatestLastIsMaximum(boards);
  }
}
