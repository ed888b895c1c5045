/** The fan-out of the compact endpoint: one goroutine per stop, each writing its own slot of a
    shared array, and a wait group (handle_compact_departures.go).  Every interleaving is a schedule,
    a sequence of worker numbers. */
module FanOut {
  import opened Instants
  import opened Wire
  import opened BoardTransform
  import Hafas

  /** What a fetch comes back with, and the clock reading at its transform. */
  datatype RestFetch = RestFailed | RestFetched(upstream: UpstreamResponse, at: Instant)
  datatype HafasFetch = HafasFailed | HafasFetched(res: Hafas.StationBoard, at: Instant)

  /** What the providers answer one worker: transport.rest first, HAFAS (if configured) on failure. */
  datatype Answers = Answers(rest: RestFetch, hafas: Option<HafasFetch>)

  /** One worker: the stop it asks for, and what it is answered. */
  datatype Worker = Worker(id: string, answers: Answers)

  /** A slot of the array; the zero value has neither board nor error. */
  datatype FetchResult = FetchResult(board: Option<CompactBoard>, updatedAt: int, failed: bool)

  datatype Phase =
    | Started
    | RestDone(local: FetchResult)
    | HafasDone(local: FetchResult)
    | Written
    | Done

  /** `writes` records which worker wrote which slot; `counter` is the wait group's. */
  datatype State = State(phases: seq<Phase>, results: seq<FetchResult>, counter: int, writes: seq<(nat, nat)>)

  const ZERO_RESULT := FetchResult(None, 0, false)

  /** `fetchCompactBoard`. */
  function FromRest(id: string, f: RestFetch): FetchResult {
    match f
    case RestFailed => FetchResult(None, 0, true)
    case RestFetched(upstream, at) => FetchResult(Some(BoardOf(id, upstream, at)), upstream.realtimeDataUpdatedAt, false)
  }

  /** `fetchCompactBoardFromHAFAS`. */
  function FromHafas(id: string, f: HafasFetch): FetchResult {
    match f
    case HafasFailed => FetchResult(None, 0, true)
    case HafasFetched(res, at) => FetchResult(Some(HafasBoardOf(id, res, at)), PlanrtTS(res.planrtTS), false)
  }

  /** The worker goes on to HAFAS. */
  predicate FallsBack(w: Worker) {
    w.answers.rest.RestFailed? && w.answers.hafas.Some?
  }

  /** What a worker computes when it runs alone. */
  function Outcome(w: Worker): FetchResult {
    if FallsBack(w) then FromHafas(w.id, w.answers.hafas.value) else FromRest(w.id, w.answers.rest)
  }

  /** What the providers would answer the worker at each place, for each stop and duration it could
      ask for. */
  type Feed = (nat, string, int) -> Answers

  /** One worker per stop, in order, each asking for its own stop and the given duration. */
  function WorkersFor(stops: seq<string>, duration: int, feed: Feed): seq<Worker> {
    seq(|stops|, i requires 0 <= i < |stops| => Worker(stops[i], feed(i, stops[i], duration)))
  }

  function Initial(workers: seq<Worker>): State {
    State(seq(|workers|, i => Started), seq(|workers|, i => ZERO_RESULT), |workers|, [])
  }

  /** The next step of worker `i`; a finished worker has none. */
  function Advance(workers: seq<Worker>, s: State, i: nat): State
    requires i < |workers| == |s.phases| == |s.results|
  {
    var w := workers[i];
    match s.phases[i]
    case Started => s.(phases := s.phases[i := RestDone(FromRest(w.id, w.answers.rest))])
    case RestDone(local) =>
      if local.failed && w.answers.hafas.Some? then
        s.(phases := s.phases[i := HafasDone(FromHafas(w.id, w.answers.hafas.value))])
      else Write(s, i, local)
    case HafasDone(local) => Write(s, i, local)
    case Written => s.(phases := s.phases[i := Done], counter := s.counter - 1)
    case Done => s
  }

  function Write(s: State, i: nat, local: FetchResult): State
    requires i < |s.phases| == |s.results|
  {
    State(s.phases[i := Written], s.results[i := local], s.counter, s.writes + [(i, i)])
  }

  function After(workers: seq<Worker>, schedule: seq<nat>): (s: State)
    ensures |s.phases| == |s.results| == |workers|
  {
    if schedule == [] then Initial(workers)
    else
      var s, i := After(workers, schedule[..|schedule| - 1]), schedule[|schedule| - 1];
      if i < |workers| then Advance(workers, s, i) else s
  }

  // -- the invariant --

  function Unfinished(phases: seq<Phase>): nat {
    if phases == [] then 0
    else Unfinished(phases[..|phases| - 1]) + (if phases[|phases| - 1].Done? then 0 else 1)
  }

  lemma {:induction false} UnfinishedUpdate(phases: seq<Phase>, i: nat, phase: Phase)
    requires i < |phases|
    ensures Unfinished(phases[i := phase])
         == Unfinished(phases) + (if phase.Done? then 0 else 1) - (if phases[i].Done? then 0 else 1)
  {
    var n := |phases| - 1;
    if i < n {
      UnfinishedUpdate(phases[..n], i, phase);
      assert phases[i := phase][..n] == phases[..n][i := phase];
    } else {
      assert phases[i := phase][..n] == phases[..n];
    }
  }

  lemma {:induction false} NoneUnfinished(phases: seq<Phase>)
    ensures Unfinished(phases) == 0 <==> forall i :: 0 <= i < |phases| ==> phases[i].Done?
  {
    if phases == [] {
    } else {
      NoneUnfinished(phases[..|phases| - 1]);
    }
  }

  predicate HasWritten(phase: Phase) {
    phase.Written? || phase.Done?
  }

  /** Worker `i` and its slot: the zero value before the write, the worker's own outcome after it. */
  ghost predicate WorkerInv(workers: seq<Worker>, s: State, i: nat)
    requires i < |workers| == |s.phases| == |s.results|
  {
    && s.results[i] == (if HasWritten(s.phases[i]) then Outcome(workers[i]) else ZERO_RESULT)
    && (s.phases[i].RestDone? ==> s.phases[i].local == FromRest(workers[i].id, workers[i].answers.rest))
    && (s.phases[i].HafasDone? ==> s.phases[i].local == Outcome(workers[i]))
    && multiset(s.writes)[(i, i)] == (if HasWritten(s.phases[i]) then 1 else 0)
  }

  ghost predicate FanOutInv(workers: seq<Worker>, s: State) {
    && |s.phases| == |s.results| == |workers|
    && s.counter == Unfinished(s.phases)
    && (forall i :: 0 <= i < |workers| ==> WorkerInv(workers, s, i))
    && (forall k :: 0 <= k < |s.writes| ==> s.writes[k].0 == s.writes[k].1 < |workers|)
  }

  lemma AdvanceKeepsInv(workers: seq<Worker>, s: State, i: nat)
    requires FanOutInv(workers, s) && i < |workers|
    ensures FanOutInv(workers, Advance(workers, s, i))
  {
    hide Unfinished, BoardOf, HafasBoardOf;
    var s' := Advance(workers, s, i);
    assert WorkerInv(workers, s, i);
    UnfinishedUpdate(s.phases, i, s'.phases[i]);
    assert s'.phases == s.phases[i := s'.phases[i]];
    forall j | 0 <= j < |workers|
      ensures WorkerInv(workers, s', j)
    {
      assert WorkerInv(workers, s, j);
    }
  }

  lemma {:induction false} InitialUnfinished(n: nat)
    ensures Unfinished(seq(n, i => Started)) == n
  {
    if n == 0 {
    } else {
      InitialUnfinished(n - 1);
      assert seq(n, i => Started)[..n - 1] == seq(n - 1, i => Started);
    }
  }

  lemma {:induction false} EveryScheduleKeepsInv(workers: seq<Worker>, schedule: seq<nat>)
    ensures FanOutInv(workers, After(workers, schedule))
  {
    if schedule == [] {
      InitialUnfinished(|workers|);
      assert After(workers, []).phases == seq(|workers|, i => Started);
    } else {
      var n := |schedule| - 1;
      EveryScheduleKeepsInv(workers, schedule[..n]);
      if schedule[n] < |workers| {
        AdvanceKeepsInv(workers, After(workers, schedule[..n]), schedule[n]);
      }
    }
  }

  // -- schedule independence --

  function Outcomes(workers: seq<Worker>): (results: seq<FetchResult>)
    ensures |results| == |workers|
  {
    seq(|workers|, i requires 0 <= i < |workers| => Outcome(workers[i]))
  }

  /** When `Wait` returns, in whatever order the phases ran, the array is the sequential map of the
      stops; a slot without an error has a board; and every slot was written exactly once, by its
      own worker. */
  lemma ScheduleIndependence(workers: seq<Worker>, schedule: seq<nat>)
    ensures var s := After(workers, schedule);
            && s.counter == Unfinished(s.phases)
            && (s.counter == 0 ==>
                  && s.results == Outcomes(workers)
                  && (forall i :: 0 <= i < |workers| ==> (s.results[i].failed <==> s.results[i].board.None?))
                  && (forall i, j :: 0 <= i < |workers| && 0 <= j < |workers| ==>
                        multiset(s.writes)[(i, j)] == if i == j then 1 else 0))
  {
    EveryScheduleKeepsInv(workers, schedule);
    hide Unfinished;
    var s := After(workers, schedule);
    if s.counter == 0 {
      NoneUnfinished(s.phases);
      forall i | 0 <= i < |workers|
        ensures s.results[i] == Outcome(workers[i]) && multiset(s.writes)[(i, i)] == 1
      {
        assert WorkerInv(workers, s, i);
      }
      forall i, j | 0 <= i < |workers| && 0 <= j < |workers| && i != j
        ensures (i, j) !in s.writes
      {
      }
    }
  }

  // -- progress --

  /** How many steps worker `i` still has. */
  function Remaining(w: Worker, phase: Phase): nat {
    match phase
    case Started => if FallsBack(w) then 4 else 3
    case RestDone(local) => if local.failed && w.answers.hafas.Some? then 3 else 2
    case HafasDone(_) => 2
    case Written => 1
    case Done => 0
  }

  function Steps(w: Worker): nat {
    Remaining(w, Started)
  }

  lemma StepIsOneLess(workers: seq<Worker>, s: State, i: nat, j: nat)
    requires FanOutInv(workers, s) && i < |workers| && j < |workers|
    ensures var before, after := Remaining(workers[i], s.phases[i]), Remaining(workers[i], Advance(workers, s, j).phases[i]);
            after == if i == j && before > 0 then before - 1 else before
  {
    hide Unfinished, BoardOf, HafasBoardOf, Outcome;
    assert WorkerInv(workers, s, i);
  }

  /** Every step a worker is given brings it one nearer its end: no worker waits for another. */
  lemma {:induction false} StepsLeft(workers: seq<Worker>, schedule: seq<nat>, i: nat)
    requires i < |workers|
    ensures var given := multiset(schedule)[i];
            Remaining(workers[i], After(workers, schedule).phases[i])
            == if given < Steps(workers[i]) then Steps(workers[i]) - given else 0
  {
    hide FanOutInv, Remaining, Advance;
    if schedule == [] {
      assert After(workers, schedule).phases[i] == Started;
    } else {
      var n := |schedule| - 1;
      StepsLeft(workers, schedule[..n], i);
      EveryScheduleKeepsInv(workers, schedule[..n]);
      assert schedule == schedule[..n] + [schedule[n]];
      assert multiset(schedule)[i] == multiset(schedule[..n])[i] + (if schedule[n] == i then 1 else 0);
      if schedule[n] < |workers| {
        StepIsOneLess(workers, After(workers, schedule[..n]), i, schedule[n]);
      }
    }
  }

  /** `Wait` returns exactly when every worker has been given all its steps: three, or four when it
      goes on to HAFAS. */
  lemma WaitReturnsExactly(workers: seq<Worker>, schedule: seq<nat>)
    ensures After(workers, schedule).counter == 0
       <==> forall i :: 0 <= i < |workers| ==> multiset(schedule)[i] >= Steps(workers[i])
  {
    EveryScheduleKeepsInv(workers, schedule);
    var s := After(workers, schedule);
    NoneUnfinished(s.phases);
    hide Unfinished, WorkerInv;
    forall i | 0 <= i < |workers|
      ensures s.phases[i].Done? <==> multiset(schedule)[i] >= Steps(workers[i])
    {
      StepsLeft(workers, schedule, i);
    }
  }
}
