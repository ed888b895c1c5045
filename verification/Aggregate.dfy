/** Putting the fan-out's results together: the response body and when it expires
    (handle_compact_departures.go). */
module Aggregate {
  import opened Instants
  import opened Wire
  import opened StableSort
  import opened BoardTransform
  import opened FanOut
  import Expiry

  type Results = seq<FetchResult>

  /** A result without an error carries a board. */
  ghost predicate Sound(results: Results) {
    forall i :: 0 <= i < |results| && !results[i].failed ==> results[i].board.Some?
  }

  function ShownBoard(b: CompactBoard, limit: nat): CompactBoard {
    b.(departures := Shown(b.departures, limit))
  }

  function Boards(results: Results, limit: nat): seq<CompactBoard> {
    if results == [] then []
    else
      var rest, r := Boards(results[..|results| - 1], limit), results[|results| - 1];
      if !r.failed && r.board.Some? then rest + [ShownBoard(r.board.value, limit)] else rest
  }

  function Failures(results: Results): nat {
    if results == [] then 0
    else Failures(results[..|results| - 1]) + (if results[|results| - 1].failed then 1 else 0)
  }

  /** The freshest positive update stamp of the successes, or zero. */
  function Freshest(results: Results): int {
    if results == [] then 0
    else
      var rest, r := Freshest(results[..|results| - 1]), results[|results| - 1];
      if !r.failed && r.updatedAt > rest then r.updatedAt else rest
  }

  /** The body of a response with at least one board. */
  function ResponseOf(results: Results, limit: nat, now: Instant): CompactResponse {
    CompactResponse(
      if Freshest(results) == 0 then Unix(now) else Freshest(results),
      Flag(Failures(results) > 0),
      Boards(results, limit))
  }

  /** The loop over the results. */
  method Collect(results: Results, limit: nat) returns (boards: seq<CompactBoard>, asOf: int, failed: bool)
    requires Sound(results)
    ensures boards == Boards(results, limit) && asOf == Freshest(results)
    ensures failed <==> Failures(results) > 0
  {
    boards, asOf, failed := [], 0, false;
    for i := 0 to |results|
      invariant boards == Boards(results[..i], limit)
      invariant asOf == Freshest(results[..i])
      invariant failed <==> Failures(results[..i]) > 0
    {
      assert results[..i + 1][..i] == results[..i];
      var res := results[i];
      if res.failed {
        failed := true;
        continue;
      }
      var board := res.board.value;
      if |board.departures| > limit {
        board := board.(departures := board.departures[..limit]);
      }
      boards := boards + [board];
      if res.updatedAt > asOf {
        asOf := res.updatedAt;
      }
    }
    assert results[..|results|] == results;
  }

  /** A shown delay puts the planned time back within half a minute. */
  lemma DelayWithinHalfMinute(t: int, planned: int, delay: real)
    requires delay == (t - planned) as real
    ensures -30 <= t - 60 * RoundMinutes(delay) - planned < 30
  {
    var m := RoundMinutes(delay);
    assert m as real <= delay / 60.0 + 0.5 < (m + 1) as real;
    assert 60.0 * (delay / 60.0) == delay;
    assert (60 * m) as real <= (t - planned + 30) as real < (60 * m + 60) as real;
  }

  /** Whenever an upstream departure's delay is its time less its planned time, the row shows as much. */
  lemma RowDelay(d: UpstreamDeparture, cutoff: Instant, planned: int)
    requires Row(d, cutoff).Some? && d.delay == Some((Unix(TimeOfDeparture(d)) - planned) as real)
    ensures var row := Row(d, cutoff).value; -30 <= row.time - 60 * row.delay - planned < 30
  {
    hide StripDirection, Expiry.EffectiveTime, RoundMinutes;
    DelayWithinHalfMinute(Unix(TimeOfDeparture(d)), planned, d.delay.value);
  }

  // -- expiry --

  function LatestRow(rows: Rows): int {
    if rows == [] then 0
    else
      var rest, t := LatestRow(rows[..|rows| - 1]), rows[|rows| - 1].time;
      if t > rest then t else rest
  }

  /** The latest departure time of all boards, or zero. */
  function LatestDeparture(boards: seq<CompactBoard>): int {
    if boards == [] then 0
    else
      var rest, t := LatestDeparture(boards[..|boards| - 1]), LatestRow(boards[|boards| - 1].departures);
      if t > rest then t else rest
  }

  function ExpiryOf(boards: seq<CompactBoard>): Instant {
    if LatestDeparture(boards) == 0 then ZERO else FromUnix(LatestDeparture(boards))
  }

  /** `compactCacheExpiry`. */
  method CompactCacheExpiry(boards: seq<CompactBoard>) returns (expiresAt: Instant)
    ensures expiresAt == ExpiryOf(boards)
  {
    var maxT := 0;
    for i := 0 to |boards|
      invariant maxT == LatestDeparture(boards[..i]) >= 0
    {
      assert boards[..i + 1][..i] == boards[..i];
      var rows := boards[i].departures;
      LatestRowPositive(rows);
      for j := 0 to |rows|
        invariant maxT == (if LatestRow(rows[..j]) > LatestDeparture(boards[..i]) then LatestRow(rows[..j]) else LatestDeparture(boards[..i]))
      {
        assert rows[..j + 1][..j] == rows[..j];
        if rows[j].time > maxT {
          maxT := rows[j].time;
        }
      }
      assert rows[..|rows|] == rows;
    }
    assert boards[..|boards|] == boards;
    if maxT == 0 {
      return ZERO;
    }
    return FromUnix(maxT);
  }

  lemma {:induction false} LatestRowPositive(rows: Rows)
    ensures LatestRow(rows) >= 0
    ensures forall i :: 0 <= i < |rows| ==> rows[i].time <= LatestRow(rows)
    ensures LatestRow(rows) > 0 ==> exists i :: 0 <= i < |rows| && rows[i].time == LatestRow(rows)
  {
    if rows == [] {
    } else {
      var n := |rows| - 1;
      LatestRowPositive(rows[..n]);
      if LatestRow(rows) == LatestRow(rows[..n]) {
        if LatestRow(rows) > 0 {
          var i :| 0 <= i < n && rows[..n][i].time == LatestRow(rows);
          assert rows[i].time == LatestRow(rows);
        }
      } else {
        assert rows[n].time == LatestRow(rows);
      }
      assert forall i :: 0 <= i < n ==> rows[..n][i] == rows[i];
    }
  }

  /** The latest departure time is an upper bound, attained when positive. */
  lemma {:induction false} LatestDepartureIsMaximum(boards: seq<CompactBoard>)
    ensures LatestDeparture(boards) >= 0
    ensures forall i :: 0 <= i < |boards| ==> LatestRow(boards[i].departures) <= LatestDeparture(boards)
    ensures LatestDeparture(boards) > 0 ==> exists i :: 0 <= i < |boards| && LatestRow(boards[i].departures) == LatestDeparture(boards)
  {
    if boards == [] {
    } else {
      var n := |boards| - 1;
      LatestDepartureIsMaximum(boards[..n]);
      assert forall i :: 0 <= i < n ==> boards[..n][i] == boards[i];
      if LatestDeparture(boards) == LatestDeparture(boards[..n]) {
        if LatestDeparture(boards) > 0 {
          var i :| 0 <= i < n && LatestRow(boards[..n][i].departures) == LatestDeparture(boards);
          assert LatestRow(boards[i].departures) == LatestDeparture(boards);
        }
      } else {
        assert LatestRow(boards[n].departures) == LatestDeparture(boards);
      }
    }
  }

  /** The last times of the non-empty boards, or zero. */
  function LatestLast(boards: seq<CompactBoard>): int {
    if boards == [] then 0
    else
      var rest, rows := LatestLast(boards[..|boards| - 1]), boards[|boards| - 1].departures;
      if rows != [] && rows[|rows| - 1].time > rest then rows[|rows| - 1].time else rest
  }

  lemma {:induction false} SortedLatestIsLast(rows: Rows)
    requires Sorted(rows)
    ensures LatestRow(rows) == if rows != [] && rows[|rows| - 1].time > 0 then rows[|rows| - 1].time else 0
  {
    LatestRowPositive(rows);
  }

  /** On sorted boards the expiry looks only at each board's last departure. */
  lemma {:induction false} ExpiryIsLastDeparture(boards: seq<CompactBoard>)
    requires forall i :: 0 <= i < |boards| ==> Sorted(boards[i].departures)
    ensures LatestDeparture(boards) == LatestLast(boards) >= 0
  {
    if boards == [] {
    } else {
      var n := |boards| - 1;
      ExpiryIsLastDeparture(boards[..n]);
      SortedLatestIsLast(boards[n].departures);
    }
  }

  lemma {:induction false} ShownLatest(rows: Rows, limit: nat, limit': nat)
    requires limit <= limit'
    ensures LatestRow(Shown(rows, limit)) <= LatestRow(Shown(rows, limit'))
  {
    var a, b := Shown(rows, limit), Shown(rows, limit');
    LatestRowPositive(a);
    LatestRowPositive(b);
    if LatestRow(a) > 0 {
      var i :| 0 <= i < |a| && a[i].time == LatestRow(a);
      assert b[i] == a[i];
    }
  }

  /** A larger limit never brings the expiry forward. */
  lemma {:induction false} ExpiryGrowsWithLimit(results: Results, limit: nat, limit': nat)
    requires limit <= limit'
    ensures LatestDeparture(Boards(results, limit)) <= LatestDeparture(Boards(results, limit'))
  {
    if results == [] {
    } else {
      var n := |results| - 1;
      ExpiryGrowsWithLimit(results[..n], limit, limit');
      if !results[n].failed && results[n].board.Some? {
        var b := results[n].board.value;
        ShownLatest(b.departures, limit, limit');
        LatestSnoc(Boards(results[..n], limit), ShownBoard(b, limit));
        LatestSnoc(Boards(results[..n], limit'), ShownBoard(b, limit'));
      }
    }
  }

  lemma LatestSnoc(boards: seq<CompactBoard>, b: CompactBoard)
    ensures LatestDeparture(boards + [b])
         == if LatestRow(b.departures) > LatestDeparture(boards) then LatestRow(b.departures) else LatestDeparture(boards)
  {
    assert (boards + [b])[..|boards|] == boards;
  }
}
