/** From an upstream body, or directly from a HAFAS station board, to one compact board
    (handle_compact_departures.go). */
module BoardTransform {
  import opened Instants
  import opened Wire
  import opened Expiry
  import opened StableSort
  import Calendar
  import Digits
  import Hafas
  import Rfc3339

  // -- the upstream body, with the fields the compact endpoint decodes --

  datatype UpstreamDeparture = UpstreamDeparture(
    when: string, plannedWhen: string, delay: Option<real>, cancelled: bool, direction: string,
    lineName: string, lineProduct: string, stopName: string, remarkTypes: seq<string>)

  datatype UpstreamResponse = UpstreamResponse(departures: seq<UpstreamDeparture>, realtimeDataUpdatedAt: int)

  const PAST_GRACE: int := 30 * SECOND
  const DIRECTION_RUNES := 24
  const PREFIXES: seq<string> := ["S+U ", "U ", "S "]

  // -- small parts --

  /** `Math.round` of seconds in minutes: halves go up. */
  function RoundMinutes(seconds: real): int {
    (seconds / 60.0 + 0.5).Floor
  }

  function Flag(b: bool): int {
    if b then 1 else 0
  }

  function Truncated(runes: string): string {
    if |runes| > DIRECTION_RUNES then runes[..DIRECTION_RUNES] else runes
  }

  /** `dir` without the first of the prefixes (from the i-th on) that it starts with. */
  function StripFrom(dir: string, i: nat): string
    decreases |PREFIXES| - i
  {
    if i >= |PREFIXES| then dir
    else if PREFIXES[i] <= dir then dir[|PREFIXES[i]|..]
    else StripFrom(dir, i + 1)
  }

  function StripDirection(dir: string): string {
    Truncated(StripFrom(dir, 0))
  }

  /** `compactStripDirection`: at most one prefix goes, then at most 24 runes stay. */
  method CompactStripDirection(raw: string) returns (dir: string)
    ensures dir == StripDirection(raw)
    ensures |dir| <= DIRECTION_RUNES
  {
    dir := raw;
    var i := 0;
    while i < |PREFIXES|
      invariant i <= |PREFIXES| && dir == raw && StripFrom(raw, 0) == StripFrom(raw, i)
    {
      if PREFIXES[i] <= dir {
        dir := dir[|PREFIXES[i]|..];
        break;
      }
      i := i + 1;
    }
    if |dir| > DIRECTION_RUNES {
      dir := dir[..DIRECTION_RUNES];
    }
  }

  /** The first non-empty name, or the empty string. */
  function FirstName(names: seq<string>): string {
    if names == [] then ""
    else
      var first := FirstName(names[..|names| - 1]);
      if first != "" then first else names[|names| - 1]
  }

  function NameOr(name: string, id: string): string {
    if name != "" then name else id
  }

  // -- from the REST form --

  /** One upstream departure on the board, unless it has no time or lies too far back. */
  function Row(d: UpstreamDeparture, cutoff: Instant): Option<CompactDeparture> {
    var t := EffectiveTime(d.when, d.plannedWhen);
    if t == ZERO || t < cutoff then None
    else Some(CompactDeparture(
      if d.lineName != "" then d.lineName else "?",
      d.lineProduct,
      StripDirection(d.direction),
      Unix(t),
      if d.delay.Some? then RoundMinutes(d.delay.value) else 0,
      Flag(d.cancelled),
      Flag("warning" in d.remarkTypes)))
  }

  function Kept(ds: seq<UpstreamDeparture>, cutoff: Instant): Rows {
    if ds == [] then []
    else
      var rest := Kept(ds[..|ds| - 1], cutoff);
      match Row(ds[|ds| - 1], cutoff)
      case Some(row) => rest + [row]
      case None => rest
  }

  function StopNames(ds: seq<UpstreamDeparture>): seq<string> {
    seq(|ds|, i requires 0 <= i < |ds| => ds[i].stopName)
  }

  function BoardOf(id: string, upstream: UpstreamResponse, now: Instant): CompactBoard {
    CompactBoard(id, NameOr(FirstName(StopNames(upstream.departures)), id), SortRows(Kept(upstream.departures, now - PAST_GRACE)))
  }

  method SortRowsInPlace(rows: Rows) returns (sorted: Rows)
    ensures sorted == SortRows(rows)
  {
    var a := new CompactDeparture[|rows|](i requires 0 <= i < |rows| => rows[i]);
    assert a[..] == rows;
    SortInPlace(a);
    sorted := a[..];
  }

  /** What the i-th departure adds to the rows and to the name. */
  lemma KeptStep(ds: seq<UpstreamDeparture>, i: nat, cutoff: Instant)
    requires i < |ds|
    ensures Kept(ds[..i + 1], cutoff)
         == (if Row(ds[i], cutoff).Some? then Kept(ds[..i], cutoff) + [Row(ds[i], cutoff).value] else Kept(ds[..i], cutoff))
    ensures var name := FirstName(StopNames(ds[..i]));
            FirstName(StopNames(ds[..i + 1])) == (if name == "" then ds[i].stopName else name)
  {
    hide Row;
    assert ds[..i + 1][..i] == ds[..i];
    assert StopNames(ds[..i + 1]) == StopNames(ds[..i]) + [ds[i].stopName];
    FirstNameSnoc(StopNames(ds[..i]), ds[i].stopName);
  }

  /** The body of the loop below: one departure's row, if it has one. */
  method UpstreamRow(d: UpstreamDeparture, cutoff: Instant) returns (row: Option<CompactDeparture>)
    ensures row == Row(d, cutoff)
  {
    hide EffectiveTime, StripDirection, RoundMinutes;
    var t := EffectiveTime(d.when, d.plannedWhen);
    if t == ZERO || t < cutoff {
      return None;
    }
    var line := "?";
    if d.lineName != "" {
      line := d.lineName;
    }
    var delay := 0;
    if d.delay.Some? {
      delay := RoundMinutes(d.delay.value);
    }
    var direction := CompactStripDirection(d.direction);
    var warning := HasWarning(d.remarkTypes);
    row := Some(CompactDeparture(line, d.lineProduct, direction, Unix(t), delay, Flag(d.cancelled), warning));
  }

  /** `transformCompactBoard`. */
  method TransformCompactBoard(id: string, upstream: UpstreamResponse, now: Instant) returns (board: CompactBoard)
    ensures board == BoardOf(id, upstream, now)
  {
    assert FirstName(StopNames([])) == "";
    assert forall cutoff :: Kept([], cutoff) == [];
    hide Row, Kept, FirstName, StopNames;
    var name, nameSet, rows := id, false, [];
    var cutoff := now - PAST_GRACE;
    var ds := upstream.departures;
    for i := 0 to |ds|
      invariant rows == Kept(ds[..i], cutoff)
      invariant name == NameOr(FirstName(StopNames(ds[..i])), id)
      invariant nameSet <==> FirstName(StopNames(ds[..i])) != ""
    {
      KeptStep(ds, i, cutoff);
      var d := ds[i];
      if !nameSet && d.stopName != "" {
        name, nameSet := d.stopName, true;
      }
      var row := UpstreamRow(d, cutoff);
      if row.Some? {
        rows := rows + [row.value];
      }
    }
    assert ds[..|ds|] == ds;
    rows := SortRowsInPlace(rows);
    board := CompactBoard(id, name, rows);
  }

  method HasWarning(remarkTypes: seq<string>) returns (warning: int)
    ensures warning == Flag("warning" in remarkTypes)
  {
    warning := 0;
    for i := 0 to |remarkTypes|
      invariant warning == 0 && "warning" !in remarkTypes[..i]
    {
      if remarkTypes[i] == "warning" {
        warning := 1;
        break;
      }
    }
  }

  // -- directly from HAFAS --

  predicate Indexed(board: Hafas.StationBoard, jny: Hafas.Journey) {
    0 <= jny.stbStop.locX < |board.locL| && 0 <= jny.prodX < |board.prodL|
  }

  function LocationOf(board: Hafas.StationBoard, jny: Hafas.Journey): Hafas.Location
    requires Indexed(board, jny)
  {
    board.locL[jny.stbStop.locX]
  }

  function ProductOf(board: Hafas.StationBoard, jny: Hafas.Journey): Hafas.Product
    requires Indexed(board, jny)
  {
    board.prodL[jny.prodX]
  }

  /** Minutes east; an absent (zero) offset counts as 120. */
  function ZoneOf(loc: Hafas.Location): int {
    if loc.tzOffset == 0 then 120 else loc.tzOffset
  }

  /** A planned and a realtime time string of one journey, with what goes with them. */
  datatype StopTime = StopTime(scheduled: string, realtime: string, platform: Option<string>, cancelled: bool)

  function DepartureOf(stop: Hafas.StbStop): StopTime {
    StopTime(stop.dTimeS, stop.dTimeR, stop.dPlatform, stop.dCncl)
  }

  function ArrivalOf(stop: Hafas.StbStop): StopTime {
    StopTime(stop.aTimeS, stop.aTimeR, stop.aPlatform, stop.aCncl)
  }

  function PlannedWhen(date: string, time: StopTime, tz: int): Instant {
    Hafas.ParseTime(date, time.scheduled, tz)
  }

  /** The realtime instant, or the planned one when no realtime is given. */
  function When(date: string, time: StopTime, tz: int): Instant {
    if time.realtime != "" then Hafas.ParseTime(date, time.realtime, tz) else PlannedWhen(date, time, tz)
  }

  function ShortName(prod: Hafas.Product): string {
    if prod.nameS != "" then prod.nameS else prod.name
  }

  /** `int(math.Floor(d.Seconds()/60.0 + 0.5))` of a duration in nanoseconds. */
  function MinutesOfDuration(d: int): int {
    RoundMinutes(d as real / 1000000000.0)
  }

  function HafasRow(board: Hafas.StationBoard, jny: Hafas.Journey, cutoff: Instant): Option<CompactDeparture>
    requires Indexed(board, jny)
  {
    var tz, time := ZoneOf(LocationOf(board, jny)), DepartureOf(jny.stbStop);
    var t := When(jny.date, time, tz);
    if t == ZERO || t < cutoff then None
    else Some(CompactDeparture(
      NameOr(ShortName(ProductOf(board, jny)), "?"),
      Hafas.ProductName(ProductOf(board, jny).cls),
      StripDirection(jny.dirTxt),
      Unix(t),
      if time.realtime != "" then MinutesOfDuration(Sub(t, PlannedWhen(jny.date, time, tz))) else 0,
      Flag(time.cancelled),
      0))
  }

  /** The rows of the journeys with valid indices. */
  function HafasKept(board: Hafas.StationBoard, jnys: seq<Hafas.Journey>, cutoff: Instant): Rows {
    if jnys == [] then []
    else
      var rest, jny := HafasKept(board, jnys[..|jnys| - 1], cutoff), jnys[|jnys| - 1];
      if Indexed(board, jny) && HafasRow(board, jny, cutoff).Some? then rest + [HafasRow(board, jny, cutoff).value] else rest
  }

  function HafasNames(board: Hafas.StationBoard, jnys: seq<Hafas.Journey>): seq<string> {
    if jnys == [] then []
    else
      var rest, jny := HafasNames(board, jnys[..|jnys| - 1]), jnys[|jnys| - 1];
      if Indexed(board, jny) then rest + [LocationOf(board, jny).name] else rest
  }

  function HafasBoardOf(id: string, board: Hafas.StationBoard, now: Instant): CompactBoard {
    CompactBoard(id, NameOr(FirstName(HafasNames(board, board.jnyL)), id), SortRows(HafasKept(board, board.jnyL, now - PAST_GRACE)))
  }

  /** The body of the loop below: one journey's row, if it has one. */
  method DirectRow(res: Hafas.StationBoard, jny: Hafas.Journey, cutoff: Instant) returns (row: Option<CompactDeparture>)
    requires Indexed(res, jny)
    ensures row == HafasRow(res, jny, cutoff)
  {
    var loc, prod := res.locL[jny.stbStop.locX], res.prodL[jny.prodX];
    var tz := loc.tzOffset;
    if tz == 0 {
      tz := 120;
    }
    var planned := Hafas.ParseTime(jny.date, jny.stbStop.dTimeS, tz);
    var when := planned;
    if jny.stbStop.dTimeR != "" {
      when := Hafas.ParseTime(jny.date, jny.stbStop.dTimeR, tz);
    }
    if when == ZERO || when < cutoff {
      return None;
    }
    var line := prod.nameS;
    if line == "" {
      line := prod.name;
    }
    if line == "" {
      line := "?";
    }
    var delay := 0;
    if jny.stbStop.dTimeR != "" {
      delay := MinutesOfDuration(Sub(when, planned));
    }
    var direction := CompactStripDirection(jny.dirTxt);
    row := Some(CompactDeparture(line, Hafas.ProductName(prod.cls), direction, Unix(when), delay, Flag(jny.stbStop.dCncl), 0));
  }

  /** `transformHAFASCompactBoard`. */
  method TransformHafasCompactBoard(id: string, res: Hafas.StationBoard, now: Instant) returns (board: CompactBoard)
    ensures board == HafasBoardOf(id, res, now)
  {
    hide HafasRow, HafasKept, HafasNames, FirstName, Indexed;
    HafasStart(res);
    var name, nameSet, rows := id, false, [];
    var cutoff := now - PAST_GRACE;
    var jnys := res.jnyL;
    for i := 0 to |jnys|
      invariant rows == HafasKept(res, jnys[..i], cutoff)
      invariant name == NameOr(FirstName(HafasNames(res, jnys[..i])), id)
      invariant nameSet <==> FirstName(HafasNames(res, jnys[..i])) != ""
    {
      HafasStep(res, jnys, i, cutoff);
      var jny := jnys[i];
      if jny.stbStop.locX < 0 || jny.stbStop.locX >= |res.locL| {
        continue;
      }
      if jny.prodX < 0 || jny.prodX >= |res.prodL| {
        continue;
      }
      var loc := res.locL[jny.stbStop.locX];
      if !nameSet && loc.name != "" {
        name, nameSet := loc.name, true;
      }
      var row := DirectRow(res, jny, cutoff);
      if row.Some? {
        rows := rows + [row.value];
      }
    }
    assert jnys[..|jnys|] == jnys;
    rows := SortRowsInPlace(rows);
    board := CompactBoard(id, name, rows);
  }

  lemma HafasStart(board: Hafas.StationBoard)
    ensures forall cutoff :: HafasKept(board, [], cutoff) == []
    ensures FirstName(HafasNames(board, [])) == ""
  {
  }

  /** What the i-th journey adds to the rows and to the name. */
  lemma HafasStep(board: Hafas.StationBoard, jnys: seq<Hafas.Journey>, i: nat, cutoff: Instant)
    requires i < |jnys|
    ensures var jny, kept, name := jnys[i], HafasKept(board, jnys[..i], cutoff), FirstName(HafasNames(board, jnys[..i]));
            && (Indexed(board, jny) <==> 0 <= jny.stbStop.locX < |board.locL| && 0 <= jny.prodX < |board.prodL|)
            && HafasKept(board, jnys[..i + 1], cutoff)
               == (if Indexed(board, jny) && HafasRow(board, jny, cutoff).Some? then kept + [HafasRow(board, jny, cutoff).value] else kept)
            && FirstName(HafasNames(board, jnys[..i + 1]))
               == (if Indexed(board, jny) && name == "" then LocationOf(board, jny).name else name)
  {
    hide HafasRow;
    assert jnys[..i + 1][..i] == jnys[..i];
    if Indexed(board, jnys[i]) {
      FirstNameSnoc(HafasNames(board, jnys[..i]), LocationOf(board, jnys[i]).name);
    }
  }

  lemma FirstNameSnoc(names: seq<string>, name: string)
    ensures FirstName(names + [name]) == if FirstName(names) != "" then FirstName(names) else name
  {
    assert (names + [name])[..|names|] == names;
  }

  /** `hafasPlanrtTS`: the value `ParseInt` returns, its error dropped. */
  function PlanrtTS(s: string): int {
    Digits.Atoi(s).value
  }

  lemma StampReads(s: string)
    requires Digits.Readable(s) && -Digits.MAX_INT64 - 1 <= Digits.IntegerOf(s) <= Digits.MAX_INT64
    ensures PlanrtTS(s) == Digits.IntegerOf(s)
  {
    Digits.AtoiExactly(s);
  }

  // -- the shown part of a board --

  function Shown(rows: Rows, limit: nat): Rows {
    if |rows| > limit then rows[..limit] else rows
  }

  lemma {:induction false} AtTimeSplits(s: Rows, t: Rows, time: int)
    ensures AtTime(s + t, time) == AtTime(s, time) + AtTime(t, time)
    decreases |t|
  {
    if t == [] {
      assert s + t == s;
    } else {
      var n := |t| - 1;
      assert (s + t)[..|s| + n] == s + t[..n];
      AtTimeSplits(s, t[..n], time);
    }
  }

  lemma CutInOrder(shown: Rows, omitted: Rows)
    requires Sorted(shown + omitted)
    ensures Sorted(shown) && forall s, o :: s in shown && o in omitted ==> s.time <= o.time
  {
    var rows := shown + omitted;
    forall i, j | 0 <= i < j < |shown|
      ensures shown[i].time <= shown[j].time
    {
      assert rows[i] == shown[i] && rows[j] == shown[j];
    }
    forall i, j | 0 <= i < |shown| && 0 <= j < |omitted|
      ensures shown[i].time <= omitted[j].time
    {
      assert rows[i] == shown[i] && rows[|shown| + j] == omitted[j];
    }
  }

  /** `shown` is the first min(limit, kept) rows of a stable time order of the kept ones. */
  ghost predicate TopOf(kept: Rows, limit: nat, shown: Rows) {
    && |shown| == (if limit < |kept| then limit else |kept|)
    && exists omitted :: StableOrderOf(kept, shown + omitted)
  }

  /** A cut of the sorted rows is such a top. */
  lemma SortedCut(kept: Rows, limit: nat)
    ensures TopOf(kept, limit, Shown(SortRows(kept), limit))
  {
    hide StableOrderOf, SortRows;
    var rows := SortRows(kept);
    SortRowsIsStable(kept);
    assert rows == Shown(rows, limit) + rows[|Shown(rows, limit)|..];
  }

  /** Stable top-k.  The shown and the omitted rows together are the kept ones, nothing omitted is
      earlier than anything shown, and at each time the upstream order is kept across the cut. */
  lemma StableTopK(kept: Rows, limit: nat, shown: Rows) returns (omitted: Rows)
    requires TopOf(kept, limit, shown)
    ensures Sorted(shown)
    ensures multiset(shown) + multiset(omitted) == multiset(kept)
    ensures forall s, o :: s in shown && o in omitted ==> s.time <= o.time
    ensures forall time :: AtTime(shown, time) + AtTime(omitted, time) == AtTime(kept, time)
  {
    hide AtTime, Sorted;
    omitted :| StableOrderOf(kept, shown + omitted);
    var rows := shown + omitted;
    CutInOrder(shown, omitted);
    StableOrderPermutes(kept, rows);
    forall time
      ensures AtTime(shown, time) + AtTime(omitted, time) == AtTime(kept, time)
    {
      AtTimeSplits(shown, omitted, time);
    }
  }

  /** There is only one such top. */
  lemma TopIsUnique(kept: Rows, limit: nat, a: Rows, b: Rows)
    requires TopOf(kept, limit, a) && TopOf(kept, limit, b)
    ensures a == b
  {
    hide AtTime, Sorted;
    var x :| StableOrderOf(kept, a + x);
    var y :| StableOrderOf(kept, b + y);
    StableOrderUnique(a + x, b + y);
    assert a == (a + x)[..|a|] && b == (b + y)[..|a|];
  }

  // -- which departures are shown --

  lemma {:induction false} KeptMembers(ds: seq<UpstreamDeparture>, cutoff: Instant, row: CompactDeparture)
    ensures row in Kept(ds, cutoff) <==> exists d :: d in ds && Row(d, cutoff) == Some(row)
  {
    hide Row;
    if ds == [] {
    } else {
      var n := |ds| - 1;
      KeptMembers(ds[..n], cutoff, row);
      assert ds == ds[..n] + [ds[n]];
    }
  }

  lemma {:induction false} HafasKeptMembers(board: Hafas.StationBoard, jnys: seq<Hafas.Journey>, cutoff: Instant, row: CompactDeparture)
    ensures row in HafasKept(board, jnys, cutoff)
       <==> exists jny :: jny in jnys && Indexed(board, jny) && HafasRow(board, jny, cutoff) == Some(row)
  {
    hide HafasRow, Indexed;
    if jnys == [] {
    } else {
      var n := |jnys| - 1;
      HafasKeptMembers(board, jnys[..n], cutoff, row);
      assert jnys == jnys[..n] + [jnys[n]];
    }
  }

  lemma SortKeepsMembers(rows: Rows, row: CompactDeparture)
    ensures row in SortRows(rows) <==> row in rows
  {
    hide SortRows;
    SortRowsIsStable(rows);
    StableOrderPermutes(rows, SortRows(rows));
    assert row in SortRows(rows) <==> row in multiset(SortRows(rows));
    assert row in rows <==> row in multiset(rows);
  }

  /** A board shows the rows of the departures it keeps, and nothing else. */
  lemma BoardShowsExactly(id: string, upstream: UpstreamResponse, now: Instant, row: CompactDeparture)
    ensures row in BoardOf(id, upstream, now).departures
       <==> exists d :: d in upstream.departures && Row(d, now - 30_000_000_000) == Some(row)
  {
    hide Row, Kept, SortRows;
    KeptMembers(upstream.departures, now - PAST_GRACE, row);
    SortKeepsMembers(Kept(upstream.departures, now - PAST_GRACE), row);
  }

  lemma HafasBoardShowsExactly(id: string, res: Hafas.StationBoard, now: Instant, row: CompactDeparture)
    ensures row in HafasBoardOf(id, res, now).departures
       <==> exists jny :: jny in res.jnyL && Indexed(res, jny) && HafasRow(res, jny, now - 30_000_000_000) == Some(row)
  {
    hide HafasRow, HafasKept, SortRows, Indexed;
    HafasKeptMembers(res, res.jnyL, now - PAST_GRACE, row);
    SortKeepsMembers(HafasKept(res, res.jnyL, now - PAST_GRACE), row);
  }

  // -- names, rows and their order, in terms of the upstream's fields --

  /** `name` is the first stop name that is not empty, or else the ID. */
  ghost predicate RestNamed(ds: seq<UpstreamDeparture>, id: string, name: string) {
    if forall i :: 0 <= i < |ds| ==> ds[i].stopName == "" then name == id
    else exists i :: 0 <= i < |ds| && name == ds[i].stopName != "" && forall j :: 0 <= j < i ==> ds[j].stopName == ""
  }

  /** The same over the locations of the journeys with valid indices. */
  ghost predicate HafasNamed(res: Hafas.StationBoard, jnys: seq<Hafas.Journey>, id: string, name: string) {
    if forall i :: 0 <= i < |jnys| && Indexed(res, jnys[i]) ==> res.locL[jnys[i].stbStop.locX].name == "" then name == id
    else
      exists i :: 0 <= i < |jnys| && Indexed(res, jnys[i]) && name == res.locL[jnys[i].stbStop.locX].name != ""
        && forall j :: 0 <= j < i && Indexed(res, jnys[j]) ==> res.locL[jnys[j].stbStop.locX].name == ""
  }

  lemma {:induction false} FirstNameExactly(names: seq<string>) returns (i: nat)
    ensures FirstName(names) == "" ==> forall j :: 0 <= j < |names| ==> names[j] == ""
    ensures FirstName(names) != "" ==>
              i < |names| && FirstName(names) == names[i] && forall j :: 0 <= j < i ==> names[j] == ""
  {
    i := 0;
    if names == [] {
    } else {
      var n := |names| - 1;
      i := FirstNameExactly(names[..n]);
      assert forall j :: 0 <= j < n ==> names[..n][j] == names[j];
      if FirstName(names[..n]) == "" {
        i := n;
      }
    }
  }

  lemma RestNamedExactly(ds: seq<UpstreamDeparture>, id: string)
    ensures RestNamed(ds, id, NameOr(FirstName(StopNames(ds)), id))
  {
    hide FirstName;
    var names := StopNames(ds);
    var i := FirstNameExactly(names);
    assert forall j :: 0 <= j < |ds| ==> names[j] == ds[j].stopName;
    if FirstName(names) != "" {
      assert ds[i].stopName == FirstName(names) && forall j :: 0 <= j < i ==> ds[j].stopName == "";
    }
  }

  lemma {:induction false} FirstHafasName(res: Hafas.StationBoard, jnys: seq<Hafas.Journey>) returns (i: nat)
    ensures var name := FirstName(HafasNames(res, jnys));
            && (name == "" ==> forall j :: 0 <= j < |jnys| && Indexed(res, jnys[j]) ==> LocationOf(res, jnys[j]).name == "")
            && (name != "" ==>
                  && i < |jnys| && Indexed(res, jnys[i]) && name == LocationOf(res, jnys[i]).name
                  && forall j :: 0 <= j < i && Indexed(res, jnys[j]) ==> LocationOf(res, jnys[j]).name == "")
  {
    hide HafasKept, HafasRow, Indexed, FirstName, LocationOf;
    i := 0;
    if jnys == [] {
      NoHafasName(res);
    } else {
      var n := |jnys| - 1;
      i := FirstHafasName(res, jnys[..n]);
      HafasStep(res, jnys, n, 0);
      assert jnys[..n + 1] == jnys;
      assert forall j :: 0 <= j < n ==> jnys[..n][j] == jnys[j];
      if FirstName(HafasNames(res, jnys[..n])) == "" {
        i := n;
      }
    }
  }

  lemma NoHafasName(res: Hafas.StationBoard)
    ensures FirstName(HafasNames(res, [])) == ""
  {
  }

  lemma HafasNamedExactly(res: Hafas.StationBoard, jnys: seq<Hafas.Journey>, id: string)
    ensures HafasNamed(res, jnys, id, NameOr(FirstName(HafasNames(res, jnys)), id))
  {
    hide FirstName, HafasNames;
    var i := FirstHafasName(res, jnys);
  }

  lemma KeptSnoc(ds: seq<UpstreamDeparture>, d: UpstreamDeparture, cutoff: Instant)
    ensures Kept(ds + [d], cutoff) == Kept(ds, cutoff) + OptionRows(Row(d, cutoff))
  {
    hide Row;
    assert (ds + [d])[..|ds|] == ds;
  }

  lemma KeptNone(cutoff: Instant)
    ensures Kept([], cutoff) == []
  {
  }

  /** Departures keep their upstream order on the way to the sort. */
  lemma {:induction false} KeptInOrder(a: seq<UpstreamDeparture>, b: seq<UpstreamDeparture>, cutoff: Instant)
    ensures Kept(a + b, cutoff) == Kept(a, cutoff) + Kept(b, cutoff)
    decreases |b|
  {
    hide Kept, Row;
    if b == [] {
      assert a + b == a;
      KeptNone(cutoff);
    } else {
      var n := |b| - 1;
      var last := OptionRows(Row(b[n], cutoff));
      calc {
        Kept(a + b, cutoff);
        { assert a + b == (a + b[..n]) + [b[n]]; KeptSnoc(a + b[..n], b[n], cutoff); }
        Kept(a + b[..n], cutoff) + last;
        { KeptInOrder(a, b[..n], cutoff); }
        Kept(a, cutoff) + Kept(b[..n], cutoff) + last;
        { KeptSnoc(b[..n], b[n], cutoff); assert b == b[..n] + [b[n]]; }
        Kept(a, cutoff) + Kept(b, cutoff);
      }
    }
  }

  lemma KeptOne(d: UpstreamDeparture, cutoff: Instant)
    ensures Kept([d], cutoff) == OptionRows(Row(d, cutoff))
  {
    KeptSnoc([], d, cutoff);
    assert [] + [d] == [d];
  }

  function OptionRows(row: Option<CompactDeparture>): Rows {
    if row.Some? then [row.value] else []
  }

  /** The row of one journey, if its indices are valid. */
  function RowIfIndexed(res: Hafas.StationBoard, jny: Hafas.Journey, cutoff: Instant): Option<CompactDeparture> {
    if Indexed(res, jny) then HafasRow(res, jny, cutoff) else None
  }

  lemma HafasKeptSnoc(res: Hafas.StationBoard, jnys: seq<Hafas.Journey>, jny: Hafas.Journey, cutoff: Instant)
    ensures HafasKept(res, jnys + [jny], cutoff) == HafasKept(res, jnys, cutoff) + OptionRows(RowIfIndexed(res, jny, cutoff))
  {
    hide HafasRow, Indexed;
    assert (jnys + [jny])[..|jnys|] == jnys;
  }

  lemma {:induction false} HafasKeptInOrder(res: Hafas.StationBoard, a: seq<Hafas.Journey>, b: seq<Hafas.Journey>, cutoff: Instant)
    ensures HafasKept(res, a + b, cutoff) == HafasKept(res, a, cutoff) + HafasKept(res, b, cutoff)
    decreases |b|
  {
    hide HafasKept, RowIfIndexed;
    if b == [] {
      assert a + b == a;
      HafasNoRows(res, cutoff);
    } else {
      var n := |b| - 1;
      var last := OptionRows(RowIfIndexed(res, b[n], cutoff));
      calc {
        HafasKept(res, a + b, cutoff);
        { assert a + b == (a + b[..n]) + [b[n]]; HafasKeptSnoc(res, a + b[..n], b[n], cutoff); }
        HafasKept(res, a + b[..n], cutoff) + last;
        { HafasKeptInOrder(res, a, b[..n], cutoff); }
        HafasKept(res, a, cutoff) + HafasKept(res, b[..n], cutoff) + last;
        { HafasKeptSnoc(res, b[..n], b[n], cutoff); assert b == b[..n] + [b[n]]; }
        HafasKept(res, a, cutoff) + HafasKept(res, b, cutoff);
      }
    }
  }

  lemma HafasNoRows(res: Hafas.StationBoard, cutoff: Instant)
    ensures HafasKept(res, [], cutoff) == []
  {
  }

  lemma HafasKeptOne(res: Hafas.StationBoard, jny: Hafas.Journey, cutoff: Instant)
    ensures HafasKept(res, [jny], cutoff) == OptionRows(RowIfIndexed(res, jny, cutoff))
  {
    hide RowIfIndexed;
    HafasNoRows(res, cutoff);
    HafasKeptSnoc(res, [], jny, cutoff);
    assert [] + [jny] == [jny];
  }

  /** At most one of the three prefixes goes, then at most 24 characters stay. */
  lemma DirectionExactly(rest: string)
    ensures var shown := if |rest| > 24 then rest[..24] else rest;
            && StripDirection("S+U " + rest) == shown
            && StripDirection("U " + rest) == shown
            && StripDirection("S " + rest) == shown
            && (!("S+U " <= rest) && !("U " <= rest) && !("S " <= rest) ==> StripDirection(rest) == shown)
  {
    Unfolded("S+U " + rest);
    Unfolded("U " + rest);
    Unfolded("S " + rest);
    Unfolded(rest);
    assert ("S+U " + rest)[4..] == rest && ("U " + rest)[2..] == rest && ("S " + rest)[2..] == rest;
    assert ("U " + rest)[0] == 'U' && ("S " + rest)[1] == ' ';
    hide StripFrom;
  }

  lemma Unfolded(dir: string)
    ensures StripFrom(dir, 0)
         == if "S+U " <= dir then dir[4..] else if "U " <= dir then dir[2..] else if "S " <= dir then dir[2..] else dir
  {
    assert StripFrom(dir, 2) == if "S " <= dir then dir[2..] else StripFrom(dir, 3);
    assert StripFrom(dir, 1) == if "U " <= dir then dir[2..] else StripFrom(dir, 2);
  }

  /** What a row shows of its departure. */
  lemma RowShowsFields(d: UpstreamDeparture, cutoff: Instant)
    requires Row(d, cutoff).Some?
    ensures var row := Row(d, cutoff).value;
            && (row.warning == 1 <==> exists i :: 0 <= i < |d.remarkTypes| && d.remarkTypes[i] == "warning")
            && (row.cancelled == 1 <==> d.cancelled)
            && row.warning in {0, 1} && row.cancelled in {0, 1}
            && (if d.lineName != "" then row.line == d.lineName else row.line == "?")
            && row.product == d.lineProduct
            && row.direction == StripDirection(d.direction)
            && (d.delay.None? ==> row.delay == 0)
            && (d.delay.Some? ==> 60 * row.delay - 30 <= d.delay.value.Floor < 60 * row.delay + 30)
  {
    hide EffectiveTime, StripDirection, RoundMinutes;
    if d.delay.Some? {
      RoundedWithin(d.delay.value);
    }
  }

  /** Minutes are rounded to the nearest, halves up. */
  lemma RoundedWithin(seconds: real)
    ensures 60 * RoundMinutes(seconds) - 30 <= seconds.Floor < 60 * RoundMinutes(seconds) + 30
  {
    var m := RoundMinutes(seconds);
    assert m as real <= seconds / 60.0 + 0.5 < (m + 1) as real;
    assert 60.0 * (seconds / 60.0) == seconds;
    assert (60 * m - 30) as real <= seconds < (60 * m + 30) as real;
  }

  /** What a row shows of its journey, on the direct path. */
  lemma HafasRowShowsFields(res: Hafas.StationBoard, jny: Hafas.Journey, cutoff: Instant)
    requires Indexed(res, jny)
    ensures var loc, prod, stop := res.locL[jny.stbStop.locX], res.prodL[jny.prodX], jny.stbStop;
            var tz := if loc.tzOffset != 0 then loc.tzOffset else 120;
            var t := Hafas.ParseTime(jny.date, if stop.dTimeR != "" then stop.dTimeR else stop.dTimeS, tz);
            && (HafasRow(res, jny, cutoff).Some? <==> t != ZERO && t >= cutoff)
            && (HafasRow(res, jny, cutoff).Some? ==>
                  var row := HafasRow(res, jny, cutoff).value;
                  && row.time == Unix(t)
                  && (prod.nameS != "" ==> row.line == prod.nameS)
                  && (prod.nameS == "" && prod.name != "" ==> row.line == prod.name)
                  && (prod.nameS == prod.name == "" ==> row.line == "?")
                  && row.product == Hafas.ProductName(prod.cls)
                  && row.direction == StripDirection(jny.dirTxt)
                  && (row.cancelled == 1 <==> stop.dCncl) && row.cancelled in {0, 1}
                  && row.warning == 0
                  && (stop.dTimeR == "" ==> row.delay == 0))
  {
    hide Hafas.ParseTime, Hafas.ProductName, StripDirection, RoundMinutes;
  }

  // -- the grace period --

  ghost predicate AllFrom(rows: Rows, t: int) {
    forall row :: row in rows ==> row.time >= t
  }

  /** The time a departure goes by, and the time a journey goes by on the direct path. */
  function TimeOfDeparture(d: UpstreamDeparture): Instant {
    EffectiveTime(d.when, d.plannedWhen)
  }

  function TimeOfJourney(board: Hafas.StationBoard, jny: Hafas.Journey): Instant
    requires Indexed(board, jny)
  {
    When(jny.date, DepartureOf(jny.stbStop), ZoneOf(LocationOf(board, jny)))
  }

  /** A departure at `t` is on the board made at `now`. */
  predicate OnBoard(t: Instant, now: Instant) {
    t != ZERO && t >= now - PAST_GRACE
  }

  lemma RowsExactly(d: UpstreamDeparture, now: Instant)
    ensures Row(d, now - PAST_GRACE).Some? <==> OnBoard(TimeOfDeparture(d), now)
    ensures OnBoard(TimeOfDeparture(d), now) ==> Row(d, now - PAST_GRACE).value.time == Unix(TimeOfDeparture(d))
  {
    hide EffectiveTime, StripDirection, RoundMinutes;
  }

  lemma HafasRowsExactly(board: Hafas.StationBoard, jny: Hafas.Journey, now: Instant)
    requires Indexed(board, jny)
    ensures HafasRow(board, jny, now - PAST_GRACE).Some? <==> OnBoard(TimeOfJourney(board, jny), now)
    ensures OnBoard(TimeOfJourney(board, jny), now)
        ==> HafasRow(board, jny, now - PAST_GRACE).value.time == Unix(TimeOfJourney(board, jny))
  {
    hide Hafas.ParseTime, Hafas.ProductName, StripDirection, RoundMinutes;
  }

  /** Everything on a board is at or after an instant exactly when every departure it keeps is. */
  lemma ShownFromExactly(id: string, upstream: UpstreamResponse, now: Instant, from: Instant)
    ensures AllFrom(BoardOf(id, upstream, now).departures, Unix(from))
       <==> forall d :: d in upstream.departures && OnBoard(TimeOfDeparture(d), now) ==> Unix(TimeOfDeparture(d)) >= Unix(from)
  {
    hide Row, EffectiveTime, BoardOf, TimeOfDeparture, Unix, OnBoard;
    var rows := BoardOf(id, upstream, now).departures;
    forall d | d in upstream.departures && OnBoard(TimeOfDeparture(d), now)
      ensures exists row :: row in rows && row.time == Unix(TimeOfDeparture(d))
    {
      RowsExactly(d, now);
      BoardShowsExactly(id, upstream, now, Row(d, now - PAST_GRACE).value);
    }
    forall row | row in rows
      ensures exists d :: d in upstream.departures && OnBoard(TimeOfDeparture(d), now) && row.time == Unix(TimeOfDeparture(d))
    {
      BoardShowsExactly(id, upstream, now, row);
      var d :| d in upstream.departures && Row(d, now - PAST_GRACE) == Some(row);
      RowsExactly(d, now);
    }
  }

  lemma HafasShownFromExactly(id: string, res: Hafas.StationBoard, now: Instant, from: Instant)
    ensures AllFrom(HafasBoardOf(id, res, now).departures, Unix(from))
       <==> forall jny :: jny in res.jnyL && Indexed(res, jny) && OnBoard(TimeOfJourney(res, jny), now)
                ==> Unix(TimeOfJourney(res, jny)) >= Unix(from)
  {
    hide HafasRow, HafasBoardOf, TimeOfJourney, Unix, OnBoard, Indexed;
    var rows := HafasBoardOf(id, res, now).departures;
    forall jny | jny in res.jnyL && Indexed(res, jny) && OnBoard(TimeOfJourney(res, jny), now)
      ensures exists row :: row in rows && row.time == Unix(TimeOfJourney(res, jny))
    {
      HafasRowsExactly(res, jny, now);
      HafasBoardShowsExactly(id, res, now, HafasRow(res, jny, now - PAST_GRACE).value);
    }
    forall row | row in rows
      ensures exists jny :: jny in res.jnyL && Indexed(res, jny) && OnBoard(TimeOfJourney(res, jny), now)
                && row.time == Unix(TimeOfJourney(res, jny))
    {
      HafasBoardShowsExactly(id, res, now, row);
      var jny :| jny in res.jnyL && Indexed(res, jny) && HafasRow(res, jny, now - PAST_GRACE) == Some(row);
      HafasRowsExactly(res, jny, now);
    }
  }

  /** No board shows a departure more than the grace period back. */
  lemma BoardsAreCurrent(id: string, upstream: UpstreamResponse, res: Hafas.StationBoard, now: Instant)
    ensures AllFrom(BoardOf(id, upstream, now).departures, Unix(now - 30_000_000_000))
    ensures AllFrom(HafasBoardOf(id, res, now).departures, Unix(now - 30_000_000_000))
  {
    hide BoardOf, HafasBoardOf, TimeOfDeparture, TimeOfJourney, AllFrom;
    ShownFromExactly(id, upstream, now, now - PAST_GRACE);
    HafasShownFromExactly(id, res, now, now - PAST_GRACE);
  }

  /** A board is free of departures already past exactly when no departure falls into the grace
      period: each has no time, or lies further back (and is dropped), or is still to come. */
  lemma PastDroppedExactly(id: string, upstream: UpstreamResponse, now: Instant)
    ensures AllFrom(BoardOf(id, upstream, now).departures, Unix(now))
       <==> forall d :: d in upstream.departures ==>
              var t := TimeOfDeparture(d); t == ZERO || t < now - 30_000_000_000 || Unix(t) >= Unix(now)
  {
    hide BoardOf, TimeOfDeparture, AllFrom, Unix;
    ShownFromExactly(id, upstream, now, now);
  }

  lemma HafasPastDroppedExactly(id: string, res: Hafas.StationBoard, now: Instant)
    ensures AllFrom(HafasBoardOf(id, res, now).departures, Unix(now))
       <==> forall jny :: jny in res.jnyL && Indexed(res, jny) ==>
              var t := TimeOfJourney(res, jny); t == ZERO || t < now - 30_000_000_000 || Unix(t) >= Unix(now)
  {
    hide HafasBoardOf, TimeOfJourney, AllFrom, Unix, Indexed;
    HafasShownFromExactly(id, res, now, now);
  }

  /** One upstream departure at the Unix epoch, in UTC. */
  function EpochDeparture(): UpstreamDeparture {
    UpstreamDeparture(Rfc3339.Format(0, 0), "", None, false, "Ring", "S41", "suburban", "", [])
  }

  /** Ten seconds later, when it is in the past, the board still shows it. */
  lemma PastDepartureShown(id: string)
    ensures var rows := BoardOf(id, UpstreamResponse([EpochDeparture()], 0), FromUnix(10)).departures;
            |rows| == 1 && rows[0].line == "S41" && rows[0].time == 0 < Unix(FromUnix(10))
  {
    hide Row, EpochDeparture, TimeOfDeparture;
    var d, cutoff := EpochDeparture(), FromUnix(10) - PAST_GRACE;
    EpochRow();
    var row := Row(d, cutoff).value;
    assert [d][..0] == [] && [row][..0] == [];
    assert Kept([], cutoff) == [] && SortRows([]) == [];
  }

  lemma EpochRow()
    ensures var row := Row(EpochDeparture(), FromUnix(10) - PAST_GRACE); row.Some? && row.value.line == "S41" && row.value.time == 0
  {
    hide Calendar.CivilOf, Rfc3339.Format, Rfc3339.ParseTimestamp, StripDirection;
    Calendar.EpochIsDayZero();
    Calendar.DaysRoundTrip(Calendar.Civil(1970, 1, 1));
    Rfc3339.FormatThenParse(0, 0);
  }
}
