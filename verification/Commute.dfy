/** Two ways from a HAFAS station board to a compact board, compared: directly, or through the REST
    form and the ordinary transform.  Also: what translating does to the expiry of a response. */
module Commute {
  import opened Instants
  import opened Wire
  import opened Calendar
  import opened Digits
  import opened Rfc3339
  import opened Expiry
  import opened StableSort
  import opened BoardTransform
  import opened HafasTranslate
  import Aggregate
  import Hafas

  // -- one journey's times --

  function ZoneAt(board: Hafas.StationBoard, jny: Hafas.Journey): int
    requires Indexed(board, jny)
  {
    ZoneOf(LocationOf(board, jny))
  }

  /** The planned instant of a journey on one side. */
  function Planned(board: Hafas.StationBoard, jny: Hafas.Journey, side: Side): Instant
    requires Indexed(board, jny)
  {
    PlannedWhen(jny.date, TimeOf(side, jny), ZoneAt(board, jny))
  }

  /** Its realtime instant, or else the planned one. */
  function Realtime(board: Hafas.StationBoard, jny: Hafas.Journey, side: Side): Instant
    requires Indexed(board, jny)
  {
    When(jny.date, TimeOf(side, jny), ZoneAt(board, jny))
  }

  /** An instant after printing and reading back: itself, or zero when the layout cannot carry it. */
  function Reread(t: Instant, tz: int): Instant {
    if Representable(t, tz) then t else ZERO
  }

  /** The instant a reader of the translated entry arrives at. */
  function ServedTime(board: Hafas.StationBoard, jny: Hafas.Journey, side: Side): Instant
    requires Indexed(board, jny)
  {
    var p, w, tz := Planned(board, jny, side), Realtime(board, jny, side), ZoneAt(board, jny);
    if !TimeOf(side, jny).cancelled && Reread(w, tz) != ZERO then w else Reread(p, tz)
  }

  lemma ReadBack(date: string, time: string, tz: int)
    ensures ParseTimestamp(Printed(date, time, tz)) == Reread(Hafas.ParseTime(date, time, tz), tz)
  {
    hide Format, ParseTimestamp, Hafas.ParseTime, Representable;
    var t := Hafas.ParseTime(date, time, tz);
    Hafas.WholeSeconds(date, time, tz);
    FormatThenParse(t, Hafas.ParsedZone(date, time, tz));
    FromUnixOfUnix(t);
    if Hafas.ParsedZone(date, time, tz) != tz {
      UnreadIsZero(date, time, tz);
    }
  }

  lemma UnreadIsZero(date: string, time: string, tz: int)
    requires |date| != 8 || |time| < 6
    ensures Hafas.ParseTime(date, time, tz) == ZERO
  {
  }

  /** A time that cannot be read is printed as the zero time, in UTC. */
  lemma UnreadPrints(date: string, time: string, tz: int)
    requires |date| != 8 || |time| < 6
    ensures Laid(Printed(date, time, tz), Civil(1, 1, 1), 0, 0)
  {
    hide CivilOf, Format, Laid;
    EpochIsDayZero();
    DaysRoundTrip(Civil(1, 1, 1));
    UnreadIsZero(date, time, tz);
    PrintedExactly(ZERO, 0);
  }

  lemma EmptyTimestamp()
    ensures ParseTimestamp("") == ZERO
  {
  }

  /** A translated entry read back.  It has a `when` exactly if it is not cancelled and a delay exactly
      if it has realtime; the timestamps read back as the two instants (or zero, where the layout
      cannot carry them), and the delay leads from the one to the other. */
  lemma EntryReadsBack(board: Hafas.StationBoard, jny: Hafas.Journey, side: Side)
    requires Indexed(board, jny)
    ensures var e, time := Translate(board, jny, TimeOf(side, jny)), TimeOf(side, jny);
            var p, w, tz := Planned(board, jny, side), Realtime(board, jny, side), ZoneAt(board, jny);
            && e.cancelled == time.cancelled && (e.when.Some? <==> !time.cancelled)
            && ParseTimestamp(e.plannedWhen) == Reread(p, tz)
            && (e.when.Some? ==> ParseTimestamp(e.when.value) == Reread(w, tz))
            && (e.delay.Some? <==> time.realtime != "")
            && (e.delay.Some? && MIN_DURATION <= w - p <= MAX_DURATION ==> p + FromUnix(e.delay.value) == w)
            && (e.delay.Some? && w - p > MAX_DURATION ==> e.delay.value == 9_223_372_036)
            && (e.delay.Some? && w - p < MIN_DURATION ==> e.delay.value == -9_223_372_036)
  {
    hide Printed, Hafas.ParseTime, Representable, ParseTimestamp, LocationToRestStop, Hafas.ProductName, ShortName;
    var time, tz := TimeOf(side, jny), ZoneAt(board, jny);
    ReadBack(jny.date, time.scheduled, tz);
    ReadBack(jny.date, time.realtime, tz);
    WholeDuration(board, jny, side);
    WholeDelay(Realtime(board, jny, side), Planned(board, jny, side));
  }

  /** A translated departure, field by field: the journey's own `d` fields decide its times, delay,
      platform and cancellation. */
  lemma DepartureByName(board: Hafas.StationBoard, jny: Hafas.Journey)
    requires Indexed(board, jny)
    ensures var stop, loc, out := jny.stbStop, board.locL[jny.stbStop.locX], Translated(board, [jny], Departing);
            var tz := if loc.tzOffset != 0 then loc.tzOffset else 120;
            && |out| == 1
            && ParseTimestamp(out[0].plannedWhen) == Reread(Hafas.ParseTime(jny.date, stop.dTimeS, tz), tz)
            && (out[0].when.Some? <==> !stop.dCncl)
            && (out[0].when.Some? ==>
                  ParseTimestamp(out[0].when.value)
                  == Reread(Hafas.ParseTime(jny.date, if stop.dTimeR != "" then stop.dTimeR else stop.dTimeS, tz), tz))
            && (out[0].delay.Some? <==> stop.dTimeR != "")
            && out[0].platform == stop.dPlatform
            && out[0].cancelled == stop.dCncl
            && OwnFields(out[0], board, jny)
  {
    hide Hafas.ParseTime, Representable, ParseTimestamp, Translate;
    EntryReadsBack(board, jny, Departing);
    EntryOwnFields(board, jny, Departing);
    OneTranslated(board, jny, Departing);
  }

  /** A translated arrival: the same by the `a` fields. */
  lemma ArrivalByName(board: Hafas.StationBoard, jny: Hafas.Journey)
    requires Indexed(board, jny)
    ensures var stop, loc, out := jny.stbStop, board.locL[jny.stbStop.locX], Translated(board, [jny], Arriving);
            var tz := if loc.tzOffset != 0 then loc.tzOffset else 120;
            && |out| == 1
            && ParseTimestamp(out[0].plannedWhen) == Reread(Hafas.ParseTime(jny.date, stop.aTimeS, tz), tz)
            && (out[0].when.Some? <==> !stop.aCncl)
            && (out[0].when.Some? ==>
                  ParseTimestamp(out[0].when.value)
                  == Reread(Hafas.ParseTime(jny.date, if stop.aTimeR != "" then stop.aTimeR else stop.aTimeS, tz), tz))
            && (out[0].delay.Some? <==> stop.aTimeR != "")
            && out[0].platform == stop.aPlatform
            && out[0].cancelled == stop.aCncl
            && OwnFields(out[0], board, jny)
  {
    hide Hafas.ParseTime, Representable, ParseTimestamp, Translate;
    EntryReadsBack(board, jny, Arriving);
    EntryOwnFields(board, jny, Arriving);
    OneTranslated(board, jny, Arriving);
  }

  /** The fields that are the same on both sides are the journey's, its stop's and its product's own. */
  ghost predicate OwnFields(e: RestEntry, board: Hafas.StationBoard, jny: Hafas.Journey)
    requires Indexed(board, jny)
  {
    var loc, prod := board.locL[jny.stbStop.locX], board.prodL[jny.prodX];
    && e.tripId == jny.jid
    && e.heading == jny.dirTxt
    && e.stop.id == e.stop.location.id == loc.extId
    && e.stop.name == loc.name
    && e.stop.kind == "stop" && e.stop.location.kind == "location" && e.line.kind == "line"
    && e.stop.location.latitude * 1000000.0 == loc.y as real && e.stop.location.longitude * 1000000.0 == loc.x as real
    && e.stop.products == Hafas.ProductsMap(loc.pCls)
    && e.line.id == e.line.name == (if prod.nameS != "" then prod.nameS else prod.name)
    && e.line.product == Hafas.ProductName(prod.cls)
    && (e.line.product == "bus" ==> e.line.mode == "bus")
    && (e.line.product == "ferry" ==> e.line.mode == "watercraft")
    && (e.line.product != "bus" && e.line.product != "ferry" ==> e.line.mode == "train")
  }

  lemma EntryOwnFields(board: Hafas.StationBoard, jny: Hafas.Journey, side: Side)
    requires Indexed(board, jny)
    ensures OwnFields(Translate(board, jny, TimeOf(side, jny)), board, jny)
    ensures Translate(board, jny, TimeOf(side, jny)).platform == TimeOf(side, jny).platform
  {
    hide Printed, Hafas.ParseTime, Hafas.ProductsMap, Hafas.ProductName, Sub;
  }

  lemma OneTranslated(board: Hafas.StationBoard, jny: Hafas.Journey, side: Side)
    ensures Translated(board, [jny], side) == if Indexed(board, jny) then [Translate(board, jny, TimeOf(side, jny))] else []
  {
    hide Translate, TimeOf;
    assert [jny][..0] == [];
  }

  /** Journeys are translated one by one, in their order. */
  lemma {:induction false} TranslatedInOrder(board: Hafas.StationBoard, a: seq<Hafas.Journey>, b: seq<Hafas.Journey>, side: Side)
    ensures Translated(board, a + b, side) == Translated(board, a, side) + Translated(board, b, side)
    decreases |b|
  {
    hide Translate, TimeOf;
    if b == [] {
      assert a + b == a;
    } else {
      var n := |b| - 1;
      TranslatedInOrder(board, a, b[..n], side);
      assert (a + b)[..|a| + n] == a + b[..n];
    }
  }

  lemma WholeDelay(w: Instant, p: Instant)
    requires w % 1_000_000_000 == 0 && p % 1_000_000_000 == 0
    ensures MIN_DURATION <= w - p <= MAX_DURATION ==> p + FromUnix(TruncatedSeconds(Sub(w, p))) == w
    ensures w - p > MAX_DURATION ==> TruncatedSeconds(Sub(w, p)) == 9_223_372_036
    ensures w - p < MIN_DURATION ==> TruncatedSeconds(Sub(w, p)) == -9_223_372_036
  {
    assert (w - p) % 1_000_000_000 == 0 && (p - w) % 1_000_000_000 == 0;
  }

  /** Reading a translated entry's timestamps gives the served time. */
  lemma EntryTime(board: Hafas.StationBoard, jny: Hafas.Journey, side: Side)
    requires Indexed(board, jny)
    ensures var e := Translate(board, jny, TimeOf(side, jny));
            EffectiveTime(OrEmpty(e.when), e.plannedWhen) == ServedTime(board, jny, side)
  {
    hide Translate, Hafas.ParseTime, Representable, ParseTimestamp, Planned, Realtime, TimeOf;
    EmptyTimestamp();
    EntryReadsBack(board, jny, side);
  }

  /** A delay on the board puts the planned time back within half a minute, unless the duration
      saturated. */
  lemma ShownDelay(board: Hafas.StationBoard, jny: Hafas.Journey, cutoff: Instant)
    requires Indexed(board, jny) && HafasRow(board, jny, cutoff).Some? && jny.stbStop.dTimeR != ""
    requires MIN_DURATION <= Realtime(board, jny, Departing) - Planned(board, jny, Departing) <= MAX_DURATION
    ensures var row := HafasRow(board, jny, cutoff).value;
            -30 <= row.time - 60 * row.delay - Unix(Planned(board, jny, Departing)) < 30
  {
    hide Hafas.ParseTime, Hafas.ProductName, StripDirection, RoundMinutes;
    var p, w := Planned(board, jny, Departing), Realtime(board, jny, Departing);
    WholeDuration(board, jny, Departing);
    FromUnixOfUnix(p);
    FromUnixOfUnix(w);
    assert (w - p) as real / 1000000000.0 == (Unix(w) - Unix(p)) as real;
    Aggregate.DelayWithinHalfMinute(Unix(w), Unix(p), (w - p) as real / 1000000000.0);
  }

  // -- the two rows of one journey --

  /** Rounding the duration directly, or after cutting it to whole seconds, is the same for the
      durations that arise: whole seconds, and the two saturated values. */
  lemma MinutesAgree(d: int)
    requires d % 1_000_000_000 == 0 || d == MAX_DURATION || d == MIN_DURATION
    ensures RoundMinutes(TruncatedSeconds(d) as real) == MinutesOfDuration(d)
  {
    var s := TruncatedSeconds(d);
    if d % 1_000_000_000 == 0 {
      assert d == 1_000_000_000 * s;
      assert d as real / 1000000000.0 == s as real;
    } else {
      var x := d as real / 1000000000.0;
      var low := if d == MAX_DURATION then 153722867 else -153722867;
      assert low as real <= x / 60.0 + 0.5 < (low + 1) as real;
      assert low as real <= s as real / 60.0 + 0.5 < (low + 1) as real;
    }
  }

  lemma WholeSub(t: Instant, u: Instant)
    requires t % 1_000_000_000 == 0 && u % 1_000_000_000 == 0
    ensures Sub(t, u) % 1_000_000_000 == 0 || Sub(t, u) == MAX_DURATION || Sub(t, u) == MIN_DURATION
  {
  }

  lemma WholeDuration(board: Hafas.StationBoard, jny: Hafas.Journey, side: Side)
    requires Indexed(board, jny)
    ensures var d := Sub(Realtime(board, jny, side), Planned(board, jny, side));
            d % 1_000_000_000 == 0 || d == MAX_DURATION || d == MIN_DURATION
    ensures Realtime(board, jny, side) % 1_000_000_000 == 0 && Planned(board, jny, side) % 1_000_000_000 == 0
  {
    hide Hafas.ParseTime, Sub;
    var time, tz := TimeOf(side, jny), ZoneAt(board, jny);
    Hafas.WholeSeconds(jny.date, time.scheduled, tz);
    Hafas.WholeSeconds(jny.date, time.realtime, tz);
    WholeSub(Realtime(board, jny, side), Planned(board, jny, side));
  }

  /** The row a departure gives at its served time, whichever way that time was found. */
  function RowAt(board: Hafas.StationBoard, jny: Hafas.Journey, t: Instant, cutoff: Instant): Option<CompactDeparture>
    requires Indexed(board, jny)
  {
    if t == ZERO || t < cutoff then None
    else Some(CompactDeparture(
      NameOr(ShortName(ProductOf(board, jny)), "?"),
      Hafas.ProductName(ProductOf(board, jny).cls),
      StripDirection(jny.dirTxt),
      Unix(t),
      if jny.stbStop.dTimeR != "" then MinutesOfDuration(Sub(Realtime(board, jny, Departing), Planned(board, jny, Departing))) else 0,
      Flag(jny.stbStop.dCncl),
      0))
  }

  /** The two paths differ in the time they go by, and in nothing else. */
  lemma DirectRowTime(board: Hafas.StationBoard, jny: Hafas.Journey, cutoff: Instant)
    requires Indexed(board, jny)
    ensures HafasRow(board, jny, cutoff) == RowAt(board, jny, Realtime(board, jny, Departing), cutoff)
  {
    hide Hafas.ParseTime, Hafas.ProductName, StripDirection, MinutesOfDuration;
  }

  lemma RestRowTime(board: Hafas.StationBoard, jny: Hafas.Journey, cutoff: Instant)
    requires Indexed(board, jny)
    ensures Row(Decoded(Translate(board, jny, DepartureOf(jny.stbStop))), cutoff)
         == RowAt(board, jny, ServedTime(board, jny, Departing), cutoff)
  {
    hide Printed, Hafas.ParseTime, Hafas.ProductName, Representable, StripDirection, LocationToRestStop, RoundMinutes,
      EffectiveTime, ServedTime, MinutesOfDuration, TruncatedSeconds, Sub;
    EntryTime(board, jny, Departing);
    WholeDuration(board, jny, Departing);
    MinutesAgree(Sub(Realtime(board, jny, Departing), Planned(board, jny, Departing)));
  }

  /** The guard: wherever the REST form leaves the planned time in charge (cancelled, or a realtime
      that is zero or does not fit the layout), the direct path must go by that time too. */
  predicate Commutes(board: Hafas.StationBoard, jny: Hafas.Journey)
    requires Indexed(board, jny)
  {
    var p, w, tz := Planned(board, jny, Departing), Realtime(board, jny, Departing), ZoneAt(board, jny);
    jny.stbStop.dCncl || w == ZERO || !Representable(w, tz) ==> if Representable(p, tz) then w == p else w == ZERO
  }

  lemma CommutesMeansSameTime(board: Hafas.StationBoard, jny: Hafas.Journey)
    requires Indexed(board, jny)
    ensures Commutes(board, jny) <==> ServedTime(board, jny, Departing) == Realtime(board, jny, Departing)
  {
    hide Representable, Planned, Realtime;
  }

  /** The rows of one journey agree at every clock reading if and only if it meets the guard. */
  lemma RowsAgreeExactly(board: Hafas.StationBoard, jny: Hafas.Journey)
    requires Indexed(board, jny)
    ensures (forall cutoff :: Row(Decoded(Translate(board, jny, DepartureOf(jny.stbStop))), cutoff) == HafasRow(board, jny, cutoff))
       <==> Commutes(board, jny)
  {
    hide Row, HafasRow, Commutes, ServedTime, Realtime, Planned, Translate, Decoded;
    var t, w := ServedTime(board, jny, Departing), Realtime(board, jny, Departing);
    var d := Decoded(Translate(board, jny, DepartureOf(jny.stbStop)));
    CommutesMeansSameTime(board, jny);
    forall cutoff
      ensures HafasRow(board, jny, cutoff) == RowAt(board, jny, w, cutoff) && Row(d, cutoff) == RowAt(board, jny, t, cutoff)
    {
      DirectRowTime(board, jny, cutoff);
      RestRowTime(board, jny, cutoff);
    }
    if t != w {
      var early := if t < w then t else w;
      WholeDuration(board, jny, Departing);
      ServedWhole(board, jny, Departing);
      TimesShow(board, jny, t, w, early);
      assert Row(d, early) != HafasRow(board, jny, early);
    }
  }

  /** Two different times show in the row, at a clock reading before both. */
  lemma TimesShow(board: Hafas.StationBoard, jny: Hafas.Journey, t: Instant, w: Instant, cutoff: Instant)
    requires Indexed(board, jny) && t != w && cutoff <= t && cutoff <= w
    requires t % 1_000_000_000 == 0 && w % 1_000_000_000 == 0
    ensures RowAt(board, jny, t, cutoff) != RowAt(board, jny, w, cutoff)
  {
    FromUnixOfUnix(t);
    FromUnixOfUnix(w);
    hide Unix;
  }

  lemma ServedWhole(board: Hafas.StationBoard, jny: Hafas.Journey, side: Side)
    requires Indexed(board, jny)
    ensures ServedTime(board, jny, side) % 1_000_000_000 == 0
  {
    hide Representable, Planned, Realtime, Sub;
    WholeDuration(board, jny, side);
  }

  // -- whole boards --

  lemma DecodedSnoc(entries: seq<RestEntry>, e: RestEntry)
    ensures DecodedAll(entries + [e]) == DecodedAll(entries) + [Decoded(e)]
  {
  }

  lemma {:induction false} KeptAgree(board: Hafas.StationBoard, jnys: seq<Hafas.Journey>, cutoff: Instant)
    requires forall jny :: jny in jnys && Indexed(board, jny) ==> Commutes(board, jny)
    ensures Kept(DecodedAll(Translated(board, jnys, Departing)), cutoff) == HafasKept(board, jnys, cutoff)
  {
    hide Row, HafasRow, Commutes, Translate, Decoded;
    if jnys == [] {
    } else {
      var n := |jnys| - 1;
      var rest, jny := Translated(board, jnys[..n], Departing), jnys[n];
      KeptAgree(board, jnys[..n], cutoff);
      if Indexed(board, jny) {
        var e := Translate(board, jny, DepartureOf(jny.stbStop));
        RowsAgreeExactly(board, jny);
        DecodedSnoc(rest, e);
        KeptSnoc(DecodedAll(rest), Decoded(e), cutoff);
      }
    }
  }

  lemma {:induction false} NamesAgree(board: Hafas.StationBoard, jnys: seq<Hafas.Journey>)
    ensures StopNames(DecodedAll(Translated(board, jnys, Departing))) == HafasNames(board, jnys)
  {
    hide Printed, Hafas.ParseTime, Hafas.ProductName;
    if jnys == [] {
    } else {
      var n := |jnys| - 1;
      NamesAgree(board, jnys[..n]);
    }
  }

  /** Commuting translation: if every journey with valid indices meets the guard, then at every
      clock reading the direct board is the board made from the translated response, name, order,
      times, delays and flags included, and both report the same update time. */
  lemma TranslationCommutes(id: string, board: Hafas.StationBoard, now: Instant)
    requires forall jny :: jny in board.jnyL && Indexed(board, jny) ==> Commutes(board, jny)
    ensures HafasBoardOf(id, board, now) == BoardOf(id, DecodedResponse(ResponseOf(board, Departing)), now)
    ensures PlanrtTS(board.planrtTS) == DecodedResponse(ResponseOf(board, Departing)).realtimeDataUpdatedAt
  {
    hide Commutes, Kept, HafasKept, SortRows, FirstName, HafasNames, Translated;
    KeptAgree(board, board.jnyL, now - PAST_GRACE);
    NamesAgree(board, board.jnyL);
  }

  /** For a board of one journey the guard is exact. */
  lemma OneJourneyCommutesExactly(id: string, board: Hafas.StationBoard)
    requires |board.jnyL| == 1 && Indexed(board, board.jnyL[0])
    ensures (forall now :: HafasBoardOf(id, board, now) == BoardOf(id, DecodedResponse(ResponseOf(board, Departing)), now))
       <==> Commutes(board, board.jnyL[0])
  {
    hide Row, HafasRow, Commutes, Translate, Decoded;
    var jny := board.jnyL[0];
    assert board.jnyL == [jny];
    if Commutes(board, jny) {
      forall now
        ensures HafasBoardOf(id, board, now) == BoardOf(id, DecodedResponse(ResponseOf(board, Departing)), now)
      {
        TranslationCommutes(id, board, now);
      }
    } else {
      RowsAgreeExactly(board, jny);
      var d := Decoded(Translate(board, jny, DepartureOf(jny.stbStop)));
      var cutoff :| Row(d, cutoff) != HafasRow(board, jny, cutoff);
      var now := cutoff + PAST_GRACE;
      OneRow(id, board, now);
      assert HafasBoardOf(id, board, now).departures != BoardOf(id, DecodedResponse(ResponseOf(board, Departing)), now).departures;
    }
  }

  lemma OneRow(id: string, board: Hafas.StationBoard, now: Instant)
    requires |board.jnyL| == 1 && Indexed(board, board.jnyL[0])
    ensures var jny, cutoff := board.jnyL[0], now - PAST_GRACE;
            && HafasBoardOf(id, board, now).departures == OptionRows(HafasRow(board, jny, cutoff))
            && BoardOf(id, DecodedResponse(ResponseOf(board, Departing)), now).departures
               == OptionRows(Row(Decoded(Translate(board, jny, DepartureOf(jny.stbStop))), cutoff))
  {
    hide Row, HafasRow, Translate, Decoded;
    var jny, cutoff := board.jnyL[0], now - PAST_GRACE;
    var e := Translate(board, jny, DepartureOf(jny.stbStop));
    assert board.jnyL[..0] == [];
    assert Translated(board, [], Departing) == [] && HafasKept(board, [], cutoff) == [];
    assert Translated(board, board.jnyL, Departing) == [e];
    assert DecodedAll([e]) == [Decoded(e)];
    assert [Decoded(e)][..0] == [] && Kept([], cutoff) == [];
    SortOne(HafasRow(board, jny, cutoff));
    SortOne(Row(Decoded(e), cutoff));
  }

  lemma SortOne(row: Option<CompactDeparture>)
    ensures SortRows(OptionRows(row)) == OptionRows(row)
  {
    if row.Some? {
      assert [row.value][..0] == [];
      assert SortRows([]) == [];
    }
  }

  // -- the guard is exact, prefix by prefix --

  /** The first `n` journeys of a board. */
  function Prefix(board: Hafas.StationBoard, n: nat): Hafas.StationBoard
    requires n <= |board.jnyL|
  {
    board.(jnyL := board.jnyL[..n])
  }

  /** Both paths give the same board at every clock reading. */
  ghost predicate SameBoards(board: Hafas.StationBoard) {
    forall id, now :: HafasBoardOf(id, board, now) == BoardOf(id, DecodedResponse(ResponseOf(board, Departing)), now)
  }

  /** Only the journey list of a board is cut; each journey still finds the same stop and product. */
  lemma PrefixRows(board: Hafas.StationBoard, n: nat, jnys: seq<Hafas.Journey>, cutoff: Instant)
    requires n <= |board.jnyL|
    ensures HafasKept(Prefix(board, n), jnys, cutoff) == HafasKept(board, jnys, cutoff)
    ensures Translated(Prefix(board, n), jnys, Departing) == Translated(board, jnys, Departing)
  {
    hide Hafas.ParseTime, Printed, Hafas.ProductName, StripDirection, LocationToRestStop, MinutesOfDuration, TruncatedSeconds, Sub;
    if jnys == [] {
    } else {
      PrefixRows(board, n, jnys[..|jnys| - 1], cutoff);
    }
  }
  lemma PrefixBoards(id: string, board: Hafas.StationBoard, n: nat, cutoff: Instant)
    requires n <= |board.jnyL|
    ensures var now, jnys := cutoff + PAST_GRACE, board.jnyL[..n];
            && HafasBoardOf(id, Prefix(board, n), now).departures == SortRows(HafasKept(board, jnys, cutoff))
            && BoardOf(id, DecodedResponse(ResponseOf(Prefix(board, n), Departing)), now).departures
               == SortRows(Kept(DecodedAll(Translated(board, jnys, Departing)), cutoff))
  {
    hide Kept, HafasKept, Translated, SortRows, FirstName, HafasNames, StopNames;
    PrefixRows(board, n, board.jnyL[..n], cutoff);
  }

  lemma SortPermutes(rows: Rows)
    ensures multiset(SortRows(rows)) == multiset(rows)
  {
    hide SortRows;
    SortRowsIsStable(rows);
    StableOrderPermutes(rows, SortRows(rows));
  }

  /** If two lists sort alike, and again with one more row each, or none, those rows are the same. */
  lemma SameRowAdded(s: Rows, t: Rows, a: Option<CompactDeparture>, b: Option<CompactDeparture>)
    requires SortRows(s) == SortRows(t) && SortRows(s + OptionRows(a)) == SortRows(t + OptionRows(b))
    ensures a == b
  {
    hide SortRows;
    SortPermutes(s);
    SortPermutes(t);
    SortPermutes(s + OptionRows(a));
    SortPermutes(t + OptionRows(b));
    var m := multiset(s);
    assert m + multiset(OptionRows(a)) == m + multiset(OptionRows(b));
    forall row
      ensures multiset(OptionRows(a))[row] == multiset(OptionRows(b))[row]
    {
      assert (m + multiset(OptionRows(a)))[row] == (m + multiset(OptionRows(b)))[row];
    }
    assert a.Some? ==> a.value in multiset(OptionRows(b));
    assert b.Some? ==> b.value in multiset(OptionRows(a));
  }

  /** One more journey: if the boards agree with it and without it, so do its rows. */
  lemma NextJourneyAgrees(board: Hafas.StationBoard, n: nat, cutoff: Instant)
    requires n < |board.jnyL| && Indexed(board, board.jnyL[n])
    requires SameBoards(Prefix(board, n)) && SameBoards(Prefix(board, n + 1))
    ensures var jny := board.jnyL[n];
            Row(Decoded(Translate(board, jny, DepartureOf(jny.stbStop))), cutoff) == HafasRow(board, jny, cutoff)
  {
    hide Row, HafasRow, Translate, Decoded, Kept, HafasKept, SortRows, BoardOf, HafasBoardOf, ResponseOf, Translated;
    var jny, jnys := board.jnyL[n], board.jnyL[..n];
    PrefixBoards("", board, n, cutoff);
    PrefixBoards("", board, n + 1, cutoff);
    var e := Translate(board, jny, DepartureOf(jny.stbStop));
    NextRows(board, n, cutoff);
    SameRowAdded(Kept(DecodedAll(Translated(board, jnys, Departing)), cutoff), HafasKept(board, jnys, cutoff),
                 Row(Decoded(e), cutoff), HafasRow(board, jny, cutoff));
  }

  lemma NextRows(board: Hafas.StationBoard, n: nat, cutoff: Instant)
    requires n < |board.jnyL| && Indexed(board, board.jnyL[n])
    ensures var jny, jnys := board.jnyL[n], board.jnyL[..n];
            && Kept(DecodedAll(Translated(board, board.jnyL[..n + 1], Departing)), cutoff)
               == Kept(DecodedAll(Translated(board, jnys, Departing)), cutoff)
                  + OptionRows(Row(Decoded(Translate(board, jny, DepartureOf(jny.stbStop))), cutoff))
            && HafasKept(board, board.jnyL[..n + 1], cutoff)
               == HafasKept(board, jnys, cutoff) + OptionRows(HafasRow(board, jny, cutoff))
  {
    hide Row, HafasRow, Translate, Decoded, Kept, HafasKept, Translated;
    var jny, jnys := board.jnyL[n], board.jnyL[..n];
    var e := Translate(board, jny, DepartureOf(jny.stbStop));
    TranslatedStep(board, board.jnyL, n, Departing);
    HafasStep(board, board.jnyL, n, cutoff);
    DecodedSnoc(Translated(board, jnys, Departing), e);
    KeptSnoc(DecodedAll(Translated(board, jnys, Departing)), Decoded(e), cutoff);
  }

  lemma PrefixCommutes(board: Hafas.StationBoard, n: nat, jny: Hafas.Journey)
    requires n <= |board.jnyL|
    ensures Indexed(Prefix(board, n), jny) <==> Indexed(board, jny)
    ensures Indexed(board, jny) ==> (Commutes(Prefix(board, n), jny) <==> Commutes(board, jny))
  {
    hide Hafas.ParseTime, Representable;
  }

  /** The two paths agree on every prefix of the journey list, at every clock reading, if and only if
      every journey with valid indices meets the guard. */
  lemma PrefixesCommuteExactly(board: Hafas.StationBoard)
    ensures (forall n: nat :: n <= |board.jnyL| ==> SameBoards(Prefix(board, n)))
       <==> forall jny :: jny in board.jnyL && Indexed(board, jny) ==> Commutes(board, jny)
  {
    hide Commutes, SameBoards, Row, HafasRow, Translate, Decoded;
    if forall jny :: jny in board.jnyL && Indexed(board, jny) ==> Commutes(board, jny) {
      forall n: nat | n <= |board.jnyL|
        ensures SameBoards(Prefix(board, n))
      {
        PrefixAgrees(board, n);
      }
    }
    if forall n: nat :: n <= |board.jnyL| ==> SameBoards(Prefix(board, n)) {
      forall jny | jny in board.jnyL && Indexed(board, jny)
        ensures Commutes(board, jny)
      {
        var n :| 0 <= n < |board.jnyL| && board.jnyL[n] == jny;
        assert SameBoards(Prefix(board, n)) && SameBoards(Prefix(board, n + 1));
        forall cutoff
          ensures Row(Decoded(Translate(board, jny, DepartureOf(jny.stbStop))), cutoff) == HafasRow(board, jny, cutoff)
        {
          NextJourneyAgrees(board, n, cutoff);
        }
        RowsAgreeExactly(board, jny);
      }
    }
  }

  lemma PrefixAgrees(board: Hafas.StationBoard, n: nat)
    requires n <= |board.jnyL|
    requires forall jny :: jny in board.jnyL && Indexed(board, jny) ==> Commutes(board, jny)
    ensures SameBoards(Prefix(board, n))
  {
    hide Commutes, BoardOf, HafasBoardOf, ResponseOf, Indexed;
    forall jny | jny in board.jnyL[..n] && Indexed(Prefix(board, n), jny)
      ensures Commutes(Prefix(board, n), jny)
    {
      PrefixCommutes(board, n, jny);
    }
    forall id, now
      ensures HafasBoardOf(id, Prefix(board, n), now) == BoardOf(id, DecodedResponse(ResponseOf(Prefix(board, n), Departing)), now)
    {
      TranslationCommutes(id, Prefix(board, n), now);
    }
  }

  // -- when the guard holds --

  /** Well-formed HAFAS times: a calendar date, and times of day in six digits. */
  predicate WellFormed(board: Hafas.StationBoard, jny: Hafas.Journey, side: Side)
    requires Indexed(board, jny)
  {
    var time := TimeOf(side, jny);
    && Hafas.DateDigits(jny.date) && ValidCivil(Hafas.CivilDate(jny.date))
    && Hafas.ClockTime(time.scheduled)
    && (time.realtime != "" ==> Hafas.ClockTime(time.realtime))
  }

  lemma SpelledTime(date: string, time: string, tz: int)
    requires Hafas.DateDigits(date) && ValidCivil(Hafas.CivilDate(date)) && Hafas.ClockTime(time)
    ensures Hafas.ParseTime(date, time, tz) == FromUnix(86400 * DaysOf(Hafas.CivilDate(date)) + Hafas.TimeSeconds(time) - 60 * tz)
    ensures 0 <= Hafas.TimeSeconds(time) < 86400
  {
    hide Hafas.ParseTime, Hafas.CivilDate, DaysOf, Hafas.DateDays, Hafas.TimeSeconds, ValidCivil;
    Hafas.TimeIsArithmetic(date, time, tz);
    Hafas.DateDaysOfCivil(date);
    Hafas.ClockTimeInDay(time);
  }

  lemma SpelledYear(date: string)
    requires Hafas.DateDigits(date)
    ensures 0 <= Hafas.CivilDate(date).year <= 9999
  {
    hide Number;
    Hafas.NumberBelow(date[0..4]);
    assert Power10(4) == 10000 by { assert Power10(2) == 100 by { assert Power10(1) == 10; } }
  }

  /** A date and a time of day in digits always fit the layout, if the zone does. */
  lemma SpelledTimesFit(date: string, time: string, tz: int)
    requires Hafas.DateDigits(date) && ValidCivil(Hafas.CivilDate(date)) && Hafas.ClockTime(time)
    ensures Representable(Hafas.ParseTime(date, time, tz), tz) <==> ZoneFits(tz)
  {
    hide Hafas.ParseTime, Hafas.CivilDate, DaysOf, Hafas.TimeSeconds, ValidCivil, CivilOf, Unix, ZoneFits;
    SpelledTime(date, time, tz);
    SpelledYear(date);
    DaysRoundTrip(Hafas.CivilDate(date));
    LocalDay(Hafas.ParseTime(date, time, tz), tz, DaysOf(Hafas.CivilDate(date)), Hafas.TimeSeconds(time));
  }

  lemma LocalDay(t: Instant, tz: int, days: int, tod: int)
    requires t == FromUnix(86400 * days + tod - 60 * tz) && 0 <= tod < 86400
    ensures (Unix(t) + 60 * tz) / 86400 == days
  {
    assert Unix(t) == 86400 * days + tod - 60 * tz;
    var local := 86400 * days + tod;
    assert local / 86400 == days;
  }

  /** On well-formed input the guard asks one thing: a cancelled departure has no realtime of its
      own (and a zero realtime stands beside a zero planned time). */
  lemma WellFormedCommutes(board: Hafas.StationBoard, jny: Hafas.Journey)
    requires Indexed(board, jny) && WellFormed(board, jny, Departing) && ZoneFits(ZoneAt(board, jny))
    ensures var p, w := Planned(board, jny, Departing), Realtime(board, jny, Departing);
            Commutes(board, jny) <==> (jny.stbStop.dCncl || w == ZERO ==> w == p)
  {
    hide Hafas.ParseTime, Hafas.ClockTime, Representable;
    var time, tz := DepartureOf(jny.stbStop), ZoneAt(board, jny);
    SpelledTimesFit(jny.date, time.scheduled, tz);
    if time.realtime != "" {
      SpelledTimesFit(jny.date, time.realtime, tz);
    }
  }

  // -- when it does not: two inputs --

  function Sample(realtime: string, cancelled: bool): Hafas.StationBoard {
    Hafas.StationBoard(
      [Hafas.Location("Test", "123", 13000000, 52000000, 1, 120)],
      [Hafas.Product("S1", "S1", 1)],
      [Hafas.Journey("test-jid", "20260822", 0, "Somewhere",
                     Hafas.StbStop(0, "120000", realtime, None, cancelled, "", "", None, false))],
      "")
  }

  lemma TwoDigitNumber(s: string)
    requires |s| == 2 && AllDigits(s)
    ensures Number(s) == 10 * DigitValue(s[0]) + DigitValue(s[1])
  {
    assert s[..1][..0] == [] && s[..1] == [s[0]];
    assert Number(s[..1]) == DigitValue(s[0]);
  }

  lemma SampleDate()
    ensures Hafas.DateDigits("20260822") && Hafas.CivilDate("20260822") == Civil(2026, 8, 22)
  {
    var d := "20260822";
    assert d[0..4] == "2026" && d[4..6] == "08" && d[6..8] == "22";
    TwoDigitNumber("08");
    TwoDigitNumber("22");
    TwoDigitNumber("20");
    assert "2026"[..3] == "202" && "202"[..2] == "20";
    assert Number("202") == 10 * Number("20") + 2;
    assert Number("2026") == 10 * Number("202") + 6;
  }

  lemma SixDigits(s: string)
    requires |s| == 6 && AllDigits(s)
    ensures Number(s[0..2]) == 10 * DigitValue(s[0]) + DigitValue(s[1])
    ensures Number(s[2..4]) == 10 * DigitValue(s[2]) + DigitValue(s[3])
    ensures Number(s[4..]) == 10 * DigitValue(s[4]) + DigitValue(s[5])
  {
    hide Number;
    TwoDigitNumber(s[0..2]);
    TwoDigitNumber(s[2..4]);
    TwoDigitNumber(s[4..]);
  }

  lemma SampleTimes()
    ensures Hafas.ClockTime("120000") && Hafas.TimeSeconds("120000") == 43200
    ensures Hafas.ClockTime("121000") && Hafas.TimeSeconds("121000") == 43800
    ensures Hafas.ClockTime("120010") && Hafas.TimeSeconds("120010") == 43210
  {
    hide Number, Hafas.TimeSeconds;
    SixDigits("120000");
    SixDigits("120010");
    Hafas.ClockTimeInDay("120010");
    SixDigits("121000");
    Hafas.ClockTimeInDay("120000");
    Hafas.ClockTimeInDay("121000");
  }

  /** The planned instant of both samples fits the layout and is not zero. */
  lemma SamplePlan()
    ensures var p := Hafas.ParseTime("20260822", "120000", 120); Representable(p, 120) && p != ZERO
  {
    hide Hafas.ParseTime, Hafas.CivilDate, Hafas.ClockTime, Hafas.TimeSeconds, DaysOf, Representable;
    SampleDate();
    SampleTimes();
    SpelledTimesFit("20260822", "120000", 120);
    SpelledTime("20260822", "120000", 120);
    DaysOfIncreases(Civil(1, 1, 1), Civil(2026, 8, 22));
    EpochIsDayZero();
  }

  /** A cancelled departure that still carries a later realtime: the direct path times it by the
      realtime, the REST form by the plan, and at some clock reading the boards differ. */
  lemma CancelledWithRealtimeDiffers(id: string)
    ensures var board := Sample("121000", true);
            exists now :: HafasBoardOf(id, board, now) != BoardOf(id, DecodedResponse(ResponseOf(board, Departing)), now)
  {
    hide Hafas.ParseTime, Representable, Hafas.CivilDate, Hafas.ClockTime, Hafas.TimeSeconds, HafasBoardOf, BoardOf, ResponseOf;
    var board := Sample("121000", true);
    SamplePlan();
    SampleDate();
    SampleTimes();
    Hafas.DelayIgnoresDateAndZone("20260822", 120, "20260822", 120, "121000", "120000");
    assert !Commutes(board, board.jnyL[0]);
    OneJourneyCommutesExactly(id, board);
  }

  /** A realtime string that does not parse: the direct path drops the departure, the REST form
      shows it at its planned time. */
  lemma UnparseableRealtimeDiffers(id: string)
    ensures var board := Sample("1", false);
            exists now :: HafasBoardOf(id, board, now) != BoardOf(id, DecodedResponse(ResponseOf(board, Departing)), now)
  {
    hide Hafas.ParseTime, Representable, HafasBoardOf, BoardOf, ResponseOf;
    var board := Sample("1", false);
    SamplePlan();
    UnreadIsZero("20260822", "1", 120);
    assert !Commutes(board, board.jnyL[0]);
    OneJourneyCommutesExactly(id, board);
  }

  /** A journey in the past by less than the grace period is on the board as well. */
  lemma PastJourneyShown(id: string)
    ensures var board := Sample("", false);
            var now := Hafas.ParseTime("20260822", "120000", 120) + FromUnix(10);
            !AllFrom(HafasBoardOf(id, board, now).departures, Unix(now))
  {
    hide Hafas.ParseTime, Representable, HafasBoardOf, AllFrom;
    var board := Sample("", false);
    var jny := board.jnyL[0];
    var p := Hafas.ParseTime("20260822", "120000", 120);
    SamplePlan();
    assert Indexed(board, jny) && TimeOfJourney(board, jny) == p;
    HafasPastDroppedExactly(id, board, p + FromUnix(10));
  }

  // -- and two journeys that trade places --

  /** Two cancelled departures, each with the planned time of the other as its realtime. */
  function Crossed(): Hafas.StationBoard {
    Hafas.StationBoard(
      [Hafas.Location("Test", "123", 13000000, 52000000, 1, 120)],
      [Hafas.Product("S1", "S1", 1)],
      [Hafas.Journey("a", "20260822", 0, "Somewhere", Hafas.StbStop(0, "120000", "120010", None, true, "", "", None, false)),
       Hafas.Journey("b", "20260822", 0, "Somewhere", Hafas.StbStop(0, "120010", "120000", None, true, "", "", None, false))],
      "")
  }

  function First(): Instant {
    Hafas.ParseTime("20260822", "120000", 120)
  }

  function Second(): Instant {
    Hafas.ParseTime("20260822", "120010", 120)
  }

  lemma CrossedTimes()
    ensures Second() == First() + FromUnix(10)
    ensures Representable(First(), 120) && Representable(Second(), 120) && First() != ZERO && Second() != ZERO
  {
    hide Hafas.ParseTime, Hafas.CivilDate, Hafas.ClockTime, Hafas.TimeSeconds, Representable;
    SampleDate();
    SampleTimes();
    SamplePlan();
    SpelledTimesFit("20260822", "120010", 120);
    SpelledTime("20260822", "120000", 120);
    SpelledTime("20260822", "120010", 120);
  }

  /** Neither meets the guard, and the boards still agree at every clock reading: what is not the
      same, journey by journey, can be the same on the whole. */
  lemma CrossedBoardsAgree()
    ensures var board := Crossed();
            && SameBoards(board)
            && forall k :: 0 <= k < 2 ==> Indexed(board, board.jnyL[k]) && !Commutes(board, board.jnyL[k])
  {
    hide Hafas.ParseTime, Representable, HafasBoardOf, BoardOf, ResponseOf;
    var board := Crossed();
    CrossedTimes();
    forall id, now
      ensures HafasBoardOf(id, board, now) == BoardOf(id, DecodedResponse(ResponseOf(board, Departing)), now)
    {
      CrossedBoard(id, now);
    }
  }

  lemma SortTwo(a: Option<CompactDeparture>, b: Option<CompactDeparture>)
    requires a.Some? && b.Some? ==> a.value.time != b.value.time
    ensures SortRows(OptionRows(a) + OptionRows(b)) == SortRows(OptionRows(b) + OptionRows(a))
  {
    hide SortRows;
    var s, t := OptionRows(a) + OptionRows(b), OptionRows(b) + OptionRows(a);
    SortRowsIsStable(s);
    SortRowsIsStable(t);
    forall time
      ensures AtTime(s, time) == AtTime(t, time)
    {
      AtTimeSplits(OptionRows(a), OptionRows(b), time);
      AtTimeSplits(OptionRows(b), OptionRows(a), time);
    }
    StableOrderUnique(SortRows(s), SortRows(t));
  }

  /** On the crossed board a row shows its time and nothing else of the journey. */
  lemma CrossedRows(k: nat, cutoff: Instant)
    requires k < 2
    ensures var board := Crossed(); var jny := board.jnyL[k];
            var early, late := RowAt(board, board.jnyL[0], First(), cutoff), RowAt(board, board.jnyL[0], Second(), cutoff);
            && HafasRow(board, jny, cutoff) == (if k == 0 then late else early)
            && Row(Decoded(Translate(board, jny, DepartureOf(jny.stbStop))), cutoff) == (if k == 0 then early else late)
            && (early.Some? ==> early.value.time == Unix(First()))
            && (late.Some? ==> late.value.time == Unix(Second()))
  {
    hide Hafas.ParseTime, Representable, Hafas.ProductName, StripDirection, Row, HafasRow, Translate, Decoded, MinutesOfDuration;
    var board := Crossed();
    CrossedTimes();
    TenSecondsRound();
    DirectRowTime(board, board.jnyL[k], cutoff);
    RestRowTime(board, board.jnyL[k], cutoff);
  }

  lemma TenSecondsRound()
    ensures MinutesOfDuration(Sub(Second(), First())) == 0 && MinutesOfDuration(Sub(First(), Second())) == 0
  {
    hide Hafas.ParseTime;
    CrossedTimes();
  }

  lemma TwoRows(board: Hafas.StationBoard, cutoff: Instant)
    requires |board.jnyL| == 2 && Indexed(board, board.jnyL[0]) && Indexed(board, board.jnyL[1])
    ensures var a, b := board.jnyL[0], board.jnyL[1];
            && HafasKept(board, board.jnyL, cutoff) == OptionRows(HafasRow(board, a, cutoff)) + OptionRows(HafasRow(board, b, cutoff))
            && Kept(DecodedAll(Translated(board, board.jnyL, Departing)), cutoff)
               == OptionRows(Row(Decoded(Translate(board, a, DepartureOf(a.stbStop))), cutoff))
                  + OptionRows(Row(Decoded(Translate(board, b, DepartureOf(b.stbStop))), cutoff))
  {
    hide Row, HafasRow, Translate, Decoded, Kept, HafasKept, Translated, Indexed, OptionRows;
    NextRows(board, 0, cutoff);
    NextRows(board, 1, cutoff);
    NoRows(board, cutoff);
    assert board.jnyL[..2] == board.jnyL;
  }

  lemma NoRows(board: Hafas.StationBoard, cutoff: Instant)
    ensures HafasKept(board, board.jnyL[..0], cutoff) == []
    ensures Kept(DecodedAll(Translated(board, board.jnyL[..0], Departing)), cutoff) == []
  {
    assert board.jnyL[..0] == [];
    assert Translated(board, [], Departing) == [];
    assert DecodedAll([]) == [];
  }

  lemma CrossedKept(cutoff: Instant)
    ensures var board := Crossed();
            SortRows(HafasKept(board, board.jnyL, cutoff)) == SortRows(Kept(DecodedAll(Translated(board, board.jnyL, Departing)), cutoff))
  {
    var board := Crossed();
    assert |board.jnyL| == 2 && Indexed(board, board.jnyL[0]) && Indexed(board, board.jnyL[1]);
    hide Hafas.ParseTime, Row, HafasRow, Translate, Decoded, RowAt, SortRows, Kept, HafasKept, Translated, Crossed, OptionRows;
    CrossedTimes();
    CrossedRows(0, cutoff);
    CrossedRows(1, cutoff);
    TwoRows(board, cutoff);
    SortTwo(RowAt(board, board.jnyL[0], First(), cutoff), RowAt(board, board.jnyL[0], Second(), cutoff));
  }

  lemma CrossedBoard(id: string, now: Instant)
    ensures HafasBoardOf(id, Crossed(), now) == BoardOf(id, DecodedResponse(ResponseOf(Crossed(), Departing)), now)
  {
    hide Crossed, SortRows, Kept, HafasKept, Translated, FirstName, HafasNames, StopNames;
    CrossedKept(now - PAST_GRACE);
    NamesAgree(Crossed(), Crossed().jnyL);
  }

  // -- expiry of a translated response --

  /** The served times of the journeys with valid indices. */
  function ServedTimes(board: Hafas.StationBoard, jnys: seq<Hafas.Journey>, side: Side): seq<Instant> {
    if jnys == [] then []
    else
      var rest, jny := ServedTimes(board, jnys[..|jnys| - 1], side), jnys[|jnys| - 1];
      if Indexed(board, jny) then rest + [ServedTime(board, jny, side)] else rest
  }

  lemma {:induction false} EntriesKeepTimes(board: Hafas.StationBoard, jnys: seq<Hafas.Journey>, side: Side)
    ensures ItemTimes(AsItems(Translated(board, jnys, side))) == ServedTimes(board, jnys, side)
  {
    hide ServedTime, Translate, EffectiveTime, TimeOf;
    if jnys == [] {
    } else {
      var n := |jnys| - 1;
      var rest, jny := Translated(board, jnys[..n], side), jnys[n];
      EntriesKeepTimes(board, jnys[..n], side);
      if Indexed(board, jny) {
        var e := Translate(board, jny, TimeOf(side, jny));
        EntryTime(board, jny, side);
        assert AsItems(rest + [e]) == AsItems(rest) + [AsItem(e)];
        assert (AsItems(rest) + [AsItem(e)])[..|rest|] == AsItems(rest);
      }
    }
  }

  function RuleOf(side: Side): Rule {
    if side.Departing? then OfDepartures else OfArrivals
  }

  /** Translation preserves expiry: the rule applied to the translated body finds exactly the served
      times of the journeys with valid indices, and so their maximum, floored at the zero instant. */
  lemma TranslationKeepsExpiry(board: Hafas.StationBoard, side: Side)
    ensures RouteTimes(RuleOf(side), AsBody(ResponseOf(board, side), side)) == ServedTimes(board, board.jnyL, side)
    ensures var t := RouteExpiry(RuleOf(side), AsBody(ResponseOf(board, side), side));
            && t >= ZERO
            && (forall u :: u in ServedTimes(board, board.jnyL, side) ==> u <= t)
            && (t == ZERO || t in ServedTimes(board, board.jnyL, side))
  {
    hide Translated, ServedTimes, Latest;
    EntriesKeepTimes(board, board.jnyL, side);
    LatestIsMaximum(ServedTimes(board, board.jnyL, side));
  }

  /** The planned time of a cancelled journey, else the realtime one falling back to the planned. */
  function PlainTime(board: Hafas.StationBoard, jny: Hafas.Journey, side: Side): Instant
    requires Indexed(board, jny)
  {
    if !TimeOf(side, jny).cancelled && Realtime(board, jny, side) != ZERO then Realtime(board, jny, side)
    else Planned(board, jny, side)
  }

  function PlainTimes(board: Hafas.StationBoard, jnys: seq<Hafas.Journey>, side: Side): seq<Instant> {
    if jnys == [] then []
    else
      var rest, jny := PlainTimes(board, jnys[..|jnys| - 1], side), jnys[|jnys| - 1];
      if Indexed(board, jny) then rest + [PlainTime(board, jny, side)] else rest
  }

  predicate TimesFit(board: Hafas.StationBoard, jny: Hafas.Journey, side: Side)
    requires Indexed(board, jny)
  {
    var tz := ZoneAt(board, jny);
    Representable(Planned(board, jny, side), tz) && Representable(Realtime(board, jny, side), tz)
  }

  lemma ServedTimePlainly(board: Hafas.StationBoard, jny: Hafas.Journey, side: Side)
    requires Indexed(board, jny) && TimesFit(board, jny, side)
    ensures ServedTime(board, jny, side) == PlainTime(board, jny, side)
  {
    hide Representable, Planned, Realtime;
  }

  lemma {:induction false} ServedTimesPlainly(board: Hafas.StationBoard, jnys: seq<Hafas.Journey>, side: Side)
    requires forall jny :: jny in jnys && Indexed(board, jny) ==> TimesFit(board, jny, side)
    ensures ServedTimes(board, jnys, side) == PlainTimes(board, jnys, side)
  {
    hide ServedTime, PlainTime, TimesFit, Indexed;
    if jnys == [] {
    } else {
      var n := |jnys| - 1;
      ServedTimesPlainly(board, jnys[..n], side);
      if Indexed(board, jnys[n]) {
        ServedTimePlainly(board, jnys[n], side);
      }
    }
  }

  /** When all times fit the layout, the expiry of a translated response is the latest of the plain
      times of the journeys with valid indices, or zero. */
  lemma TranslatedExpiryPlainly(board: Hafas.StationBoard, side: Side)
    requires forall jny :: jny in board.jnyL && Indexed(board, jny) ==> TimesFit(board, jny, side)
    ensures RouteExpiry(RuleOf(side), AsBody(ResponseOf(board, side), side)) == Latest(PlainTimes(board, board.jnyL, side))
  {
    hide Translated, ServedTimes, PlainTimes, Latest, TimesFit, Indexed;
    EntriesKeepTimes(board, board.jnyL, side);
    ServedTimesPlainly(board, board.jnyL, side);
  }
}
