/** HAFAS station boards in the REST form (hafas_translate.go). */
module HafasTranslate {
  import opened Instants
  import opened Wire
  import opened Rfc3339
  import opened BoardTransform
  import Digits
  import Hafas

  datatype RestLocation = RestLocation(kind: string, id: string, latitude: real, longitude: real)
  datatype RestStop = RestStop(kind: string, id: string, name: string, location: RestLocation, products: map<string, bool>)
  datatype RestLine = RestLine(kind: string, id: string, name: string, mode: string, product: string)

  /** One departure or arrival; `heading` is the direction of the one, the provenance of the other.
      The remarks of a translated entry are always empty. */
  datatype RestEntry = RestEntry(
    tripId: string, stop: RestStop, when: Option<string>, plannedWhen: string, delay: Option<int>,
    platform: Option<string>, heading: string, line: RestLine, cancelled: bool)

  datatype RestResponse = RestResponse(entries: seq<RestEntry>, realtimeDataUpdatedAt: int)

  function ProductMode(product: string): string {
    if product == "bus" then "bus" else if product == "ferry" then "watercraft" else "train"
  }

  function LocationToRestStop(loc: Hafas.Location): RestStop {
    RestStop("stop", loc.extId, loc.name,
             RestLocation("location", loc.extId, loc.y as real / 1000000.0, loc.x as real / 1000000.0),
             Hafas.ProductsMap(loc.pCls))
  }

  /** `int(d.Seconds())`: whole seconds, the fraction cut off. */
  function TruncatedSeconds(d: int): int {
    if d >= 0 then d / 1_000_000_000 else -(-d / 1_000_000_000)
  }

  /** A time string in the layout of the REST form. */
  function Printed(date: string, time: string, tz: int): string {
    Format(Hafas.ParseTime(date, time, tz), Hafas.ParsedZone(date, time, tz))
  }

  /** One journey with valid indices, by its departure or its arrival. */
  function Translate(board: Hafas.StationBoard, jny: Hafas.Journey, time: StopTime): RestEntry
    requires Indexed(board, jny)
  {
    var loc, prod := LocationOf(board, jny), ProductOf(board, jny);
    var tz := ZoneOf(loc);
    var p, w := PlannedWhen(jny.date, time, tz), When(jny.date, time, tz);
    var line, product := ShortName(prod), Hafas.ProductName(prod.cls);
    RestEntry(
      jny.jid,
      LocationToRestStop(loc),
      if time.cancelled then None else Some(Printed(jny.date, if time.realtime != "" then time.realtime else time.scheduled, tz)),
      Printed(jny.date, time.scheduled, tz),
      if time.realtime != "" then Some(TruncatedSeconds(Sub(w, p))) else None,
      time.platform,
      jny.dirTxt,
      RestLine("line", line, line, ProductMode(product), product),
      time.cancelled)
  }

  datatype Side = Departing | Arriving

  function TimeOf(side: Side, jny: Hafas.Journey): StopTime {
    if side.Departing? then DepartureOf(jny.stbStop) else ArrivalOf(jny.stbStop)
  }

  function Translated(board: Hafas.StationBoard, jnys: seq<Hafas.Journey>, side: Side): seq<RestEntry> {
    if jnys == [] then []
    else
      var rest, jny := Translated(board, jnys[..|jnys| - 1], side), jnys[|jnys| - 1];
      if Indexed(board, jny) then rest + [Translate(board, jny, TimeOf(side, jny))] else rest
  }

  function UpdatedAt(planrtTS: string): int {
    if planrtTS != "" then Digits.Atoi(planrtTS).value else 0
  }

  /** What a translation answers for a station board. */
  function ResponseOf(board: Hafas.StationBoard, side: Side): RestResponse {
    RestResponse(Translated(board, board.jnyL, side), UpdatedAt(board.planrtTS))
  }

  /** The loop body shared by both translations: the entry of one journey. */
  method TranslateJourney(res: Hafas.StationBoard, jny: Hafas.Journey, scheduled: string, realtime: string,
                          platform: Option<string>, cancelled: bool) returns (entry: RestEntry)
    requires Indexed(res, jny)
    ensures entry == Translate(res, jny, StopTime(scheduled, realtime, platform, cancelled))
  {
    hide Format, Hafas.ParseTime, LocationToRestStop;
    var loc, prod := res.locL[jny.stbStop.locX], res.prodL[jny.prodX];
    var tz := loc.tzOffset;
    if tz == 0 {
      tz := 120;
    }
    var plannedWhen, plannedZone := Hafas.ParseTime(jny.date, scheduled, tz), Hafas.ParsedZone(jny.date, scheduled, tz);
    var when, zone := plannedWhen, plannedZone;
    if realtime != "" {
      when, zone := Hafas.ParseTime(jny.date, realtime, tz), Hafas.ParsedZone(jny.date, realtime, tz);
    }
    var delay: Option<int> := None;
    if realtime != "" {
      delay := Some(TruncatedSeconds(Sub(when, plannedWhen)));
    }
    var whenStr: Option<string> := None;
    if !cancelled {
      whenStr := Some(Format(when, zone));
    }
    var line := prod.nameS;
    if line == "" {
      line := prod.name;
    }
    var product := Hafas.ProductName(prod.cls);
    entry := RestEntry(jny.jid, LocationToRestStop(loc), whenStr, Format(plannedWhen, plannedZone), delay, platform, jny.dirTxt,
                       RestLine("line", line, line, ProductMode(product), product), cancelled);
  }

  lemma TranslatedStep(board: Hafas.StationBoard, jnys: seq<Hafas.Journey>, i: nat, side: Side)
    requires i < |jnys|
    ensures Translated(board, jnys[..i + 1], side)
         == Translated(board, jnys[..i], side)
            + (if Indexed(board, jnys[i]) then [Translate(board, jnys[i], TimeOf(side, jnys[i]))] else [])
  {
    hide Translate;
    assert jnys[..i + 1][..i] == jnys[..i];
  }

  method TranslateDepartures(res: Hafas.StationBoard) returns (resp: RestResponse)
    ensures resp == ResponseOf(res, Departing)
  {
    hide Translate, Translated;
    var deps, jnys := [], res.jnyL;
    TranslatedNone(res, Departing);
    for i := 0 to |jnys|
      invariant deps == Translated(res, jnys[..i], Departing)
    {
      TranslatedStep(res, jnys, i, Departing);
      var jny := jnys[i];
      if jny.stbStop.locX < 0 || jny.stbStop.locX >= |res.locL| {
        continue;
      }
      if jny.prodX < 0 || jny.prodX >= |res.prodL| {
        continue;
      }
      var dep := TranslateJourney(res, jny, jny.stbStop.dTimeS, jny.stbStop.dTimeR, jny.stbStop.dPlatform, jny.stbStop.dCncl);
      deps := deps + [dep];
    }
    assert jnys[..|jnys|] == jnys;
    var updatedAt := 0;
    if res.planrtTS != "" {
      updatedAt := Digits.Atoi(res.planrtTS).value;
    }
    resp := RestResponse(deps, updatedAt);
  }

  method TranslateArrivals(res: Hafas.StationBoard) returns (resp: RestResponse)
    ensures resp == ResponseOf(res, Arriving)
  {
    hide Translate, Translated;
    var arrs, jnys := [], res.jnyL;
    TranslatedNone(res, Arriving);
    for i := 0 to |jnys|
      invariant arrs == Translated(res, jnys[..i], Arriving)
    {
      TranslatedStep(res, jnys, i, Arriving);
      var jny := jnys[i];
      if jny.stbStop.locX < 0 || jny.stbStop.locX >= |res.locL| {
        continue;
      }
      if jny.prodX < 0 || jny.prodX >= |res.prodL| {
        continue;
      }
      var arr := TranslateJourney(res, jny, jny.stbStop.aTimeS, jny.stbStop.aTimeR, jny.stbStop.aPlatform, jny.stbStop.aCncl);
      arrs := arrs + [arr];
    }
    assert jnys[..|jnys|] == jnys;
    var updatedAt := 0;
    if res.planrtTS != "" {
      updatedAt := Digits.Atoi(res.planrtTS).value;
    }
    resp := RestResponse(arrs, updatedAt);
  }

  lemma TranslatedNone(board: Hafas.StationBoard, side: Side)
    ensures Translated(board, [], side) == []
  {
  }

  // -- what a reader of the JSON sees --

  function OrEmpty(s: Option<string>): string {
    if s.Some? then s.value else ""
  }

  /** A translated departure as the compact endpoint decodes it. */
  function Decoded(e: RestEntry): UpstreamDeparture {
    UpstreamDeparture(OrEmpty(e.when), e.plannedWhen, if e.delay.Some? then Some(e.delay.value as real) else None,
                      e.cancelled, e.heading, e.line.name, e.line.product, e.stop.name, [])
  }

  function DecodedAll(entries: seq<RestEntry>): seq<UpstreamDeparture> {
    seq(|entries|, i requires 0 <= i < |entries| => Decoded(entries[i]))
  }

  function DecodedResponse(resp: RestResponse): UpstreamResponse {
    UpstreamResponse(DecodedAll(resp.entries), resp.realtimeDataUpdatedAt)
  }

  /** A translated entry as the expiry rules decode it. */
  function AsItem(e: RestEntry): WhenItem {
    WhenItem(OrEmpty(e.when), e.plannedWhen)
  }

  function AsItems(entries: seq<RestEntry>): seq<WhenItem> {
    seq(|entries|, i requires 0 <= i < |entries| => AsItem(entries[i]))
  }

  function AsBody(resp: RestResponse, side: Side): Body {
    if side.Departing? then Departures(AsItems(resp.entries), "") else Arrivals(AsItems(resp.entries), "")
  }
}
