/** The values that travel between upstreams, handlers, cache and client.

    JSON encoding and decoding are taken as structural identity on the declared fields, so a
    body is the value it encodes.  A `null` or missing string decodes to the empty string. */
module Wire {
  import opened Instants

  datatype Option<+T> = None | Some(value: T)

  // -- the compact board sent to the client --

  datatype CompactDeparture = CompactDeparture(
    line: string,
    product: string,
    direction: string,
    time: int,      // epoch seconds
    delay: int,     // whole minutes
    cancelled: int,
    warning: int)

  datatype CompactBoard = CompactBoard(id: string, name: string, departures: seq<CompactDeparture>)

  datatype CompactResponse = CompactResponse(asOf: int, partiality: int, boards: seq<CompactBoard>)

  // -- the fields of upstream bodies that the expiry rules read --

  datatype WhenItem = WhenItem(when: string, plannedWhen: string)
  datatype Leg = Leg(arrival: string, plannedArrival: string)
  datatype Journey = Journey(legs: seq<Leg>)
  datatype Trip = Trip(stopovers: seq<Leg>)

  /** A response body.  `payload` stands for everything in the body that no rule reads. */
  datatype Body =
    | Departures(departures: seq<WhenItem>, payload: string)
    | Arrivals(arrivals: seq<WhenItem>, payload: string)
    | Journeys(journeys: seq<Journey>, payload: string)
    | OneJourney(journey: Journey, payload: string)
    | Trips(trips: seq<Trip>, payload: string)
    | OneTrip(trip: Trip, payload: string)
    | Reachable(reachable: seq<WhenItem>, payload: string)
    | Compact(board: CompactResponse)
    | Other(payload: string)

  type Header = map<string, seq<string>>

  /** A buffered response; `expiresAt == ZERO` marks an entry that never expires. */
  datatype CacheEntry = CacheEntry(statusCode: int, header: Header, body: Body, expiresAt: Instant)
}
