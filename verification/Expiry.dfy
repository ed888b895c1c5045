/** When a response stops being useful: the latest time it mentions (expiry.go). */
module Expiry {
  import opened Instants
  import opened Wire
  import opened Rfc3339

  /** The primary timestamp if it parses (to anything but the zero instant), else the fallback. */
  function EffectiveTime(primary: string, fallback: string): Instant {
    var t := ParseTimestamp(primary);
    if t != ZERO then t else ParseTimestamp(fallback)
  }

  /** The maximum of the times and the zero instant. */
  function Latest(times: seq<Instant>): Instant {
    if times == [] then ZERO
    else
      var rest, t := Latest(times[..|times| - 1]), times[|times| - 1];
      if t > rest then t else rest
  }

  lemma {:induction false} LatestIsMaximum(times: seq<Instant>)
    ensures Latest(times) >= ZERO
    ensures forall t :: t in times ==> t <= Latest(times)
    ensures Latest(times) == ZERO || Latest(times) in times
  {
    if times == [] {
    } else {
      var n := |times| - 1;
      LatestIsMaximum(times[..n]);
      assert times == times[..n] + [times[n]];
    }
  }

  method LatestTime(times: seq<Instant>) returns (latest: Instant)
    ensures latest == Latest(times)
    ensures forall t :: t in times ==> t <= latest
    ensures latest == ZERO || (latest > ZERO && latest in times)
  {
    latest := ZERO;
    for i := 0 to |times|
      invariant latest == Latest(times[..i])
    {
      assert times[..i + 1][..i] == times[..i];
      if times[i] > latest {
        latest := times[i];
      }
    }
    assert times[..|times|] == times;
    LatestIsMaximum(times);
  }

  // -- per-route rules --

  /** Which times of a body count; static routes have no rule. */
  datatype Rule = OfDepartures | OfArrivals | OfJourneys | OfJourney | OfTrips | OfTrip | OfReachable

  function ItemTimes(items: seq<WhenItem>): seq<Instant> {
    if items == [] then []
    else
      var item := items[|items| - 1];
      ItemTimes(items[..|items| - 1]) + [EffectiveTime(item.when, item.plannedWhen)]
  }

  function LegTimes(legs: seq<Leg>): seq<Instant> {
    if legs == [] then []
    else
      var leg := legs[|legs| - 1];
      LegTimes(legs[..|legs| - 1]) + [EffectiveTime(leg.arrival, leg.plannedArrival)]
  }

  function LegListTimes(lists: seq<seq<Leg>>): seq<Instant> {
    if lists == [] then [] else LegListTimes(lists[..|lists| - 1]) + LegTimes(lists[|lists| - 1])
  }

  function LegsOfJourneys(journeys: seq<Journey>): seq<seq<Leg>> {
    seq(|journeys|, i requires 0 <= i < |journeys| => journeys[i].legs)
  }

  function LegsOfTrips(trips: seq<Trip>): seq<seq<Leg>> {
    seq(|trips|, i requires 0 <= i < |trips| => trips[i].stopovers)
  }

  /** The times a rule finds in a body; a body of another shape has none of its fields. */
  function RouteTimes(rule: Rule, body: Body): seq<Instant> {
    match rule
    case OfDepartures => if body.Departures? then ItemTimes(body.departures) else []
    case OfArrivals => if body.Arrivals? then ItemTimes(body.arrivals) else []
    case OfJourneys => if body.Journeys? then LegListTimes(LegsOfJourneys(body.journeys)) else []
    case OfJourney => if body.OneJourney? then LegTimes(body.journey.legs) else []
    case OfTrips => if body.Trips? then LegListTimes(LegsOfTrips(body.trips)) else []
    case OfTrip => if body.OneTrip? then LegTimes(body.trip.stopovers) else []
    case OfReachable => if body.Reachable? then ItemTimes(body.reachable) else []
  }

  // -- what a body mentions, field by field --

  /** `t` is what the first of two timestamps says, or the second if the first says nothing. */
  predicate Says(t: Instant, first: string, second: string) {
    if ParseTimestamp(first) != ZERO then t == ParseTimestamp(first) else t == ParseTimestamp(second)
  }

  /** `t` is a time in the body that counts for the rule. */
  ghost predicate Mentions(rule: Rule, body: Body, t: Instant) {
    match rule
    case OfDepartures => body.Departures? && exists d :: d in body.departures && Says(t, d.when, d.plannedWhen)
    case OfArrivals => body.Arrivals? && exists a :: a in body.arrivals && Says(t, a.when, a.plannedWhen)
    case OfJourneys =>
      body.Journeys? && exists j, l :: j in body.journeys && l in j.legs && Says(t, l.arrival, l.plannedArrival)
    case OfJourney => body.OneJourney? && exists l :: l in body.journey.legs && Says(t, l.arrival, l.plannedArrival)
    case OfTrips =>
      body.Trips? && exists trip, s :: trip in body.trips && s in trip.stopovers && Says(t, s.arrival, s.plannedArrival)
    case OfTrip => body.OneTrip? && exists s :: s in body.trip.stopovers && Says(t, s.arrival, s.plannedArrival)
    case OfReachable => body.Reachable? && exists r :: r in body.reachable && Says(t, r.when, r.plannedWhen)
  }

  lemma {:induction false} ItemTimesExactly(items: seq<WhenItem>, t: Instant)
    ensures t in ItemTimes(items) <==> exists item :: item in items && Says(t, item.when, item.plannedWhen)
  {
    hide ParseTimestamp;
    if items == [] {
    } else {
      var n := |items| - 1;
      ItemTimesExactly(items[..n], t);
      assert items == items[..n] + [items[n]];
    }
  }

  lemma {:induction false} LegTimesExactly(legs: seq<Leg>, t: Instant)
    ensures t in LegTimes(legs) <==> exists l :: l in legs && Says(t, l.arrival, l.plannedArrival)
  {
    hide ParseTimestamp;
    if legs == [] {
    } else {
      var n := |legs| - 1;
      LegTimesExactly(legs[..n], t);
      assert legs == legs[..n] + [legs[n]];
    }
  }

  lemma {:induction false} LegListTimesExactly(lists: seq<seq<Leg>>, t: Instant)
    ensures t in LegListTimes(lists) <==> exists legs, l :: legs in lists && l in legs && Says(t, l.arrival, l.plannedArrival)
  {
    hide Says, LegTimes;
    if lists == [] {
    } else {
      var n := |lists| - 1;
      LegListTimesExactly(lists[..n], t);
      LegTimesExactly(lists[n], t);
      assert lists == lists[..n] + [lists[n]];
    }
  }

  lemma JourneyTimesExactly(journeys: seq<Journey>, t: Instant)
    ensures t in LegListTimes(LegsOfJourneys(journeys))
       <==> exists j, l :: j in journeys && l in j.legs && Says(t, l.arrival, l.plannedArrival)
  {
    hide Says, LegListTimes;
    LegListTimesExactly(LegsOfJourneys(journeys), t);
    var lists := LegsOfJourneys(journeys);
    assert forall j :: j in journeys ==> j.legs in lists by {
      forall j | j in journeys
        ensures j.legs in lists
      {
        var i :| 0 <= i < |journeys| && journeys[i] == j;
        assert lists[i] == j.legs;
      }
    }
  }

  lemma TripTimesExactly(trips: seq<Trip>, t: Instant)
    ensures t in LegListTimes(LegsOfTrips(trips))
       <==> exists trip, s :: trip in trips && s in trip.stopovers && Says(t, s.arrival, s.plannedArrival)
  {
    hide Says, LegListTimes;
    LegListTimesExactly(LegsOfTrips(trips), t);
    var lists := LegsOfTrips(trips);
    assert forall trip :: trip in trips ==> trip.stopovers in lists by {
      forall trip | trip in trips
        ensures trip.stopovers in lists
      {
        var i :| 0 <= i < |trips| && trips[i] == trip;
        assert lists[i] == trip.stopovers;
      }
    }
  }

  /** The times a rule finds are exactly those the body mentions in its fields. */
  lemma RouteTimesExactly(rule: Rule, body: Body, t: Instant)
    ensures t in RouteTimes(rule, body) <==> Mentions(rule, body, t)
  {
    hide Says, ItemTimes, LegTimes, LegListTimes;
    match rule
    case OfDepartures => if body.Departures? { ItemTimesExactly(body.departures, t); }
    case OfArrivals => if body.Arrivals? { ItemTimesExactly(body.arrivals, t); }
    case OfJourneys => if body.Journeys? { JourneyTimesExactly(body.journeys, t); }
    case OfJourney => if body.OneJourney? { LegTimesExactly(body.journey.legs, t); }
    case OfTrips => if body.Trips? { TripTimesExactly(body.trips, t); }
    case OfTrip => if body.OneTrip? { LegTimesExactly(body.trip.stopovers, t); }
    case OfReachable => if body.Reachable? { ItemTimesExactly(body.reachable, t); }
  }

  /** So the expiry is the latest time the body mentions, or zero. */
  lemma ExpiryIsLatestMentioned(rule: Rule, body: Body)
    ensures forall t :: Mentions(rule, body, t) ==> t <= RouteExpiry(rule, body)
    ensures RouteExpiry(rule, body) == ZERO || (RouteExpiry(rule, body) > ZERO && Mentions(rule, body, RouteExpiry(rule, body)))
  {
    hide RouteTimes, Mentions;
    LatestIsMaximum(RouteTimes(rule, body));
    forall t
      ensures t in RouteTimes(rule, body) <==> Mentions(rule, body, t)
    {
      RouteTimesExactly(rule, body, t);
    }
  }

  function RouteExpiry(rule: Rule, body: Body): Instant {
    Latest(RouteTimes(rule, body))
  }

  method CollectItems(items: seq<WhenItem>) returns (times: seq<Instant>)
    ensures times == ItemTimes(items)
  {
    times := [];
    for i := 0 to |items|
      invariant times == ItemTimes(items[..i])
    {
      assert items[..i + 1][..i] == items[..i];
      times := times + [EffectiveTime(items[i].when, items[i].plannedWhen)];
    }
    assert items[..|items|] == items;
  }

  method CollectLegs(legs: seq<Leg>) returns (times: seq<Instant>)
    ensures times == LegTimes(legs)
  {
    times := [];
    for i := 0 to |legs|
      invariant times == LegTimes(legs[..i])
    {
      assert legs[..i + 1][..i] == legs[..i];
      times := times + [EffectiveTime(legs[i].arrival, legs[i].plannedArrival)];
    }
    assert legs[..|legs|] == legs;
  }

  method CollectLegLists(lists: seq<seq<Leg>>) returns (times: seq<Instant>)
    ensures times == LegListTimes(lists)
  {
    times := [];
    for i := 0 to |lists|
      invariant times == LegListTimes(lists[..i])
    {
      assert lists[..i + 1][..i] == lists[..i];
      var more := CollectLegs(lists[i]);
      times := times + more;
    }
    assert lists[..|lists|] == lists;
  }

  /** `departuresExpiry` and its six siblings: zero means "do not cache". */
  method ComputeExpiry(rule: Rule, body: Body) returns (expiresAt: Instant)
    ensures expiresAt == RouteExpiry(rule, body)
    ensures forall t :: Mentions(rule, body, t) ==> t <= expiresAt
    ensures expiresAt == ZERO || (expiresAt > ZERO && Mentions(rule, body, expiresAt))
  {
    hide Mentions;
    var times := [];
    match rule {
      case OfDepartures => if body.Departures? { times := CollectItems(body.departures); }
      case OfArrivals => if body.Arrivals? { times := CollectItems(body.arrivals); }
      case OfJourneys => if body.Journeys? { times := CollectLegLists(LegsOfJourneys(body.journeys)); }
      case OfJourney => if body.OneJourney? { times := CollectLegs(body.journey.legs); }
      case OfTrips => if body.Trips? { times := CollectLegLists(LegsOfTrips(body.trips)); }
      case OfTrip => if body.OneTrip? { times := CollectLegs(body.trip.stopovers); }
      case OfReachable => if body.Reachable? { times := CollectItems(body.reachable); }
    }
    expiresAt := LatestTime(times);
    ExpiryIsLatestMentioned(rule, body);
  }

  /** A dynamic response is cacheable exactly when it mentions a time that is still to come. */
  lemma CacheableExactly(rule: Rule, body: Body, now: Instant)
    requires now >= ZERO
    ensures RouteExpiry(rule, body) != ZERO && RouteExpiry(rule, body) > now
       <==> exists t :: Mentions(rule, body, t) && t > now
  {
    hide Mentions, RouteExpiry;
    ExpiryIsLatestMentioned(rule, body);
  }
}
