# Regelmäsig, modelled and proved

Regelmäsig is a stale-if-error proxy for a transit API. Upstream failures are answered from a cache, or
with a typed empty body. This project models its three cores in Dafny and proves what they promise.

`dafny verify dfyconfig.toml` checks everything.

## What is modelled

**The cache and the handlers that use it.**
`Recency` is the cache on values: items ordered by last use, with the clock an explicit argument.
`LinkedList` and `LruCache` are the objects: a map of references into a doubly linked ring, both updated in
place, every method tied to `Recency`. `LockedCache` splits `Get` and `Set` into their steps under the mutex
and lets any number of processes interleave. `Inclusion`, `Retention` and `MapCache` hold the theorems about
whole runs. `Proxy` has the standard and the compact handler, as a decision made from the request and its
upstream outcomes, and as methods on the cache object. `Service` lifts the cache theorems to sequences of
requests and to requests in flight together.

**The compact departures board.**
`FanOut` is the concurrent fetch of the stops, one worker for each, `BoardTransform` the two transforms to a board,
`StableSort` the ordering, `Aggregate` the response body and its expiry, `CompactBody` what that body says of the stops
asked for, `CompactParams` the query parameters and the cache key. A request carries what the upstreams would answer to
each worker for each stop and duration; which of these answers come into play is the handler's doing.

**The HAFAS translation.**
`Calendar` and `ZonedTime` are the proleptic Gregorian calendar and `time.Date`; `Digits` prints and reads
numerals as Go does; `Rfc3339` prints and reads timestamps; `Hafas` has the station board and its time notation;
`HafasTranslate` the REST form; `Expiry` the per-route expiry rules. `Commute` compares the direct path from
HAFAS to a compact board with the path through the REST form.

Instants are integers, in nanoseconds since the Unix epoch. Go's zero `time.Time` is the ordinary instant
0001-01-01T00:00:00Z and `IsZero` is equality with it, so a parsed time can be zero by accident. Clock readings and
upstream outcomes are parameters. JSON encoding and decoding are the identity on the declared fields.

**What the system theorems take for granted.** The program has two caches, one for static routes and one for the
dynamic routes and the compact endpoint (mux.go:39-72); a sequence of requests in `Service` is the sequence of those
that share one of them, and `OnlyDynamic` says it is the second. `RoutedApart` says that no standard request has a URI
that begins like a compact cache key: the router hands that path to the compact handler (mux.go:72). `AfterZero` says
the clock does not read before year 1. Standard freshness needs the first two, compact freshness the last two.

## Where code and documentation differ

- The README promises that a cancelled departure is "timed by its planned departure" (README.md:111) and that
  clients see no difference between the upstreams (README.md:51). The direct HAFAS path times a cancelled departure by
  its realtime when it has one, the REST form by its plan. A realtime string that does not parse also parts them: the
  direct path drops the departure, the REST form shows it at its planned time. `Commute` follows the code, shows both
  inputs, and proves the exact condition under which journeys come out the same on both paths.
- The README says departures already in the past are dropped (README.md:114); the code keeps them for 30 seconds more.
  `BoardTransform.PastDepartureShown` and `Commute.PastJourneyShown` are inputs on which a past departure is shown, one
  for each path; `PastDroppedExactly` and `HafasPastDroppedExactly` say for which inputs none is.

## Model

| member | source | states |
|---|---|---|
| Recency.RunInv | cache.go:47-90 | After any run of lookups and stores the keys are distinct and there are never more than `cap` of them; none at all when `cap` is zero or negative. |
| Recency.LookupHeld | cache.go:19-66 | A held item is answered and moved to the front up to and including the instant it expires at, and always if it has no expiry; after that it is dropped. |
| Recency.LookupAbsent | cache.go:55-58 | A lookup of anything else answers nothing and changes nothing. |
| Recency.StoreExactly | cache.go:76-89 | A store puts its item in front; the key's old item goes, or else, in a full cache, the last one. |
| Recency.DisabledCache | cache.go:36-50 | Without capacity nothing is ever held or answered. |
| LruCache.Cache.constructor | cache.go:38-44 | A new cache is empty and well formed: map and list agree. |
| LruCache.Cache.Get | cache.go:47-66 | On the heap, a lookup keeps map and list in bijection and the ring linked both ways; a held entry is answered exactly while it has no expiry or the clock has not passed it; and the list front to back becomes what the recency sequence says. |
| LruCache.Cache.Set | cache.go:69-90 | On the heap, a store keeps the same invariants; a known key is moved to the front with its new entry, a new key goes in front after the least recently used item of a full cache has been evicted. |
| LinkedList.List.Remove | cache.go:60-84 | Unlinking an element leaves the ring linked both ways, in the same order without it. |
| LinkedList.List.MoveToFront | cache.go:64-77 | Moving an element to the front keeps the ring linked both ways and the order of the others. |
| LinkedList.List.PushFront | cache.go:88 | A new element is linked in front of all others. |
| Inclusion.CapacityInclusion | cache.go:47-90 | Over any one trace the list of the smaller cache is a subsequence, entries included, of the list of the larger, and shorter by at most the difference in capacity. |
| Inclusion.LargerCacheKeepsHits | cache.go:47-66 | Every lookup a smaller cache answers, a larger one answers with the same entry. |
| Inclusion.PrefixInclusionFails | cache.go:47-66 | A concrete trace on which the smaller list is not a prefix of the larger, because a missed lookup inserts nothing. |
| MapCache.RoomyCacheIsMap | cache.go:47-90 | A cache with room for every key ever set behaves as a plain map with lazy expiry. |
| MapCache.CacheOnlyForgets | cache.go:47-90 | Whatever its capacity, the cache answers as that map does or not at all. |
| Retention.HitIsLastSet | cache.go:54-65 | A hit returns exactly the entry last stored under the key, and that entry is not expired at the lookup. |
| Retention.RetentionGuarantee | cache.go:54-89 | If fewer than `cap` distinct other keys were stored or hit since a key was last stored or hit, nothing stored it again, and its entry is not expired, the lookup hits. |
| Retention.RetentionExact | cache.go:54-89 | When nothing names the key afterwards and nothing else expires, the lookup hits if and only if fewer than `cap` other keys were touched. |
| LockedCache.FreeMeansSequential | cache.go:51-90 | In every interleaving of the micro-steps, whenever the mutex is free, map and list agree and are the cache after running the operations one by one in lock order. |
| LockedCache.AnswersAreSequential | cache.go:51-90 | In every interleaving each finished operation has the answer it gets in that sequential run; with no capacity it takes no lock and misses. |
| LockedCache.ReleasePoint | cache.go:51-52 | At the release of the mutex the operation has taken effect as a whole. |
| LockedCache.SomeoneCanMove | cache.go:51-74 | There is no deadlock: while some process is unfinished, some process can go on. |
| LockedCache.EveryoneFinishes | cache.go:51-90 | Every process is finished after any schedule of six rounds per process, in each of which everyone has a turn. |
| Expiry.LatestTime | expiry.go:30-38 | The loop returns the latest time, or the zero instant if no time is later than it. |
| Expiry.ComputeExpiry | expiry.go:66-166 | Each route's expiry is the latest effective time its rule finds in the body, an upper bound that is attained unless zero. |
| Expiry.RouteTimesExactly | expiry.go:66-166 | The times that count for each route are exactly those its body mentions: `when` or else `plannedWhen` of departures, arrivals and reachable stops, `arrival` or else `plannedArrival` of every leg or stopover of every journey or trip. |
| Expiry.CacheableExactly | proxy.go:141-147 | A dynamic response passes the cacheability test exactly when its body mentions a time still to come. |
| Proxy.FirstSuccess | proxy.go:125-135 | The provider loop ends with body and header of the provider that succeeds with all before it failing, or with no body when all fail. |
| Proxy.ServeStandard | proxy.go:121-164 | The handler's response and the new cache are those of its decision; the decision depends on the request alone, and the next three rows say what it is. |
| Proxy.StandardSuccessExactly | proxy.go:142-163 | With a body from the first provider to succeed, the response is 200 with that body and header; it is stored under the URI, never to expire on a static route, and on a dynamic one exactly if it mentions a time still to come, to expire with the latest it mentions. |
| Proxy.StandardFallbackExactly | proxy.go:229-254 | With no body, the entry cached under the URI is replayed with its status and header as a hit, or else the route's empty answer is given, as a miss, with 200. |
| Proxy.StandardCases | proxy.go:125-140 | Every standard request is in exactly one of these cases. |
| Proxy.RunWorkers | handle_compact_departures.go:122-145 | The k-th slot is what the upstreams answer for the k-th stop and the requested duration: the board made of transport.rest's answer, or on its failure of HAFAS's, under that stop's ID, or an error. |
| Proxy.ServeDepartures | handle_compact_departures.go:102-205 | The compact handler, from the query strings and what the upstreams answer to its workers, responds and leaves the cache as its decision says; the decision is a function of the request, and the three rows below say what it is. |
| Service.CompactAnswerExactly | handle_compact_departures.go:147-204 | When some stop is answered, the response is 200 with the body for the stops requested: each stop that is answered for the requested duration has the board made of its own answer, in order, with its first min(limit, kept) departures; `partial` tells whether one is missing, `asOf` is the latest positive stamp or else the clock. It is stored, to expire with the latest of its boards' last departures, if and only if none is missing and it shows a departure still to come. |
| Service.OnlyTheseFetches | handle_compact_departures.go:122-145 | Nothing depends on what the upstreams would answer to any other question than each stop of the request, at its place, for its duration. |
| Service.CompactFallbackExactly | handle_compact_departures.go:104-175 | For invalid stops the response is the 400 error; when no stop is answered it is the body cached under the request's key, or else the 502 error. |
| CompactBody.BodyExactly | handle_compact_departures.go:122-182 | The body's boards are those of the stops answered, in request order, each with its own ID and name and the first min(limit, kept) of the stable order of what that stop's upstream gave; boards plus failures are the stops requested; `partial` is 1 exactly when one failed; `asOf` is the latest positive stamp of the boards, or else the clock. |
| CompactBody.BodyIsUnique | handle_compact_departures.go:147-182 | These properties determine the body. |
| Service.CompactStatusExactly | handle_compact_departures.go:104-205 | 400 exactly for invalid stops, 502 exactly when every stop requested failed on every provider and the cache had nothing, 200 otherwise. |
| Service.CacheFollowsTrace | proxy.go:121-164 | The cache after a sequence of requests is the cache after handling them one by one. |
| Service.LargerCacheServesMore | proxy.go:121-164 | For the same requests, upstream outcomes and clock readings, raising the capacity leaves each response as it was or turns a fallback (empty body or 502) into a hit. |
| Service.UncacheableExactly | handle_compact_departures.go:193-201 | A request leaves the cache alone exactly if it is a dynamic body with no time still to come, a compact body that is partial or shows no departure still to come, or has invalid stops. |
| Service.UncacheableIsInvisible | proxy.go:145-154 | Such a request changes no other response: the older entry stays in place. |
| Service.LastGoodIsServed | proxy.go:243-254 | After a stored response, and until it expires, a request for the same key whose upstreams all fail is answered with it, as long as nothing else is stored under the key and fewer than `cap` other keys are used. |
| Service.StaleIfErrorSafety | proxy.go:137-154 | In every interleaving a hit answers a request whose upstreams gave nothing, with the entry last stored under its key in lock order by another request's cacheable success, not expired at the lookup. |
| Service.StandardHitReplays | proxy.go:137-154 | In every interleaving a standard hit is, in status, header and body, the response an earlier request for the same URI got from the first provider to succeed. |
| Service.StandardHitFreshness | proxy.go:141-154 | In every interleaving of requests to the dynamic cache, a standard hit is the body an earlier request for the same URI was answered with, and mentions a time not yet past. |
| Service.CompactHitFreshness | handle_compact_departures.go:165-201 | In every interleaving a compact hit is the body an earlier request for the same stops, duration and limit was answered with; it has a board for each of the stops, in their order, made of what the upstreams answered that request for that stop; and it shows a departure that has not left. |
| FanOut.EveryScheduleKeepsInv | handle_compact_departures.go:122-145 | In every interleaving the wait counter counts the unfinished workers, and a slot holds its zero value before its worker's write and that worker's outcome after it. |
| FanOut.ScheduleIndependence | handle_compact_departures.go:122-145 | When the wait returns, whatever the schedule, the array is the sequential map of the stops, a slot without error has a board, and each slot was written exactly once, by its own worker. |
| FanOut.WaitReturnsExactly | handle_compact_departures.go:124-144 | The wait returns if and only if every worker has been given all its steps, three, or four when it goes on to HAFAS; no worker waits for another. |
| StableSort.SortRowsIsStable | handle_compact_departures.go:309-311 | Insertion sort yields a time order in which departures of equal time keep their order. |
| StableSort.StableOrderUnique | handle_compact_departures.go:309-311 | There is only one such order. |
| StableSort.SortInPlace | handle_compact_departures.go:309-311 | The in-place sort of an array leaves exactly that order. |
| BoardTransform.CompactStripDirection | handle_compact_departures.go:319-332 | At most one prefix is stripped, the first that matches, and at most 24 runes are kept. |
| BoardTransform.TransformCompactBoard | handle_compact_departures.go:253-314 | The loop and sort produce the first non-empty stop name, or the id, and the stable time order of the kept rows. |
| BoardTransform.TransformHafasCompactBoard | handle_compact_departures.go:439-516 | The same from a HAFAS board, skipping journeys whose indices are out of range. |
| BoardTransform.RestNamedExactly | handle_compact_departures.go:256-267 | A board is named after the first departure with a stop name, or by its ID. |
| BoardTransform.HafasNamedExactly | handle_compact_departures.go:442-463 | The same over the locations of journeys with valid indices. |
| BoardTransform.RowShowsFields | handle_compact_departures.go:274-306 | A row shows its departure's line (or "?"), product, direction and cancellation, a warning exactly if some remark is one, and the delay rounded to the nearest minute, halves up. |
| BoardTransform.HafasRowShowsFields | handle_compact_departures.go:465-509 | A journey has a row exactly if its realtime, or else planned, time is not zero and not before the cutoff, in the zone of its stop (120 minutes if that is zero); the row shows the short line name, or the long one, or "?". |
| Instants.UnixFloors | handle_compact_departures.go:302 | A shown time is the second the departure's time lies in. |
| BoardTransform.DirectionExactly | handle_compact_departures.go:319-332 | "S+U ", "U " and "S " are stripped, nothing else is, and the rest is cut to 24 characters. |
| BoardTransform.KeptInOrder | handle_compact_departures.go:263-307 | Rows are kept in upstream order. |
| BoardTransform.HafasKeptInOrder | handle_compact_departures.go:449-509 | The same on the direct path. |
| BoardTransform.StampReads | handle_compact_departures.go:518-521 | The HAFAS stamp is the integer it spells. |
| CompactBody.ServedIsCurrent | handle_compact_departures.go:253-272 | A served board shows nothing more than the 30-second grace before the moment it was made. |
| BoardTransform.StableTopK | handle_compact_departures.go:155-159 | The departures of a served board and those left out are a permutation of the kept ones, nothing left out is earlier, and ties keep upstream order across the cut. |
| BoardTransform.TopIsUnique | handle_compact_departures.go:155-159 | The first min(limit, kept) of a stable order are the same whichever stable order they are cut from. |
| BoardTransform.BoardShowsExactly | handle_compact_departures.go:263-307 | A board shows the rows of the upstream departures that have a time within or after the grace period, and nothing else. |
| BoardTransform.HafasBoardShowsExactly | handle_compact_departures.go:449-509 | The same for journeys with valid indices. |
| BoardTransform.BoardsAreCurrent | handle_compact_departures.go:260-272 | No board, by either transform, shows a departure more than the 30-second grace back. |
| BoardTransform.PastDroppedExactly | handle_compact_departures.go:260-272 | A board shows no departure already past if and only if none falls into the grace period: each has no time, lies further back, or is still to come. |
| BoardTransform.HafasPastDroppedExactly | handle_compact_departures.go:446-480 | The same on the direct path. |
| BoardTransform.PastDepartureShown | handle_compact_departures.go:260-272 | A departure ten seconds back that is shown. |
| Aggregate.Collect | handle_compact_departures.go:147-163 | The loop over the results collects the cut boards, the freshest stamp and whether any stop failed; no nil board is dereferenced. |
| Aggregate.RowDelay | handle_compact_departures.go:269-300 | When an upstream delay is the time less the planned time, the row's time less its rounded delay is within 30 seconds of the planned time. |
| Aggregate.CompactCacheExpiry | handle_compact_departures.go:402-415 | The nested loops compute the latest positive departure time of all boards, zero if there is none. |
| Aggregate.LatestDepartureIsMaximum | handle_compact_departures.go:402-415 | That time bounds every departure and is attained when positive. |
| CompactBody.ExpiryExactly | handle_compact_departures.go:402-415 | The expiry of a served body is the latest of its boards' positive last times, or zero if there are none. |
| Aggregate.ExpiryGrowsWithLimit | handle_compact_departures.go:155-159 | A larger limit never brings the expiry forward. |
| CompactParams.IsCompactStopID | handle_compact_departures.go:360-370 | True exactly for one to twelve ASCII digits. |
| CompactParams.ParseCompactStops | handle_compact_departures.go:337-357 | Accepts exactly the strings whose non-empty comma-separated segments are one to four stop IDs, and returns those. |
| CompactParams.AcceptedExactly | handle_compact_departures.go:337-370 | Accepted are one to four non-empty segments of one to twelve characters from 0 to 9. |
| CompactParams.StopsRoundTrip | handle_compact_departures.go:337-357 | Every valid ID list is what its comma-join parses to. |
| CompactParams.StopsFixedPoint | handle_compact_departures.go:337-357 | Whatever is accepted is valid, and re-parsing its join gives it again. |
| CompactParams.OnlySegmentsCount | handle_compact_departures.go:337-357 | Every string, accepted or not, parses as the join of its non-empty segments. |
| CompactParams.ExtraCommaIgnored | handle_compact_departures.go:344-346 | A comma more, in front, behind or beside another, changes nothing. |
| CompactParams.ClampedInRange | handle_compact_departures.go:375-390 | The clamped parameter is always in range, and every value in range can be asked for by printing it. |
| CompactParams.ClampedExactly | handle_compact_departures.go:375-390 | An integer below the range gives its lower end, one above its upper end; what is no 64-bit integer gives the default. |
| CompactParams.DurationAndLimit | handle_compact_departures.go:27-35 | Duration is 10 to 120, 30 by default; limit 1 to 10, 6 by default. |
| CompactParams.KeyReadsBack | handle_compact_departures.go:395-398 | Stops, duration and limit can be read back from the cache key. |
| CompactParams.KeyInjective | handle_compact_departures.go:395-398 | Keys of validated parameters are equal only if stops, duration and limit are. |
| CompactParams.SameKeySameRequest | handle_compact_departures.go:104-112 | Accepted requests share a key if and only if they parse to the same stops, duration and limit. |
| Calendar.CivilRoundTrip | hafas.go:291-293 | Every day number is the number of the valid date computed from it. |
| Calendar.DaysRoundTrip | hafas.go:291-293 | Every valid date is the date computed from its day number. |
| Calendar.NextDayIsNext | hafas.go:291-293 | The day numbers count the calendar one day at a time, month ends and leap years included. |
| ZonedTime.DateIsPositional | hafas.go:291-293 | Seconds, minutes and hours of any size overflow into the next unit, so the instant is plain positional arithmetic. |
| ZonedTime.ZeroIsYearOne | expiry.go:10-18 | The zero instant is 0001-01-01T00:00:00Z. |
| Digits.AtoiOfItoa | handle_compact_departures.go:375-398 | Printing an integer and reading it back gives it again, over the whole 64-bit range. |
| Digits.AtoiDigits | hafas.go:279-289 | A digit string reads as its number, held at the largest 64-bit integer. |
| Digits.AtoiExactly | handle_compact_departures.go:379-382 | Reading succeeds exactly on an optional sign and digits whose integer fits 64 bits, and gives that integer. |
| Hafas.TimeIsArithmetic | hafas.go:275-294 | On digit strings the parsed time is civil-days(date) * 86400 + (dayOffset * 24 + hh) * 3600 + mm * 60 + ss - 60 * tz. |
| Hafas.OverflowAgreesWithPrefix | hafas.go:283-289 | Hours past 24 and the day-offset prefix are two spellings of the same instant. |
| Hafas.TimesIncrease | hafas.go:275-294 | Valid dates and times of day map to instants strictly in their order, in any one zone. |
| Hafas.DelayIgnoresDateAndZone | hafas_translate.go:117-127 | The difference of two times on one date depends on neither the date nor the zone. |
| Hafas.ProductsExactly | hafas.go:296-327 | The products map says for each product whether its bit is set; the name is the product of the lowest bit. |
| Rfc3339.FormatThenParse | hafas_translate.go:129-137 | A printed instant reads back as itself (in whole seconds) if its year has four digits and its zone is below 25 hours, and as the zero instant otherwise. |
| Rfc3339.RoundTripExactly | expiry.go:9-18 | On whole seconds the round trip is lossless if and only if the layout can carry the instant, or it is the zero instant. |
| Rfc3339.PrintedExactly | hafas_translate.go:129-137 | A printed timestamp has year, month, day, time of day and offset of the instant in its zone, each at its place in decimal. |
| Rfc3339.TimestampExactly | expiry.go:9-18 | A timestamp in fields of fixed width reads as its instant if every field is in range, the day within its month, the zone below 25 hours and nothing behind it; else as zero. |
| Rfc3339.FractionReads | expiry.go:9-18 | Up to nine fractional digits count as decimals of the second, and `Z` is UTC. |
| HafasTranslate.TranslateDepartures | hafas_translate.go:98-179 | The loop translates exactly the journeys with valid indices, in order, with planned and realtime strings, delay and platform. |
| HafasTranslate.TranslateArrivals | hafas_translate.go:181-262 | The same by arrival times. |
| Commute.DepartureByName | hafas_translate.go:109-167 | A translated departure takes planned and realtime, platform and cancellation from the journey's departure fields, and its trip, stop, line and direction from the journey, its stop and its product. |
| Commute.ArrivalByName | hafas_translate.go:192-250 | A translated arrival takes them from the arrival fields. |
| Commute.TranslatedInOrder | hafas_translate.go:98-179 | Journeys are translated one by one, in their order. |
| Commute.UnreadPrints | hafas.go:275-278 | A time that cannot be read is printed as 0001-01-01T00:00:00+00:00. |
| Commute.EntryReadsBack | hafas_translate.go:117-167 | A translated entry has a `when` exactly if it is not cancelled and a delay exactly if it has realtime; its timestamps read back as planned and realtime instant, or zero where the layout cannot carry them; the delay leads from the one to the other unless the duration saturates. |
| Commute.EntryTime | expiry.go:22-27 | Reading a translated entry's timestamps gives its planned time if it is cancelled or its realtime is zero or does not fit the layout, else its realtime. |
| Commute.ShownDelay | handle_compact_departures.go:489-493 | On the direct path, a shown time less its rounded delay is within 30 seconds of the planned time, unless the duration saturates. |
| Commute.RowsAgreeExactly | handle_compact_departures.go:439-516 | One journey gives the same row on both paths at every clock reading if and only if, wherever the REST form goes by the planned time, the direct path's time is that one too. |
| Commute.TranslationCommutes | handle_compact_departures.go:439-516 | If every journey with valid indices meets that guard, the direct board equals the board of the translated response: name, order, times, delays, flags and update stamp. |
| Commute.OneJourneyCommutesExactly | handle_compact_departures.go:253-314 | For a board of one journey the guard is necessary as well. |
| Commute.PrefixesCommuteExactly | handle_compact_departures.go:439-516 | The paths agree on every prefix of the journey list at every clock reading if and only if every journey with valid indices meets the guard. |
| Commute.CrossedBoardsAgree | handle_compact_departures.go:439-516 | Two journeys that both miss the guard and trade places: the whole boards still agree at every clock reading. |
| Commute.WellFormedCommutes | hafas_translate.go:117-137 | On well-formed dates and times the guard asks only that a cancelled (or zero-timed) departure's realtime is its planned time. |
| Commute.CancelledWithRealtimeDiffers | handle_compact_departures.go:470-479 | A concrete cancelled departure with a later realtime on which the two paths differ. |
| Commute.UnparseableRealtimeDiffers | handle_compact_departures.go:470-479 | A concrete departure with an unparseable realtime on which the two paths differ. |
| Commute.PastJourneyShown | handle_compact_departures.go:446-480 | A journey ten seconds back that the direct path shows. |
| Commute.TranslationKeepsExpiry | hafas_translate.go:98-262 | The expiry of a translated response, departures or arrivals, is the maximum, floored at the zero instant, of the served times of the journeys with valid indices. |
| Commute.TranslatedExpiryPlainly | expiry.go:66-92 | When all times fit the layout, that expiry is the latest of: the planned time of a cancelled journey, else the realtime falling back to the planned; zero if there is none. |

## Left out

- Commute.TranslationCommutes: for one whole board the guard on every journey is sufficient, not necessary (`CrossedBoardsAgree`); it is exact for the prefixes of a board (`PrefixesCommuteExactly`).
- Hafas.TimeIsArithmetic: instants are unbounded, so the 64-bit wrap-around of `time.Date` for day offsets of more than a hundred billion days is not modelled.
- Hafas.ParseTime: strings are sequences of characters, so byte positions inside non-ASCII dates and times are not modelled.
- Rfc3339.ParseTimestamp: follows Go's general layout parser, of which the strict RFC 3339 fast path accepts a part with the same results.
- Aggregate.RowDelay: delays are reals; rounding in binary floating point is not modelled.
- BoardTransform.CompactStripDirection: runes are characters; replacement of invalid UTF-8 is not modelled.
- Proxy.ServeStandard: the list item and its element are one object, and headers are carried as a map; adding headers to a response one by one is not modelled.
- Proxy.ServeDepartures: runs the workers in order; that every interleaving leaves the same array is proved in `FanOut`. That the upstream was asked for at most 20 results is not modelled: any number of departures may come back. The 500 for a body that cannot be encoded cannot arise with the identity encoding.
- HTTP transport, request forwarding, the HAFAS envelope and the URLs built for upstreams: a provider call is an arbitrary outcome.
- HEAD requests, the radar passthrough, maps and shapes handlers: variants that add only easy members.
- Locations, nearby stops and single stops translated from HAFAS: one record each, no times.
- Latitude and longitude are real quotients; their conversion back to integers is not modelled.
- Metrics, tracing, flags, environment and shutdown.
- `container/list`, `slices.SortStableFunc`, `time.Date`, `time.Format`, `time.Parse` and `strconv` are Go's, not part of the repository; the behaviour the program relies on is modelled from their documented semantics.
