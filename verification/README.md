# GTFS direct-trip search of go-eco, modelled in Dafny

This project models the transit-search core of the go-eco web application. Its centre is the
**direct-trip matching engine**. The engine works over GTFS (General Transit Feed
Specification) schedule rows: stop times, trips and calendar service ids. It finds
every trip that calls at a boarding stop and later at an alighting stop. The repository has
two versions of the engine, and both are modelled on their own terms:

- `src/actions/routeActions.ts`:
  - intersects the trip ids of the two stop-time lists with the trips whose service runs today;
  - groups the stop times per trip, restricted to the stop ids asked for;
  - keeps the pairs whose `stop_sequence` strictly increases;
  - applies a rolling 24-hour window to the clock-face departure;
  - sorts with a wrap-around key.
- `src/actions/routeActions.js`:
  - matches every pair of rows of one trip with a nested loop, with no time window;
  - drops the trips without active service;
  - names each route with a fallback chain;
  - sorts "upcoming first, then past, closest first".

Around the engine, the project models these small pure pieces:
- the display arithmetic of the result card (`RouteCard.tsx`);
- the recent-route history update and the stored route string (`apiGetData.js`);
- the paginated accumulation and the retry loop of the query helpers (`apiGetData.js`);
- the TTL cache (`cache.js`), with an explicit clock;
- stop de-duplication by name (`apiStops.ts`);
- the stop-row mapping, the stop-time limit and the shape-point grouping (`apiGetData.ts`);
- the recent-routes panel: placeholder slots, route-string parsing and the rounded last row
  (`RecentRoutes.tsx`).

Every store read, clock, calendar lookup and trip-detail lookup is a parameter. The model
states what the code does with the values those collaborators return.

Modules (one file each):
- `Common`: optional values and sequence helpers (`filter`, `Array.from(new Set(..))`, `slice`).
- `Records`: the GTFS and display records.
- `TimeText`: `split`, digit strings and the `HH:MM[:SS]` readings.
- `Sorting`: a stable insertion sort under a total preorder. Since ECMAScript 2019,
  `Array.prototype.sort` must be stable, so with a consistent comparator it gives exactly
  this order, ties included.
- `RouteActionsTs`, `RouteActionsJs`: the two engines.
- `RouteCard`, `RecentRides`, `RecentRoutesView`, `DataFetch`, `Cache`, `Stops`, `GetData`:
  the pieces listed above.

Where the code and its documentation differ, the model follows the code:
- The comment at `src/services/apiGetData.js:163` says "limit to 5"; the code keeps 7.
- `getStops` documents de-duplication. The model also pins down which row's coordinates are
  kept: the first row of each name.
- `getShapes` is described as grouping by `shape_id`. The code returns the groups in
  JavaScript property order, so shape ids that look like array indices come first, in
  ascending numeric order. The model keeps that order.

## Model

| member | source | states |
|---|---|---|
| TimeText.TimeToMinutes | src/actions/routeActions.ts:25-28 | hours·60 + minutes with the hour taken verbatim, so an extended hour keeps its whole days: the result is at least DayOffset·1440 |
| TimeText.NormalizedTimeToMinutes | src/actions/routeActions.ts:30-39 | with the hour folded modulo 24 and a clock-face minute field, the result lies in [0, 1440) |
| TimeText.NormalizedIsRawLessDays | src/actions/routeActions.ts:25-39 | normalized minutes = raw minutes − (HH div 24)·1440; they are equal exactly when the hour is below 24 |
| TimeText.Split | src/actions/routeActions.ts:26 | `split` on one character: at least one piece and no piece contains the separator |
| TimeText.JoinSplit | src/actions/routeActions.ts:26 | joining the pieces of a split gives back the string |
| TimeText.SplitJoin | src/actions/routeActions.ts:26 | splitting a join of separator-free pieces gives back the pieces |
| TimeText.NatToDecimal | src/app/_components/RouteCard.tsx:56-63 | `toString` of a natural number: a digit string without leading zeros that reads back as the number |
| TimeText.Pad2 | src/actions/routeActions.js:23 | `toString().padStart(2, '0')`: at least two digits, reading back as the number |
| TimeText.RenderTimeParses | src/actions/routeActions.js:23 | a rendered `HH:MM:SS` parses back to its hour and minute, so its minutes are h·60 + m |
| TimeText.SplitOn | src/app/_components/RecentRoutes.tsx:70 | `split` on a multi-character separator: at least one piece, the pieces joined with the separator give back the string, and no piece contains the separator |
| TimeText.SplitOnLeftmost | src/app/_components/RecentRoutes.tsx:70 | `split` cuts at the leftmost occurrence each time: no occurrence of the separator starts inside a piece followed by the separator, which fixes the pieces when the separator overlaps itself |
| RouteActionsTs.ValidTripOrderIsValidSet | src/actions/routeActions.ts:202-220 | the visiting order of `validTripIds` is duplicate-free and holds exactly the trips in both stop-time lists whose trip row has a valid service id |
| RouteActionsTs.InWindowMeaning | src/actions/routeActions.ts:292-296 | the window accepts d exactly when now − 1440 ≤ d ≤ now + 1440, i.e. when d or d + 1440 lies in [now, now + 1440] |
| RouteActionsTs.EveryClockDeparturePasses | src/actions/routeActions.ts:194-196 | with now < 1440 every clock-face departure passes the window |
| RouteActionsTs.SortKeyIsNextOccurrence | src/actions/routeActions.ts:319-324 | for a departure less than a day either side of now, the key is the next time its clock reading comes round: it lies in [now, now + 1440), shows the same clock time, and is the only minute count there that does |
| RouteActionsTs.SortKeyInWindow | src/actions/routeActions.ts:287-296 | an accepted departure's sort key lies in [now, now + 1440] |
| RouteActionsTs.LastTripWithId | src/actions/routeActions.ts:230-232 | the trip map lookup finds the last trip row with that id, and finds none exactly when no trip has it |
| RouteActionsTs.LastStopName | src/actions/routeActions.ts:235-240 | the stop-name map lookup gives the name of the last stop with that id, and none exactly when no stop has it |
| RouteActionsTs.GroupOf | src/actions/routeActions.ts:247-266 | a per-trip group holds only rows of that trip whose stop id was asked for |
| RouteActionsTs.NestedMatchesSound | src/actions/routeActions.ts:277-298 | every entry of the reference nested loop comes from a qualifying (from, to) pair |
| RouteActionsTs.NestedMatchesComplete | src/actions/routeActions.ts:277-298 | every qualifying pair appears in the reference nested loop |
| RouteActionsTs.PairAllIsSel | src/actions/routeActions.ts:269-315 | the combinations of one valid trip's two groups are exactly that trip's qualifying pairs in nested-loop order |
| RouteActionsTs.CollectTripsIsSel | src/actions/routeActions.ts:269-315 | looping over distinct valid trip ids emits, as a multiset, the qualifying pairs of those trips |
| RouteActionsTs.SelValidIsNested | src/actions/routeActions.ts:246-284 | restricting the reference loop to valid trips changes nothing, because rows of other trips never qualify |
| RouteActionsTs.CollectedMatchesNestedLoop | src/actions/routeActions.ts:269-315 | the results before sorting are, as a multiset, exactly one per qualifying pair: none missing, none extra |
| RouteActionsTs.RoutesPermutation | src/actions/routeActions.ts:318 | dropping the sort keys keeps permutations permutations |
| RouteActionsTs.CollectedKeys | src/actions/routeActions.ts:287-327 | every collected result carries the comparator's key of its own departure, inside [now, now + 1440] |
| RouteActionsTs.FindRouteAlgorithm | src/actions/routeActions.ts:174-328 | the output is a permutation of one result per qualifying pair, sorted nondecreasing by the wrap-around key, with every key in [now, now + 1440], and below now + 1440 for a clock-face departure |
| RouteActionsTs.ResultsComeFromQualifyingPairs | src/actions/routeActions.ts:247-311 | every reported route is the record built from a same-trip pair with from-stop in the from ids, to-stop in the to ids, strictly increasing stop_sequence and a departure in the window |
| RouteActionsTs.QualifyingPairsAreReported | src/actions/routeActions.ts:269-315 | every qualifying pair is reported |
| RouteActionsTs.QualifyingPairFields | src/actions/routeActions.ts:299-311 | a reported trip is in both stop-time lists and has a trip row with a valid service id; the headsign (else "Unknown"), the route id (else "Unknown") and the raw times are copied; an unknown stop id stands in for its name |
| RouteActionsTs.ServiceIdsOf | src/actions/routeActions.ts:101-104 | the non-empty service ids of the calendar rows, in any multiplicity, and nothing else |
| RouteActionsTs.ValidServiceIds | src/actions/routeActions.ts:99-107 | rows give their non-empty service ids; an object gives its service id when non-empty, else nothing; the empty id never appears |
| RouteActionsTs.StopTimesForWellFormed | src/actions/routeActions.ts:110-127 | the concatenated per-stop fetches parse when every fetch does |
| RouteActionsTs.FindRoutes | src/actions/routeActions.ts:45-161 | on the non-throwing path the checks run in order, each ending the search with no routes and its own message: no departure stop, no arrival stop, no scheduled departures, no scheduled arrivals; past them the routes are exactly `findRouteAlgorithm` on the fetched stop times, the trips of the valid service ids and those ids, and an empty list carries the no-direct-routes message; the error is null exactly when there are routes, the route is saved exactly when there are routes and a user, and each route's trip is a fetched trip with a valid service id |
| RouteActionsTs.EnvelopeTrips | src/actions/routeActions.ts:137-161 | every result's trip is one of the fetched trips with a valid service id, so results need a non-empty service-id list |
| RouteActionsJs.NormalizeGtfsTime | src/actions/routeActions.js:17-26 | the day offset is floor(hours / 24) |
| RouteActionsJs.NormalizeGtfsTimeRoundTrip | src/actions/routeActions.js:17-26 | the normalized text is three colon-separated fields, each its number zero-padded to at least two digits (the hour, below 24, to exactly two); it parses to hours mod 24 and the same minutes and seconds; dayOffset·24 + normalized hours = hours; normalized minutes + dayOffset·1440 = raw minutes |
| RouteActionsJs.FirstStopName | src/actions/routeActions.js:135-141 | `find(..)?.name`: the name of a stop with that id, and none exactly when no stop has it |
| RouteActionsJs.QualifyingPairs | src/actions/routeActions.js:116-119 | the index pairs (i, j) with a same-trip from-row i and to-row j in increasing stop_sequence: every such pair, only such pairs, each once and in the order the nested loop visits them |
| RouteActionsJs.PossibleRoutesByPairs | src/actions/routeActions.js:116-149 | `possibleRoutes` has one entry per qualifying pair, in nested-loop order, each built from its two rows; equal candidates from different pairs are all kept |
| RouteActionsJs.PossibleRoutesCountPairs | src/actions/routeActions.js:116-149 | the number of copies of a candidate in `possibleRoutes` is the number of qualifying pairs that build it |
| RouteActionsJs.PossibleRoutesMembership | src/actions/routeActions.js:116-149 | a candidate is in `possibleRoutes` exactly when it is built from a from-row and a to-row of the same trip with a smaller stop_sequence; there is no time filter |
| RouteActionsJs.CandidatesForMembership | src/actions/routeActions.js:117-147 | the inner loop for one from-row emits exactly the candidates of its qualifying to-rows |
| RouteActionsJs.TripsToFetch | src/actions/routeActions.js:111-124 | the fetched trip ids are duplicate-free and are exactly the trip ids of the candidates |
| RouteActionsJs.DetailOf | src/actions/routeActions.js:160-167 | the trip-details map gives the last fetched row with that non-empty id, and none exactly when no row has it |
| RouteActionsJs.TripDisplayName | src/actions/routeActions.js:180-184 | the first non-empty of trip_name, trip_headsign and route_id, else "Unknown Route"; never empty |
| RouteActionsJs.Kept | src/actions/routeActions.js:170-175 | the `filter`: a candidate is kept exactly when its trip detail exists and its service id is active, and every copy of a kept candidate survives |
| RouteActionsJs.NameAll | src/actions/routeActions.js:170-189 | the `map` over the filter: one entry per kept candidate, in the filter's order, named from its trip detail with its service id and the search date; an active candidate is named as often as it occurs |
| RouteActionsJs.NamedKept | src/actions/routeActions.js:176-189 | naming the kept candidates one by one yields exactly the active candidates, each named, with their numbers of copies |
| RouteActionsJs.CompareMeansRank | src/actions/routeActions.js:192-219 | the comparator orders by (is past, distance from now), a lexicographic preorder |
| RouteActionsJs.CompareAntisymmetric | src/actions/routeActions.js:192-219 | swapping the arguments flips the sign, so the comparator is consistent |
| RouteActionsJs.LeIsPreorder | src/actions/routeActions.js:192-219 | the order the comparator induces is total and transitive |
| RouteActionsJs.SortedMeaning | src/actions/routeActions.js:192-219 | in the sorted list all upcoming routes precede all past routes; upcoming keys ascend and past keys descend |
| RouteActionsJs.DoubleOffsetKeepsOrder | src/actions/routeActions.js:194-199 | the sort key adds the day offset on top of the raw extended hour; with now ≤ 1440 and clock-face minutes this never changes the comparator's order |
| RouteActionsJs.StopTimesForParse | src/actions/routeActions.js:94-100 | the flattened per-stop fetches parse when every fetch does |
| RouteActionsJs.RankedRoutes | src/actions/routeActions.js:170-219 | the ranked routes are a permutation of the named survivors, sorted by the comparator |
| RouteActionsJs.FindRoutes | src/actions/routeActions.js:28-230 | a cached result is returned as is, and the route is still saved for a user; otherwise the route is saved for a user, an error result has no routes and no date, and the checks run in order, each with its own message: no active service, origin stop not found, destination stop not found, no departures, no arrivals, no direct routes; once every check passes and there are possible routes, the result has no error and is cached; the result is cached exactly when it has no error, and then it is the ranked, filtered candidates with the search date |
| RouteActionsJs.FindRoutesSound | src/actions/routeActions.js:116-189 | every returned route is a same-trip pair in stop order whose trip has active service, named after that trip, with its service id and the search date |
| RouteActionsJs.FindRoutesComplete | src/actions/routeActions.js:116-189 | every such pair whose trip has active service is returned |
| RouteActionsJs.FindRoutesCount | src/actions/routeActions.js:116-219 | a search returns an active candidate exactly as many times as there are qualifying pairs of rows that build it |
| RouteCard.FormatTimeDisplay | src/app/_components/RouteCard.tsx:67-73 | the hour mod 24 padded to two digits, a colon, then the minute field verbatim, without seconds; it reads back as the normalized minutes |
| RouteCard.WaitSameDay | src/app/_components/RouteCard.tsx:47-54 | for a clock-face departure and now < 1440 the wait is (dep − now) mod 1440 and lies in [0, 1440) |
| RouteCard.WaitExtended | src/app/_components/RouteCard.tsx:32-46 | for an hour ≥ 24, daysAhead·1440 + the normalized minutes = raw minutes, and the wait is raw − now > 0 |
| RouteCard.TodayIffNoWrap | src/app/_components/RouteCard.tsx:16-24 | an extended hour is never today; otherwise "today" holds exactly when the departure is not before now |
| RouteCard.IntToDecimal | src/app/_components/RouteCard.tsx:60-62 | `toString` of any integer: the text starts with a minus sign exactly when the number is negative, and the rest is canonical decimal digits reading back as its magnitude |
| RouteCard.MinutesPart | src/app/_components/RouteCard.tsx:57 | JavaScript's `% 60`: a remainder in (−60, 60) with the sign of the dividend, equal to Dafny's mod for non-negative waits |
| RouteCard.WaitTextRoundTrip | src/app/_components/RouteCard.tsx:56-63 | the wait text of a non-negative wait reads back as that wait |
| RouteCard.WaitTextFormat | src/app/_components/RouteCard.tsx:56-63 | the text is "in ", a body, then "m"; an hours piece appears exactly when the wait is at least 60, and the pieces are the canonical decimals of wait div 60 and wait mod 60, or of the wait alone |
| RouteCard.NoLabelIff | src/app/_components/RouteCard.tsx:84-122 | no arrival label is shown exactly when both hours are below 24, the departure is today and the arrival is not more than an hour before it |
| RouteCard.LabelNotEarlierThanDeparture | src/app/_components/RouteCard.tsx:105-122 | a departure that is not today always gets an arrival label, and a day count is at least two |
| RouteCard.ClockDepartureLabel | src/app/_components/RouteCard.tsx:100-122 | with a departure hour below 24: an arrival hour of 24 or more gives "(next day)"; an arrival more than an hour earlier on the clock gives "(next day)" for a departure today and "(+2 days)" otherwise; else "(next day)" exactly when the departure is not today, and no label exactly when it is |
| RouteCard.ExtendedDepartureLabel | src/app/_components/RouteCard.tsx:84-98 | for a departure hour ≥ 24 a label is always shown, and it is "(+N days)" with N = arrDays − depDays + 1 exactly when arrDays > depDays, and "(next day)" otherwise |
| RouteCard.CardConsistent | src/app/_components/RouteCard.tsx:125-177 | the "(next day)" mark on the departure appears exactly with the "Tomorrow" badge and then the arrival is labelled too; both times are shown on the clock face |
| RouteCard.CardWaitReadsBack | src/app/_components/RouteCard.tsx:26-64 | the card's wait text reads back as (dep − now) mod 1440 for a clock-face departure |
| RecentRides.RouteString | src/services/apiGetData.js:140 | the stored string is `from`, the three characters " → ", then `to`; RecentRoutesView.RouteStringRoundTrip cuts it back apart |
| RecentRides.UpdateRides | src/services/apiGetData.js:164-170 | the route heads the list and occurs once, at most 7 entries, the rest is a prefix of the old list without the route, in order, and the length is exactly min(7, 1 + the others) |
| RecentRides.UpdateRidesIdempotent | src/services/apiGetData.js:164-170 | recording the same route twice equals recording it once |
| RecentRides.UpdateRidesDistinct | src/services/apiGetData.js:164-170 | a duplicate-free history stays duplicate-free |
| RecentRides.NewRides | src/services/apiGetData.js:161-174 | an array column gets the list update, a non-array column gets just the route, and a falsy column is an empty list |
| RecentRides.SetUserRecentRoute | src/services/apiGetData.js:118-190 | no write without a user or email, or when the lookup threw or failed with a code other than "no rows"; a missing row is inserted with the route as its only entry; an existing row is updated with the new list |
| RecentRides.FreshHistory | src/services/apiGetData.js:143-174 | a new user and a user whose column is not an array or is falsy both end with the route as their only entry |
| RecentRoutesView.BlankSlots | src/app/_components/RecentRoutes.tsx:14-16 | the blank slots are never negative, n + blank = 7 when n ≤ 7, and there are none exactly when n ≥ 7 |
| RecentRoutesView.RouteStringRoundTrip | src/app/_components/RecentRoutes.tsx:70-72 | cutting `from → to` on " → " gives back from and to when neither contains an arrow; a round trip with the serialiser of src/services/apiGetData.js:140 |
| RecentRoutesView.RouteStringNotInjective | src/app/_components/RecentRoutes.tsx:70-72 | without that condition two different routes serialise to the same string |
| RecentRoutesView.Rows | src/app/_components/RecentRoutes.tsx:68-90 | one row per stored route, with its text, its parsed stop names, and rounded exactly when it is the last route and there are no blank slots |
| RecentRoutesView.Placeholders | src/app/_components/RecentRoutes.tsx:93-94 | one placeholder per blank slot, and only the last one is rounded |
| RecentRoutesView.ListViewShape | src/app/_components/RecentRoutes.tsx:64-100 | the list shows at least seven rows in all, and exactly one is rounded: the last route when there are no blank slots, otherwise the last placeholder |
| RecentRoutesView.ViewPrecedence | src/app/_components/RecentRoutes.tsx:18-62 | loading first, then signed out, then no history, and the list exactly when none of these applies |
| DataFetch.ExecuteQuery | src/services/apiGetData.js:11-30 | at most `retries` attempts; every attempt before the last threw; the first returned result is passed on; when every attempt throws, the last error is rethrown (undefined with no attempt) |
| DataFetch.FetchPaginated | src/services/apiGetData.js:39-81 | the loop yields what the page responses determine: it stops at an error page (keeping the rows so far), an empty page, a short page or the record limit, and an exception propagates only while under the limit |
| DataFetch.PaginatedPrefixAndBound | src/services/apiGetData.js:44-80 | the result is a prefix of the pages' rows in order, and no longer than a non-zero record limit |
| DataFetch.FullPagesAllKept | src/services/apiGetData.js:61-70 | while every page is full, every row of every page is kept |
| Cache.TypeOf | src/lib/cache.js:45-48 | `CACHE_CONFIG[type]`: the three own type names select their settings, a name inherited from `Object.prototype` selects that inherited member, and any other name the default |
| Cache.Ttl | src/lib/cache.js:9-49 | static 86 400 000 ms, dynamic 900 000 ms, default and unknown types 3 600 000 ms, calendar the time left in the day, and no TTL (`undefined`) exactly for an inherited name |
| Cache.Lookup | src/lib/cache.js:64 | the entry found has the key asked for, and none is found exactly when the key is absent |
| Cache.Remove | src/lib/cache.js:72-74 | `delete`: the key is gone, every other key looks up as before, no key is added, and keys stay unique |
| Cache.Put | src/lib/cache.js:52-55 | `Map.set`: keys stay unique, an existing key keeps its place and a new key is appended, the key now holds the entry, and every other key is unchanged |
| Cache.Set | src/lib/cache.js:47-56 | the key holds the value with expiresAt = now + ttl(type), or an expiry that never passes exactly for an inherited type name; no other key changes, and a new key is appended |
| Cache.Get | src/lib/cache.js:63-78 | an unexpired entry's value is returned and the store is untouched; an absent key gives null and no change; a value is returned only from an unexpired entry; after a null the key has no entry; no other key changes |
| Cache.SetThenGet | src/lib/cache.js:47-78 | a read at the moment of writing, with a non-negative TTL, returns the value written and changes nothing |
| Cache.InheritedNeverExpires | src/lib/cache.js:47-78 | an entry stored under an inherited type name has a `NaN` expiry, so every later read returns it and changes nothing |
| Cache.GetIdempotent | src/lib/cache.js:63-78 | a second read at the same time returns what the first returned and changes nothing further |
| Cache.GetChangesOnlyKey | src/lib/cache.js:63-78 | a read changes at most the key read, and only by deleting it |
| Cache.Clear | src/lib/cache.js:84-96 | after a truthy key, that key has no entry, every other key looks up as before and no key is added; with no key or an empty one no key is left |
| Cache.GetStats | src/lib/cache.js:102-123 | totalItems is the size, valid + expired = totalItems, valid counts the unexpired entries, and keys lists every key in insertion order |
| Cache.ValidCountMeansReadable | src/lib/cache.js:112-118 | an entry counts as valid exactly when a read at the same time would return it |
| Stops.FindByName | src/services/apiStops.ts:14 | `find` by name returns the first row with that name |
| Stops.GetStops | src/services/apiStops.ts:4-23 | an error gives no stops; the names are distinct, are exactly the input names, and come in order of first occurrence; each stop's coordinates are those of the first row of its name |
| Stops.StopCountIsDistinctNames | src/services/apiStops.ts:11-13 | one stop per distinct stop name |
| Common.Dedup | src/services/apiStops.ts:11-13 | `Array.from(new Set(..))`: duplicate-free, holding exactly the input's elements |
| Common.DedupFirstOccurrenceOrder | src/services/apiStops.ts:11-13 | the de-duplicated elements come in strictly increasing order of first occurrence |
| GetData.GetUnfilteredStops | src/services/apiGetData.ts:6-25 | an error gives no stops; otherwise the rows are mapped 1:1 in order, with stop_id copied, name = stop_name and the coordinates taken from the row |
| GetData.StopsAreFirstOfEachName | src/services/apiStops.ts:11-19 | each de-duplicated stop is the unfiltered stop at the first row of its name, without the id |
| GetData.GetStopTimes | src/services/apiGetData.ts:27-42 | an error gives no rows; at most `limit` rows, all at the stop and taken from the table, no row more often than the table holds it, and every row of the stop is returned unless the limit is reached |
| GetData.PointsOf | src/services/apiGetData.ts:64-71 | a shape's points: one per row of that shape, non-empty exactly when the shape occurs |
| GetData.PropertyOrder | src/services/apiGetData.ts:78 | `Object.values` order: a permutation of the keys with the array-index keys first in ascending numeric order, then the other keys in creation order |
| GetData.GroupOrder | src/services/apiGetData.ts:62-78 | the order of the groups is duplicate-free and holds exactly the shape ids that occur |
| GetData.ReduceGroups | src/services/apiGetData.ts:62-75 | the reduction creates the keys in order of first appearance, has a group exactly for each shape id, and each group holds that shape's points in row order |
| GetData.ValuesAreGroups | src/services/apiGetData.ts:62-78 | the values in property order are the groups of the shape ids in GroupOrder, and none is empty |
| GetData.GetShapes | src/services/apiGetData.ts:53-80 | an error gives no paths; otherwise one path per shape id in property order, each the shape's points in row order and none empty |
| GetData.ShapesKeepEveryPoint | src/services/apiGetData.ts:62-78 | the total number of points across all paths equals the number of rows |
| GetData.OnePathPerShape | src/services/apiGetData.ts:62-78 | the number of paths equals the number of distinct shape ids |
| Sorting.SortBy | src/actions/routeActions.ts:318 | the sort returns a sorted permutation of its input under a consistent comparator |
| Sorting.SortByStable | src/actions/routeActions.ts:318 | the sort is stable: the elements tied with any given element keep their input order |
| Common.FilterCount | src/actions/routeActions.js:170-175 | `filter` keeps every copy of an element that passes and none of one that fails |

## Left out

- Network and store access is not modelled: Supabase queries, the client setup and authentication. What a query returned is an input, and a store error is a separate input case.
- `getActiveServiceIds` and `getBatchTripDetails` are not part of this model. Their results are inputs: a list of active service ids and a list of trip rows that may be null. The trip rows are not tied to the ids `TripsToFetch` requests: a search accepts any list, and a candidate whose trip has no row is dropped.
- `getTodayCalendar`, `getStopsByName` and `getTripsForServiceIds` are inputs of `findRoutes` for the same reason. `getTrip` only returns its table, or nothing on error, and is not modelled.
- Clocks and dates are parameters, not computed: `Date.now()`, `new Date()`, the end-of-day TTL, `toISOString` and the search-date string.
- Asynchrony is not modelled: retry delays (`setTimeout`), fire-and-forget saves and `Promise.all`. Only the attempt count and the results are kept.
- Console logging is not modelled.
- The cache-key text and the module-global `Map` are not modelled. The cache is a value passed in and returned, and a route search receives what the cache held for its key.
- `parseFloat` of coordinates is not modelled. A coordinate is its text.
- `Number`/`parseInt` on malformed text (NaN) is not modelled. Times are required to have digit-string hour and minute fields.
- JavaScript's own object keys (such as `__proto__`) used as a shape id are not modelled. Every shape id is treated as a plain own property.
- The React rendering of the result card and of the recent-routes panel is not modelled beyond the fields and flags they show. The other pages, layouts, providers and map components are not modelled.
- RouteActionsTs.FindRouteAlgorithm: the half-open bound [now, now + 1440) is stated only for clock-face departures. A minute field of 60 or more is allowed, and then the key can reach now + 1440, so for those only the closed bound holds.
- TimeText.TimeToMinutes: its contract only bounds the result below by the encoded whole days. Its exact value is stated by NormalizedIsRawLessDays and RenderTimeParses.
- RouteActionsJs.NormalizeGtfsTime: its own contract states only the day offset. The text it produces is described by NormalizeGtfsTimeRoundTrip.
- GetData.GetStopTimes: which rows a limit cuts off is not stated. The model takes the stop's rows in table order, but the store promises no order, so the contract states only that the rows come from the table, at the stop, at most `limit` of them, and all of them below the limit.
- RecentRides.SetUserRecentRoute: an error object without a `code` is treated like any code other than "no rows". Whether the insert or update then failed is not modelled, since it is only logged.
- The `catch` branches of both `findRoutes` are not modelled: `src/actions/routeActions.js:231-237` and `src/actions/routeActions.ts:162-168`. They return a generic error with no routes when a collaborator throws, for example when `getBatchTripDetails` returns null and `tripDetails` cannot be iterated. The model takes the trip details as a list whose rows may be null.
- RouteActionsJs.CandidateAt: an index pair outside the tables, or one whose times do not parse, gives an empty placeholder candidate. The nested loop never produces such a pair, so this only makes the mapping total.
