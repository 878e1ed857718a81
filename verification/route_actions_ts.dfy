/** The TypeScript route search (`src/actions/routeActions.ts`): the pure
    matching algorithm `findRouteAlgorithm` and the `findRoutes` envelope
    around it. Fetches are parameters holding what the collaborator returned. */
module RouteActionsTs {
  import opened Common
  import opened Records
  import opened TimeText
  import Sorting

  /** The result record declared at the top of `routeActions.ts`. */
  datatype RouteResult = RouteResult(
    tripId: string,
    tripName: string,
    routeName: string,
    departureTime: string,
    arrivalTime: string,
    fromStopName: string,
    toStopName: string)

  /** A result together with the key the final sort compares. */
  datatype Keyed = Keyed(key: int, route: RouteResult)

  /** The inputs of `findRouteAlgorithm`. */
  datatype Search = Search(
    fromStops: seq<Stop>,
    toStops: seq<Stop>,
    fromStopTimes: seq<StopTime>,
    toStopTimes: seq<StopTime>,
    trips: seq<Trip>,
    currentTime: string,
    validServiceIds: seq<string>)

  /** The clock and every departure the algorithm parses are `HH:MM[:SS]` text. */
  predicate WellFormed(q: Search) {
    && Parseable(q.currentTime)
    && forall st | st in q.fromStopTimes :: Parseable(st.departure_time)
  }

  function Now(q: Search): nat
    requires Parseable(q.currentTime)
  {
    TimeToMinutes(q.currentTime)
  }

  // ---------------------------------------------------------------------
  // the sets built at the start of the algorithm

  function StopIds(stops: seq<Stop>): set<string> {
    set s | s in stops :: s.stop_id
  }

  function TripIds(sts: seq<StopTime>): set<string> {
    set st | st in sts :: st.trip_id
  }

  function TripIdSeq(sts: seq<StopTime>): (r: seq<string>)
    ensures |r| == |sts|
    ensures forall i :: 0 <= i < |sts| ==> r[i] == sts[i].trip_id
  {
    seq(|sts|, i requires 0 <= i < |sts| => sts[i].trip_id)
  }

  /** Trips whose service runs on the searched day. */
  function TodayTripIds(q: Search): set<string> {
    set t | t in q.trips && t.service_id in q.validServiceIds :: t.trip_id
  }

  /** Trips that touch both stop-time lists and run today. */
  function ValidTripSet(q: Search): set<string> {
    TripIds(q.fromStopTimes) * TripIds(q.toStopTimes) * TodayTripIds(q)
  }

  /** `validTripIds` in the order its `forEach` visits it: JavaScript sets
      iterate in insertion order, which here is the first occurrence of each
      trip id in `fromStopTimes`. */
  function ValidTripOrder(q: Search): seq<string> {
    Filter(Dedup(TripIdSeq(q.fromStopTimes)),
           (id: string) => id in TripIds(q.toStopTimes) && id in TodayTripIds(q))
  }

  lemma ValidTripOrderIsValidSet(q: Search)
    ensures Distinct(ValidTripOrder(q))
    ensures forall id :: id in ValidTripOrder(q) <==> id in ValidTripSet(q)
  {
    var ids := TripIdSeq(q.fromStopTimes);
    FilterDistinct(Dedup(ids),
                   (id: string) => id in TripIds(q.toStopTimes) && id in TodayTripIds(q));
    forall id ensures id in ids <==> id in TripIds(q.fromStopTimes) {
      if id in ids {
        var i :| 0 <= i < |ids| && ids[i] == id;
        assert q.fromStopTimes[i] in q.fromStopTimes;
      }
      if id in TripIds(q.fromStopTimes) {
        var st :| st in q.fromStopTimes && st.trip_id == id;
        var i :| 0 <= i < |q.fromStopTimes| && q.fromStopTimes[i] == st;
        assert ids[i] == id;
      }
    }
  }

  // ---------------------------------------------------------------------
  // the time window and the sort key

  /** The window test of lines 292-296: the clock-face departure, or the same
      clock time one day later, lies in the closed interval [now, now + 1440]. */
  predicate InWindow(now: int, d: int) {
    || (d >= now && d <= now + MinutesPerDay)
    || (d + MinutesPerDay >= now && d + MinutesPerDay <= now + MinutesPerDay)
  }

  /** The window accepts exactly the departures within one day either side
      of `now` that are not later than one day ahead. */
  lemma InWindowMeaning(now: int, d: int)
    ensures InWindow(now, d) <==> now - MinutesPerDay <= d <= now + MinutesPerDay
  {
  }

  /** With a clock-face reference time every clock-face departure passes. */
  lemma EveryClockDeparturePasses(now: int, d: int)
    requires 0 <= now < MinutesPerDay
    requires 0 <= d < MinutesPerDay
    ensures InWindow(now, d)
  {
  }

  /** The sort key: departures earlier on the clock than `now` count as the
      next day's. */
  function SortKey(now: int, d: int): (k: int)
    ensures d < now ==> k == d + MinutesPerDay
    ensures d >= now ==> k == d
  {
    if d < now then d + MinutesPerDay else d
  }

  /** For an accepted departure the key lies in the day-long window that
      starts now, so the sort puts the departures in waiting order. */
  lemma SortKeyInWindow(now: int, d: int)
    requires InWindow(now, d)
    ensures now <= SortKey(now, d) <= now + MinutesPerDay
    ensures 0 <= now && 0 <= d < MinutesPerDay ==> SortKey(now, d) < now + MinutesPerDay
  {
  }

  /** For a departure less than a day either side of `now`, the key is the
      one minute count in the day that starts now showing the departure's
      clock time: the next time that clock time comes round. */
  lemma SortKeyIsNextOccurrence(now: int, d: int)
    requires now - MinutesPerDay <= d < now + MinutesPerDay
    ensures now <= SortKey(now, d) < now + MinutesPerDay
    ensures SortKey(now, d) % MinutesPerDay == d % MinutesPerDay
    ensures forall k :: now <= k < now + MinutesPerDay && k % MinutesPerDay == d % MinutesPerDay ==> k == SortKey(now, d)
  {
    var key := SortKey(now, d);
    assert key == d || key == d + MinutesPerDay;
    forall k | now <= k < now + MinutesPerDay && k % MinutesPerDay == d % MinutesPerDay
      ensures k == key
    {
      SameResidueClose(k, key);
    }
  }

  /** Two numbers less than a day apart with the same clock reading are equal. */
  lemma SameResidueClose(a: int, b: int)
    requires a % MinutesPerDay == b % MinutesPerDay
    requires a - MinutesPerDay < b < a + MinutesPerDay
    ensures a == b
  {
    var qa, qb := a / MinutesPerDay, b / MinutesPerDay;
    assert a == qa * MinutesPerDay + a % MinutesPerDay;
    assert b == qb * MinutesPerDay + b % MinutesPerDay;
    assert (qa - qb) * MinutesPerDay == a - b;
  }

  // ---------------------------------------------------------------------
  // names and trip metadata

  /** `new Map(trips.map(t => [t.trip_id, t])).get(id)`: a later trip with
      the same id replaces an earlier one, so the last one is found. */
  function LastTripWithId(ts: seq<Trip>, id: string): (r: Option<Trip>)
    ensures r.Some? ==> r.value in ts && r.value.trip_id == id
    ensures r.Some? ==> exists i :: 0 <= i < |ts| && ts[i] == r.value
                         && forall j :: i < j < |ts| ==> ts[j].trip_id != id
    ensures r.None? <==> forall t | t in ts :: t.trip_id != id
  {
    if |ts| == 0 then None
    else if ts[|ts| - 1].trip_id == id then Some(ts[|ts| - 1])
    else
      assert ts == ts[..|ts| - 1] + [ts[|ts| - 1]];
      LastTripWithId(ts[..|ts| - 1], id)
  }

  /** `filteredTrips`: the trips whose service is valid today. */
  function FilteredTrips(q: Search): seq<Trip> {
    Filter(q.trips, (t: Trip) => t.service_id in q.validServiceIds)
  }

  /** `tripsInfoMap.get(id)`: the map is filled in order, so the last
      filtered trip with that id wins. */
  function TripInfo(q: Search, id: string): Option<Trip> {
    LastTripWithId(FilteredTrips(q), id)
  }

  /** The stop-name map lookup: a later stop with the same id replaces an
      earlier one, so the last one's name is found. */
  function LastStopName(stops: seq<Stop>, id: string): (r: Option<string>)
    ensures r.Some? ==> exists s | s in stops :: s.stop_id == id && s.name == r.value
    ensures r.Some? ==> exists i :: 0 <= i < |stops| && stops[i].stop_id == id && stops[i].name == r.value
                         && forall j :: i < j < |stops| ==> stops[j].stop_id != id
    ensures r.None? <==> forall s | s in stops :: s.stop_id != id
  {
    if |stops| == 0 then None
    else if stops[|stops| - 1].stop_id == id then Some(stops[|stops| - 1].name)
    else
      assert stops == stops[..|stops| - 1] + [stops[|stops| - 1]];
      LastStopName(stops[..|stops| - 1], id)
  }

  /** `stopNamesMap.get(id) || id`; destination stops are entered last. */
  function StopName(q: Search, id: string): string {
    OrElse(LastStopName(q.fromStops + q.toStops, id), id)
  }

  /** The record pushed for one accepted pair (lines 301-311). */
  function MakeResult(q: Search, f: StopTime, t: StopTime): RouteResult {
    var info := TripInfo(q, f.trip_id);
    RouteResult(
      f.trip_id,
      if info.Some? then OrElse(info.value.trip_headsign, "Unknown") else "Unknown",
      if info.Some? then OrElse(Some(info.value.route_id), "Unknown") else "Unknown",
      f.departure_time,
      t.arrival_time,
      StopName(q, f.stop_id),
      StopName(q, t.stop_id))
  }

  function MakeKeyed(q: Search, f: StopTime, t: StopTime): Keyed
    requires Parseable(q.currentTime) && Parseable(f.departure_time)
  {
    Keyed(SortKey(Now(q), NormalizedTimeToMinutes(f.departure_time)), MakeResult(q, f, t))
  }

  /** The key the comparator of lines 318-327 computes from a result. */
  function RouteKey(q: Search, r: RouteResult): int
    requires Parseable(q.currentTime) && Parseable(r.departureTime)
  {
    SortKey(Now(q), NormalizedTimeToMinutes(r.departureTime))
  }

  // ---------------------------------------------------------------------
  // the algorithm as written

  /** `fromStopTimesByTrip.get(id)` (or the `to` map): the rows of that trip
      at one of the given stops, in input order. */
  function GroupOf(sts: seq<StopTime>, id: string, stopIds: set<string>): (g: seq<StopTime>)
    ensures forall st | st in g :: st in sts && st.trip_id == id && st.stop_id in stopIds
  {
    if |sts| == 0 then []
    else
      (if sts[0].trip_id == id && sts[0].stop_id in stopIds then [sts[0]] else [])
      + GroupOf(sts[1..], id, stopIds)
  }

  /** The inner loop for one boarding row `f`: the sequence check, then the
      window check. */
  function PairRow(q: Search, f: StopTime, ts: seq<StopTime>): seq<Keyed>
    requires Parseable(q.currentTime) && Parseable(f.departure_time)
  {
    if |ts| == 0 then []
    else
      (if f.stop_sequence < ts[0].stop_sequence
          && InWindow(Now(q), NormalizedTimeToMinutes(f.departure_time))
       then [MakeKeyed(q, f, ts[0])] else [])
      + PairRow(q, f, ts[1..])
  }

  function PairAll(q: Search, fs: seq<StopTime>, ts: seq<StopTime>): seq<Keyed>
    requires Parseable(q.currentTime)
    requires forall f | f in fs :: Parseable(f.departure_time)
  {
    if |fs| == 0 then [] else PairRow(q, fs[0], ts) + PairAll(q, fs[1..], ts)
  }

  /** The `validTripIds.forEach` loop over the given trip ids. */
  function CollectTrips(q: Search, ids: seq<string>): seq<Keyed>
    requires WellFormed(q)
  {
    if |ids| == 0 then []
    else
      PairAll(q, GroupOf(q.fromStopTimes, ids[0], StopIds(q.fromStops)),
                 GroupOf(q.toStopTimes, ids[0], StopIds(q.toStops)))
      + CollectTrips(q, ids[1..])
  }

  /** `results` before sorting. */
  function Collected(q: Search): seq<Keyed>
    requires WellFormed(q)
  {
    CollectTrips(q, ValidTripOrder(q))
  }

  // ---------------------------------------------------------------------
  // the reference: one result per qualifying (from, to) index pair

  /** What makes a pair of rows a direct trip the search reports. */
  predicate Qualifies(q: Search, f: StopTime, t: StopTime)
    requires Parseable(q.currentTime) && Parseable(f.departure_time)
  {
    && f.trip_id == t.trip_id
    && f.trip_id in ValidTripSet(q)
    && f.stop_id in StopIds(q.fromStops)
    && t.stop_id in StopIds(q.toStops)
    && f.stop_sequence < t.stop_sequence
    && InWindow(Now(q), NormalizedTimeToMinutes(f.departure_time))
  }

  function QualRow(q: Search, f: StopTime, ts: seq<StopTime>): seq<Keyed>
    requires Parseable(q.currentTime) && Parseable(f.departure_time)
  {
    if |ts| == 0 then []
    else (if Qualifies(q, f, ts[0]) then [MakeKeyed(q, f, ts[0])] else []) + QualRow(q, f, ts[1..])
  }

  /** Every boarding row against every alighting row, in nested-loop order. */
  function NestedMatches(q: Search, fs: seq<StopTime>): seq<Keyed>
    requires Parseable(q.currentTime)
    requires forall f | f in fs :: Parseable(f.departure_time)
  {
    if |fs| == 0 then [] else QualRow(q, fs[0], q.toStopTimes) + NestedMatches(q, fs[1..])
  }

  lemma {:induction false} NestedMatchesSound(q: Search, fs: seq<StopTime>, k: Keyed)
    returns (f: StopTime, t: StopTime)
    requires Parseable(q.currentTime)
    requires forall f | f in fs :: Parseable(f.departure_time)
    requires k in NestedMatches(q, fs)
    ensures f in fs && t in q.toStopTimes && Parseable(f.departure_time)
    ensures Qualifies(q, f, t) && k == MakeKeyed(q, f, t)
  {
    if k in QualRow(q, fs[0], q.toStopTimes) {
      f := fs[0];
      t := QualRowSound(q, f, q.toStopTimes, k);
    } else {
      f, t := NestedMatchesSound(q, fs[1..], k);
    }
  }

  lemma {:induction false} QualRowSound(q: Search, f: StopTime, ts: seq<StopTime>, k: Keyed)
    returns (t: StopTime)
    requires Parseable(q.currentTime) && Parseable(f.departure_time)
    requires k in QualRow(q, f, ts)
    ensures t in ts && Qualifies(q, f, t) && k == MakeKeyed(q, f, t)
  {
    if Qualifies(q, f, ts[0]) && k == MakeKeyed(q, f, ts[0]) {
      t := ts[0];
    } else {
      t := QualRowSound(q, f, ts[1..], k);
    }
  }

  lemma {:induction false} NestedMatchesComplete(q: Search, fs: seq<StopTime>, f: StopTime, t: StopTime)
    requires Parseable(q.currentTime)
    requires forall f | f in fs :: Parseable(f.departure_time)
    requires f in fs && t in q.toStopTimes && Qualifies(q, f, t)
    ensures MakeKeyed(q, f, t) in NestedMatches(q, fs)
  {
    if fs[0] == f {
      QualRowComplete(q, f, q.toStopTimes, t);
    } else {
      NestedMatchesComplete(q, fs[1..], f, t);
    }
  }

  lemma {:induction false} QualRowComplete(q: Search, f: StopTime, ts: seq<StopTime>, t: StopTime)
    requires Parseable(q.currentTime) && Parseable(f.departure_time)
    requires t in ts && Qualifies(q, f, t)
    ensures MakeKeyed(q, f, t) in QualRow(q, f, ts)
  {
    if ts[0] != t {
      QualRowComplete(q, f, ts[1..], t);
    }
  }

  // ---------------------------------------------------------------------
  // the grouping loop emits the same multiset as the nested loop

  /** The nested loop restricted to boarding rows of the trips in `s`. */
  function Sel(q: Search, fs: seq<StopTime>, s: set<string>): seq<Keyed>
    requires Parseable(q.currentTime)
    requires forall f | f in fs :: Parseable(f.departure_time)
  {
    if |fs| == 0 then [] else SelHead(q, fs[0], s) + Sel(q, fs[1..], s)
  }

  function SelHead(q: Search, f: StopTime, s: set<string>): seq<Keyed>
    requires Parseable(q.currentTime) && Parseable(f.departure_time)
  {
    if f.trip_id in s && f.stop_id in StopIds(q.fromStops) then QualRow(q, f, q.toStopTimes) else []
  }

  lemma {:induction false} PairRowIsQualRow(q: Search, f: StopTime, ts: seq<StopTime>)
    requires Parseable(q.currentTime) && Parseable(f.departure_time)
    requires f.trip_id in ValidTripSet(q) && f.stop_id in StopIds(q.fromStops)
    ensures PairRow(q, f, GroupOf(ts, f.trip_id, StopIds(q.toStops))) == QualRow(q, f, ts)
  {
    if |ts| > 0 {
      PairRowIsQualRow(q, f, ts[1..]);
      var g := GroupOf(ts, f.trip_id, StopIds(q.toStops));
      var g' := GroupOf(ts[1..], f.trip_id, StopIds(q.toStops));
      if ts[0].trip_id == f.trip_id && ts[0].stop_id in StopIds(q.toStops) {
        assert g == [ts[0]] + g';
        assert g[0] == ts[0] && g[1..] == g';
      } else {
        assert g == g';
      }
    }
  }

  lemma PairAllCons(q: Search, f: StopTime, fs: seq<StopTime>, ts: seq<StopTime>)
    requires Parseable(q.currentTime) && Parseable(f.departure_time)
    requires forall f' | f' in fs :: Parseable(f'.departure_time)
    ensures PairAll(q, [f] + fs, ts) == PairRow(q, f, ts) + PairAll(q, fs, ts)
  {
    assert ([f] + fs)[0] == f && ([f] + fs)[1..] == fs;
  }

  lemma {:induction false} PairAllIsSel(q: Search, fs: seq<StopTime>, id: string)
    requires Parseable(q.currentTime)
    requires forall f | f in fs :: Parseable(f.departure_time)
    requires id in ValidTripSet(q)
    ensures PairAll(q, GroupOf(fs, id, StopIds(q.fromStops)), GroupOf(q.toStopTimes, id, StopIds(q.toStops)))
            == Sel(q, fs, {id})
  {
    if |fs| > 0 {
      PairAllIsSel(q, fs[1..], id);
      var g := GroupOf(fs, id, StopIds(q.fromStops));
      var g' := GroupOf(fs[1..], id, StopIds(q.fromStops));
      var toGroup := GroupOf(q.toStopTimes, id, StopIds(q.toStops));
      if fs[0].trip_id == id && fs[0].stop_id in StopIds(q.fromStops) {
        assert g == [fs[0]] + g';
        PairRowIsQualRow(q, fs[0], q.toStopTimes);
        PairAllCons(q, fs[0], g', toGroup);
      } else {
        assert g == g';
      }
    }
  }

  lemma {:induction false} SelSplit(q: Search, fs: seq<StopTime>, id: string, s: set<string>)
    requires Parseable(q.currentTime)
    requires forall f | f in fs :: Parseable(f.departure_time)
    requires id !in s
    ensures multiset(Sel(q, fs, {id} + s)) == multiset(Sel(q, fs, {id})) + multiset(Sel(q, fs, s))
  {
    if |fs| > 0 {
      SelSplit(q, fs[1..], id, s);
      var f := fs[0];
      assert multiset(SelHead(q, f, {id} + s)) == multiset(SelHead(q, f, {id})) + multiset(SelHead(q, f, s));
      assert multiset(Sel(q, fs, {id} + s)) == multiset(SelHead(q, f, {id} + s)) + multiset(Sel(q, fs[1..], {id} + s));
      assert multiset(Sel(q, fs, {id})) == multiset(SelHead(q, f, {id})) + multiset(Sel(q, fs[1..], {id}));
      assert multiset(Sel(q, fs, s)) == multiset(SelHead(q, f, s)) + multiset(Sel(q, fs[1..], s));
    }
  }

  function SetOf(ids: seq<string>): set<string> {
    set id | id in ids
  }

  lemma {:induction false} CollectTripsIsSel(q: Search, ids: seq<string>)
    requires WellFormed(q)
    requires Distinct(ids)
    requires forall id | id in ids :: id in ValidTripSet(q)
    ensures multiset(CollectTrips(q, ids)) == multiset(Sel(q, q.fromStopTimes, SetOf(ids)))
  {
    if |ids| == 0 {
      assert SetOf(ids) == {};
      SelEmpty(q, q.fromStopTimes);
    } else {
      var rest := ids[1..];
      DistinctTail(ids);
      CollectTripsIsSel(q, rest);
      PairAllIsSel(q, q.fromStopTimes, ids[0]);
      SetOfCons(ids);
      SelSplit(q, q.fromStopTimes, ids[0], SetOf(rest));
    }
  }

  lemma DistinctTail(ids: seq<string>)
    requires |ids| > 0 && Distinct(ids)
    ensures Distinct(ids[1..]) && ids[0] !in ids[1..]
  {
    var rest := ids[1..];
    forall i, j | 0 <= i < j < |rest| ensures rest[i] != rest[j] {
      assert rest[i] == ids[i + 1] && rest[j] == ids[j + 1];
    }
  }

  lemma SetOfCons(ids: seq<string>)
    requires |ids| > 0
    ensures SetOf(ids) == {ids[0]} + SetOf(ids[1..])
  {
    assert ids == [ids[0]] + ids[1..];
  }

  lemma {:induction false} SelEmpty(q: Search, fs: seq<StopTime>)
    requires Parseable(q.currentTime)
    requires forall f | f in fs :: Parseable(f.departure_time)
    ensures Sel(q, fs, {}) == []
  {
    if |fs| > 0 {
      SelEmpty(q, fs[1..]);
    }
  }

  lemma {:induction false} QualRowEmptyOffTrip(q: Search, f: StopTime, ts: seq<StopTime>)
    requires Parseable(q.currentTime) && Parseable(f.departure_time)
    requires f.trip_id !in ValidTripSet(q) || f.stop_id !in StopIds(q.fromStops)
    ensures QualRow(q, f, ts) == []
  {
    if |ts| > 0 {
      QualRowEmptyOffTrip(q, f, ts[1..]);
    }
  }

  lemma {:induction false} SelValidIsNested(q: Search, fs: seq<StopTime>)
    requires Parseable(q.currentTime)
    requires forall f | f in fs :: Parseable(f.departure_time)
    ensures Sel(q, fs, ValidTripSet(q)) == NestedMatches(q, fs)
  {
    if |fs| > 0 {
      SelValidIsNested(q, fs[1..]);
      if !(fs[0].trip_id in ValidTripSet(q) && fs[0].stop_id in StopIds(q.fromStops)) {
        QualRowEmptyOffTrip(q, fs[0], q.toStopTimes);
      }
    }
  }

  lemma ValidTripOrderSet(q: Search)
    ensures SetOf(ValidTripOrder(q)) == ValidTripSet(q)
  {
    ValidTripOrderIsValidSet(q);
  }

  /** Completeness and exactness of the grouping loop: it emits, up to
      order, exactly one result per qualifying (from, to) pair, the same as
      the plain nested loop over both stop-time lists. */
  lemma CollectedMatchesNestedLoop(q: Search)
    requires WellFormed(q)
    ensures multiset(Collected(q)) == multiset(NestedMatches(q, q.fromStopTimes))
  {
    var ids := ValidTripOrder(q);
    ValidTripOrderIsValidSet(q);
    CollectTripsIsSel(q, ids);
    ValidTripOrderSet(q);
    SelValidIsNested(q, q.fromStopTimes);
  }

  // ---------------------------------------------------------------------
  // sorting and the result

  function KeyLe(a: Keyed, b: Keyed): bool {
    a.key <= b.key
  }

  lemma KeyLeIsPreorder()
    ensures Sorting.TotalPreorder(KeyLe)
  {
  }

  function Routes(ks: seq<Keyed>): (r: seq<RouteResult>)
    ensures |r| == |ks|
    ensures forall i :: 0 <= i < |ks| ==> r[i] == ks[i].route
  {
    seq(|ks|, i requires 0 <= i < |ks| => ks[i].route)
  }

  lemma RoutesAppend(a: seq<Keyed>, b: seq<Keyed>)
    ensures Routes(a + b) == Routes(a) + Routes(b)
  {
  }

  lemma {:induction false} RoutesPermutation(xs: seq<Keyed>, ys: seq<Keyed>)
    requires multiset(xs) == multiset(ys)
    ensures multiset(Routes(xs)) == multiset(Routes(ys))
  {
    if |xs| > 0 {
      var x := xs[0];
      assert x in multiset(ys);
      var k :| 0 <= k < |ys| && ys[k] == x;
      var pre, post := ys[..k], ys[k + 1..];
      assert ys == pre + [x] + post;
      assert xs == [x] + xs[1..];
      RemoveOne(xs, pre, post);
      RoutesPermutation(xs[1..], pre + post);
      RoutesSplice(pre, x, post);
      RoutesCons(x, xs[1..]);
    }
  }

  lemma RoutesCons(x: Keyed, xs: seq<Keyed>)
    ensures multiset(Routes([x] + xs)) == multiset{x.route} + multiset(Routes(xs))
  {
    RoutesAppend([x], xs);
    assert Routes([x]) == [x.route];
  }

  lemma RemoveOne<T>(xs: seq<T>, pre: seq<T>, post: seq<T>)
    requires |xs| > 0 && multiset(xs) == multiset(pre + [xs[0]] + post)
    ensures multiset(xs[1..]) == multiset(pre + post)
  {
    assert xs == [xs[0]] + xs[1..];
    assert multiset(xs) == multiset{xs[0]} + multiset(xs[1..]);
    assert multiset(pre + [xs[0]] + post) == multiset(pre) + multiset{xs[0]} + multiset(post);
    assert multiset(pre + post) == multiset(pre) + multiset(post);
    forall e ensures multiset(xs[1..])[e] == multiset(pre + post)[e] {
      assert multiset(xs)[e] == multiset(pre + [xs[0]] + post)[e];
    }
  }

  lemma RoutesSplice(pre: seq<Keyed>, x: Keyed, post: seq<Keyed>)
    ensures multiset(Routes(pre + [x] + post)) == multiset(Routes(pre + post)) + multiset{x.route}
  {
    RoutesAppend(pre + [x], post);
    RoutesAppend(pre, [x]);
    RoutesAppend(pre, post);
  }

  /** Every collected item carries the key of its own departure, inside the
      window that starts now. */
  lemma CollectedKeys(q: Search, k: Keyed)
    requires WellFormed(q)
    requires k in Collected(q)
    ensures Parseable(k.route.departureTime)
    ensures k.key == RouteKey(q, k.route)
    ensures Now(q) <= k.key <= Now(q) + MinutesPerDay
    ensures ClockTime(k.route.departureTime) ==> k.key < Now(q) + MinutesPerDay
  {
    CollectedMatchesNestedLoop(q);
    assert k in multiset(NestedMatches(q, q.fromStopTimes));
    var f, t := NestedMatchesSound(q, q.fromStopTimes, k);
    assert k.route.departureTime == f.departure_time;
    assert InWindow(Now(q), NormalizedTimeToMinutes(f.departure_time));
    SortKeyInWindow(Now(q), NormalizedTimeToMinutes(f.departure_time));
  }

  /** `findRouteAlgorithm`: the collected results, stably sorted by key. */
  function FindRouteAlgorithm(q: Search): (r: seq<RouteResult>)
    requires WellFormed(q)
    ensures multiset(r) == multiset(Routes(NestedMatches(q, q.fromStopTimes)))
    ensures forall i :: 0 <= i < |r| ==>
      Parseable(r[i].departureTime) && Now(q) <= RouteKey(q, r[i]) <= Now(q) + MinutesPerDay
    ensures forall i :: 0 <= i < |r| && ClockTime(r[i].departureTime) ==> RouteKey(q, r[i]) < Now(q) + MinutesPerDay
    ensures forall i, j :: 0 <= i < j < |r| ==>
      Parseable(r[i].departureTime) && Parseable(r[j].departureTime)
      && RouteKey(q, r[i]) <= RouteKey(q, r[j])
  {
    KeyLeIsPreorder();
    var sorted := Sorting.SortBy(Collected(q), KeyLe);
    SortedCollected(q, sorted);
    Routes(sorted)
  }

  lemma SortedCollected(q: Search, sorted: seq<Keyed>)
    requires WellFormed(q)
    requires multiset(sorted) == multiset(Collected(q))
    requires Sorting.SortedBy(sorted, KeyLe)
    ensures multiset(Routes(sorted)) == multiset(Routes(NestedMatches(q, q.fromStopTimes)))
    ensures forall i :: 0 <= i < |sorted| ==>
      && Parseable(sorted[i].route.departureTime)
      && sorted[i].key == RouteKey(q, sorted[i].route)
      && Now(q) <= sorted[i].key <= Now(q) + MinutesPerDay
      && (ClockTime(sorted[i].route.departureTime) ==> sorted[i].key < Now(q) + MinutesPerDay)
    ensures forall i :: 0 <= i < |sorted| ==> Routes(sorted)[i] == sorted[i].route
  {
    CollectedMatchesNestedLoop(q);
    RoutesPermutation(sorted, NestedMatches(q, q.fromStopTimes));
    forall i | 0 <= i < |sorted|
      ensures Parseable(sorted[i].route.departureTime)
      ensures sorted[i].key == RouteKey(q, sorted[i].route)
      ensures Now(q) <= sorted[i].key <= Now(q) + MinutesPerDay
      ensures ClockTime(sorted[i].route.departureTime) ==> sorted[i].key < Now(q) + MinutesPerDay
    {
      assert sorted[i] in multiset(Collected(q));
      CollectedKeys(q, sorted[i]);
    }
  }

  /** Every reported route comes from a qualifying pair of rows. */
  lemma ResultsComeFromQualifyingPairs(q: Search, r: RouteResult) returns (f: StopTime, t: StopTime)
    requires WellFormed(q)
    requires r in FindRouteAlgorithm(q)
    ensures f in q.fromStopTimes && t in q.toStopTimes && Parseable(f.departure_time)
    ensures Qualifies(q, f, t) && r == MakeResult(q, f, t)
  {
    var nested := NestedMatches(q, q.fromStopTimes);
    assert r in multiset(Routes(nested));
    var i :| 0 <= i < |nested| && Routes(nested)[i] == r;
    f, t := NestedMatchesSound(q, q.fromStopTimes, nested[i]);
  }

  /** Every qualifying pair of rows is reported. */
  lemma QualifyingPairsAreReported(q: Search, f: StopTime, t: StopTime)
    requires WellFormed(q)
    requires f in q.fromStopTimes && t in q.toStopTimes && Qualifies(q, f, t)
    ensures MakeResult(q, f, t) in FindRouteAlgorithm(q)
  {
    var nested := NestedMatches(q, q.fromStopTimes);
    NestedMatchesComplete(q, q.fromStopTimes, f, t);
    var i :| 0 <= i < |nested| && nested[i] == MakeKeyed(q, f, t);
    assert Routes(nested)[i] == MakeResult(q, f, t);
    assert MakeResult(q, f, t) in multiset(FindRouteAlgorithm(q));
  }

  /** What a reported pair carries: the trip runs today, so its metadata is
      always found and "Unknown" only replaces an empty headsign or route id;
      times are the raw strings; unknown stop ids stand in for names. */
  lemma QualifyingPairFields(q: Search, f: StopTime, t: StopTime)
    requires WellFormed(q) && Parseable(f.departure_time)
    requires f in q.fromStopTimes && t in q.toStopTimes && Qualifies(q, f, t)
    ensures var r := MakeResult(q, f, t);
      && r.tripId == f.trip_id == t.trip_id
      && r.tripId in TripIds(q.fromStopTimes) && r.tripId in TripIds(q.toStopTimes)
      && TripInfo(q, r.tripId).Some?
      && TripInfo(q, r.tripId).value in q.trips
      && TripInfo(q, r.tripId).value.trip_id == r.tripId
      && TripInfo(q, r.tripId).value.service_id in q.validServiceIds
      && r.tripName == OrElse(TripInfo(q, r.tripId).value.trip_headsign, "Unknown")
      && r.routeName == OrElse(Some(TripInfo(q, r.tripId).value.route_id), "Unknown")
      && r.departureTime == f.departure_time && r.arrivalTime == t.arrival_time
      && (LastStopName(q.fromStops + q.toStops, f.stop_id).None? ==> r.fromStopName == f.stop_id)
      && (LastStopName(q.fromStops + q.toStops, t.stop_id).None? ==> r.toStopName == t.stop_id)
  {
    var id := f.trip_id;
    assert id in TodayTripIds(q);
    var trip :| trip in q.trips && trip.service_id in q.validServiceIds && trip.trip_id == id;
    assert trip in FilteredTrips(q);
    assert TripInfo(q, id).Some?;
    assert TripInfo(q, id).value in FilteredTrips(q);
  }

  // ---------------------------------------------------------------------
  // the findRoutes envelope

  datatype CalendarRow = CalendarRow(service_id: string, date: string)

  /** What `getTodayCalendar` returns: the matching rows, or a single object
      (with an empty `service_id` when nothing matched or the query failed). */
  datatype CalendarData =
    | CalendarRows(rows: seq<CalendarRow>)
    | CalendarObject(service_id: string, date: string)

  function ServiceIdsOf(rows: seq<CalendarRow>): (ids: seq<string>)
    ensures |ids| <= |rows|
    ensures forall id :: id in ids <==> id != "" && exists row | row in rows :: row.service_id == id
  {
    if |rows| == 0 then []
    else
      assert forall row | row in rows :: row == rows[0] || row in rows[1..];
      (if rows[0].service_id != "" then [rows[0].service_id] else []) + ServiceIdsOf(rows[1..])
  }

  /** `validServiceIds` (lines 99-107). */
  function ValidServiceIds(c: CalendarData): (ids: seq<string>)
    ensures "" !in ids
    ensures c.CalendarRows? ==> forall id :: id in ids <==> id != "" && exists row | row in c.rows :: row.service_id == id
    ensures c.CalendarRows? ==> |ids| <= |c.rows|
    ensures c.CalendarObject? ==> ids == (if c.service_id == "" then [] else [c.service_id])
  {
    match c
    case CalendarRows(rows) => ServiceIdsOf(rows)
    case CalendarObject(sid, _) => if sid != "" then [sid] else []
  }

  /** What the page receives. `savesRecentRoute` says whether the search
      records the route in the user's history. */
  datatype Envelope = Envelope(routes: seq<RouteResult>, error: Option<string>, savesRecentRoute: bool)

  /** `Array.prototype.flat` of the stop times fetched for each stop. */
  function StopTimesFor(stops: seq<Stop>, stopTimesOf: string -> seq<StopTime>): seq<StopTime> {
    if |stops| == 0 then [] else stopTimesOf(stops[0].stop_id) + StopTimesFor(stops[1..], stopTimesOf)
  }

  /** `getTripsForServiceIds`: no query at all for an empty id list. */
  function TripsForServiceIds(ids: seq<string>, fetched: seq<Trip>): seq<Trip> {
    if |ids| == 0 then [] else fetched
  }

  /** The stops of one end of the search: the given id as a synthetic stop,
      otherwise the name lookup. */
  function ResolveStops(id: Option<string>, name: string, lookedUp: seq<Stop>): seq<Stop> {
    if id.Some? && id.value != "" then [Stop(id.value, name, Coord("0"), Coord("0"))] else lookedUp
  }

  /** All fetched departures parse, so the algorithm can run. */
  ghost predicate FetchesWellFormed(currentTime: string, stopTimesOf: string -> seq<StopTime>) {
    && Parseable(currentTime)
    && forall sid, st | st in stopTimesOf(sid) :: Parseable(st.departure_time)
  }

  lemma StopTimesForWellFormed(stops: seq<Stop>, currentTime: string, stopTimesOf: string -> seq<StopTime>)
    requires FetchesWellFormed(currentTime, stopTimesOf)
    ensures forall st | st in StopTimesFor(stops, stopTimesOf) :: Parseable(st.departure_time)
  {
  }

  /** The search `findRoutes` hands to the algorithm once both ends have
      stops: their stop times, the trips of the valid service ids, the clock
      and those ids. */
  function SearchFor(
    fromStops: seq<Stop>, toStops: seq<Stop>, currentTime: string, calendar: CalendarData,
    stopTimesOf: string -> seq<StopTime>, fetchedTrips: seq<Trip>): (q: Search)
    requires FetchesWellFormed(currentTime, stopTimesOf)
    ensures WellFormed(q)
  {
    var ids := ValidServiceIds(calendar);
    StopTimesForWellFormed(fromStops, currentTime, stopTimesOf);
    Search(fromStops, toStops, StopTimesFor(fromStops, stopTimesOf), StopTimesFor(toStops, stopTimesOf),
           TripsForServiceIds(ids, fetchedTrips), currentTime, ids)
  }

  /** `findRoutes` on its non-throwing path. `fromLookup`/`toLookup` are what
      `getStopsByName` returned, `calendar` what `getTodayCalendar` returned,
      `stopTimesOf` the per-stop `getStopTimes` results and `fetchedTrips`
      what the trips query returned for a non-empty id list. The checks run
      in order: departure stops, arrival stops, departures, arrivals; each
      failing check ends the search with its own message and no routes.
      Past them the routes are those of the algorithm, and an empty list
      carries the no-routes message. */
  function FindRoutes(
    fromId: Option<string>, toId: Option<string>, fromName: string, toName: string,
    currentTime: string, user: Option<User>,
    fromLookup: seq<Stop>, toLookup: seq<Stop>, calendar: CalendarData,
    stopTimesOf: string -> seq<StopTime>, fetchedTrips: seq<Trip>): (e: Envelope)
    requires FetchesWellFormed(currentTime, stopTimesOf)
    ensures e.error.None? <==> |e.routes| > 0
    ensures e.savesRecentRoute <==> |e.routes| > 0 && user.Some?
    ensures var fromStops := ResolveStops(fromId, fromName, fromLookup);
      var toStops := ResolveStops(toId, toName, toLookup);
      var fromTimes, toTimes := StopTimesFor(fromStops, stopTimesOf), StopTimesFor(toStops, stopTimesOf);
      && (|fromStops| == 0
          ==> e.error == Some("Could not locate departure stop \"" + fromName + "\""))
      && (|fromStops| > 0 && |toStops| == 0
          ==> e.error == Some("Could not locate arrival stop \"" + toName + "\""))
      && (|fromStops| > 0 && |toStops| > 0 && |fromTimes| == 0
          ==> e.error == Some("No scheduled departures found for stop \"" + fromName + "\""))
      && (|fromStops| > 0 && |toStops| > 0 && |fromTimes| > 0 && |toTimes| == 0
          ==> e.error == Some("No scheduled arrivals found for stop \"" + toName + "\""))
      && (|fromStops| > 0 && |toStops| > 0 && |fromTimes| > 0 && |toTimes| > 0
          ==> && e.routes == FindRouteAlgorithm(SearchFor(fromStops, toStops, currentTime, calendar, stopTimesOf, fetchedTrips))
              && (|e.routes| == 0 ==> e.error == Some("No direct routes found between these stops in the next 24 hours")))
    ensures |e.routes| > 0 ==>
      var fromStops := ResolveStops(fromId, fromName, fromLookup);
      var toStops := ResolveStops(toId, toName, toLookup);
      var ids := ValidServiceIds(calendar);
      && |fromStops| > 0 && |toStops| > 0
      && |StopTimesFor(fromStops, stopTimesOf)| > 0 && |StopTimesFor(toStops, stopTimesOf)| > 0
      && |ids| > 0
      && forall r | r in e.routes :: exists trip | trip in fetchedTrips :: trip.trip_id == r.tripId && trip.service_id in ids
  {
    var fromStops := ResolveStops(fromId, fromName, fromLookup);
    var toStops := ResolveStops(toId, toName, toLookup);
    if |fromStops| == 0 then
      Envelope([], Some("Could not locate departure stop \"" + fromName + "\""), false)
    else if |toStops| == 0 then
      Envelope([], Some("Could not locate arrival stop \"" + toName + "\""), false)
    else if |StopTimesFor(fromStops, stopTimesOf)| == 0 then
      Envelope([], Some("No scheduled departures found for stop \"" + fromName + "\""), false)
    else if |StopTimesFor(toStops, stopTimesOf)| == 0 then
      Envelope([], Some("No scheduled arrivals found for stop \"" + toName + "\""), false)
    else
      var q := SearchFor(fromStops, toStops, currentTime, calendar, stopTimesOf, fetchedTrips);
      var results := FindRouteAlgorithm(q);
      EnvelopeTrips(q, results);
      Envelope(
        results,
        if |results| == 0 then Some("No direct routes found between these stops in the next 24 hours") else None,
        |results| > 0 && user.Some?)
  }

  /** A non-empty result means some valid trip exists; every result's trip
      is one of the fetched trips with a valid service id. */
  lemma EnvelopeTrips(q: Search, results: seq<RouteResult>)
    requires WellFormed(q)
    requires results == FindRouteAlgorithm(q)
    ensures forall r | r in results ::
      exists trip | trip in q.trips :: trip.trip_id == r.tripId && trip.service_id in q.validServiceIds
    ensures |results| > 0 ==> |q.validServiceIds| > 0
  {
    forall r | r in results
      ensures exists trip | trip in q.trips :: trip.trip_id == r.tripId && trip.service_id in q.validServiceIds
    {
      var f, t := ResultsComeFromQualifyingPairs(q, r);
      QualifyingPairFields(q, f, t);
    }
    if |results| > 0 {
      assert results[0] in results;
    }
  }
}
