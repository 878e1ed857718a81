/** The JavaScript route search (`src/actions/routeActions.js`): every pair
    of stop-time rows of one trip in stop order becomes a candidate, the
    candidates of trips without active service are dropped, the rest are
    named and sorted "upcoming first". Fetches, the cache and the calendar
    are parameters holding what the collaborators returned. */
module RouteActionsJs {
  import opened Common
  import opened Records
  import opened TimeText
  import Sorting

  // ---------------------------------------------------------------------
  // normalizeGtfsTime

  /** The seconds field as `Number` reads it when it is digits; a missing
      field (`undefined`) is treated like zero, as the template does. */
  function SecondsOf(t: string): nat {
    var f := Split(t, ':');
    if |f| >= 3 && IsDigits(f[2]) then DecimalValue(f[2]) else 0
  }

  datatype Normalized = Normalized(time: string, dayOffset: nat)

  /** `normalizeGtfsTime`: the hour folded onto the clock face, every field
      zero-padded, and the whole days the hour encoded. A zero or missing
      seconds field is written "00". */
  function NormalizeGtfsTime(t: string): (n: Normalized)
    requires Parseable(t)
    ensures n.dayOffset == DayOffset(t)
  {
    var h := HoursOf(t);
    var secs := SecondsOf(t);
    Normalized(
      Pad2(h % 24) + ":" + Pad2(MinutesOf(t)) + ":" + (if secs != 0 then Pad2(secs) else "00"),
      h / 24)
  }

  /** The normalized text parses back to the folded clock time, and the day
      offset together with it restores the original hour and minute. */
  lemma NormalizeGtfsTimeRoundTrip(t: string)
    requires Parseable(t)
    ensures var n := NormalizeGtfsTime(t);
      && Parseable(n.time)
      && Split(n.time, ':') == [Pad2(HoursOf(t) % 24), Pad2(MinutesOf(t)), Pad2(SecondsOf(t))]
      && |Pad2(HoursOf(t) % 24)| == 2
      && HoursOf(n.time) == HoursOf(t) % 24 && HoursOf(n.time) < 24
      && MinutesOf(n.time) == MinutesOf(t)
      && SecondsOf(n.time) == SecondsOf(t)
      && TimeToMinutes(n.time) == NormalizedTimeToMinutes(t)
      && n.dayOffset * 24 + HoursOf(n.time) == HoursOf(t)
      && TimeToMinutes(n.time) + n.dayOffset * MinutesPerDay == TimeToMinutes(t)
  {
    var h, m, s := HoursOf(t) % 24, MinutesOf(t), SecondsOf(t);
    assert Pad2(0) == "00" by {
      assert NatToDecimal(0) == "0";
    }
    assert NormalizeGtfsTime(t).time == RenderTime(h, m, s);
    RenderTimeParses(h, m, s);
    RenderTimeFields(h, m, s);
    NormalizedIsRawLessDays(t);
  }

  // ---------------------------------------------------------------------
  // candidates (the nested loop of lines 116-149)

  /** A `possibleRoutes` entry; its `tripName` is still the placeholder. */
  datatype Candidate = Candidate(
    tripId: string,
    fromStopId: string,
    fromStopName: string,
    toStopId: string,
    toStopName: string,
    departureTime: string,
    arrivalTime: string,
    departureDayOffset: nat,
    arrivalDayOffset: nat)

  /** `stops.find(s => s.stop_id === id)?.name`: the first match. */
  function FirstStopName(stops: seq<Stop>, id: string): (r: Option<string>)
    ensures r.None? <==> forall s | s in stops :: s.stop_id != id
    ensures r.Some? ==> exists i :: 0 <= i < |stops| && stops[i].stop_id == id && stops[i].name == r.value
                          && forall j :: 0 <= j < i ==> stops[j].stop_id != id
  {
    if |stops| == 0 then None
    else if stops[0].stop_id == id then Some(stops[0].name)
    else
      var r := FirstStopName(stops[1..], id);
      if r.Some? then
        var i :| 0 <= i < |stops[1..]| && stops[1..][i].stop_id == id && stops[1..][i].name == r.value
                 && forall j :: 0 <= j < i ==> stops[1..][j].stop_id != id;
        assert stops[i + 1].stop_id == id && stops[i + 1].name == r.value;
        assert forall j :: 0 <= j < i + 1 ==> stops[j].stop_id != id by {
          forall j | 0 <= j < i + 1 ensures stops[j].stop_id != id {
            if j > 0 { assert stops[j] == stops[1..][j - 1]; }
          }
        }
        r
      else r
  }

  /** The rows of the two lists that every step of the search parses. */
  predicate TimesParse(fromStopTimes: seq<StopTime>, toStopTimes: seq<StopTime>) {
    && (forall f | f in fromStopTimes :: Parseable(f.departure_time))
    && (forall t | t in toStopTimes :: Parseable(t.arrival_time))
  }

  /** Same trip, and the boarding row comes first in stop order. */
  predicate Pairs(f: StopTime, t: StopTime) {
    f.trip_id == t.trip_id && f.stop_sequence < t.stop_sequence
  }

  function MakeCandidate(fromStops: seq<Stop>, toStops: seq<Stop>, f: StopTime, t: StopTime): Candidate
    requires Parseable(f.departure_time) && Parseable(t.arrival_time)
  {
    Candidate(
      f.trip_id,
      f.stop_id, OrElse(FirstStopName(fromStops, f.stop_id), "Unknown Stop"),
      t.stop_id, OrElse(FirstStopName(toStops, t.stop_id), "Unknown Stop"),
      f.departure_time, t.arrival_time,
      NormalizeGtfsTime(f.departure_time).dayOffset,
      NormalizeGtfsTime(t.arrival_time).dayOffset)
  }

  function CandidatesFor(fromStops: seq<Stop>, toStops: seq<Stop>, f: StopTime, ts: seq<StopTime>): seq<Candidate>
    requires Parseable(f.departure_time)
    requires forall t | t in ts :: Parseable(t.arrival_time)
  {
    if |ts| == 0 then []
    else
      (if Pairs(f, ts[0]) then [MakeCandidate(fromStops, toStops, f, ts[0])] else [])
      + CandidatesFor(fromStops, toStops, f, ts[1..])
  }

  /** `possibleRoutes`. */
  function PossibleRoutes(fromStops: seq<Stop>, toStops: seq<Stop>, fs: seq<StopTime>, ts: seq<StopTime>): seq<Candidate>
    requires TimesParse(fs, ts)
  {
    if |fs| == 0 then []
    else CandidatesFor(fromStops, toStops, fs[0], ts) + PossibleRoutes(fromStops, toStops, fs[1..], ts)
  }

  lemma {:induction false} CandidatesForMembership(fromStops: seq<Stop>, toStops: seq<Stop>, f: StopTime, ts: seq<StopTime>, c: Candidate)
    requires Parseable(f.departure_time)
    requires forall t | t in ts :: Parseable(t.arrival_time)
    ensures c in CandidatesFor(fromStops, toStops, f, ts) <==>
      exists t | t in ts :: Pairs(f, t) && c == MakeCandidate(fromStops, toStops, f, t)
  {
    if |ts| > 0 {
      CandidatesForMembership(fromStops, toStops, f, ts[1..], c);
      assert forall t | t in ts :: t == ts[0] || t in ts[1..];
    }
  }

  /** A candidate is exactly a pair of a boarding and an alighting row of
      one trip in stop order; nothing else is a candidate. */
  lemma {:induction false} PossibleRoutesMembership(fromStops: seq<Stop>, toStops: seq<Stop>, fs: seq<StopTime>, ts: seq<StopTime>, c: Candidate)
    requires TimesParse(fs, ts)
    ensures c in PossibleRoutes(fromStops, toStops, fs, ts) <==>
      exists f, t | f in fs && t in ts :: Pairs(f, t) && c == MakeCandidate(fromStops, toStops, f, t)
  {
    if |fs| > 0 {
      PossibleRoutesMembership(fromStops, toStops, fs[1..], ts, c);
      CandidatesForMembership(fromStops, toStops, fs[0], ts, c);
      assert forall f | f in fs :: f == fs[0] || f in fs[1..];
    }
  }

  // ---------------------------------------------------------------------
  // one candidate per qualifying pair of rows, in loop order

  /** A departure-row index and an arrival-row index. */
  type IndexPair = (nat, nat)

  /** `a` is visited before `b` by the nested loop: outer index first, then
      inner index. */
  predicate LoopBefore(a: IndexPair, b: IndexPair) {
    a.0 < b.0 || (a.0 == b.0 && a.1 < b.1)
  }

  /** The qualifying pairs of departure row `i` with arrival rows `j` on. */
  function RowPairs(fs: seq<StopTime>, ts: seq<StopTime>, i: nat, j: nat): (r: seq<IndexPair>)
    requires i < |fs| && j <= |ts|
    ensures forall k :: 0 <= k < |r| ==> r[k].0 == i && j <= r[k].1 < |ts| && Pairs(fs[i], ts[r[k].1])
    decreases |ts| - j
  {
    if j == |ts| then []
    else (if Pairs(fs[i], ts[j]) then [(i, j)] else []) + RowPairs(fs, ts, i, j + 1)
  }

  /** Every qualifying arrival row of row `i` from `j` on appears. */
  lemma {:induction false} RowPairsComplete(fs: seq<StopTime>, ts: seq<StopTime>, i: nat, j: nat, l: nat)
    requires i < |fs| && j <= l < |ts| && Pairs(fs[i], ts[l])
    ensures (i, l) in RowPairs(fs, ts, i, j)
    decreases |ts| - j
  {
    if l > j {
      RowPairsComplete(fs, ts, i, j + 1, l);
    }
  }

  /** The inner loop visits arrival rows in increasing order. */
  lemma {:induction false} RowPairsOrdered(fs: seq<StopTime>, ts: seq<StopTime>, i: nat, j: nat)
    requires i < |fs| && j <= |ts|
    ensures forall k, m :: 0 <= k < m < |RowPairs(fs, ts, i, j)| ==> RowPairs(fs, ts, i, j)[k].1 < RowPairs(fs, ts, i, j)[m].1
    decreases |ts| - j
  {
    if j < |ts| {
      RowPairsOrdered(fs, ts, i, j + 1);
      var head: seq<IndexPair> := if Pairs(fs[i], ts[j]) then [(i, j)] else [];
      var rest := RowPairs(fs, ts, i, j + 1);
      var r := head + rest;
      forall k, m | 0 <= k < m < |r| ensures r[k].1 < r[m].1 {
        if k < |head| {
          assert r[k] == (i, j) && r[m] == rest[m - 1];
          assert rest[m - 1].1 >= j + 1;
        } else {
          assert r[k] == rest[k - |head|] && r[m] == rest[m - |head|];
          assert rest[k - |head|].1 < rest[m - |head|].1;
        }
      }
      assert RowPairs(fs, ts, i, j) == r;
    }
  }

  /** The qualifying pairs with departure rows `i` on. */
  function PairsFrom(fs: seq<StopTime>, ts: seq<StopTime>, i: nat): (r: seq<IndexPair>)
    requires i <= |fs|
    ensures forall k :: 0 <= k < |r| ==> i <= r[k].0 < |fs| && r[k].1 < |ts| && Pairs(fs[r[k].0], ts[r[k].1])
    decreases |fs| - i
  {
    if i == |fs| then [] else RowPairs(fs, ts, i, 0) + PairsFrom(fs, ts, i + 1)
  }

  /** Every qualifying pair with departure row `i` or later appears. */
  lemma {:induction false} PairsFromComplete(fs: seq<StopTime>, ts: seq<StopTime>, i: nat, a: nat, b: nat)
    requires i <= a < |fs| && b < |ts| && Pairs(fs[a], ts[b])
    ensures (a, b) in PairsFrom(fs, ts, i)
    decreases |fs| - i
  {
    if a == i {
      RowPairsComplete(fs, ts, i, 0, b);
    } else {
      PairsFromComplete(fs, ts, i + 1, a, b);
    }
  }

  /** The outer loop visits departure rows in increasing order. */
  lemma {:induction false} PairsFromOrdered(fs: seq<StopTime>, ts: seq<StopTime>, i: nat)
    requires i <= |fs|
    ensures forall k, m :: 0 <= k < m < |PairsFrom(fs, ts, i)| ==> LoopBefore(PairsFrom(fs, ts, i)[k], PairsFrom(fs, ts, i)[m])
    decreases |fs| - i
  {
    if i < |fs| {
      PairsFromOrdered(fs, ts, i + 1);
      RowPairsOrdered(fs, ts, i, 0);
      var row, rest := RowPairs(fs, ts, i, 0), PairsFrom(fs, ts, i + 1);
      var r := row + rest;
      forall k, m | 0 <= k < m < |r| ensures LoopBefore(r[k], r[m]) {
        if m < |row| {
          assert r[k] == row[k] && r[m] == row[m];
        } else if k >= |row| {
          assert r[k] == rest[k - |row|] && r[m] == rest[m - |row|];
        } else {
          assert r[k] == row[k] && r[m] == rest[m - |row|];
        }
      }
      assert PairsFrom(fs, ts, i) == r;
    }
  }

  /** Every index pair `(i, j)` with `Pairs(fs[i], ts[j])`, each once, in
      the order the nested loop visits them. */
  function QualifyingPairs(fs: seq<StopTime>, ts: seq<StopTime>): (r: seq<IndexPair>)
    ensures forall k :: 0 <= k < |r| ==> r[k].0 < |fs| && r[k].1 < |ts| && Pairs(fs[r[k].0], ts[r[k].1])
    ensures forall a, b :: 0 <= a < |fs| && 0 <= b < |ts| && Pairs(fs[a], ts[b]) ==> (a, b) in r
    ensures forall k, m :: 0 <= k < m < |r| ==> LoopBefore(r[k], r[m])
  {
    PairsFromOrdered(fs, ts, 0);
    assert forall a, b :: 0 <= a < |fs| && 0 <= b < |ts| && Pairs(fs[a], ts[b]) ==> (a, b) in PairsFrom(fs, ts, 0) by {
      forall a, b | 0 <= a < |fs| && 0 <= b < |ts| && Pairs(fs[a], ts[b]) ensures (a, b) in PairsFrom(fs, ts, 0) {
        PairsFromComplete(fs, ts, 0, a, b);
      }
    }
    PairsFrom(fs, ts, 0)
  }

  /** The candidate built from one index pair. The loops only ever pair rows
      inside the tables whose times parse; any other pair gives an empty
      candidate, so that the mapping below is total. */
  function CandidateAt(fromStops: seq<Stop>, toStops: seq<Stop>, fs: seq<StopTime>, ts: seq<StopTime>, p: IndexPair): Candidate {
    if p.0 < |fs| && p.1 < |ts| && Parseable(fs[p.0].departure_time) && Parseable(ts[p.1].arrival_time)
    then MakeCandidate(fromStops, toStops, fs[p.0], ts[p.1])
    else Candidate("", "", "", "", "", "", "", 0, 0)
  }

  /** The candidates built from the given index pairs, in their order. */
  function CandidatesAt(fromStops: seq<Stop>, toStops: seq<Stop>, fs: seq<StopTime>, ts: seq<StopTime>, ps: seq<IndexPair>): (r: seq<Candidate>)
    ensures |r| == |ps|
  {
    MapAll(ps, Builder(fromStops, toStops, fs, ts))
  }

  /** `CandidateAt` for fixed stops and tables, as a function of the pair. */
  function Builder(fromStops: seq<Stop>, toStops: seq<Stop>, fs: seq<StopTime>, ts: seq<StopTime>): IndexPair -> Candidate {
    p => CandidateAt(fromStops, toStops, fs, ts, p)
  }

  /** The `k`-th candidate is the one built from the `k`-th pair. */
  lemma CandidatesAtIndex(fromStops: seq<Stop>, toStops: seq<Stop>, fs: seq<StopTime>, ts: seq<StopTime>, ps: seq<IndexPair>)
    ensures forall k :: 0 <= k < |ps| ==>
      CandidatesAt(fromStops, toStops, fs, ts, ps)[k] == CandidateAt(fromStops, toStops, fs, ts, ps[k])
  {
  }

  lemma CandidatesAtAppend(fromStops: seq<Stop>, toStops: seq<Stop>, fs: seq<StopTime>, ts: seq<StopTime>, ps: seq<IndexPair>, qs: seq<IndexPair>)
    ensures CandidatesAt(fromStops, toStops, fs, ts, ps + qs)
         == CandidatesAt(fromStops, toStops, fs, ts, ps) + CandidatesAt(fromStops, toStops, fs, ts, qs)
  {
    MapAllAppend(ps, qs, Builder(fromStops, toStops, fs, ts));
  }

  /** The inner loop over arrival rows `j` on emits the candidates of the
      qualifying pairs of row `i`, in order. */
  lemma {:induction false} CandidatesForAt(fromStops: seq<Stop>, toStops: seq<Stop>, fs: seq<StopTime>, ts: seq<StopTime>, i: nat, j: nat)
    requires TimesParse(fs, ts) && i < |fs| && j <= |ts|
    ensures forall t | t in ts[j..] :: Parseable(t.arrival_time)
    ensures CandidatesFor(fromStops, toStops, fs[i], ts[j..])
         == CandidatesAt(fromStops, toStops, fs, ts, RowPairs(fs, ts, i, j))
    decreases |ts| - j
  {
    if j < |ts| {
      CandidatesForAt(fromStops, toStops, fs, ts, i, j + 1);
      CandidatesForAtStep(fromStops, toStops, fs, ts, i, j);
    } else {
      assert ts[j..] == [];
      assert RowPairs(fs, ts, i, j) == [];
      assert Parseable(fs[i].departure_time) by {
        assert fs[i] in fs;
      }
    }
  }

  /** The inductive step of `CandidatesForAt`. */
  lemma CandidatesForAtStep(fromStops: seq<Stop>, toStops: seq<Stop>, fs: seq<StopTime>, ts: seq<StopTime>, i: nat, j: nat)
    requires TimesParse(fs, ts) && i < |fs| && j < |ts|
    requires forall t | t in ts[j + 1..] :: Parseable(t.arrival_time)
    requires CandidatesFor(fromStops, toStops, fs[i], ts[j + 1..])
          == CandidatesAt(fromStops, toStops, fs, ts, RowPairs(fs, ts, i, j + 1))
    ensures forall t | t in ts[j..] :: Parseable(t.arrival_time)
    ensures CandidatesFor(fromStops, toStops, fs[i], ts[j..])
         == CandidatesAt(fromStops, toStops, fs, ts, RowPairs(fs, ts, i, j))
  {
    var pairs: seq<IndexPair> := if Pairs(fs[i], ts[j]) then [(i, j)] else [];
    var rest := RowPairs(fs, ts, i, j + 1);
    CandidatesForStep(fromStops, toStops, fs, ts, i, j);
    RowPairsStep(fs, ts, i, j);
    CandidatesAtAppend(fromStops, toStops, fs, ts, pairs, rest);
  }

  /** `RowPairs` unfolded once. */
  lemma RowPairsStep(fs: seq<StopTime>, ts: seq<StopTime>, i: nat, j: nat)
    requires i < |fs| && j < |ts|
    ensures RowPairs(fs, ts, i, j) == (if Pairs(fs[i], ts[j]) then [(i, j)] else []) + RowPairs(fs, ts, i, j + 1)
  {
  }

  /** One step of the inner loop. */
  lemma CandidatesForStep(fromStops: seq<Stop>, toStops: seq<Stop>, fs: seq<StopTime>, ts: seq<StopTime>, i: nat, j: nat)
    requires TimesParse(fs, ts) && i < |fs| && j < |ts|
    ensures forall t | t in ts[j..] :: Parseable(t.arrival_time)
    ensures forall t | t in ts[j + 1..] :: Parseable(t.arrival_time)
    ensures CandidatesFor(fromStops, toStops, fs[i], ts[j..])
         == CandidatesAt(fromStops, toStops, fs, ts, if Pairs(fs[i], ts[j]) then [(i, j)] else [])
            + CandidatesFor(fromStops, toStops, fs[i], ts[j + 1..])
  {
    var u := ts[j..];
    assert forall t | t in u :: Parseable(t.arrival_time) by {
      assert forall t | t in u :: t in ts;
    }
    assert u[1..] == ts[j + 1..] && u[0] == ts[j];
    assert Parseable(fs[i].departure_time) by {
      assert fs[i] in fs;
    }
    var head: seq<IndexPair> := if Pairs(fs[i], ts[j]) then [(i, j)] else [];
    CandidatesAtIndex(fromStops, toStops, fs, ts, head);
    assert CandidatesAt(fromStops, toStops, fs, ts, head)
        == if Pairs(fs[i], ts[j]) then [MakeCandidate(fromStops, toStops, fs[i], ts[j])] else [];
  }

  /** The outer loop over departure rows `i` on emits the candidates of
      their qualifying pairs, in loop order. */
  lemma {:induction false} PossibleRoutesAt(fromStops: seq<Stop>, toStops: seq<Stop>, fs: seq<StopTime>, ts: seq<StopTime>, i: nat)
    requires TimesParse(fs, ts) && i <= |fs|
    ensures TimesParse(fs[i..], ts)
    ensures PossibleRoutes(fromStops, toStops, fs[i..], ts)
         == CandidatesAt(fromStops, toStops, fs, ts, PairsFrom(fs, ts, i))
    decreases |fs| - i
  {
    assert forall f | f in fs[i..] :: f in fs;
    if i < |fs| {
      PossibleRoutesAt(fromStops, toStops, fs, ts, i + 1);
      assert fs[i..][1..] == fs[i + 1..] && fs[i..][0] == fs[i];
      CandidatesForAt(fromStops, toStops, fs, ts, i, 0);
      assert ts[0..] == ts;
      assert RowPairs(fs, ts, i, 0) + PairsFrom(fs, ts, i + 1) == PairsFrom(fs, ts, i);
      CandidatesAtAppend(fromStops, toStops, fs, ts, RowPairs(fs, ts, i, 0), PairsFrom(fs, ts, i + 1));
    }
  }

  /** `possibleRoutes` holds one candidate per qualifying pair of rows, in
      nested-loop order: equal candidates built from different pairs are
      all kept. */
  lemma PossibleRoutesByPairs(fromStops: seq<Stop>, toStops: seq<Stop>, fs: seq<StopTime>, ts: seq<StopTime>)
    requires TimesParse(fs, ts)
    ensures var ps := QualifyingPairs(fs, ts);
      var cs := PossibleRoutes(fromStops, toStops, fs, ts);
      && |cs| == |ps|
      && forall k :: 0 <= k < |cs| ==> cs[k] == MakeCandidate(fromStops, toStops, fs[ps[k].0], ts[ps[k].1])
  {
    PossibleRoutesAt(fromStops, toStops, fs, ts, 0);
    CandidatesAtIndex(fromStops, toStops, fs, ts, QualifyingPairs(fs, ts));
    assert fs[0..] == fs;
  }

  /** `tripsToFetch` as the list handed to the trip query
      (`Array.from` of a set: first occurrence order). */
  function TripsToFetch(cs: seq<Candidate>): (ids: seq<string>)
    ensures Distinct(ids)
    ensures forall id :: id in ids <==> exists c | c in cs :: c.tripId == id
  {
    var all := seq(|cs|, i requires 0 <= i < |cs| => cs[i].tripId);
    assert forall id :: id in all <==> exists c | c in cs :: c.tripId == id by {
      forall id ensures id in all <==> exists c | c in cs :: c.tripId == id {
        if exists c | c in cs :: c.tripId == id {
          var c :| c in cs && c.tripId == id;
          var i :| 0 <= i < |cs| && cs[i] == c;
          assert all[i] == id;
        }
      }
    }
    Dedup(all)
  }

  // ---------------------------------------------------------------------
  // trip details, filtering and naming (lines 159-189)

  /** `tripDetailsMap.get(id)`: rows that are null or lack a trip id are
      skipped, and a later row replaces an earlier one. */
  function DetailOf(details: seq<Option<Trip>>, id: string): (r: Option<Trip>)
    ensures r.Some? ==> Some(r.value) in details && r.value.trip_id == id && id != ""
    ensures r.Some? ==> exists i :: 0 <= i < |details| && details[i] == Some(r.value)
                         && forall j :: i < j < |details| ==> details[j].None? || details[j].value.trip_id != id
    ensures r.None? <==> id == "" || forall d | d in details :: d.None? || d.value.trip_id != id
  {
    if |details| == 0 then None
    else
      var d := details[|details| - 1];
      assert details == details[..|details| - 1] + [d];
      if d.Some? && d.value.trip_id != "" && d.value.trip_id == id then d
      else DetailOf(details[..|details| - 1], id)
  }

  /** The filter predicate: the trip's details exist and its service runs. */
  predicate Active(details: seq<Option<Trip>>, activeServiceIds: seq<string>, c: Candidate) {
    var d := DetailOf(details, c.tripId);
    d.Some? && d.value.service_id in activeServiceIds
  }

  /** A kept candidate with its display name, service id and search date. */
  datatype Named = Named(c: Candidate, tripName: string, serviceId: string, searchDate: string)

  /** `trip_name || trip_headsign || route_id || 'Unknown Route'`. */
  function TripDisplayName(t: Trip): (r: string)
    ensures r != ""
    ensures t.trip_name.Some? && t.trip_name.value != "" ==> r == t.trip_name.value
    ensures OrElse(t.trip_name, "") == "" && OrElse(t.trip_headsign, "") != "" ==> r == t.trip_headsign.value
    ensures OrElse(t.trip_name, "") == "" && OrElse(t.trip_headsign, "") == "" && t.route_id != "" ==> r == t.route_id
    ensures OrElse(t.trip_name, "") == "" && OrElse(t.trip_headsign, "") == "" && t.route_id == "" ==> r == "Unknown Route"
  {
    OrElse(t.trip_name, OrElse(t.trip_headsign, OrElse(Some(t.route_id), "Unknown Route")))
  }

  /** The `map` step for one kept candidate. */
  function NameOne(details: seq<Option<Trip>>, activeServiceIds: seq<string>, dateString: string, c: Candidate): Named
    requires Active(details, activeServiceIds, c)
  {
    var d := DetailOf(details, c.tripId).value;
    Named(c, TripDisplayName(d), d.service_id, dateString)
  }

  /** The `filter` step: the candidates of trips with active service, in
      their order, every copy of an active candidate kept. */
  function Kept(details: seq<Option<Trip>>, activeServiceIds: seq<string>, cs: seq<Candidate>): (r: seq<Candidate>)
    ensures |r| <= |cs|
    ensures forall c :: c in r <==> c in cs && Active(details, activeServiceIds, c)
    ensures forall c | Active(details, activeServiceIds, c) :: Count(r, c) == Count(cs, c)
  {
    var active := c => Active(details, activeServiceIds, c);
    var r := Filter(cs, active);
    forall c | Active(details, activeServiceIds, c) ensures Count(r, c) == Count(cs, c) {
      FilterCount(cs, active, c);
    }
    r
  }

  /** `routesWithNames`: the kept candidates in their order, each named
      from its trip's details. */
  function NameAll(details: seq<Option<Trip>>, activeServiceIds: seq<string>, dateString: string, cs: seq<Candidate>): (r: seq<Named>)
    ensures var kept := Kept(details, activeServiceIds, cs);
      && |r| == |kept|
      && forall i :: 0 <= i < |r| ==>
           Active(details, activeServiceIds, kept[i]) && r[i] == NameOne(details, activeServiceIds, dateString, kept[i])
    ensures forall n | n in r ::
      (n.c in cs && Active(details, activeServiceIds, n.c)
       && n == NameOne(details, activeServiceIds, dateString, n.c))
    ensures forall c | c in cs && Active(details, activeServiceIds, c) ::
      NameOne(details, activeServiceIds, dateString, c) in r
    ensures forall c | Active(details, activeServiceIds, c) ::
      Count(r, NameOne(details, activeServiceIds, dateString, c)) == Count(cs, c)
  {
    var kept := Kept(details, activeServiceIds, cs);
    assert forall i :: 0 <= i < |kept| ==> Active(details, activeServiceIds, kept[i]) by {
      forall i | 0 <= i < |kept| ensures Active(details, activeServiceIds, kept[i]) {
        assert kept[i] in kept;
      }
    }
    var r := seq(|kept|, i requires 0 <= i < |kept| => NameOne(details, activeServiceIds, dateString, kept[i]));
    NamedKept(details, activeServiceIds, dateString, cs, r);
    r
  }

  /** What naming the kept candidates one by one gives: exactly the active
      candidates, each named, with their numbers of copies. */
  lemma NamedKept(details: seq<Option<Trip>>, activeServiceIds: seq<string>, dateString: string, cs: seq<Candidate>, r: seq<Named>)
    requires var kept := Kept(details, activeServiceIds, cs);
      && |r| == |kept|
      && forall i :: 0 <= i < |r| ==>
           Active(details, activeServiceIds, kept[i]) && r[i] == NameOne(details, activeServiceIds, dateString, kept[i])
    ensures forall n | n in r ::
      (n.c in cs && Active(details, activeServiceIds, n.c)
       && n == NameOne(details, activeServiceIds, dateString, n.c))
    ensures forall c | c in cs && Active(details, activeServiceIds, c) ::
      NameOne(details, activeServiceIds, dateString, c) in r
    ensures forall c | Active(details, activeServiceIds, c) ::
      Count(r, NameOne(details, activeServiceIds, dateString, c)) == Count(cs, c)
  {
    var kept := Kept(details, activeServiceIds, cs);
    forall n | n in r
      ensures n.c in cs && Active(details, activeServiceIds, n.c)
      ensures n == NameOne(details, activeServiceIds, dateString, n.c)
    {
      var i :| 0 <= i < |r| && r[i] == n;
      assert kept[i] in kept;
    }
    forall c | c in cs && Active(details, activeServiceIds, c)
      ensures NameOne(details, activeServiceIds, dateString, c) in r
    {
      var i :| 0 <= i < |kept| && kept[i] == c;
      assert r[i] == NameOne(details, activeServiceIds, dateString, c);
    }
    NamedCount(details, activeServiceIds, dateString, kept, r);
  }

  /** Naming is one-to-one (the name record carries its candidate), so it
      keeps the number of copies of each candidate. */
  lemma NamedCount(details: seq<Option<Trip>>, activeServiceIds: seq<string>, dateString: string, kept: seq<Candidate>, r: seq<Named>)
    requires |r| == |kept|
    requires forall i :: 0 <= i < |kept| ==>
      Active(details, activeServiceIds, kept[i]) && r[i] == NameOne(details, activeServiceIds, dateString, kept[i])
    ensures forall c | Active(details, activeServiceIds, c) ::
      Count(r, NameOne(details, activeServiceIds, dateString, c)) == Count(kept, c)
  {
    forall c | Active(details, activeServiceIds, c)
      ensures Count(r, NameOne(details, activeServiceIds, dateString, c)) == Count(kept, c)
    {
      var named := NameOne(details, activeServiceIds, dateString, c);
      assert forall i :: 0 <= i < |r| ==> (r[i] == named <==> kept[i] == c) by {
        forall i | 0 <= i < |r| ensures r[i] == named <==> kept[i] == c {
          assert r[i].c == kept[i] && named.c == c;
        }
      }
      CountSamePositions(r, kept, named, c);
    }
  }

  // ---------------------------------------------------------------------
  // the comparator (lines 192-219)

  /** `convertTimeToMinutes(departureTime) + departureDayOffset * 24 * 60`.
      The fallback of the last branch is never taken for rows that parse. */
  function SortKey(c: Candidate): int {
    if Parseable(c.departureTime)
    then TimeToMinutes(c.departureTime) + c.departureDayOffset * MinutesPerDay
    else 0
  }

  /** The comparator's value for two keys. */
  function Compare(now: int, ka: int, kb: int): (r: int)
    ensures ka >= now && kb >= now ==> r == ka - kb
    ensures ka < now && kb < now ==> r == kb - ka
    ensures ka >= now && kb < now ==> r < 0
    ensures ka < now && kb >= now ==> r > 0
  {
    var da := ka - now;
    var db := kb - now;
    if da >= 0 && db >= 0 then ka - kb
    else if da >= 0 && db < 0 then -1
    else if da < 0 && db >= 0 then 1
    else kb - ka
  }

  /** The order the comparator means: departures not yet gone come first,
      and within each group the one closer to now comes first. */
  predicate RankLe(now: int, ka: int, kb: int) {
    var pastA, pastB := ka < now, kb < now;
    var distA, distB := if pastA then now - ka else ka - now, if pastB then now - kb else kb - now;
    (!pastA && pastB) || (pastA == pastB && distA <= distB)
  }

  lemma CompareMeansRank(now: int, ka: int, kb: int)
    ensures Compare(now, ka, kb) <= 0 <==> RankLe(now, ka, kb)
  {
  }

  /** The comparator is consistent: swapping the arguments flips the sign. */
  lemma CompareAntisymmetric(now: int, ka: int, kb: int)
    ensures Compare(now, ka, kb) < 0 <==> Compare(now, kb, ka) > 0
    ensures Compare(now, ka, kb) == 0 <==> Compare(now, kb, ka) == 0
  {
  }

  function Le(now: int): (Named, Named) -> bool {
    (a: Named, b: Named) => Compare(now, SortKey(a.c), SortKey(b.c)) <= 0
  }

  lemma LeIsPreorder(now: int)
    ensures Sorting.TotalPreorder(Le(now))
  {
    forall a: Named, b: Named ensures Le(now)(a, b) == RankLe(now, SortKey(a.c), SortKey(b.c)) {
      CompareMeansRank(now, SortKey(a.c), SortKey(b.c));
    }
  }

  /** Sorted output: every departure not yet gone precedes every one already
      gone; the former ascend and the latter descend by key. */
  lemma SortedMeaning(now: int, r: seq<Named>)
    requires Sorting.SortedBy(r, Le(now))
    ensures forall i, j :: 0 <= i < j < |r| ==>
      var ka, kb := SortKey(r[i].c), SortKey(r[j].c);
      && (ka < now ==> kb < now)
      && (kb >= now ==> ka <= kb)
      && (ka < now ==> kb <= ka)
  {
    forall i, j | 0 <= i < j < |r|
      ensures var ka, kb := SortKey(r[i].c), SortKey(r[j].c);
        && (ka < now ==> kb < now) && (kb >= now ==> ka <= kb) && (ka < now ==> kb <= ka)
    {
      CompareMeansRank(now, SortKey(r[i].c), SortKey(r[j].c));
    }
  }

  /** Adding the day offset on top of the un-folded hour counts the extra
      days twice, but with a clock-face "now" and clock-face minutes the
      order is the one plain minutes give. */
  lemma DoubleOffsetKeepsOrder(now: int, a: string, b: string)
    requires 0 <= now <= MinutesPerDay
    requires ClockTime(a) && ClockTime(b)
    ensures var ka := TimeToMinutes(a) + DayOffset(a) * MinutesPerDay;
            var kb := TimeToMinutes(b) + DayOffset(b) * MinutesPerDay;
      Compare(now, ka, kb) <= 0 <==> Compare(now, TimeToMinutes(a), TimeToMinutes(b)) <= 0
  {
    var ra, rb := TimeToMinutes(a), TimeToMinutes(b);
    HourOfMinutes(HoursOf(a), MinutesOf(a));
    HourOfMinutes(HoursOf(b), MinutesOf(b));
    if ra <= rb {
      DivMonotone(HoursOf(a), HoursOf(b));
    }
    if rb <= ra {
      DivMonotone(HoursOf(b), HoursOf(a));
    }
    if HoursOf(a) < 24 { assert DayOffset(a) == 0; }
    if HoursOf(b) < 24 { assert DayOffset(b) == 0; }
    CompareMeansRank(now, ra, rb);
    CompareMeansRank(now, ra + DayOffset(a) * MinutesPerDay, rb + DayOffset(b) * MinutesPerDay);
  }

  lemma HourOfMinutes(h: nat, m: nat)
    requires m < 60
    ensures (h * 60 + m) / 60 == h
  {
  }

  lemma DivMonotone(x: nat, y: nat)
    requires x <= y
    ensures x / 24 <= y / 24
  {
  }

  // ---------------------------------------------------------------------
  // findRoutes (lines 28-238)

  /** What `findRoutes` hands back: routes, an error message or null, and
      the search date on success. */
  datatype Result = Result(routes: seq<Named>, error: Option<string>, date: Option<string>)

  /** The outcome together with its effects: whether the route is recorded
      in the user's history and whether the result is written to the cache. */
  datatype Outcome = Outcome(result: Result, savesRecentRoute: bool, caches: bool)

  function StopTimesFor(stops: seq<Stop>, stopTimesOf: string -> seq<StopTime>): seq<StopTime> {
    if |stops| == 0 then [] else stopTimesOf(stops[0].stop_id) + StopTimesFor(stops[1..], stopTimesOf)
  }

  /** A given stop id becomes a stop of its own (without coordinates);
      otherwise the stops found by name are used. */
  function ResolveStops(id: Option<string>, name: string, lookedUp: seq<Stop>): seq<Stop> {
    if id.Some? && id.value != "" then [Stop(id.value, name, Coord(""), Coord(""))] else lookedUp
  }

  ghost predicate FetchesParse(stopTimesOf: string -> seq<StopTime>) {
    forall sid, st | st in stopTimesOf(sid) :: Parseable(st.departure_time) && Parseable(st.arrival_time)
  }

  lemma StopTimesForParse(stops: seq<Stop>, stopTimesOf: string -> seq<StopTime>)
    requires FetchesParse(stopTimesOf)
    ensures forall st | st in StopTimesFor(stops, stopTimesOf) :: Parseable(st.departure_time) && Parseable(st.arrival_time)
  {
  }

  /** The routes of a successful search: named, filtered and sorted. */
  function RankedRoutes(now: int, details: seq<Option<Trip>>, activeServiceIds: seq<string>, dateString: string, cs: seq<Candidate>): (r: seq<Named>)
    ensures multiset(r) == multiset(NameAll(details, activeServiceIds, dateString, cs))
    ensures Sorting.SortedBy(r, Le(now))
  {
    LeIsPreorder(now);
    Sorting.SortBy(NameAll(details, activeServiceIds, dateString, cs), Le(now))
  }

  /** `findRoutes` on its non-throwing path. `cached` is what the cache held
      for this search, `activeServiceIds` what the calendar lookup returned,
      `fromLookup`/`toLookup` the stops found by name, `stopTimesOf` the
      per-stop stop times and `details` the trip rows `getBatchTripDetails`
      returned for the ids `TripsToFetch` lists. Which rows come back is not
      tied to those ids here: `details` is any list, and a candidate whose
      trip has no row is dropped. */
  function FindRoutes(
    fromId: Option<string>, toId: Option<string>, fromName: string, toName: string,
    currentTime: string, user: Option<User>, dateString: string, cached: Option<Result>,
    activeServiceIds: seq<string>, fromLookup: seq<Stop>, toLookup: seq<Stop>,
    stopTimesOf: string -> seq<StopTime>, details: seq<Option<Trip>>): (o: Outcome)
    requires Parseable(currentTime)
    requires FetchesParse(stopTimesOf)
    ensures cached.Some? ==> o == Outcome(cached.value, user.Some?, false)
    ensures cached.None? ==> o.savesRecentRoute == user.Some?
    ensures cached.None? ==> (o.result.error.None? <==> o.caches)
    ensures cached.None? && o.result.error.Some? ==> o.result.routes == [] && o.result.date.None?
    ensures cached.None? && |activeServiceIds| == 0 ==>
      o.result == Result([], Some("No transit service available for " + dateString + "."), None)
    ensures cached.None? && |activeServiceIds| > 0 && |ResolveStops(fromId, fromName, fromLookup)| == 0 ==>
      o.result.error == Some("Origin stop \"" + fromName + "\" not found.")
    ensures cached.None? && |activeServiceIds| > 0 && |ResolveStops(fromId, fromName, fromLookup)| > 0
            && |ResolveStops(toId, toName, toLookup)| == 0 ==>
      o.result.error == Some("Destination stop \"" + toName + "\" not found.")
    ensures var fromStops, toStops := ResolveStops(fromId, fromName, fromLookup), ResolveStops(toId, toName, toLookup);
      cached.None? && |activeServiceIds| > 0 && |fromStops| > 0 && |toStops| > 0
      && |StopTimesFor(fromStops, stopTimesOf)| == 0 ==>
      o.result.error == Some("No departures found from \"" + fromName + "\".")
    ensures var fromStops, toStops := ResolveStops(fromId, fromName, fromLookup), ResolveStops(toId, toName, toLookup);
      cached.None? && |activeServiceIds| > 0 && |fromStops| > 0 && |toStops| > 0
      && |StopTimesFor(fromStops, stopTimesOf)| > 0 && |StopTimesFor(toStops, stopTimesOf)| == 0 ==>
      o.result.error == Some("No arrivals found at \"" + toName + "\".")
    ensures var fromStops, toStops := ResolveStops(fromId, fromName, fromLookup), ResolveStops(toId, toName, toLookup);
      var fs, ts := StopTimesFor(fromStops, stopTimesOf), StopTimesFor(toStops, stopTimesOf);
      cached.None? && |activeServiceIds| > 0 && |fromStops| > 0 && |toStops| > 0 && |fs| > 0 && |ts| > 0
      && TimesParse(fs, ts) && |PossibleRoutes(fromStops, toStops, fs, ts)| == 0 ==>
      o.result.error == Some("No direct routes found from \"" + fromName + "\" to \"" + toName + "\".")
    ensures var fromStops, toStops := ResolveStops(fromId, fromName, fromLookup), ResolveStops(toId, toName, toLookup);
      var fs, ts := StopTimesFor(fromStops, stopTimesOf), StopTimesFor(toStops, stopTimesOf);
      cached.None? && |activeServiceIds| > 0 && |fromStops| > 0 && |toStops| > 0 && |fs| > 0 && |ts| > 0
      && TimesParse(fs, ts) && |PossibleRoutes(fromStops, toStops, fs, ts)| > 0 ==>
      o.result.error.None? && o.caches
    ensures cached.None? && o.result.error.None? ==>
      && o.result.date == Some(dateString)
      && var fs := StopTimesFor(ResolveStops(fromId, fromName, fromLookup), stopTimesOf);
         var ts := StopTimesFor(ResolveStops(toId, toName, toLookup), stopTimesOf);
         TimesParse(fs, ts)
         && |PossibleRoutes(ResolveStops(fromId, fromName, fromLookup), ResolveStops(toId, toName, toLookup), fs, ts)| > 0
         && o.result.routes == RankedRoutes(TimeToMinutes(currentTime), details, activeServiceIds, dateString,
              PossibleRoutes(ResolveStops(fromId, fromName, fromLookup), ResolveStops(toId, toName, toLookup), fs, ts))
  {
    if cached.Some? then Outcome(cached.value, user.Some?, false)
    else
      var saves := user.Some?;
      if |activeServiceIds| == 0 then
        Outcome(Result([], Some("No transit service available for " + dateString + "."), None), saves, false)
      else
        var fromStops := ResolveStops(fromId, fromName, fromLookup);
        var toStops := ResolveStops(toId, toName, toLookup);
        if |fromStops| == 0 then
          Outcome(Result([], Some("Origin stop \"" + fromName + "\" not found."), None), saves, false)
        else if |toStops| == 0 then
          Outcome(Result([], Some("Destination stop \"" + toName + "\" not found."), None), saves, false)
        else
          var fs := StopTimesFor(fromStops, stopTimesOf);
          var ts := StopTimesFor(toStops, stopTimesOf);
          StopTimesForParse(fromStops, stopTimesOf);
          StopTimesForParse(toStops, stopTimesOf);
          if |fs| == 0 then
            Outcome(Result([], Some("No departures found from \"" + fromName + "\"."), None), saves, false)
          else if |ts| == 0 then
            Outcome(Result([], Some("No arrivals found at \"" + toName + "\"."), None), saves, false)
          else
            var possible := PossibleRoutes(fromStops, toStops, fs, ts);
            if |possible| == 0 then
              Outcome(Result([], Some("No direct routes found from \"" + fromName + "\" to \"" + toName + "\"."), None), saves, false)
            else
              var routes := RankedRoutes(TimeToMinutes(currentTime), details, activeServiceIds, dateString, possible);
              Outcome(Result(routes, None, Some(dateString)), saves, true)
  }

  /** Every route of a successful search is a pair of rows of one trip in
      stop order whose trip has active service, named after that trip. */
  lemma FindRoutesSound(
    fromStops: seq<Stop>, toStops: seq<Stop>, fs: seq<StopTime>, ts: seq<StopTime>,
    now: int, details: seq<Option<Trip>>, activeServiceIds: seq<string>, dateString: string, n: Named)
    requires TimesParse(fs, ts)
    requires n in RankedRoutes(now, details, activeServiceIds, dateString, PossibleRoutes(fromStops, toStops, fs, ts))
    ensures Active(details, activeServiceIds, n.c)
    ensures n.tripName == TripDisplayName(DetailOf(details, n.c.tripId).value)
    ensures n.serviceId in activeServiceIds && n.searchDate == dateString
    ensures exists f, t | f in fs && t in ts :: Pairs(f, t) && n.c == MakeCandidate(fromStops, toStops, f, t)
  {
    var cs := PossibleRoutes(fromStops, toStops, fs, ts);
    assert n in multiset(NameAll(details, activeServiceIds, dateString, cs));
    PossibleRoutesMembership(fromStops, toStops, fs, ts, n.c);
  }

  /** Every candidate whose trip has active service is reported. */
  lemma FindRoutesComplete(
    fromStops: seq<Stop>, toStops: seq<Stop>, fs: seq<StopTime>, ts: seq<StopTime>,
    now: int, details: seq<Option<Trip>>, activeServiceIds: seq<string>, dateString: string,
    f: StopTime, t: StopTime)
    requires TimesParse(fs, ts)
    requires f in fs && t in ts && Pairs(f, t)
    requires Active(details, activeServiceIds, MakeCandidate(fromStops, toStops, f, t))
    ensures NameOne(details, activeServiceIds, dateString, MakeCandidate(fromStops, toStops, f, t))
        in RankedRoutes(now, details, activeServiceIds, dateString, PossibleRoutes(fromStops, toStops, fs, ts))
  {
    var c := MakeCandidate(fromStops, toStops, f, t);
    var cs := PossibleRoutes(fromStops, toStops, fs, ts);
    PossibleRoutesMembership(fromStops, toStops, fs, ts, c);
    var named := NameAll(details, activeServiceIds, dateString, cs);
    assert NameOne(details, activeServiceIds, dateString, c) in multiset(named);
  }

  /** A search reports an active candidate exactly as many times as there
      are qualifying pairs of rows that build it. */
  lemma FindRoutesCount(
    fromStops: seq<Stop>, toStops: seq<Stop>, fs: seq<StopTime>, ts: seq<StopTime>,
    now: int, details: seq<Option<Trip>>, activeServiceIds: seq<string>, dateString: string, c: Candidate)
    requires TimesParse(fs, ts)
    requires Active(details, activeServiceIds, c)
    ensures var cs := PossibleRoutes(fromStops, toStops, fs, ts);
      var ps := QualifyingPairs(fs, ts);
      && Count(RankedRoutes(now, details, activeServiceIds, dateString, cs), NameOne(details, activeServiceIds, dateString, c))
         == Count(cs, c)
      && Count(cs, c) == |Positions(ps, Builder(fromStops, toStops, fs, ts), c)|
  {
    var cs := PossibleRoutes(fromStops, toStops, fs, ts);
    var named := NameAll(details, activeServiceIds, dateString, cs);
    var ranked := RankedRoutes(now, details, activeServiceIds, dateString, cs);
    var n := NameOne(details, activeServiceIds, dateString, c);
    assert Count(ranked, n) == Count(named, n) by {
      assert multiset(ranked) == multiset(named);
    }
    PossibleRoutesCountPairs(fromStops, toStops, fs, ts, c);
  }

  /** The copies of a candidate among the possible routes are the qualifying
      pairs that build it. */
  lemma PossibleRoutesCountPairs(fromStops: seq<Stop>, toStops: seq<Stop>, fs: seq<StopTime>, ts: seq<StopTime>, c: Candidate)
    requires TimesParse(fs, ts)
    ensures var ps := QualifyingPairs(fs, ts);
      Count(PossibleRoutes(fromStops, toStops, fs, ts), c) == |Positions(ps, Builder(fromStops, toStops, fs, ts), c)|
  {
    var ps := QualifyingPairs(fs, ts);
    var build := Builder(fromStops, toStops, fs, ts);
    PossibleRoutesAt(fromStops, toStops, fs, ts, 0);
    assert fs[0..] == fs;
    assert ps == PairsFrom(fs, ts, 0);
    var cs := PossibleRoutes(fromStops, toStops, fs, ts);
    assert cs == MapAll(ps, build);
    CountMapAll(ps, build, c);
  }
}
