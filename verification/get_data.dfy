/** The plain table reads of `src/services/apiGetData.ts`: every stop row
    mapped one to one, the stop times of one stop, and the shape points
    grouped into one path per `shape_id`. The table contents are
    parameters. */
module GetData {
  import opened Common
  import opened Records
  import opened TimeText
  import opened Stops
  import Sorting

  // ---------------------------------------------------------------------
  // getUnfilteredStops

  function ToStop(row: StopRow): Stop {
    Stop(row.stop_id, row.stop_name, Coord(row.stop_lat), Coord(row.stop_lon))
  }

  /** `getUnfilteredStops`: every row, in order, as a stop; an error gives
      no stops. */
  function GetUnfilteredStops(table: Fetched<StopRow>): (r: seq<Stop>)
    ensures table.StoreError? ==> r == []
    ensures table.Rows? ==> |r| == |table.rows|
    ensures table.Rows? ==> forall i :: 0 <= i < |r| ==>
      && r[i].stop_id == table.rows[i].stop_id
      && r[i].name == table.rows[i].stop_name
      && r[i].lat == Coord(table.rows[i].stop_lat)
      && r[i].lng == Coord(table.rows[i].stop_lon)
  {
    match table
    case StoreError => []
    case Rows(rows) => seq(|rows|, i requires 0 <= i < |rows| => ToStop(rows[i]))
  }

  /** No earlier stop of the list has the name of stop `i`. */
  predicate FirstOfName(all: seq<Stop>, i: nat)
    requires i < |all|
  {
    forall j :: 0 <= j < i ==> all[j].name != all[i].name
  }

  /** A stop without its id, as the de-duplicated list holds it. */
  function WithoutId(s: Stop): NamedStop {
    NamedStop(s.name, s.lat, s.lng)
  }

  /** The de-duplicated stop list is the unfiltered list with every stop
      after the first of its name dropped (and the ids left off): the k-th
      stop is the stop at the first row of its name. */
  lemma StopsAreFirstOfEachName(rows: seq<StopRow>, k: nat) returns (i: nat)
    requires k < |GetStops(Rows(rows))|
    ensures i < |GetUnfilteredStops(Rows(rows))|
    ensures FirstOfName(GetUnfilteredStops(Rows(rows)), i)
    ensures GetStops(Rows(rows))[k] == WithoutId(GetUnfilteredStops(Rows(rows))[i])
  {
    var stops := GetStops(Rows(rows));
    assert stops[k].name in NamesOf(stops);
    i := FirstIndex(Names(rows), stops[k].name);
    FirstIndexIsFirstOfName(rows, i);
  }

  lemma FirstIndexIsFirstOfName(rows: seq<StopRow>, i: nat)
    requires i < |rows| && rows[i].stop_name !in Names(rows)[..i]
    ensures FirstOfName(GetUnfilteredStops(Rows(rows)), i)
  {
    var ns := Names(rows);
    assert forall j :: 0 <= j < i ==> ns[..i][j] == ns[j];
  }

  // ---------------------------------------------------------------------
  // getStopTimes

  /** `getStopTimes(stop_id, limit)`: the rows for the stop, at most
      `limit` of them; an error gives no rows. */
  function GetStopTimes(table: Fetched<StopTime>, stopId: string, limit: nat): (r: seq<StopTime>)
    ensures table.StoreError? ==> r == []
    ensures |r| <= limit
    ensures forall st | st in r :: st.stop_id == stopId
    ensures table.Rows? ==> forall st | st in r :: st in table.rows
    ensures table.Rows? ==> multiset(r) <= multiset(table.rows)
    ensures table.Rows? ==> forall st | st in table.rows && st.stop_id == stopId ::
      st in r || |r| == limit
  {
    match table
    case StoreError => []
    case Rows(rows) =>
      var atStop := (st: StopTime) => st.stop_id == stopId;
      var matching := Filter(rows, atStop);
      var r := Take(matching, limit);
      assert forall st | st in r :: st in matching;
      TakeFilterSubMultiset(rows, atStop, limit);
      r
  }

  // ---------------------------------------------------------------------
  // getShapes

  /** A `shapes` table row. */
  datatype ShapeRow = ShapeRow(shape_id: string, shape_pt_lat: string, shape_pt_lon: string)

  function ShapeIds(rows: seq<ShapeRow>): (ids: seq<string>)
    ensures |ids| == |rows|
    ensures forall i :: 0 <= i < |rows| ==> ids[i] == rows[i].shape_id
  {
    if |rows| == 0 then [] else [rows[0].shape_id] + ShapeIds(rows[1..])
  }

  /** The points pushed onto the group of `id`, in row order. */
  function PointsOf(rows: seq<ShapeRow>, id: string): (ps: seq<ShapePoint>)
    ensures |ps| == CountIn(rows, {id})
    ensures |ps| > 0 <==> id in ShapeIds(rows)
  {
    if |rows| == 0 then []
    else
      assert ShapeIds(rows) == [rows[0].shape_id] + ShapeIds(rows[1..]);
      var rest := PointsOf(rows[1..], id);
      if rows[0].shape_id == id then [ShapePoint(Coord(rows[0].shape_pt_lat), Coord(rows[0].shape_pt_lon))] + rest
      else rest
  }

  /** Number of rows whose `shape_id` is in `ids`. */
  function CountIn(rows: seq<ShapeRow>, ids: set<string>): (n: nat)
    ensures n <= |rows|
  {
    if |rows| == 0 then 0 else (if rows[0].shape_id in ids then 1 else 0) + CountIn(rows[1..], ids)
  }

  /** A property key JavaScript treats as an array index: the canonical
      decimal form of an integer from 0 to 2^32 - 2. */
  predicate IsArrayIndex(k: string) {
    IsDigits(k) && (|k| == 1 || k[0] != '0') && DecimalValue(k) <= 0xFFFF_FFFE
  }

  function IndexValue(k: string): nat {
    if AllDigits(k) then DecimalValue(k) else 0
  }

  /** Ascending numeric order of array-index keys. */
  function IndexLe(a: string, b: string): bool {
    IndexValue(a) <= IndexValue(b)
  }

  lemma IndexLeIsPreorder()
    ensures Sorting.TotalPreorder(IndexLe)
  {
  }

  function IndexKeys(keys: seq<string>): (r: seq<string>)
    ensures forall k :: k in r <==> k in keys && IsArrayIndex(k)
  {
    if |keys| == 0 then []
    else (if IsArrayIndex(keys[0]) then [keys[0]] else []) + IndexKeys(keys[1..])
  }

  function OtherKeys(keys: seq<string>): (r: seq<string>)
    ensures forall k :: k in r <==> k in keys && !IsArrayIndex(k)
  {
    if |keys| == 0 then []
    else (if IsArrayIndex(keys[0]) then [] else [keys[0]]) + OtherKeys(keys[1..])
  }

  lemma {:induction false} KeysPartition(keys: seq<string>)
    ensures multiset(IndexKeys(keys)) + multiset(OtherKeys(keys)) == multiset(keys)
  {
    if |keys| > 0 {
      var k, rest := keys[0], keys[1..];
      KeysPartition(rest);
      assert keys == [k] + rest;
      if IsArrayIndex(k) {
        assert IndexKeys(keys) == [k] + IndexKeys(rest);
        assert OtherKeys(keys) == OtherKeys(rest);
      } else {
        assert IndexKeys(keys) == IndexKeys(rest);
        assert OtherKeys(keys) == [k] + OtherKeys(rest);
      }
    }
  }

  /** The order in which `Object.values` lists the properties of a plain
      object created with the keys `keys` in that order: array indices
      first, in ascending numeric order, then the other keys in creation
      order. */
  function PropertyOrder(keys: seq<string>): (r: seq<string>)
    ensures multiset(r) == multiset(keys)
    ensures |r| == |keys| == |IndexKeys(keys)| + |OtherKeys(keys)|
    ensures forall i :: 0 <= i < |r| ==> (IsArrayIndex(r[i]) <==> i < |IndexKeys(keys)|)
    ensures forall i, j :: 0 <= i < j < |IndexKeys(keys)| ==> IndexValue(r[i]) <= IndexValue(r[j])
    ensures r[|IndexKeys(keys)|..] == OtherKeys(keys)
  {
    IndexLeIsPreorder();
    var front := Sorting.SortBy(IndexKeys(keys), IndexLe);
    var r := front + OtherKeys(keys);
    PropertyOrderFacts(keys, front, r);
    r
  }

  lemma PropertyOrderFacts(keys: seq<string>, front: seq<string>, r: seq<string>)
    requires multiset(front) == multiset(IndexKeys(keys))
    requires Sorting.SortedBy(front, IndexLe)
    requires r == front + OtherKeys(keys)
    ensures multiset(r) == multiset(keys)
    ensures |r| == |keys|
    ensures |front| == |IndexKeys(keys)|
    ensures forall i :: 0 <= i < |r| ==> (IsArrayIndex(r[i]) <==> i < |front|)
    ensures forall i, j :: 0 <= i < j < |front| ==> IndexValue(r[i]) <= IndexValue(r[j])
  {
    KeysPartition(keys);
    assert |r| == |multiset(r)|;
    assert |front| == |multiset(front)|;
    forall i | 0 <= i < |r| ensures (IsArrayIndex(r[i]) <==> i < |front|) {
      if i < |front| {
        assert r[i] == front[i];
        assert r[i] in multiset(IndexKeys(keys));
      } else {
        assert r[i] == OtherKeys(keys)[i - |front|];
      }
    }
    forall i, j | 0 <= i < j < |front| ensures IndexValue(r[i]) <= IndexValue(r[j]) {
      assert r[i] == front[i] && r[j] == front[j];
      assert IndexLe(front[i], front[j]);
    }
  }

  /** The groups of `getShapes`, keyed in the order `Object.values` lists
      them. */
  function GroupOrder(rows: seq<ShapeRow>): (ids: seq<string>)
    ensures Distinct(ids)
    ensures forall id :: id in ids <==> id in ShapeIds(rows)
  {
    var ids := PropertyOrder(Dedup(ShapeIds(rows)));
    DistinctPermutation(ids, Dedup(ShapeIds(rows)));
    assert forall id :: id in ids <==> id in multiset(Dedup(ShapeIds(rows)));
    ids
  }

  function Groups(rows: seq<ShapeRow>, ids: seq<string>): (gs: seq<seq<ShapePoint>>)
    ensures |gs| == |ids|
    ensures forall i :: 0 <= i < |ids| ==> gs[i] == PointsOf(rows, ids[i])
  {
    if |ids| == 0 then [] else [PointsOf(rows, ids[0])] + Groups(rows, ids[1..])
  }

  /** The accumulator of the `reduce`: the object's keys in creation order
      and the array each key holds. */
  datatype Acc = Acc(keys: seq<string>, groups: map<string, seq<ShapePoint>>)

  function PointOf(row: ShapeRow): ShapePoint {
    ShapePoint(Coord(row.shape_pt_lat), Coord(row.shape_pt_lon))
  }

  /** One step of the `reduce`: create the key's array if it is missing,
      then push the row's point. */
  function Step(acc: Acc, row: ShapeRow): Acc {
    var id := row.shape_id;
    if id !in acc.groups then Acc(acc.keys + [id], acc.groups[id := [PointOf(row)]])
    else Acc(acc.keys, acc.groups[id := acc.groups[id] + [PointOf(row)]])
  }

  /** The `reduce` over the rows from the empty object. */
  function Reduce(rows: seq<ShapeRow>): Acc {
    if |rows| == 0 then Acc([], map[])
    else Step(Reduce(rows[..|rows| - 1]), rows[|rows| - 1])
  }

  lemma {:induction false} PointsOfAppend(rows: seq<ShapeRow>, row: ShapeRow, id: string)
    ensures PointsOf(rows + [row], id) == PointsOf(rows, id) + (if row.shape_id == id then [PointOf(row)] else [])
  {
    if |rows| == 0 {
      assert rows + [row] == [row];
    } else {
      var all := rows + [row];
      assert all[0] == rows[0];
      assert all[1..] == rows[1..] + [row];
      PointsOfAppend(rows[1..], row, id);
    }
  }

  /** After the `reduce`, the keys are the distinct shape ids in order of
      first appearance, and each holds exactly the points of its rows, in
      row order. */
  lemma {:induction false} ReduceGroups(rows: seq<ShapeRow>)
    ensures Reduce(rows).keys == Dedup(ShapeIds(rows))
    ensures forall id :: id in Reduce(rows).groups <==> id in ShapeIds(rows)
    ensures forall id | id in Reduce(rows).groups :: Reduce(rows).groups[id] == PointsOf(rows, id)
  {
    if |rows| > 0 {
      var init := rows[..|rows| - 1];
      var row := rows[|rows| - 1];
      ReduceGroups(init);
      assert rows == init + [row];
      ReduceStep(init, row);
    }
  }

  lemma ReduceStep(init: seq<ShapeRow>, row: ShapeRow)
    requires Reduce(init).keys == Dedup(ShapeIds(init))
    requires forall id :: id in Reduce(init).groups <==> id in ShapeIds(init)
    requires forall id | id in Reduce(init).groups :: Reduce(init).groups[id] == PointsOf(init, id)
    ensures Reduce(init + [row]).keys == Dedup(ShapeIds(init + [row]))
    ensures forall id :: id in Reduce(init + [row]).groups <==> id in ShapeIds(init + [row])
    ensures forall id | id in Reduce(init + [row]).groups :: Reduce(init + [row]).groups[id] == PointsOf(init + [row], id)
  {
    var rows := init + [row];
    assert rows[..|rows| - 1] == init;
    assert Reduce(rows) == Step(Reduce(init), row);
    ShapeIdsAppend(init, row);
    StepKeys(init, row);
    StepGroups(Reduce(init), init, row);
  }

  lemma StepKeys(init: seq<ShapeRow>, row: ShapeRow)
    requires Reduce(init).keys == Dedup(ShapeIds(init))
    requires forall id :: id in Reduce(init).groups <==> id in ShapeIds(init)
    ensures Step(Reduce(init), row).keys == Dedup(ShapeIds(init) + [row.shape_id])
  {
    var ids := ShapeIds(init) + [row.shape_id];
    assert ids[..|ids| - 1] == ShapeIds(init);
  }

  lemma StepGroups(acc: Acc, init: seq<ShapeRow>, row: ShapeRow)
    requires forall id :: id in acc.groups <==> id in ShapeIds(init)
    requires forall id | id in acc.groups :: acc.groups[id] == PointsOf(init, id)
    ensures forall id :: id in Step(acc, row).groups <==> id in ShapeIds(init) + [row.shape_id]
    ensures forall id | id in Step(acc, row).groups :: Step(acc, row).groups[id] == PointsOf(init + [row], id)
  {
    forall id | id in Step(acc, row).groups ensures Step(acc, row).groups[id] == PointsOf(init + [row], id) {
      PointsOfAppend(init, row, id);
    }
  }

  lemma ShapeIdsAppend(init: seq<ShapeRow>, row: ShapeRow)
    ensures ShapeIds(init + [row]) == ShapeIds(init) + [row.shape_id]
  {
    var ids := ShapeIds(init + [row]);
    assert ids == ShapeIds(init) + [row.shape_id];
  }

  /** `Object.values` of the grouped object: the array of each key, in
      property order. */
  function Values(acc: Acc, order: seq<string>): (r: seq<seq<ShapePoint>>)
    requires forall k | k in order :: k in acc.groups
    ensures |r| == |order|
  {
    seq(|order|, i requires 0 <= i < |order| => acc.groups[order[i]])
  }

  /** What the `reduce` leaves behind, listed in property order, is the
      group of each shape id in `GroupOrder`. */
  lemma ValuesAreGroups(rows: seq<ShapeRow>)
    ensures PropertyOrder(Reduce(rows).keys) == GroupOrder(rows)
    ensures forall k | k in GroupOrder(rows) :: k in Reduce(rows).groups
    ensures Values(Reduce(rows), GroupOrder(rows)) == Groups(rows, GroupOrder(rows))
    ensures forall i :: 0 <= i < |GroupOrder(rows)| ==> |Groups(rows, GroupOrder(rows))[i]| > 0
  {
    ReduceGroups(rows);
  }

  /** `getShapes`: `Object.values` of the grouped object; an error gives
      no paths. */
  function GetShapes(table: Fetched<ShapeRow>): (r: seq<seq<ShapePoint>>)
    ensures table.StoreError? ==> r == []
    ensures table.Rows? ==> r == Groups(table.rows, GroupOrder(table.rows))
    ensures forall i :: 0 <= i < |r| ==> |r[i]| > 0
  {
    match table
    case StoreError => []
    case Rows(rows) =>
      var acc := Reduce(rows);
      ValuesAreGroups(rows);
      Values(acc, PropertyOrder(acc.keys))
  }

  lemma {:induction false} CountInUnion(rows: seq<ShapeRow>, a: set<string>, b: set<string>)
    requires a !! b
    ensures CountIn(rows, a + b) == CountIn(rows, a) + CountIn(rows, b)
  {
    if |rows| > 0 {
      CountInUnion(rows[1..], a, b);
    }
  }

  lemma {:induction false} GroupsTotal(rows: seq<ShapeRow>, ids: seq<string>)
    requires Distinct(ids)
    ensures TotalLength(Groups(rows, ids)) == CountIn(rows, SetOf(ids))
  {
    if |ids| > 0 {
      GroupsTotal(rows, ids[1..]);
      assert ids[0] !in ids[1..];
      SetOfCons(ids);
      CountInUnion(rows, {ids[0]}, SetOf(ids[1..]));
    } else {
      assert SetOf(ids) == {};
      EmptyCount(rows);
    }
  }

  function SetOf(ids: seq<string>): set<string> {
    set id | id in ids
  }

  lemma SetOfCons(ids: seq<string>)
    requires |ids| > 0
    ensures SetOf(ids) == {ids[0]} + SetOf(ids[1..])
  {
    assert forall id :: id in ids <==> id == ids[0] || id in ids[1..];
  }

  lemma {:induction false} EmptyCount(rows: seq<ShapeRow>)
    ensures CountIn(rows, {}) == 0
  {
    if |rows| > 0 {
      EmptyCount(rows[1..]);
    }
  }

  lemma {:induction false} CountAll(rows: seq<ShapeRow>, ids: set<string>)
    requires forall i :: 0 <= i < |rows| ==> rows[i].shape_id in ids
    ensures CountIn(rows, ids) == |rows|
  {
    if |rows| > 0 {
      CountAll(rows[1..], ids);
    }
  }

  /** No point is lost or duplicated: the paths hold as many points as the
      table has rows. */
  lemma ShapesKeepEveryPoint(rows: seq<ShapeRow>)
    ensures TotalLength(GetShapes(Rows(rows))) == |rows|
  {
    var ids := GroupOrder(rows);
    GroupsTotal(rows, ids);
    forall i | 0 <= i < |rows| ensures rows[i].shape_id in SetOf(ids) {
      assert ShapeIds(rows)[i] == rows[i].shape_id;
    }
    CountAll(rows, SetOf(ids));
  }

  /** There is one path per distinct shape id. */
  lemma OnePathPerShape(rows: seq<ShapeRow>)
    ensures |GetShapes(Rows(rows))| == |set id | id in ShapeIds(rows)|
  {
    var ids := GroupOrder(rows);
    DistinctCard(ids);
    assert (set id | id in ids) == set id | id in ShapeIds(rows);
  }
}
