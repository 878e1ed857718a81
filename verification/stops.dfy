/** The stop list of `src/services/apiStops.ts`: stops are de-duplicated by
    name, keeping the first row of each name. The table read is a parameter. */
module Stops {
  import opened Common
  import opened Records

  /** A `stops` table row as the store delivers it. */
  datatype StopRow = StopRow(stop_id: string, stop_name: string, stop_lat: string, stop_lon: string)

  /** What a select on a table gave: the rows, or an error object. */
  datatype Fetched<T> = Rows(rows: seq<T>) | StoreError

  /** A stop of the de-duplicated list: name and coordinates only. */
  datatype NamedStop = NamedStop(name: string, lat: Coord, lng: Coord)

  function Names(rows: seq<StopRow>): (ns: seq<string>)
    ensures |ns| == |rows|
    ensures forall i :: 0 <= i < |rows| ==> ns[i] == rows[i].stop_name
  {
    if |rows| == 0 then [] else [rows[0].stop_name] + Names(rows[1..])
  }

  /** `data.find(s => s.stop_name === name)`. */
  function FindByName(rows: seq<StopRow>, name: string): (row: StopRow)
    requires name in Names(rows)
    ensures row == rows[FirstIndex(Names(rows), name)]
  {
    var ns := Names(rows);
    assert ns[1..] == Names(rows[1..]);
    if rows[0].stop_name == name then rows[0]
    else
      assert FirstIndex(ns, name) == FirstIndex(ns[1..], name) + 1;
      FindByName(rows[1..], name)
  }

  function NamesOf(stops: seq<NamedStop>): (ns: seq<string>)
    ensures |ns| == |stops|
    ensures forall i :: 0 <= i < |stops| ==> ns[i] == stops[i].name
  {
    seq(|stops|, i requires 0 <= i < |stops| => stops[i].name)
  }

  /** `getStops`: one stop per distinct name, in order of the name's first
      row, with that row's coordinates; an error gives no stops. */
  function GetStops(table: Fetched<StopRow>): (r: seq<NamedStop>)
    ensures table.StoreError? ==> r == []
    ensures Distinct(NamesOf(r))
    ensures table.Rows? ==> forall n :: n in NamesOf(r) <==> n in Names(table.rows)
    ensures table.Rows? ==> forall i, j :: 0 <= i < j < |r| ==>
      FirstIndex(Names(table.rows), r[i].name) < FirstIndex(Names(table.rows), r[j].name)
    ensures table.Rows? ==> forall i :: 0 <= i < |r| ==>
      var first := table.rows[FirstIndex(Names(table.rows), r[i].name)];
      r[i] == NamedStop(first.stop_name, Coord(first.stop_lat), Coord(first.stop_lon))
  {
    match table
    case StoreError => []
    case Rows(rows) =>
      var names := Dedup(Names(rows));
      DedupFirstOccurrenceOrder(Names(rows));
      var r := seq(|names|, i requires 0 <= i < |names| =>
        var row := FindByName(rows, names[i]);
        NamedStop(row.stop_name, Coord(row.stop_lat), Coord(row.stop_lon)));
      assert NamesOf(r) == names;
      r
  }

  /** The list has exactly one stop per distinct name of the table. */
  lemma StopCountIsDistinctNames(rows: seq<StopRow>)
    ensures |GetStops(Rows(rows))| == |set i | 0 <= i < |rows| :: rows[i].stop_name|
  {
    var r := GetStops(Rows(rows));
    var ns := NamesOf(r);
    var names := set i | 0 <= i < |rows| :: rows[i].stop_name;
    assert names == set n | n in ns by {
      forall n ensures n in names <==> n in ns {
        if n in names {
          var i :| 0 <= i < |rows| && rows[i].stop_name == n;
          assert Names(rows)[i] == n;
        }
      }
    }
    DistinctCard(ns);
  }
}
