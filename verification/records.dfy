/** The records the application passes around: GTFS schedule rows
    (`src/types/gtfs.ts`), the display route (`src/types/route.ts`) and the
    signed-in user (`src/types/session.ts`). */
module Records {
  import opened Common

  /** A coordinate as the store delivers it. `parseFloat` is not modelled:
      the text stands for the number it denotes. */
  datatype Coord = Coord(text: string)

  datatype Stop = Stop(stop_id: string, name: string, lat: Coord, lng: Coord)

  /** One visit of a trip to a stop. Times are GTFS `HH:MM:SS` text whose
      hour may be 24 or more. */
  datatype StopTime = StopTime(
    trip_id: string,
    stop_id: string,
    arrival_time: string,
    departure_time: string,
    stop_sequence: int)

  /** A trips-table row. `trip_name` is not declared in `gtfs.ts` but is read
      by the JavaScript route search from the untyped `select('*')` row. */
  datatype Trip = Trip(
    trip_id: string,
    route_id: string,
    service_id: string,
    trip_headsign: Option<string>,
    trip_name: Option<string>)

  datatype ShapePoint = ShapePoint(lat: Coord, lng: Coord)

  /** The signed-in user; an empty `email` is falsy in the source. */
  datatype User = User(name: string, email: string, image: string)

  /** A route as the result card shows it (`src/types/route.ts`). */
  datatype DisplayRoute = DisplayRoute(
    tripId: string,
    tripName: Option<string>,
    routeName: Option<string>,
    departureTime: string,
    arrivalTime: string,
    fromStopName: string,
    toStopName: string,
    duration: string)

  /** `value || fallback` for an optional string: missing and empty are falsy. */
  function OrElse(value: Option<string>, fallback: string): (r: string)
    ensures value.Some? && value.value != "" ==> r == value.value
    ensures value.None? || value.value == "" ==> r == fallback
  {
    if value.Some? && value.value != "" then value.value else fallback
  }
}
