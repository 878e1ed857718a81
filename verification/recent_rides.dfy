/** The recent-route history kept per user (`setUserRecentRoute` in
    `src/services/apiGetData.js`): the route string, the move-to-front list
    update capped at seven entries, and the store action chosen from what
    the user lookup returned. */
module RecentRides {
  import opened Common
  import opened Records

  const MaxRecentRides: nat := 7

  /** The stored form of a route. */
  function RouteString(from: string, to: string): (s: string)
    ensures |s| == |from| + 3 + |to|
    ensures s[..|from|] == from && s[|from| + 3..] == to
    ensures s[|from|..|from| + 3] == " → "
  {
    from + " → " + to
  }

  /** `filter(r => r !== routeString)`, `unshift(routeString)`,
      `slice(0, 7)`: the route moves to the front, appears once, and the
      list keeps at most seven entries, the others in their previous order. */
  function UpdateRides(previous: seq<string>, route: string): (r: seq<string>)
    ensures |r| >= 1 && r[0] == route
    ensures Count(r, route) == 1
    ensures |r| <= MaxRecentRides
    ensures IsPrefix(r[1..], Filter(previous, x => x != route))
    ensures |r| == if 1 + |Filter(previous, x => x != route)| < MaxRecentRides
                   then 1 + |Filter(previous, x => x != route)| else MaxRecentRides
    ensures forall x | x in r :: x == route || x in previous
  {
    var others := Filter(previous, x => x != route);
    var r := Take([route] + others, MaxRecentRides);
    assert r == [route] + r[1..];
    assert r[1..] == others[..|r| - 1];
    assert route !in r[1..];
    assert multiset(r) == multiset{route} + multiset(r[1..]);
    r
  }

  lemma {:induction false} FilterKeepsAll<T(!new)>(xs: seq<T>, p: T -> bool)
    requires forall x | x in xs :: p(x)
    ensures Filter(xs, p) == xs
  {
    if |xs| > 0 {
      FilterKeepsAll(xs[1..], p);
    }
  }

  /** Recording the same route twice in a row leaves the list as recording
      it once. */
  lemma UpdateRidesIdempotent(previous: seq<string>, route: string)
    ensures UpdateRides(UpdateRides(previous, route), route) == UpdateRides(previous, route)
  {
    var r := UpdateRides(previous, route);
    var p := x => x != route;
    assert r == [route] + r[1..];
    assert Count(r[1..], route) == 0 by {
      assert multiset(r) == multiset{route} + multiset(r[1..]);
    }
    FilterKeepsAll(r[1..], p);
    assert Filter(r, p) == r[1..];
  }

  /** A duplicate-free history stays duplicate-free. */
  lemma UpdateRidesDistinct(previous: seq<string>, route: string)
    requires Distinct(previous)
    ensures Distinct(UpdateRides(previous, route))
  {
    var r := UpdateRides(previous, route);
    var others := Filter(previous, x => x != route);
    FilterDistinct(previous, x => x != route);
    forall i, j | 0 <= i < j < |r| ensures r[i] != r[j] {
      if i == 0 {
        assert r == [route] + r[1..];
        assert multiset(r) == multiset{route} + multiset(r[1..]);
        assert r[j] == r[1..][j - 1];
      } else {
        assert r[i] == others[i - 1] && r[j] == others[j - 1];
      }
    }
  }

  // ---------------------------------------------------------------------
  // the store action

  /** The user row's `recent_rides` column: falsy (treated as an empty
      array), some value that is not an array, or a list of route strings. */
  datatype RecentRidesColumn = Missing | NotArray | Rides(rides: seq<string>)

  /** What the user lookup produced: the query threw, or it returned an
      error code (a missing code counts as any code other than "no rows")
      and possibly a row. */
  datatype Lookup =
    | LookupThrew
    | LookupReturned(errorCode: Option<string>, existing: Option<RecentRidesColumn>)

  /** The write `setUserRecentRoute` issues. */
  datatype StoreAction =
    | NoAction
    | InsertUser(email: string, name: string, image: string, rides: seq<string>)
    | UpdateUser(email: string, rides: seq<string>)

  /** The code of the "no rows" error, which is not treated as a failure. */
  const NoRowsCode := "PGRST116"

  /** The new `recent_rides` for an existing row. */
  function NewRides(column: RecentRidesColumn, route: string): (r: seq<string>)
    ensures |r| >= 1 && r[0] == route && |r| <= MaxRecentRides
    ensures column.Rides? ==> r == UpdateRides(column.rides, route)
    ensures !column.Rides? ==> r == [route]
  {
    match column
    case Missing => UpdateRides([], route)
    case NotArray => [route]
    case Rides(previous) => UpdateRides(previous, route)
  }

  function SetUserRecentRoute(from: string, to: string, user: Option<User>, lookup: Lookup): (a: StoreAction)
    ensures (user.None? || user.value.email == "") ==> a == NoAction
    ensures a.InsertUser? ==> lookup.LookupReturned? && lookup.existing.None?
                              && a.rides == [RouteString(from, to)] && a.email == user.value.email
                              && a.name == user.value.name && a.image == user.value.image
    ensures a.UpdateUser? ==> lookup.LookupReturned? && lookup.existing.Some?
                              && a.email == user.value.email
                              && a.rides == NewRides(lookup.existing.value, RouteString(from, to))
    ensures a != NoAction <==>
      user.Some? && user.value.email != "" && lookup.LookupReturned?
      && (lookup.errorCode.None? || lookup.errorCode.value == NoRowsCode)
  {
    if user.None? || user.value.email == "" then NoAction
    else match lookup
      case LookupThrew => NoAction
      case LookupReturned(code, existing) =>
        if code.Some? && code.value != NoRowsCode then NoAction
        else
          var route := RouteString(from, to);
          match existing
          case None => InsertUser(user.value.email, user.value.name, user.value.image, [route])
          case Some(column) => UpdateUser(user.value.email, NewRides(column, route))
  }

  /** A new user and a user whose column is not an array both end up with
      the route as their only entry; a falsy column behaves like an empty
      list, which gives the same. */
  lemma FreshHistory(from: string, to: string, user: User)
    requires user.email != ""
    ensures SetUserRecentRoute(from, to, Some(user), LookupReturned(None, None)).rides == [RouteString(from, to)]
    ensures SetUserRecentRoute(from, to, Some(user), LookupReturned(None, Some(NotArray))).rides == [RouteString(from, to)]
    ensures SetUserRecentRoute(from, to, Some(user), LookupReturned(None, Some(Missing))).rides == [RouteString(from, to)]
  {
    var r := UpdateRides([], RouteString(from, to));
    assert |r| == 1;
  }
}
