/** The recent-routes panel (`src/app/_components/RecentRoutes.tsx`): which
    of its four states is shown, how a stored route string is cut back into
    its two stop names, and which row gets the rounded bottom corners. */
module RecentRoutesView {
  import opened Common
  import opened TimeText
  import opened RecentRides

  /** The user in the application context: `null` once known to be signed
      out, `undefined` before it is known, or a user with a history. */
  datatype ContextUser = NullUser | UndefinedUser | LoadedUser(recentRides: seq<string>)

  function RecentRoutes(user: ContextUser): seq<string> {
    if user.LoadedUser? then user.recentRides else []
  }

  /** `Math.max(0, MAX_ROUTES - recentRoutes.length)`. */
  function BlankSlots(n: nat): (b: nat)
    ensures n + b == if n < MaxRecentRides then MaxRecentRides else n
    ensures b == 0 <==> n >= MaxRecentRides
  {
    if n < MaxRecentRides then MaxRecentRides - n else 0
  }

  // ---------------------------------------------------------------------
  // the route string

  const Arrow: char := '→'
  const Separator: string := " → "

  /** `route.split(' → ')`, then `parts[0]` and `parts[1]` (absent when
      the string holds no separator). */
  function ParseRoute(route: string): (string, Option<string>) {
    var parts := SplitOn(route, Separator);
    (parts[0], if |parts| >= 2 then Some(parts[1]) else None)
  }

  lemma {:induction false} SplitOnNoArrow(s: string)
    requires Arrow !in s
    ensures SplitOn(s, Separator) == [s]
    decreases |s|
  {
    if |s| >= |Separator| {
      assert s[..|Separator|] != Separator by {
        assert s[1] != Separator[1];
      }
      SplitOnNoArrow(s[1..]);
      assert [s[0]] + s[1..] == s;
    }
  }

  lemma {:induction false} SplitOnAfterPiece(x: string, y: string)
    requires Arrow !in x
    ensures SplitOn(x + Separator + y, Separator) == [x] + SplitOn(y, Separator)
  {
    var s := x + Separator + y;
    if |x| == 0 {
      assert s == Separator + y;
      assert s[..|Separator|] == Separator;
      assert s[|Separator|..] == y;
    } else {
      assert s[..|Separator|] != Separator by {
        if |x| == 1 {
          assert s[1] == ' ';
        } else {
          assert s[1] == x[1];
        }
      }
      assert s[1..] == x[1..] + Separator + y;
      SplitOnAfterPiece(x[1..], y);
      assert [x[0]] + x[1..] == x;
    }
  }

  /** Cutting a stored route string gives back the two stop names when
      neither contains the arrow character. */
  lemma RouteStringRoundTrip(from: string, to: string)
    requires Arrow !in from && Arrow !in to
    ensures SplitOn(RouteString(from, to), Separator) == [from, to]
    ensures ParseRoute(RouteString(from, to)) == (from, Some(to))
  {
    assert RouteString(from, to) == from + Separator + to;
    SplitOnAfterPiece(from, to);
    SplitOnNoArrow(to);
  }

  /** Without that condition the stored form is ambiguous: two different
      routes are stored as the same string. */
  lemma RouteStringNotInjective()
    ensures RouteString("x →", "y") == RouteString("x", "→ y")
    ensures ("x →", "y") != ("x", "→ y")
  {
  }

  // ---------------------------------------------------------------------
  // the panel

  /** A history row: the stop names for the search link, the text shown,
      and whether the row has the rounded bottom corners. */
  datatype RouteRow = RouteRow(from: string, to: Option<string>, text: string, rounded: bool)

  datatype View =
    | LoadingView
    | SignedOutView
    | NoRoutesView
    | ListView(rows: seq<RouteRow>, placeholders: seq<bool>)

  function Rows(routes: seq<string>, blank: nat): (rows: seq<RouteRow>)
    ensures |rows| == |routes|
    ensures forall i :: 0 <= i < |routes| ==>
      && rows[i].text == routes[i]
      && (rows[i].from, rows[i].to) == ParseRoute(routes[i])
      && (rows[i].rounded <==> i == |routes| - 1 && blank == 0)
  {
    seq(|routes|, i requires 0 <= i < |routes| =>
      var (from, to) := ParseRoute(routes[i]);
      RouteRow(from, to, routes[i], i == |routes| - 1 && blank == 0))
  }

  function Placeholders(blank: nat): (p: seq<bool>)
    ensures |p| == blank
    ensures forall i :: 0 <= i < blank ==> (p[i] <==> i == blank - 1)
  {
    seq(blank, i requires 0 <= i < blank => i == blank - 1)
  }

  function RenderRecentRoutes(sessionLoading: bool, user: ContextUser): View {
    var routes := RecentRoutes(user);
    var blank := BlankSlots(|routes|);
    if sessionLoading then LoadingView
    else if user == NullUser then SignedOutView
    else if |routes| == 0 then NoRoutesView
    else ListView(Rows(routes, blank), Placeholders(blank))
  }

  /** Number of rounded rows among the history rows and the placeholders. */
  function RoundedCount(rows: seq<RouteRow>, placeholders: seq<bool>): nat {
    |set i | 0 <= i < |rows| && rows[i].rounded| + |set i | 0 <= i < |placeholders| && placeholders[i]|
  }

  lemma SingletonIndexSet(k: nat, s: set<nat>)
    requires forall i :: i in s <==> i == k
    ensures |s| == 1
  {
    assert s == {k};
  }

  /** The list shows at least seven rows in all, and exactly one of them,
      the last one, has the rounded corners: the last history row when
      there are no placeholders, otherwise the last placeholder. */
  lemma ListViewShape(sessionLoading: bool, user: ContextUser)
    requires RenderRecentRoutes(sessionLoading, user).ListView?
    ensures var v := RenderRecentRoutes(sessionLoading, user);
      && |v.rows| == |RecentRoutes(user)|
      && |v.rows| + |v.placeholders| == (if |v.rows| < MaxRecentRides then MaxRecentRides else |v.rows|)
      && RoundedCount(v.rows, v.placeholders) == 1
      && (|v.placeholders| == 0 ==> v.rows[|v.rows| - 1].rounded)
      && (|v.placeholders| > 0 ==> v.placeholders[|v.placeholders| - 1])
  {
    var v := RenderRecentRoutes(sessionLoading, user);
    var n, b := |v.rows|, |v.placeholders|;
    var rs := set i | 0 <= i < n && v.rows[i].rounded;
    var ps := set i | 0 <= i < b && v.placeholders[i];
    if b == 0 {
      SingletonIndexSet(n - 1, rs);
      assert ps == {};
    } else {
      SingletonIndexSet(b - 1, ps);
      assert rs == {};
    }
  }

  /** The four states are tried in order: loading, signed out, no history,
      then the list; an unknown user shows the empty-history state. */
  lemma ViewPrecedence(sessionLoading: bool, user: ContextUser)
    ensures sessionLoading ==> RenderRecentRoutes(sessionLoading, user) == LoadingView
    ensures !sessionLoading && user == NullUser ==> RenderRecentRoutes(sessionLoading, user) == SignedOutView
    ensures !sessionLoading && user == UndefinedUser ==> RenderRecentRoutes(sessionLoading, user) == NoRoutesView
    ensures RenderRecentRoutes(sessionLoading, user).ListView? <==>
      !sessionLoading && user.LoadedUser? && |user.recentRides| > 0
  {
  }
}
