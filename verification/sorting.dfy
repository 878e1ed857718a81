/** Stable sorting by a comparator, the model of `Array.prototype.sort`
    with a consistent comparator (ECMAScript 2019 requires the sort to be
    stable). The comparator is given as the relation "`a` may stay before
    `b`", i.e. `compare(a, b) <= 0`. */
module Sorting {

  /** `le` is total and transitive: a consistent comparator. */
  ghost predicate TotalPreorder<T(!new)>(le: (T, T) -> bool) {
    && (forall a, b :: le(a, b) || le(b, a))
    && (forall a, b, c :: le(a, b) && le(b, c) ==> le(a, c))
  }

  /** Every element may stay before every later one. */
  predicate SortedBy<T>(s: seq<T>, le: (T, T) -> bool) {
    forall i, j :: 0 <= i < j < |s| ==> le(s[i], s[j])
  }

  /** Inserts `x` in front of the first element it may precede. */
  function Insert<T(!new)>(x: T, s: seq<T>, le: (T, T) -> bool): (r: seq<T>)
    requires TotalPreorder(le)
    requires SortedBy(s, le)
    ensures multiset(r) == multiset(s) + multiset{x}
    ensures SortedBy(r, le)
  {
    if |s| == 0 then [x]
    else if le(x, s[0]) then [x] + s
    else
      var rest := Insert(x, s[1..], le);
      assert s == [s[0]] + s[1..];
      HeadBeforeInserted(x, s, rest, le);
      [s[0]] + rest
  }

  lemma HeadBeforeInserted<T(!new)>(x: T, s: seq<T>, rest: seq<T>, le: (T, T) -> bool)
    requires TotalPreorder(le)
    requires |s| > 0 && SortedBy(s, le) && !le(x, s[0])
    requires SortedBy(rest, le)
    requires multiset(rest) == multiset(s[1..]) + multiset{x}
    ensures SortedBy([s[0]] + rest, le)
  {
    var r := [s[0]] + rest;
    forall i, j | 0 <= i < j < |r| ensures le(r[i], r[j]) {
      if i == 0 {
        var y := rest[j - 1];
        assert y in multiset(rest);
        if y != x {
          assert y in multiset(s[1..]);
          var k :| 0 <= k < |s[1..]| && s[1..][k] == y;
          assert s[k + 1] == y;
        }
      } else {
        assert r[i] == rest[i - 1] && r[j] == rest[j - 1];
      }
    }
  }

  /** Insertion sort: a sorted permutation of `s` that keeps equivalent
      elements in their input order. */
  function SortBy<T(!new)>(s: seq<T>, le: (T, T) -> bool): (r: seq<T>)
    requires TotalPreorder(le)
    ensures multiset(r) == multiset(s)
    ensures |r| == |s|
    ensures SortedBy(r, le)
  {
    if |s| == 0 then []
    else
      assert s == [s[0]] + s[1..];
      var r := Insert(s[0], SortBy(s[1..], le), le);
      assert |r| == |multiset(r)|;
      r
  }

  /** `a` and `b` may each stay before the other: the comparator returns 0. */
  predicate Tied<T>(a: T, b: T, le: (T, T) -> bool) {
    le(a, b) && le(b, a)
  }

  /** The elements of `s` tied with `x`, in their order in `s`. */
  function Ties<T>(s: seq<T>, x: T, le: (T, T) -> bool): (r: seq<T>)
    ensures |r| <= |s|
    ensures forall i :: 0 <= i < |r| ==> Tied(x, r[i], le)
  {
    if |s| == 0 then []
    else (if Tied(x, s[0], le) then [s[0]] else []) + Ties(s[1..], x, le)
  }

  /** Tie-filtering distributes over concatenation. */
  lemma {:induction false} TiesAppend<T>(a: seq<T>, b: seq<T>, z: T, le: (T, T) -> bool)
    ensures Ties(a + b, z, le) == Ties(a, z, le) + Ties(b, z, le)
  {
    if |a| > 0 {
      TiesAppend(a[1..], b, z, le);
      assert (a + b)[1..] == a[1..] + b;
    } else {
      assert a + b == b;
    }
  }

  /** No element is tied with `z` on both sides of one it may not precede. */
  lemma TiedExclusive<T(!new)>(x: T, y: T, z: T, le: (T, T) -> bool)
    requires TotalPreorder(le)
    requires !le(x, y)
    ensures !(Tied(z, x, le) && Tied(z, y, le))
  {
  }

  /** The inserted element lands in front of everything it is tied with. */
  lemma {:induction false} InsertTies<T(!new)>(x: T, s: seq<T>, le: (T, T) -> bool, z: T)
    requires TotalPreorder(le)
    requires SortedBy(s, le)
    ensures Ties(Insert(x, s, le), z, le) == Ties([x], z, le) + Ties(s, z, le)
  {
    if |s| == 0 || le(x, s[0]) {
      TiesAppend([x], s, z, le);
    } else {
      assert SortedBy(s[1..], le);
      InsertTies(x, s[1..], le, z);
      InsertTiesPast(x, s, le, z);
    }
  }

  /** The step of `InsertTies` where `x` passes the head of `s`. */
  lemma InsertTiesPast<T(!new)>(x: T, s: seq<T>, le: (T, T) -> bool, z: T)
    requires TotalPreorder(le)
    requires SortedBy(s, le) && |s| > 0 && !le(x, s[0])
    requires Ties(Insert(x, s[1..], le), z, le) == Ties([x], z, le) + Ties(s[1..], z, le)
    ensures Ties(Insert(x, s, le), z, le) == Ties([x], z, le) + Ties(s, z, le)
  {
    var rest := Insert(x, s[1..], le);
    var a, b, t := Ties([s[0]], z, le), Ties([x], z, le), Ties(s[1..], z, le);
    assert Ties(Insert(x, s, le), z, le) == a + (b + t) by {
      assert Insert(x, s, le) == [s[0]] + rest;
      TiesAppend([s[0]], rest, z, le);
    }
    assert Ties(s, z, le) == a + t by {
      assert s == [s[0]] + s[1..];
      TiesAppend([s[0]], s[1..], z, le);
    }
    assert a == [] || b == [] by {
      TiedExclusive(x, s[0], z, le);
      assert [s[0]][1..] == [] && [x][1..] == [];
    }
    SwapEmpty(a, b, t);
  }

  lemma SwapEmpty<T>(a: seq<T>, b: seq<T>, t: seq<T>)
    requires a == [] || b == []
    ensures a + (b + t) == b + (a + t)
  {
  }

  /** The sort is stable: the elements tied with any `z` keep their input
      order. */
  lemma {:induction false} SortByStable<T(!new)>(s: seq<T>, le: (T, T) -> bool, z: T)
    requires TotalPreorder(le)
    ensures Ties(SortBy(s, le), z, le) == Ties(s, z, le)
  {
    if |s| > 0 {
      var sorted := SortBy(s[1..], le);
      assert Ties(SortBy(s, le), z, le) == Ties([s[0]], z, le) + Ties(sorted, z, le) by {
        InsertTies(s[0], sorted, le, z);
      }
      SortByStable(s[1..], le, z);
      assert Ties(s, z, le) == Ties([s[0]], z, le) + Ties(s[1..], z, le) by {
        assert s == [s[0]] + s[1..];
        TiesAppend([s[0]], s[1..], z, le);
      }
    }
  }
}
