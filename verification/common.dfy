/** Generic helpers shared by the whole model: an optional value and the
    order-preserving sequence operations that the JavaScript code performs
    with `filter`, `new Set(...)` and `Array.from`. */
module Common {

  /** A value that may be absent (`undefined` or `null` in the source). */
  datatype Option<+T> = None | Some(value: T)

  /** No element occurs twice. */
  predicate Distinct<T(==)>(s: seq<T>) {
    forall i, j :: 0 <= i < j < |s| ==> s[i] != s[j]
  }

  /** `p` is a prefix of `s`. */
  predicate IsPrefix<T(==)>(p: seq<T>, s: seq<T>) {
    |p| <= |s| && s[..|p|] == p
  }

  /** Number of occurrences of `x` in `s`. */
  function Count<T(==)>(s: seq<T>, x: T): nat {
    multiset(s)[x]
  }

  /** The elements of `xs` satisfying `p`, in their original order
      (`Array.prototype.filter`). */
  function Filter<T(!new)>(xs: seq<T>, p: T -> bool): (r: seq<T>)
    ensures |r| <= |xs|
    ensures forall x :: x in r <==> x in xs && p(x)
    ensures forall x :: x in r ==> p(x)
  {
    if |xs| == 0 then [] else (if p(xs[0]) then [xs[0]] else []) + Filter(xs[1..], p)
  }

  /** Filtering keeps distinct elements distinct. */
  lemma {:induction false} FilterDistinct<T(!new)>(xs: seq<T>, p: T -> bool)
    requires Distinct(xs)
    ensures Distinct(Filter(xs, p))
  {
    if |xs| > 0 {
      FilterDistinct(xs[1..], p);
      assert xs[0] !in xs[1..];
    }
  }

  /** Filtering keeps every copy of an element that passes and none of one
      that does not. */
  lemma {:induction false} FilterCount<T(!new)>(xs: seq<T>, p: T -> bool, x: T)
    ensures Count(Filter(xs, p), x) == if p(x) then Count(xs, x) else 0
  {
    if |xs| > 0 {
      FilterCount(xs[1..], p, x);
      assert xs == [xs[0]] + xs[1..];
    }
  }

  /** A prefix of a filtered sequence holds no element more often than
      the input does. */
  lemma TakeFilterSubMultiset<T(!new)>(xs: seq<T>, p: T -> bool, n: nat)
    ensures multiset(Take(Filter(xs, p), n)) <= multiset(xs)
  {
    var m := Filter(xs, p);
    var r := Take(m, n);
    assert m == r + m[|r|..];
    forall x ensures multiset(m)[x] <= multiset(xs)[x] {
      FilterCount(xs, p, x);
    }
  }

  /** The number of occurrences is the number of positions holding `x`. */
  lemma {:induction false} CountPositions<T>(s: seq<T>, x: T)
    ensures Count(s, x) == |set k | 0 <= k < |s| && s[k] == x|
  {
    if |s| > 0 {
      var n := |s| - 1;
      CountPositions(s[..n], x);
      assert s == s[..n] + [s[n]];
      var before := set k | 0 <= k < n && s[..n][k] == x;
      var all := set k | 0 <= k < |s| && s[k] == x;
      if s[n] == x {
        assert all == before + {n};
        assert n !in before;
      } else {
        assert all == before;
      }
    }
  }

  /** Index of the first occurrence of `x` in `s`. */
  function FirstIndex<T(==)>(s: seq<T>, x: T): (i: nat)
    requires x in s
    ensures i < |s| && s[i] == x && x !in s[..i]
  {
    if s[0] == x then 0 else FirstIndex(s[1..], x) + 1
  }

  /** The distinct elements of `xs` in order of first occurrence: what
      `Array.from(new Set(xs))` yields. */
  function Dedup<T(==,!new)>(xs: seq<T>): (r: seq<T>)
    ensures Distinct(r)
    ensures forall x :: x in r <==> x in xs
    ensures |r| <= |xs|
  {
    if |xs| == 0 then []
    else
      var prefix := Dedup(xs[..|xs| - 1]);
      var last := xs[|xs| - 1];
      assert forall x :: x in xs <==> x in xs[..|xs| - 1] || x == last;
      if last in xs[..|xs| - 1] then prefix else prefix + [last]
  }

  lemma FirstIndexOfPrefix<T>(xs: seq<T>, k: nat, x: T)
    requires k <= |xs| && x in xs[..k]
    ensures x in xs && FirstIndex(xs, x) == FirstIndex(xs[..k], x)
  {
    var i := FirstIndex(xs[..k], x);
    assert xs[..i] == xs[..k][..i];
    FirstIndexUnique(xs, x, i);
  }

  lemma FirstIndexUnique<T>(xs: seq<T>, x: T, i: nat)
    requires i < |xs| && xs[i] == x && x !in xs[..i]
    ensures FirstIndex(xs, x) == i
  {
  }

  /** `Dedup` lists the elements in strictly increasing order of their first
      occurrence in the input. */
  lemma {:induction false} DedupFirstOccurrenceOrder<T(!new)>(xs: seq<T>)
    ensures forall i, j :: 0 <= i < j < |Dedup(xs)| ==>
      Dedup(xs)[i] in xs && Dedup(xs)[j] in xs &&
      FirstIndex(xs, Dedup(xs)[i]) < FirstIndex(xs, Dedup(xs)[j])
  {
    if |xs| > 0 {
      var init := xs[..|xs| - 1];
      var last := xs[|xs| - 1];
      DedupFirstOccurrenceOrder(init);
      var d := Dedup(init);
      var r := Dedup(xs);
      forall y | y in d
        ensures y in xs && FirstIndex(xs, y) == FirstIndex(init, y)
      {
        FirstIndexOfPrefix(xs, |xs| - 1, y);
      }
      if last !in init {
        FirstIndexUnique(xs, last, |xs| - 1);
      }
      forall i, j | 0 <= i < j < |r|
        ensures r[i] in xs && r[j] in xs && FirstIndex(xs, r[i]) < FirstIndex(xs, r[j])
      {
        if last in init {
          assert r == d;
        } else {
          assert r == d + [last];
          if j < |d| {
            assert r[i] == d[i] && r[j] == d[j];
          } else {
            assert r[i] == d[i] && r[j] == last;
            assert FirstIndex(init, d[i]) < |init|;
          }
        }
      }
      assert forall i, j :: 0 <= i < j < |r| ==> r[i] in xs && r[j] in xs && FirstIndex(xs, r[i]) < FirstIndex(xs, r[j]);
    } else {
      assert |Dedup(xs)| == 0;
    }
  }

  /** A duplicate-free sequence has as many elements as its set. */
  lemma {:induction false} DistinctCard<T>(s: seq<T>)
    requires Distinct(s)
    ensures |set x | x in s| == |s|
  {
    if |s| > 0 {
      DistinctCard(s[1..]);
      assert (set x | x in s) == {s[0]} + set x | x in s[1..];
      assert s[0] !in s[1..];
    }
  }

  /** A permutation of a duplicate-free sequence is duplicate-free. */
  lemma DistinctPermutation<T>(s: seq<T>, t: seq<T>)
    requires multiset(s) == multiset(t) && Distinct(t)
    ensures Distinct(s)
  {
    forall i, j | 0 <= i < j < |s| ensures s[i] != s[j] {
      if s[i] == s[j] {
        TwiceCounted(s, i, j);
        OnceCounted(t, s[i]);
        assert false;
      }
    }
  }

  lemma TwiceCounted<T>(s: seq<T>, i: nat, j: nat)
    requires i < j < |s| && s[i] == s[j]
    ensures multiset(s)[s[i]] >= 2
  {
    assert s == s[..j] + [s[j]] + s[j + 1..];
    assert s[..j][i] == s[i];
  }

  lemma {:induction false} OnceCounted<T>(t: seq<T>, x: T)
    requires Distinct(t)
    ensures multiset(t)[x] <= 1
  {
    if |t| > 0 {
      assert t == [t[0]] + t[1..];
      OnceCounted(t[1..], x);
      assert t[0] !in t[1..];
    }
  }

  /** `f` applied to every element, in order (`Array.prototype.map`). */
  function MapAll<A, B>(s: seq<A>, f: A -> B): (r: seq<B>)
    ensures |r| == |s|
    ensures forall k :: 0 <= k < |s| ==> r[k] == f(s[k])
  {
    seq(|s|, k requires 0 <= k < |s| => f(s[k]))
  }

  /** Mapping distributes over concatenation. */
  lemma MapAllAppend<A, B>(s: seq<A>, t: seq<A>, f: A -> B)
    ensures MapAll(s + t, f) == MapAll(s, f) + MapAll(t, f)
  {
    assert forall k :: 0 <= k < |s + t| ==> (s + t)[k] == if k < |s| then s[k] else t[k - |s|];
  }

  /** Two sequences holding `x` and `y` at the same positions hold them
      equally often. */
  lemma {:induction false} CountSamePositions<A, B>(s: seq<A>, t: seq<B>, x: A, y: B)
    requires |s| == |t|
    requires forall i :: 0 <= i < |s| ==> (s[i] == x <==> t[i] == y)
    ensures Count(s, x) == Count(t, y)
  {
    if |s| > 0 {
      var n := |s| - 1;
      CountSamePositions(s[..n], t[..n], x, y);
      assert s == s[..n] + [s[n]];
      assert t == t[..n] + [t[n]];
    }
  }

  /** The positions of `t` whose element `f` maps to `x`. */
  function Positions<A, B(==)>(t: seq<A>, f: A -> B, x: B): (r: set<nat>)
    ensures forall k :: k in r <==> 0 <= k < |t| && f(t[k]) == x
  {
    set k: nat | k < |t| && f(t[k]) == x
  }

  /** The copies of `x` in a mapped sequence are the positions whose
      element maps to `x`. */
  lemma CountMapAll<A, B>(t: seq<A>, f: A -> B, x: B)
    ensures Count(MapAll(t, f), x) == |Positions(t, f, x)|
  {
    var s := MapAll(t, f);
    CountPositions(s, x);
    assert (set k | 0 <= k < |s| && s[k] == x) == Positions(t, f, x);
  }

  /** Sum of the lengths of a sequence of sequences. */
  function TotalLength<T>(ss: seq<seq<T>>): nat {
    if |ss| == 0 then 0 else |ss[0]| + TotalLength(ss[1..])
  }

  /** Flattening (`Array.prototype.flat` of depth one). */
  function Flatten<T>(ss: seq<seq<T>>): (r: seq<T>)
    ensures |r| == TotalLength(ss)
  {
    if |ss| == 0 then [] else ss[0] + Flatten(ss[1..])
  }

  /** The first `n` elements (`slice(0, n)`): everything when `s` is shorter. */
  function Take<T>(s: seq<T>, n: nat): (r: seq<T>)
    ensures |r| == if |s| < n then |s| else n
    ensures IsPrefix(r, s)
  {
    if |s| <= n then s else s[..n]
  }
}
