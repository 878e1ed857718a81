/** The in-memory TTL cache of `src/lib/cache.js`. The store is a JavaScript
    `Map`, modelled as a list of entries with distinct keys in insertion
    order; the clock (`Date.now()`) and the end-of-day TTL are parameters. */
module Cache {
  import opened Common

  /** When a stored value expires: at a time in milliseconds, or never,
      which is how an expiry of `NaN` behaves (`now > NaN` is false). */
  datatype Expiry = At(ms: int) | Never

  datatype Entry<V> = Entry(key: string, value: V, expiresAt: Expiry)

  type Store<V> = seq<Entry<V>>

  /** `now > item.expiresAt`: strictly past a numeric expiry. */
  predicate Expired<V>(e: Entry<V>, now: int) {
    e.expiresAt.At? && now > e.expiresAt.ms
  }

  /** The settings `CACHE_CONFIG[type] || CACHE_CONFIG.default` selects.
      A type naming a member every object inherits from `Object.prototype`
      selects that member, which is truthy and has no `ttl`. */
  datatype CacheType = StaticData | CalendarData | DynamicData | Default | Inherited(name: string)

  /** The properties of `Object.prototype` (section 20.1.3 of ECMAScript
      2024, with `__proto__` and the legacy accessors of its Annex B). */
  const InheritedNames: set<string> := {
    "constructor", "hasOwnProperty", "isPrototypeOf", "propertyIsEnumerable",
    "toLocaleString", "toString", "valueOf", "__proto__",
    "__defineGetter__", "__defineSetter__", "__lookupGetter__", "__lookupSetter__"
  }

  /** The settings a type name selects: the four own keys of the table,
      an inherited member, or the default for anything else (including the
      parameter's default value `'default'`). */
  function TypeOf(name: string): (t: CacheType)
    ensures t == StaticData <==> name == "staticData"
    ensures t == CalendarData <==> name == "calendarData"
    ensures t == DynamicData <==> name == "dynamicData"
    ensures t.Inherited? <==> name in InheritedNames
    ensures t.Inherited? ==> t.name == name
    ensures t == Default <==> name !in InheritedNames + {"staticData", "calendarData", "dynamicData"}
  {
    if name == "staticData" then StaticData
    else if name == "calendarData" then CalendarData
    else if name == "dynamicData" then DynamicData
    else if name in InheritedNames then Inherited(name)
    else Default
  }

  const StaticTtl: int := 24 * 60 * 60 * 1000
  const DynamicTtl: int := 15 * 60 * 1000
  const DefaultTtl: int := 60 * 60 * 1000

  /** The TTL the selected settings give, `None` for `undefined`.
      `untilEndOfDay` is what the calendar type's TTL function returns at
      the time of the call. */
  function Ttl(t: CacheType, untilEndOfDay: int): (ttl: Option<int>)
    ensures t == StaticData ==> ttl == Some(86400000)
    ensures t == DynamicData ==> ttl == Some(900000)
    ensures t == Default ==> ttl == Some(3600000)
    ensures t == CalendarData ==> ttl == Some(untilEndOfDay)
    ensures ttl.None? <==> t.Inherited?
  {
    match t
    case StaticData => Some(StaticTtl)
    case CalendarData => Some(untilEndOfDay)
    case DynamicData => Some(DynamicTtl)
    case Default => Some(DefaultTtl)
    case Inherited(_) => None
  }

  /** `Date.now() + ttl`, which is `NaN` when the TTL is `undefined`. */
  function ExpiryOf(t: CacheType, now: int, untilEndOfDay: int): Expiry {
    match Ttl(t, untilEndOfDay)
    case Some(ttl) => At(now + ttl)
    case None => Never
  }

  function Keys<V(!new)>(s: Store<V>): (ks: seq<string>)
    ensures |ks| == |s|
    ensures forall i :: 0 <= i < |s| ==> ks[i] == s[i].key
  {
    if |s| == 0 then [] else [s[0].key] + Keys(s[1..])
  }

  /** Keys are unique, as in a `Map`. */
  predicate Valid<V(!new)>(s: Store<V>) {
    forall i, j :: 0 <= i < j < |s| ==> s[i].key != s[j].key
  }

  function Lookup<V(!new)>(s: Store<V>, key: string): (r: Option<Entry<V>>)
    ensures r.Some? ==> r.value in s && r.value.key == key
    ensures r.None? <==> key !in Keys(s)
  {
    if |s| == 0 then None
    else if s[0].key == key then Some(s[0])
    else Lookup(s[1..], key)
  }

  /** In a store with unique keys, looking up the key of an entry finds
      that entry. */
  lemma {:induction false} LookupAt<V(!new)>(s: Store<V>, i: nat)
    requires Valid(s) && i < |s|
    ensures Lookup(s, s[i].key) == Some(s[i])
  {
    if i > 0 {
      assert s[0].key != s[i].key;
      LookupAt(s[1..], i - 1);
    }
  }

  /** Two stores with unique keys that agree on the keys at every position,
      and on the entry at every position holding `k`, agree on `k`. */
  lemma LookupAgrees<V(!new)>(s: Store<V>, t: Store<V>, k: string)
    requires Valid(s) && Valid(t) && Keys(s) == Keys(t)
    requires forall i :: 0 <= i < |s| && s[i].key == k ==> s[i] == t[i]
    ensures Lookup(s, k) == Lookup(t, k)
  {
    if k in Keys(s) {
      var i :| 0 <= i < |s| && Keys(s)[i] == k;
      LookupAt(s, i);
      LookupAt(t, i);
    }
  }

  /** The position of a key present in the store. */
  function KeyIndex<V(!new)>(s: Store<V>, key: string): (i: nat)
    requires key in Keys(s)
    ensures i < |s| && s[i].key == key
  {
    if s[0].key == key then 0 else 1 + KeyIndex(s[1..], key)
  }

  /** `Map.prototype.delete`. */
  function Remove<V(!new)>(s: Store<V>, key: string): (r: Store<V>)
    ensures |r| <= |s|
    ensures Lookup(r, key).None?
    ensures forall k | k != key :: Lookup(r, k) == Lookup(s, k)
    ensures forall k | k in Keys(r) :: k in Keys(s)
    ensures Valid(s) ==> Valid(r)
  {
    if |s| == 0 then []
    else
      var rest := Remove(s[1..], key);
      if s[0].key == key then rest
      else
        var r := [s[0]] + rest;
        assert Valid(s) ==> s[0].key !in Keys(s[1..]);
        assert forall k | k in Keys(r) :: k == s[0].key || k in Keys(rest);
        r
  }

  /** `Map.prototype.set`: an existing key keeps its position and gets the
      new entry; a new key goes to the end. */
  function Put<V(!new)>(s: Store<V>, e: Entry<V>): (r: Store<V>)
    requires Valid(s)
    ensures Valid(r)
    ensures Keys(r) == if e.key in Keys(s) then Keys(s) else Keys(s) + [e.key]
    ensures Lookup(r, e.key) == Some(e)
    ensures forall k | k != e.key :: Lookup(r, k) == Lookup(s, k)
  {
    if e.key in Keys(s) then
      var i := KeyIndex(s, e.key);
      var r := s[i := e];
      assert Keys(r) == Keys(s);
      LookupAt(r, i);
      assert forall k | k != e.key :: Lookup(r, k) == Lookup(s, k) by {
        forall k | k != e.key ensures Lookup(r, k) == Lookup(s, k) {
          LookupAgrees(r, s, k);
        }
      }
      r
    else
      var r := s + [e];
      assert Keys(r) == Keys(s) + [e.key];
      LookupAt(r, |s|);
      assert forall k | k != e.key :: Lookup(r, k) == Lookup(s, k) by {
        forall k | k != e.key ensures Lookup(r, k) == Lookup(s, k) {
          if k in Keys(s) {
            var j := KeyIndex(s, k);
            LookupAt(r, j);
            LookupAt(s, j);
          }
        }
      }
      r
  }

  /** `set(key, value, type)` at time `now`: the key holds the value with
      the expiry its type gives, and no other key changes. */
  function Set<V(!new)>(s: Store<V>, key: string, value: V, typeName: string, now: int, untilEndOfDay: int): (r: Store<V>)
    requires Valid(s)
    ensures Valid(r)
    ensures Lookup(r, key).Some? && Lookup(r, key).value.value == value
    ensures typeName in InheritedNames <==> Lookup(r, key).value.expiresAt == Never
    ensures typeName !in InheritedNames
            ==> Lookup(r, key).value.expiresAt == At(now + Ttl(TypeOf(typeName), untilEndOfDay).value)
    ensures forall k | k != key :: Lookup(r, k) == Lookup(s, k)
    ensures Keys(r) == if key in Keys(s) then Keys(s) else Keys(s) + [key]
  {
    Put(s, Entry(key, value, ExpiryOf(TypeOf(typeName), now, untilEndOfDay)))
  }

  /** `get(key)` at time `now`: the value and the store afterwards. A value
      is returned only from an unexpired entry for the key, and the store is
      then untouched; after a miss the key has no entry. */
  function Get<V(!new)>(s: Store<V>, key: string, now: int): (r: (Option<V>, Store<V>))
    ensures r.0.Some? ==> Lookup(s, key).Some? && !Expired(Lookup(s, key).value, now)
                          && r.0.value == Lookup(s, key).value.value && r.1 == s
    ensures r.0.None? ==> Lookup(r.1, key).None?
    ensures Lookup(s, key).Some? && !Expired(Lookup(s, key).value, now)
            ==> r == (Some(Lookup(s, key).value.value), s)
    ensures Lookup(s, key).None? ==> r == (None, s)
    ensures forall k | k != key :: Lookup(r.1, k) == Lookup(s, k)
    ensures Valid(s) ==> Valid(r.1)
  {
    match Lookup(s, key)
    case None => (None, s)
    case Some(e) => if Expired(e, now) then (None, Remove(s, key)) else (Some(e.value), s)
  }

  /** A value read back at the moment it was stored, with a non-negative
      TTL, is the stored value, and the read leaves the store as it was. */
  lemma SetThenGet<V(!new)>(s: Store<V>, key: string, value: V, typeName: string, now: int, untilEndOfDay: int)
    requires Valid(s)
    requires typeName == "calendarData" ==> untilEndOfDay >= 0
    ensures var s' := Set(s, key, value, typeName, now, untilEndOfDay);
      Get(s', key, now) == (Some(value), s')
  {
  }

  /** An entry stored under an inherited type name is read back at any
      later time: it never expires. */
  lemma InheritedNeverExpires<V(!new)>(s: Store<V>, key: string, value: V, typeName: string, now: int, untilEndOfDay: int, later: int)
    requires Valid(s) && typeName in InheritedNames
    ensures var s' := Set(s, key, value, typeName, now, untilEndOfDay);
      Get(s', key, later) == (Some(value), s')
  {
  }

  /** Reading an expired entry deletes that key and nothing else; an
      unexpired or absent entry leaves the store as it was. */
  lemma GetChangesOnlyKey<V(!new)>(s: Store<V>, key: string, now: int)
    requires Valid(s)
    ensures Valid(Get(s, key, now).1)
    ensures forall k | k != key :: Lookup(Get(s, key, now).1, k) == Lookup(s, k)
    ensures Get(s, key, now).1 != s ==> Lookup(Get(s, key, now).1, key).None?
    ensures Lookup(s, key).Some? && Expired(Lookup(s, key).value, now)
            ==> Get(s, key, now) == (None, Remove(s, key))
  {
  }

  /** A second read at the same time returns what the first returned and
      changes nothing further. */
  lemma GetIdempotent<V(!new)>(s: Store<V>, key: string, now: int)
    ensures var (v, s') := Get(s, key, now);
      Get(s', key, now) == (v, s')
  {
  }

  /** `clear(key)`: a truthy key deletes that key and leaves every other
      key as it was; anything else (no key, `null`, the empty string)
      empties the store. */
  function Clear<V(!new)>(s: Store<V>, key: Option<string>): (r: Store<V>)
    ensures key.Some? && key.value != "" ==> Lookup(r, key.value).None?
    ensures key.Some? && key.value != "" ==> forall k | k != key.value :: Lookup(r, k) == Lookup(s, k)
    ensures key.Some? && key.value != "" ==> forall k | k in Keys(r) :: k in Keys(s)
    ensures key.None? || key.value == "" ==> Keys(r) == []
    ensures Valid(s) ==> Valid(r)
  {
    if key.Some? && key.value != "" then Remove(s, key.value) else []
  }

  // ---------------------------------------------------------------------
  // getStats

  datatype Stats = Stats(totalItems: nat, valid: nat, expired: nat, keys: seq<string>)

  function ValidCount<V(!new)>(s: Store<V>, now: int): (n: nat)
    ensures n <= |s|
  {
    if |s| == 0 then 0 else (if Expired(s[0], now) then 0 else 1) + ValidCount(s[1..], now)
  }

  /** `getStats` at time `now`: the loop over the entries, counting each
      as expired or valid and collecting its key. */
  method GetStats<V(!new)>(s: Store<V>, now: int) returns (st: Stats)
    ensures st.totalItems == |s|
    ensures st.valid + st.expired == st.totalItems
    ensures st.valid == ValidCount(s, now)
    ensures st.keys == Keys(s)
  {
    var valid, expired := 0, 0;
    var keys: seq<string> := [];
    var i := 0;
    while i < |s|
      invariant 0 <= i <= |s|
      invariant valid + expired == i
      invariant valid + ValidCount(s[i..], now) == ValidCount(s, now)
      invariant keys == Keys(s[..i])
    {
      assert s[i..][1..] == s[i + 1..];
      if Expired(s[i], now) {
        expired := expired + 1;
      } else {
        valid := valid + 1;
      }
      assert s[..i + 1] == s[..i] + [s[i]];
      keys := keys + [s[i].key];
      i := i + 1;
    }
    assert s[..i] == s;
    st := Stats(|s|, valid, expired, keys);
  }

  /** An entry counts as valid exactly when a `get` at the same time would
      return it. */
  lemma ValidCountMeansReadable<V(!new)>(s: Store<V>, now: int)
    requires Valid(s)
    ensures ValidCount(s, now) == |set e | e in s && Get(s, e.key, now).0.Some?|
  {
    var readable := set e | e in s && Get(s, e.key, now).0.Some?;
    var live := set e | e in s && !Expired(e, now);
    forall i | 0 <= i < |s| ensures (Get(s, s[i].key, now).0.Some? <==> !Expired(s[i], now)) {
      LookupAt(s, i);
    }
    assert readable == live;
    ValidCountIsLive(s, now);
  }

  lemma HeadNotInTail<V(!new)>(s: Store<V>)
    requires Valid(s) && |s| > 0
    ensures s[0] !in s[1..]
  {
    forall j | 0 <= j < |s| - 1 ensures s[1..][j] != s[0] {
      assert s[j + 1].key != s[0].key;
    }
  }

  lemma LiveCons<V(!new)>(s: Store<V>, now: int)
    requires |s| > 0 && s[0] !in s[1..]
    ensures |set e | e in s && !Expired(e, now)|
         == (if !Expired(s[0], now) then 1 else 0) + |set e | e in s[1..] && !Expired(e, now)|
  {
    var tail := set e | e in s[1..] && !Expired(e, now);
    var all := set e | e in s && !Expired(e, now);
    assert forall e :: e in s <==> e == s[0] || e in s[1..];
    if !Expired(s[0], now) {
      assert all == {s[0]} + tail;
    } else {
      assert all == tail;
    }
  }

  lemma {:induction false} ValidCountIsLive<V(!new)>(s: Store<V>, now: int)
    requires Valid(s)
    ensures ValidCount(s, now) == |set e | e in s && !Expired(e, now)|
  {
    if |s| > 0 {
      ValidCountIsLive(s[1..], now);
      HeadNotInTail(s);
      LiveCons(s, now);
    }
  }
}
