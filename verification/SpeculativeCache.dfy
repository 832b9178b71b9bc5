/** The least-recently-used cache, called by one thread at a time.
    `State` is the pair guarded by the two mutexes: the map and the recency list (oldest first).
    The transition functions are total: they also cover recency lists that hold stale or repeated
    keys, which arise when calls overlap (see `CacheInterleaving`). */
module SpeculativeCache {
  import opened Sequences

  datatype State<K(==), V> = State(entries: map<K, V>, order: seq<K>)

  /** Every mapped key is somewhere in the recency list. */
  ghost predicate Covered<K, V>(s: State<K, V>) {
    forall k :: k in s.entries ==> k in s.order
  }

  function Touch<K(==)>(order: seq<K>, key: K): (r: seq<K>) {
    Without(order, key) + [key]
  }

  // ---- one call each ----

  function GetState<K(==), V>(s: State<K, V>, key: K): (r: State<K, V>) {
    if key in s.entries then s.(order := Touch(s.order, key)) else s
  }

  function Lookup<K(==), V>(s: State<K, V>, key: K): (r: Option<V>) {
    if key in s.entries then Some(s.entries[key]) else None
  }

  /** The part of `insert` done under both locks. */
  function Store<K(==), V>(s: State<K, V>, key: K, value: V): (r: State<K, V>) {
    State(s.entries[key := value],
          if key in s.entries then Touch(s.order, key) else s.order + [key])
  }

  /** The eviction loop of `insert`, including its exit when the recency list runs empty. */
  function Shrink<K(==), V>(s: State<K, V>, capacity: nat): (r: State<K, V>)
    decreases |s.order|
  {
    if |s.entries| <= capacity || s.order == [] then s
    else Shrink(State(s.entries - {s.order[0]}, s.order[1..]), capacity)
  }

  function InsertState<K(==), V>(s: State<K, V>, key: K, value: V, capacity: nat): (r: State<K, V>) {
    Shrink(Store(s, key, value), capacity)
  }

  class Cache<K(==), V> {
    var entries: map<K, V>
    var order: seq<K>
    const capacity: nat

    ghost function Abs(): State<K, V>
      reads this
    {
      State(entries, order)
    }

    constructor (capacity: nat)
      requires capacity > 0
      ensures Abs() == State(map[], []) && this.capacity == capacity
    {
      entries, order := map[], [];
      this.capacity := capacity;
    }

    method Get(key: K) returns (value: Option<V>)
      modifies this`order
      ensures Abs() == GetState(old(Abs()), key)
      ensures value == Lookup(old(Abs()), key)
    {
      value := if key in entries then Some(entries[key]) else None;
      if value.Some? {
        order := Without(order, key);
        order := order + [key];
      }
    }

    method Insert(key: K, value: V) returns (prev: Option<V>)
      modifies this`order, this`entries
      ensures Abs() == InsertState(old(Abs()), key, value, capacity)
      ensures prev == Lookup(old(Abs()), key)
    {
      prev := if key in entries then Some(entries[key]) else None;
      entries := entries[key := value];
      if prev.None? {
        order := order + [key];
      } else {
        order := Without(order, key);
        order := order + [key];
      }
      while |entries| > capacity
        invariant Shrink(Abs(), capacity) == InsertState(old(Abs()), key, value, capacity)
        decreases |order|
      {
        if |order| > 0 {
          var oldest := order[0];
          order := order[1..];
          entries := entries - {oldest};
        } else {
          break;
        }
      }
    }

    method EvictLru() returns (evicted: Option<(K, V)>)
      modifies this`order, this`entries
      ensures order == if old(order) == [] then [] else old(order)[1..]
      ensures entries == if old(order) == [] then old(entries) else old(entries) - {old(order)[0]}
      ensures evicted.Some? <==> old(order) != [] && old(order)[0] in old(entries)
      ensures evicted.Some? ==> evicted.value == (old(order)[0], old(entries)[old(order)[0]])
    {
      if order == [] {
        return None;
      }
      var oldest := order[0];
      order := order[1..];
      if oldest in entries {
        evicted := Some((oldest, entries[oldest]));
        entries := entries - {oldest};
      } else {
        evicted := None;
        assert entries == entries - {oldest};
      }
    }
  }

  // ---- what the loop evicts ----

  /** What is left when the first `k` listed keys have been evicted, one by one. */
  function Evicted<K(==), V>(s: State<K, V>, k: nat): (r: State<K, V>)
    requires k <= |s.order|
    decreases k
  {
    if k == 0 then s else Evicted(State(s.entries - {s.order[0]}, s.order[1..]), k - 1)
  }

  lemma EvictFirst<K, V>(entries: map<K, V>, order: seq<K>, k: nat)
    requires 0 < k <= |order|
    ensures entries - {order[0]} - Elements(order[1..][..k - 1]) == entries - Elements(order[..k])
    ensures order[1..][k - 1..] == order[k..]
  {
    assert order[..k] == [order[0]] + order[1..][..k - 1];
    assert Elements(order[..k]) == {order[0]} + Elements(order[1..][..k - 1]);
  }

  lemma {:induction false} EvictedIs<K, V>(s: State<K, V>, k: nat)
    requires k <= |s.order|
    ensures Evicted(s, k) == State(s.entries - Elements(s.order[..k]), s.order[k..])
    decreases k
  {
    if k == 0 {
      assert Elements(s.order[..0]) == {};
      assert s.entries - {} == s.entries;
    } else {
      EvictedIs(State(s.entries - {s.order[0]}, s.order[1..]), k - 1);
      EvictFirst(s.entries, s.order, k);
    }
  }

  /** How many listed keys the loop takes. */
  function Turns<K(==), V>(s: State<K, V>, capacity: nat): (k: nat)
    ensures k <= |s.order|
    decreases |s.order|
  {
    if |s.entries| <= capacity || s.order == [] then 0
    else 1 + Turns(State(s.entries - {s.order[0]}, s.order[1..]), capacity)
  }

  lemma {:induction false} ShrinkIsEvicted<K, V>(s: State<K, V>, capacity: nat)
    ensures Shrink(s, capacity) == Evicted(s, Turns(s, capacity))
    decreases |s.order|
  {
    if |s.entries| <= capacity || s.order == [] {
    } else {
      var s' := State(s.entries - {s.order[0]}, s.order[1..]);
      ShrinkIsEvicted(s', capacity);
      assert Turns(s, capacity) == 1 + Turns(s', capacity);
    }
  }

  lemma {:induction false} ShrinkSuffices<K, V>(s: State<K, V>, capacity: nat)
    ensures Turns(s, capacity) == |s.order| || |Shrink(s, capacity).entries| <= capacity
    decreases |s.order|
  {
    if |s.entries| <= capacity || s.order == [] {
    } else {
      ShrinkSuffices(State(s.entries - {s.order[0]}, s.order[1..]), capacity);
    }
  }

  lemma {:induction false} FewerDoNot<K, V>(s: State<K, V>, capacity: nat, j: nat)
    requires j < Turns(s, capacity)
    ensures |Evicted(s, j).entries| > capacity
    decreases j
  {
    if j == 0 {
    } else {
      FewerDoNot(State(s.entries - {s.order[0]}, s.order[1..]), capacity, j - 1);
    }
  }

  /** On any state, stale and repeated keys included, the loop evicts the shortest beginning of the list that brings the
      map down to the capacity, or the whole list if none does; all other keys keep their values. */
  lemma ShrinkIs<K, V>(s: State<K, V>, capacity: nat) returns (k: nat)
    ensures k <= |s.order|
    ensures Shrink(s, capacity) == Evicted(s, k) == State(s.entries - Elements(s.order[..k]), s.order[k..])
    ensures k == |s.order| || |Shrink(s, capacity).entries| <= capacity
    ensures forall j :: 0 <= j < k ==> |Evicted(s, j).entries| > capacity
  {
    k := Turns(s, capacity);
    ShrinkIsEvicted(s, capacity);
    ShrinkSuffices(s, capacity);
    EvictedIs(s, k);
    forall j | 0 <= j < k ensures |Evicted(s, j).entries| > capacity {
      FewerDoNot(s, capacity, j);
    }
  }

  // ---- the loop ends by size, never by running out of keys ----

  lemma CoveredOrderNonEmpty<K, V>(s: State<K, V>)
    requires Covered(s) && |s.entries| > 0
    ensures s.order != []
  {
  }

  /** On any covered state the eviction loop reaches the capacity bound and keeps coverage. */
  lemma {:induction false} ShrinkMeetsCapacity<K, V>(s: State<K, V>, capacity: nat)
    requires Covered(s)
    ensures var r := Shrink(s, capacity);
      Covered(r) && |r.entries| <= capacity && r.entries.Keys <= s.entries.Keys
    ensures forall k :: k in Shrink(s, capacity).entries ==> Shrink(s, capacity).entries[k] == s.entries[k]
    decreases |s.order|
  {
    if |s.entries| <= capacity {
    } else {
      CoveredOrderNonEmpty(s);
      var s' := State(s.entries - {s.order[0]}, s.order[1..]);
      forall k | k in s'.entries ensures k in s'.order {
        assert k in s.order && k != s.order[0];
      }
      ShrinkMeetsCapacity(s', capacity);
    }
  }

  lemma RemoveOneKey<K, V>(m: map<K, V>, key: K)
    ensures |m - {key}| == if key in m then |m| - 1 else |m|
  {
  }

  // ---- whole runs ----

  datatype Op<K, V> = Insert(key: K, value: V) | Get(key: K)

  function Step<K(==), V>(s: State<K, V>, op: Op<K, V>, capacity: nat): (r: State<K, V>) {
    match op
    case Insert(key, value) => InsertState(s, key, value, capacity)
    case Get(key) => GetState(s, key)
  }

  function Run<K(==), V>(ops: seq<Op<K, V>>, capacity: nat): (r: State<K, V>) {
    if ops == [] then State(map[], [])
    else Step(Run(ops[..|ops| - 1], capacity), ops[|ops| - 1], capacity)
  }

  /** The `capacity` keys most recently used in `touches`, oldest first. */
  function Recent<K(==)>(touches: seq<K>, capacity: nat): (r: seq<K>) {
    LastN(DistinctByLastUse(touches), capacity)
  }

  /** The keys touched by a run: every inserted key, and every looked-up key that is among the
      `capacity` most recently touched ones. Defined without reference to the cache itself. */
  function Touches<K(==), V>(ops: seq<Op<K, V>>, capacity: nat): (r: seq<K>) {
    if ops == [] then []
    else
      var before := Touches(ops[..|ops| - 1], capacity);
      match ops[|ops| - 1]
      case Insert(key, _) => before + [key]
      case Get(key) => if key in Recent(before, capacity) then before + [key] else before
  }

  /** The value of the last insertion of `key`. */
  function LatestValue<K(==), V>(ops: seq<Op<K, V>>, key: K): (r: Option<V>) {
    if ops == [] then None
    else
      var op := ops[|ops| - 1];
      if op.Insert? && op.key == key then Some(op.value)
      else LatestValue(ops[..|ops| - 1], key)
  }

  lemma LastNOfConcat<T>(a: seq<T>, b: seq<T>, n: nat)
    requires |b| >= n
    ensures LastN(a + b, n) == LastN(b, n)
  {
  }

  /** Cutting to the last `n` keys before a touch does not change the last `n` after it. */
  lemma TouchOfRecent<K>(s: seq<K>, key: K, n: nat)
    requires NoDup(s) && n > 0
    ensures LastN(Touch(LastN(s, n), key), n) == LastN(Touch(s, key), n)
    ensures key in LastN(s, n) ==> Touch(LastN(s, n), key) == LastN(Touch(s, key), n)
  {
    if |s| <= n {
      WithoutNoDup(s, key);
    } else {
      var a, b := s[..|s| - n], s[|s| - n..];
      assert s == a + b && LastN(s, n) == b && NoDup(b);
      WithoutConcat(a, b, key);
      assert Touch(s, key) == Without(a, key) + Touch(b, key);
      WithoutNoDup(b, key);
      if key !in b {
        WithoutAbsent(b, key);
      }
      LastNOfConcat(Without(a, key), Touch(b, key), n);
    }
  }

  /** The map and the recency list hold the same keys, each listed once. */
  ghost predicate InSync<K, V>(s: State<K, V>) {
    NoDup(s.order) && s.entries.Keys == Elements(s.order)
  }

  ghost predicate HoldsLatest<K, V>(entries: map<K, V>, ops: seq<Op<K, V>>) {
    forall k :: k in entries ==> LatestValue(ops, k) == Some(entries[k])
  }

  /** The state that a run should reach. */
  ghost predicate Tracks<K, V>(s: State<K, V>, ops: seq<Op<K, V>>, capacity: nat) {
    && s.order == Recent(Touches(ops, capacity), capacity)
    && InSync(s)
    && HoldsLatest(s.entries, ops)
  }

  lemma InSyncSize<K, V>(s: State<K, V>)
    requires InSync(s)
    ensures |s.entries| == |s.order|
  {
    NoDupCardinality(s.order);
    assert |s.entries| == |s.entries.Keys|;
  }

  lemma InSyncKey<K, V>(s: State<K, V>, key: K)
    requires InSync(s)
    ensures key in s.entries <==> key in s.order
  {
  }

  lemma TouchElements<K>(order: seq<K>, key: K)
    requires NoDup(order)
    ensures NoDup(Touch(order, key)) && Elements(Touch(order, key)) == Elements(order) + {key}
    ensures key !in order ==> Touch(order, key) == order + [key]
  {
    WithoutNoDup(order, key);
    if key !in order {
      WithoutAbsent(order, key);
    }
  }

  lemma StoreInSync<K, V>(s: State<K, V>, key: K, value: V)
    requires InSync(s)
    ensures InSync(Store(s, key, value)) && Store(s, key, value).order == Touch(s.order, key)
  {
    InSyncKey(s, key);
    TouchElements(s.order, key);
    assert Store(s, key, value).entries.Keys == s.entries.Keys + {key};
  }

  /** Dropping the oldest key from list and map keeps them in sync. */
  lemma DropOldestInSync<K, V>(s: State<K, V>)
    requires InSync(s) && |s.order| > 0
    ensures InSync(State(s.entries - {s.order[0]}, s.order[1..]))
  {
    var rest := s.order[1..];
    assert s.order == [s.order[0]] + rest;
    assert s.order[0] !in rest;
    assert Elements(rest) == Elements(s.order) - {s.order[0]};
    assert (s.entries - {s.order[0]}).Keys == s.entries.Keys - {s.order[0]};
  }

  lemma ShrinkOnce<K, V>(s: State<K, V>, capacity: nat)
    requires s.order != [] && |s.entries| > capacity && |s.entries - {s.order[0]}| <= capacity
    ensures Shrink(s, capacity) == State(s.entries - {s.order[0]}, s.order[1..])
  {
  }

  lemma {:induction false} ShrinkInSync<K, V>(s: State<K, V>, capacity: nat)
    requires InSync(s) && |s.order| <= capacity + 1
    ensures var r := Shrink(s, capacity);
      && InSync(r) && r.order == LastN(s.order, capacity)
      && forall k :: k in r.entries ==> k in s.entries && r.entries[k] == s.entries[k]
  {
    InSyncSize(s);
    if |s.order| > capacity {
      DropOldestInSync(s);
      InSyncSize(State(s.entries - {s.order[0]}, s.order[1..]));
      ShrinkOnce(s, capacity);
    }
  }

  /** The recent keys after one more touch, from the recent keys before it. */
  lemma RecentAfterTouch<K>(touches: seq<K>, key: K, capacity: nat)
    requires capacity > 0
    ensures var r := Recent(touches, capacity);
      && Recent(touches + [key], capacity) == LastN(Touch(r, key), capacity)
      && (key in r ==> Recent(touches + [key], capacity) == Touch(r, key))
  {
    DistinctByLastUseNoDup(touches);
    DistinctByLastUseAppend(touches, key);
    TouchOfRecent(DistinctByLastUse(touches), key, capacity);
  }

  lemma InsertKeepsLatest<K, V>(entries: map<K, V>, init: seq<Op<K, V>>, key: K, value: V)
    requires HoldsLatest(entries, init)
    ensures HoldsLatest(entries[key := value], init + [Op.Insert(key, value)])
  {
  }

  lemma InsertTracks<K, V>(s: State<K, V>, init: seq<Op<K, V>>, key: K, value: V, capacity: nat)
    requires capacity > 0 && Tracks(s, init, capacity)
    ensures Tracks(InsertState(s, key, value, capacity), init + [Op.Insert(key, value)], capacity)
  {
    var ops := init + [Op.Insert(key, value)];
    var t := Store(s, key, value);
    InsertKeepsLatest(s.entries, init, key, value);
    StoreInSync(s, key, value);
    ShrinkInSync(t, capacity);
    assert HoldsLatest(Shrink(t, capacity).entries, ops);
    assert Touches(ops, capacity) == Touches(init, capacity) + [key] by {
      assert ops[..|ops| - 1] == init;
    }
    RecentAfterTouch(Touches(init, capacity), key, capacity);
  }

  lemma GetFacts<K, V>(entries: map<K, V>, init: seq<Op<K, V>>, key: K, capacity: nat)
    requires HoldsLatest(entries, init)
    ensures HoldsLatest(entries, init + [Op.Get(key)])
    ensures var touches := Touches(init, capacity);
      Touches(init + [Op.Get(key)], capacity) == if key in Recent(touches, capacity) then touches + [key] else touches
  {
  }

  lemma TouchKeepsSync<K, V>(s: State<K, V>, key: K)
    requires InSync(s) && key in s.entries
    ensures InSync(s.(order := Touch(s.order, key)))
  {
    TouchElements(s.order, key);
    assert Elements(s.order) + {key} == Elements(s.order);
  }

  lemma {:induction false} GetTracks<K, V>(s: State<K, V>, init: seq<Op<K, V>>, key: K, capacity: nat)
    requires capacity > 0 && Tracks(s, init, capacity)
    ensures Tracks(GetState(s, key), init + [Op.Get(key)], capacity)
  {
    GetFacts(s.entries, init, key, capacity);
    InSyncKey(s, key);
    if key in s.entries {
      RecentAfterTouch(Touches(init, capacity), key, capacity);
      TouchKeepsSync(s, key);
    }
  }

  /** In every run from an empty cache the recency list is the last `capacity` distinct keys
      touched, the map holds exactly those keys, and each with the value inserted last. */
  lemma {:induction false} RunTracksRecentTouches<K, V>(ops: seq<Op<K, V>>, capacity: nat)
    requires capacity > 0
    ensures Tracks(Run(ops, capacity), ops, capacity)
    decreases |ops|
  {
    if ops == [] {
    } else {
      var init, op := ops[..|ops| - 1], ops[|ops| - 1];
      assert ops == init + [op];
      RunTracksRecentTouches(init, capacity);
      match op {
        case Insert(key, value) => InsertTracks(Run(init, capacity), init, key, value, capacity);
        case Get(key) => GetTracks(Run(init, capacity), init, key, capacity);
      }
    }
  }

  /** A lookup after any run: the value inserted last if the key is among the `capacity` most
      recently touched keys, and nothing otherwise. */
  lemma LookupAfterRun<K, V>(ops: seq<Op<K, V>>, capacity: nat, key: K)
    requires capacity > 0
    ensures Lookup(Run(ops, capacity), key) ==
            if key in Recent(Touches(ops, capacity), capacity) then LatestValue(ops, key) else None
    ensures |Run(ops, capacity).entries| <= capacity
  {
    RunTracksRecentTouches(ops, capacity);
    InSyncSize(Run(ops, capacity));
    InSyncKey(Run(ops, capacity), key);
  }

  // ---- when an insertion keeps the key it inserts ----

  /** The first key of `order` that belongs to `keys`: the one the eviction loop removes. */
  function FirstLive<K(==)>(order: seq<K>, keys: set<K>): (r: Option<K>)
    ensures r.None? <==> forall k :: k in order ==> k !in keys
    ensures r.Some? ==> r.value in order && r.value in keys
  {
    if order == [] then None
    else if order[0] in keys then Some(order[0])
    else FirstLive(order[1..], keys)
  }

  lemma {:induction false} ShrinkByOne<K, V>(s: State<K, V>, capacity: nat)
    requires Covered(s) && |s.entries| == capacity + 1
    ensures FirstLive(s.order, s.entries.Keys).Some?
    ensures Shrink(s, capacity).entries == s.entries - {FirstLive(s.order, s.entries.Keys).value}
    decreases |s.order|
  {
    CoveredOrderNonEmpty(s);
    var s' := State(s.entries - {s.order[0]}, s.order[1..]);
    RemoveOneKey(s.entries, s.order[0]);
    if s.order[0] in s.entries {
      assert Shrink(s', capacity) == s';
    } else {
      assert s'.entries == s.entries;
      assert Covered(s');
      ShrinkByOne(s', capacity);
    }
  }

  lemma {:induction false} FirstLiveAppend<K>(order: seq<K>, keys: set<K>, key: K)
    ensures FirstLive(order, keys).Some? ==> FirstLive(order + [key], keys) == FirstLive(order, keys)
  {
    if order == [] {
    } else {
      assert (order + [key])[1..] == order[1..] + [key];
      FirstLiveAppend(order[1..], keys, key);
    }
  }

  /** An uninterrupted insertion into a covered cache leaves the inserted key mapped exactly when
      it was already there, or there was room, or some other live key comes before it in the recency
      list. The failing case needs a stale copy of the key ahead of every live key. */
  lemma InsertKeepsKeyIff<K, V>(s: State<K, V>, key: K, value: V, capacity: nat)
    requires capacity > 0 && Covered(s) && |s.entries| <= capacity
    ensures key in InsertState(s, key, value, capacity).entries <==>
            || key in s.entries
            || |s.entries| < capacity
            || FirstLive(s.order, s.entries.Keys + {key}) != Some(key)
  {
    var t := Store(s, key, value);
    assert t.entries.Keys == s.entries.Keys + {key};
    assert |t.entries| == |t.entries.Keys| && |s.entries| == |s.entries.Keys|;
    if key in s.entries {
      assert t.entries.Keys == s.entries.Keys;
    } else if |s.entries| == capacity {
      assert Covered(t);
      ShrinkByOne(t, capacity);
      var k :| k in s.entries;
      FirstLiveAppend(s.order, t.entries.Keys, key);
    }
  }

  /** In a run without overlapping calls the inserted key always survives its own insertion. */
  lemma SequentialInsertKeepsKey<K, V>(ops: seq<Op<K, V>>, key: K, value: V, capacity: nat)
    requires capacity > 0
    ensures Lookup(Run(ops + [Op.Insert(key, value)], capacity), key) == Some(value)
  {
    var all := ops + [Op.Insert(key, value)];
    assert all[..|all| - 1] == ops;
    LookupAfterRun(all, capacity, key);
    DistinctByLastUseAppend(Touches(ops, capacity), key);
    var d := DistinctByLastUse(Touches(all, capacity));
    assert LastN(d, capacity)[|LastN(d, capacity)| - 1] == key;
  }
}
