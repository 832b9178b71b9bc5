/** The same cache under any number of threads, stepped at lock granularity.
    One action is one critical section of the recency-list mutex, or a stretch of code between two
    lock operations under the map mutex. `get` releases the map mutex before it promotes the key, so a
    promotion may run when the key is long gone; `insert` takes the recency-list mutex afresh for
    every eviction, so promotions may run between a key leaving the list and leaving the map. */
module CacheInterleaving {
  import opened Sequences
  import opened SpeculativeCache

  /** Where a thread is. In `Storing`, `Looping`, `Removing` and `Evicting` it holds the map mutex. */
  datatype Pc<K, V> =
    | Idle
    | Promoting(key: K)             // `get` hit, map mutex released, list mutex not yet taken
    | Storing(key: K, value: V)     // `insert`, waiting for the list mutex
    | Looping                       // `insert`, at the head of the eviction loop
    | Removing(oldest: K)           // `insert`, key popped from the list, still to leave the map
    | Evicting                      // `evict_lru`, waiting for the list mutex

  datatype System<K(==), V> = System(cache: State<K, V>, lock: Option<nat>, threads: map<nat, Pc<K, V>>)

  datatype Action<K, V> =
    | ReadMap(t: nat, key: K)
    | Promote(t: nat)
    | LockForInsert(t: nat, key: K, value: V)
    | StoreKey(t: nat)
    | PopOldest(t: nat)
    | RemoveOldest(t: nat)
    | LeaveLoop(t: nat)
    | BreakLoop(t: nat)
    | LockForEvict(t: nat)
    | EvictOldest(t: nat)

  function PcOf<K(==), V>(s: System<K, V>, t: nat): (pc: Pc<K, V>) {
    if t in s.threads then s.threads[t] else Idle
  }

  predicate HoldsMap<K, V>(pc: Pc<K, V>) {
    pc.Storing? || pc.Looping? || pc.Removing? || pc.Evicting?
  }

  predicate Enabled<K(==), V>(s: System<K, V>, a: Action<K, V>, capacity: nat) {
    match a
    case ReadMap(t, _) => PcOf(s, t).Idle? && s.lock.None?
    case Promote(t) => PcOf(s, t).Promoting?
    case LockForInsert(t, _, _) => PcOf(s, t).Idle? && s.lock.None?
    case StoreKey(t) => PcOf(s, t).Storing?
    case PopOldest(t) => PcOf(s, t).Looping? && |s.cache.entries| > capacity && s.cache.order != []
    case RemoveOldest(t) => PcOf(s, t).Removing?
    case LeaveLoop(t) => PcOf(s, t).Looping? && |s.cache.entries| <= capacity
    case BreakLoop(t) => PcOf(s, t).Looping? && |s.cache.entries| > capacity && s.cache.order == []
    case LockForEvict(t) => PcOf(s, t).Idle? && s.lock.None?
    case EvictOldest(t) => PcOf(s, t).Evicting?
  }

  function Apply<K(==), V>(s: System<K, V>, a: Action<K, V>, capacity: nat): (s': System<K, V>)
    requires Enabled(s, a, capacity)
  {
    match a
    case ReadMap(t, key) =>
      s.(threads := s.threads[t := if key in s.cache.entries then Promoting(key) else Idle])
    case Promote(t) =>
      s.(cache := s.cache.(order := Touch(s.cache.order, s.threads[t].key)), threads := s.threads[t := Idle])
    case LockForInsert(t, key, value) =>
      s.(lock := Some(t), threads := s.threads[t := Storing(key, value)])
    case StoreKey(t) =>
      s.(cache := Store(s.cache, s.threads[t].key, s.threads[t].value), threads := s.threads[t := Looping])
    case PopOldest(t) =>
      s.(cache := s.cache.(order := s.cache.order[1..]), threads := s.threads[t := Removing(s.cache.order[0])])
    case RemoveOldest(t) =>
      s.(cache := s.cache.(entries := s.cache.entries - {s.threads[t].oldest}), threads := s.threads[t := Looping])
    case LeaveLoop(t) =>
      s.(lock := None, threads := s.threads[t := Idle])
    case BreakLoop(t) =>
      s.(lock := None, threads := s.threads[t := Idle])
    case LockForEvict(t) =>
      s.(lock := Some(t), threads := s.threads[t := Evicting])
    case EvictOldest(t) =>
      var c := s.cache;
      s.(cache := if c.order == [] then c else State(c.entries - {c.order[0]}, c.order[1..]),
         lock := None, threads := s.threads[t := Idle])
  }

  function Initial<K(==), V>(): (s: System<K, V>) {
    System(State(map[], []), None, map[])
  }

  /** The state after `actions`, or nothing when one of them is not possible where it stands. */
  function Execute<K(==), V>(s: System<K, V>, actions: seq<Action<K, V>>, capacity: nat): (r: Option<System<K, V>>)
    decreases |actions|
  {
    if actions == [] then Some(s)
    else if !Enabled(s, actions[0], capacity) then None
    else Execute(Apply(s, actions[0], capacity), actions[1..], capacity)
  }

  // ---- what every interleaving keeps ----

  ghost predicate LockDiscipline<K, V>(s: System<K, V>) {
    forall t: nat :: HoldsMap(PcOf(s, t)) <==> s.lock == Some(t)
  }

  /** The key that has left the recency list but not yet the map. */
  function InFlight<K(==), V>(s: System<K, V>): (r: Option<K>) {
    if s.lock.Some? && PcOf(s, s.lock.value).Removing? then Some(PcOf(s, s.lock.value).oldest) else None
  }

  /** Every mapped key other than the one being evicted is in the recency list. */
  ghost predicate CoverageHolds<K, V>(s: System<K, V>) {
    forall k :: k in s.cache.entries && InFlight(s) != Some(k) ==> k in s.cache.order
  }

  /** At most `capacity` entries unless an insertion is inside its loop, and then one more at most. */
  ghost predicate SizeBounded<K, V>(s: System<K, V>, capacity: nat) {
    && |s.cache.entries| <= capacity + 1
    && (|s.cache.entries| == capacity + 1 ==>
          s.lock.Some? && (PcOf(s, s.lock.value).Looping? || PcOf(s, s.lock.value).Removing?))
    && (InFlight(s).Some? ==> |s.cache.entries| == capacity + 1)
  }

  /** How many copies of `key` the recency list may hold. */
  ghost function MaxCopies<K, V>(s: System<K, V>, key: K): nat {
    if key in s.cache.entries && InFlight(s) != Some(key) then 2 else 1
  }

  /** No key is listed more than twice, and no key outside the map more than once. */
  ghost predicate FewCopies<K, V>(s: System<K, V>) {
    forall k :: k in s.cache.order ==>
      multiset(s.cache.order)[k] <= MaxCopies(s, k)
  }

  ghost predicate Inv<K, V>(s: System<K, V>, capacity: nat) {
    LockDiscipline(s) && CoverageHolds(s) && SizeBounded(s, capacity) && FewCopies(s)
  }

  lemma {:induction false} WithoutCounts<K>(s: seq<K>, x: K, y: K)
    ensures multiset(Without(s, x))[y] == if x == y then 0 else multiset(s)[y]
  {
    if s == [] {
    } else {
      assert s == [s[0]] + s[1..];
      WithoutCounts(s[1..], x, y);
    }
  }

  lemma TouchCounts<K>(s: seq<K>, x: K, y: K)
    ensures multiset(Touch(s, x))[y] == if x == y then 1 else multiset(s)[y]
  {
    WithoutCounts(s, x, y);
  }

  lemma AbsentCountsZero<K>(s: seq<K>, x: K)
    ensures multiset(s)[x] > 0 <==> x in s
  {
  }

  lemma LockDisciplineKept<K, V>(s: System<K, V>, a: Action<K, V>, capacity: nat)
    requires LockDiscipline(s) && Enabled(s, a, capacity)
    ensures LockDiscipline(Apply(s, a, capacity))
  {
    var s' := Apply(s, a, capacity);
    forall t: nat ensures HoldsMap(PcOf(s', t)) <==> s'.lock == Some(t) {
      assert HoldsMap(PcOf(s, t)) <==> s.lock == Some(t);
      assert HoldsMap(PcOf(s, a.t)) <==> s.lock == Some(a.t);
      assert t != a.t ==> PcOf(s', t) == PcOf(s, t);
    }
  }

  /** Only the lock holder's own steps change which key is in flight. */
  lemma InFlightFrame<K, V>(s: System<K, V>, a: Action<K, V>, capacity: nat)
    requires LockDiscipline(s) && Enabled(s, a, capacity)
    ensures InFlight(Apply(s, a, capacity)) ==
            match a
            case PopOldest(_) => Some(s.cache.order[0])
            case Promote(_) => InFlight(s)
            case _ => None
    ensures a.RemoveOldest? ==> InFlight(s) == Some(PcOf(s, a.t).oldest)
    ensures !a.RemoveOldest? && !a.Promote? ==> InFlight(s) == None
  {
    assert HoldsMap(PcOf(s, a.t)) <==> s.lock == Some(a.t);
  }

  lemma CoverageKept<K, V>(s: System<K, V>, a: Action<K, V>, capacity: nat)
    requires LockDiscipline(s) && CoverageHolds(s) && Enabled(s, a, capacity)
    ensures CoverageHolds(Apply(s, a, capacity))
  {
    InFlightFrame(s, a, capacity);
    var s' := Apply(s, a, capacity);
    forall k | k in s'.cache.entries && InFlight(s') != Some(k) ensures k in s'.cache.order {
    }
  }

  lemma SizeKept<K, V>(s: System<K, V>, a: Action<K, V>, capacity: nat)
    requires LockDiscipline(s) && SizeBounded(s, capacity) && Enabled(s, a, capacity)
    requires !a.BreakLoop?
    ensures SizeBounded(Apply(s, a, capacity), capacity)
  {
    InFlightFrame(s, a, capacity);
    assert HoldsMap(PcOf(s, a.t)) <==> s.lock == Some(a.t);
    match a {
      case StoreKey(t) =>
        var key := PcOf(s, t).key;
        var after := Store(s.cache, key, PcOf(s, t).value).entries;
        assert after.Keys == s.cache.entries.Keys + {key};
        assert |after| == |after.Keys| && |s.cache.entries| == |s.cache.entries.Keys|;
      case RemoveOldest(t) => RemoveOneKey(s.cache.entries, PcOf(s, t).oldest);
      case EvictOldest(t) =>
        if s.cache.order != [] {
          RemoveOneKey(s.cache.entries, s.cache.order[0]);
        }
      case _ =>
    }
  }

  lemma CopiesAfterTouch<K, V>(s: System<K, V>, a: Action<K, V>, key: K, capacity: nat)
    requires LockDiscipline(s) && Enabled(s, a, capacity) && (a.Promote? || a.StoreKey?)
    requires multiset(s.cache.order)[key] <= MaxCopies(s, key)
    ensures multiset(Apply(s, a, capacity).cache.order)[key] <= MaxCopies(Apply(s, a, capacity), key)
  {
    InFlightFrame(s, a, capacity);
    TouchCounts(s.cache.order, PcOf(s, a.t).key, key);
  }

  lemma CopiesAfter<K, V>(s: System<K, V>, a: Action<K, V>, key: K, capacity: nat)
    requires LockDiscipline(s) && Enabled(s, a, capacity)
    requires multiset(s.cache.order)[key] <= MaxCopies(s, key)
    ensures multiset(Apply(s, a, capacity).cache.order)[key] <= MaxCopies(Apply(s, a, capacity), key)
  {
    if a.Promote? || a.StoreKey? {
      CopiesAfterTouch(s, a, key, capacity);
    } else {
      InFlightFrame(s, a, capacity);
      var order := s.cache.order;
      if (a.PopOldest? || a.EvictOldest?) && order != [] {
        assert order == [order[0]] + order[1..];
      }
    }
  }

  lemma FewCopiesKept<K, V>(s: System<K, V>, a: Action<K, V>, capacity: nat)
    requires LockDiscipline(s) && FewCopies(s) && Enabled(s, a, capacity)
    ensures FewCopies(Apply(s, a, capacity))
  {
    var s' := Apply(s, a, capacity);
    forall k | k in s'.cache.order ensures multiset(s'.cache.order)[k] <= MaxCopies(s', k) {
      AbsentCountsZero(s.cache.order, k);
      CopiesAfter(s, a, k, capacity);
    }
  }

  /** The eviction loop cannot find the recency list empty. */
  lemma BreakUnreachable<K, V>(s: System<K, V>, t: nat, capacity: nat)
    requires Inv(s, capacity)
    ensures !Enabled(s, BreakLoop(t), capacity)
  {
    assert HoldsMap(PcOf(s, t)) <==> s.lock == Some(t);
    if PcOf(s, t).Looping? && |s.cache.entries| > capacity {
      assert Covered(s.cache);
      CoveredOrderNonEmpty(s.cache);
    }
  }

  lemma InvKept<K, V>(s: System<K, V>, a: Action<K, V>, capacity: nat)
    requires Inv(s, capacity) && Enabled(s, a, capacity)
    ensures Inv(Apply(s, a, capacity), capacity)
  {
    BreakUnreachable(s, a.t, capacity);
    LockDisciplineKept(s, a, capacity);
    CoverageKept(s, a, capacity);
    SizeKept(s, a, capacity);
    FewCopiesKept(s, a, capacity);
  }

  lemma {:induction false} InvAlongRun<K, V>(s: System<K, V>, actions: seq<Action<K, V>>, capacity: nat)
    requires Inv(s, capacity) && Execute(s, actions, capacity).Some?
    ensures Inv(Execute(s, actions, capacity).value, capacity)
    decreases |actions|
  {
    if actions == [] {
    } else {
      InvKept(s, actions[0], capacity);
      InvAlongRun(Apply(s, actions[0], capacity), actions[1..], capacity);
    }
  }

  /** The action the holder of the map mutex takes next. */
  function HolderAction<K(==), V>(s: System<K, V>, t: nat, capacity: nat): (a: Action<K, V>) {
    match PcOf(s, t)
    case Storing(_, _) => StoreKey(t)
    case Looping => if |s.cache.entries| > capacity then PopOldest(t) else LeaveLoop(t)
    case Removing(_) => RemoveOldest(t)
    case _ => EvictOldest(t)
  }

  /** Every interleaving of every program from the empty cache: coverage, the two size bounds, the
      bound on repeated keys, no exit through `break`, and no deadlock. */
  lemma EveryInterleavingIsSafe<K, V>(actions: seq<Action<K, V>>, capacity: nat)
    requires Execute(Initial(), actions, capacity).Some?
    ensures var s := Execute(Initial(), actions, capacity).value;
      && CoverageHolds(s)
      && |s.cache.entries| <= capacity + 1
      && (s.lock.None? ==> |s.cache.entries| <= capacity)
      && FewCopies(s)
      && (forall t: nat :: !Enabled(s, BreakLoop(t), capacity))
      && (s.lock.Some? ==> Enabled(s, HolderAction(s, s.lock.value, capacity), capacity))
  {
    var init: System<K, V> := Initial();
    assert Inv(init, capacity);
    InvAlongRun(init, actions, capacity);
    var s := Execute(init, actions, capacity).value;
    forall t: nat ensures !Enabled(s, BreakLoop(t), capacity) {
      BreakUnreachable(s, t, capacity);
    }
    if s.lock.Some? {
      assert HoldsMap(PcOf(s, s.lock.value));
      assert !Enabled(s, BreakLoop(s.lock.value), capacity);
    }
  }

  // ---- what a lookup reads ----

  /** The value stored last under each key along a run, on top of `before`. */
  function LastStores<K(==), V>(
    s: System<K, V>, actions: seq<Action<K, V>>, capacity: nat, before: map<K, V>): (r: map<K, V>)
    requires Execute(s, actions, capacity).Some?
    decreases |actions|
  {
    if actions == [] then before
    else
      var a := actions[0];
      LastStores(Apply(s, a, capacity), actions[1..], capacity,
                 if a.StoreKey? then before[s.threads[a.t].key := s.threads[a.t].value] else before)
  }

  ghost predicate Agrees<K, V>(entries: map<K, V>, stored: map<K, V>) {
    forall k :: k in entries ==> k in stored && stored[k] == entries[k]
  }

  lemma {:induction false} AgreesAlongRun<K, V>(
    s: System<K, V>, actions: seq<Action<K, V>>, capacity: nat, before: map<K, V>)
    requires Execute(s, actions, capacity).Some? && Agrees(s.cache.entries, before)
    ensures Agrees(Execute(s, actions, capacity).value.cache.entries, LastStores(s, actions, capacity, before))
    decreases |actions|
  {
    if actions == [] {
    } else {
      var a := actions[0];
      var next := if a.StoreKey? then before[s.threads[a.t].key := s.threads[a.t].value] else before;
      assert Agrees(Apply(s, a, capacity).cache.entries, next);
      AgreesAlongRun(Apply(s, a, capacity), actions[1..], capacity, next);
    }
  }

  /** In every interleaving the map never holds, and so no lookup ever reads, anything but the value
      stored last under the key. */
  lemma ReadsSeeLastStore<K, V>(actions: seq<Action<K, V>>, capacity: nat, key: K)
    requires Execute(Initial(), actions, capacity).Some?
    ensures var read := Lookup(Execute(Initial(), actions, capacity).value.cache, key);
      var stored := LastStores(Initial(), actions, capacity, map[]);
      read.Some? ==> key in stored && stored[key] == read.value
  {
    AgreesAlongRun(Initial(), actions, capacity, map[]);
  }

  // ---- the map mutex is always given back ----

  ghost function Pending<K, V>(s: System<K, V>): set<nat> {
    set t | t in s.threads && s.threads[t].Promoting?
  }

  function Rank<K, V>(pc: Pc<K, V>): (r: nat) {
    match pc
    case Storing(_, _) => 3
    case Removing(_) => 1
    case _ => 0
  }

  /** How many more steps the whole system can take before the map mutex is released. */
  ghost function StepsLeft<K, V>(s: System<K, V>): nat
    requires s.lock.Some?
  {
    4 * |Pending(s)| + 2 * |s.cache.order| + Rank(PcOf(s, s.lock.value))
  }

  predicate Releases<K, V>(a: Action<K, V>) {
    a.LeaveLoop? || a.BreakLoop? || a.EvictOldest?
  }

  lemma HeldStepDecreases<K, V>(s: System<K, V>, a: Action<K, V>, capacity: nat)
    requires LockDiscipline(s) && s.lock.Some? && Enabled(s, a, capacity) && !Releases(a)
    ensures Apply(s, a, capacity).lock == s.lock
    ensures StepsLeft(Apply(s, a, capacity)) < StepsLeft(s)
  {
    var s' := Apply(s, a, capacity);
    assert HoldsMap(PcOf(s, a.t)) <==> s.lock == Some(a.t);
    assert HoldsMap(PcOf(s, s.lock.value));
    if a.Promote? {
      assert Pending(s') == Pending(s) - {a.t};
      assert a.t in Pending(s);
    } else {
      assert Pending(s') == Pending(s);
    }
  }

  /** While the map mutex is held no call can start, so whatever the other threads do, only a bounded
      number of steps fits before the holder releases it: the eviction loop terminates. */
  lemma {:induction false} HoldTimeIsBounded<K, V>(s: System<K, V>, actions: seq<Action<K, V>>, capacity: nat)
    requires LockDiscipline(s) && s.lock.Some?
    requires Execute(s, actions, capacity).Some?
    requires forall a :: a in actions ==> !Releases(a)
    ensures |actions| <= StepsLeft(s)
    decreases |actions|
  {
    if actions == [] {
    } else {
      var s' := Apply(s, actions[0], capacity);
      assert actions[0] in actions;
      HeldStepDecreases(s, actions[0], capacity);
      LockDisciplineKept(s, actions[0], capacity);
      HoldTimeIsBounded(s', actions[1..], capacity);
    }
  }

  // ---- a solo insertion is the sequential one ----

  /** The steps of one eviction loop when no other thread runs. */
  function SoloLoop<K(==), V>(c: State<K, V>, t: nat, capacity: nat): (r: seq<Action<K, V>>)
    decreases |c.order|
  {
    if |c.entries| <= capacity then [LeaveLoop(t)]
    else if c.order == [] then [BreakLoop(t)]
    else [PopOldest(t), RemoveOldest(t)] + SoloLoop(State(c.entries - {c.order[0]}, c.order[1..]), t, capacity)
  }

  lemma ExecuteCons<K, V>(s: System<K, V>, a: Action<K, V>, rest: seq<Action<K, V>>, capacity: nat)
    requires Enabled(s, a, capacity)
    ensures Execute(s, [a] + rest, capacity) == Execute(Apply(s, a, capacity), rest, capacity)
  {
    assert ([a] + rest)[1..] == rest;
  }

  lemma ExecutePair<K, V>(s: System<K, V>, a: Action<K, V>, b: Action<K, V>, rest: seq<Action<K, V>>, capacity: nat)
    requires Enabled(s, a, capacity) && Enabled(Apply(s, a, capacity), b, capacity)
    ensures Execute(s, [a, b] + rest, capacity) == Execute(Apply(Apply(s, a, capacity), b, capacity), rest, capacity)
  {
    ExecuteCons(Apply(s, a, capacity), b, rest, capacity);
    ExecuteCons(s, a, [b] + rest, capacity);
    assert [a] + ([b] + rest) == [a, b] + rest;
  }

  lemma ExecuteOne<K, V>(s: System<K, V>, a: Action<K, V>, capacity: nat)
    requires Enabled(s, a, capacity)
    ensures Execute(s, [a], capacity) == Some(Apply(s, a, capacity))
  {
    var s' := Apply(s, a, capacity);
    assert Execute(s', [], capacity) == Some(s');
    assert [a][1..] == [];
  }

  lemma {:induction false} SoloLoopIsShrink<K, V>(s: System<K, V>, t: nat, capacity: nat)
    requires s.lock == Some(t) && PcOf(s, t).Looping?
    ensures Execute(s, SoloLoop(s.cache, t, capacity), capacity) ==
            Some(System(Shrink(s.cache, capacity), None, s.threads[t := Idle]))
    decreases |s.cache.order|
  {
    if |s.cache.entries| <= capacity {
      ExecuteOne(s, LeaveLoop(t), capacity);
    } else if s.cache.order == [] {
      ExecuteOne(s, BreakLoop(t), capacity);
    } else {
      var s1 := Apply(s, PopOldest(t), capacity);
      var s2 := Apply(s1, RemoveOldest(t), capacity);
      assert s2.threads[t := Idle] == s.threads[t := Idle];
      SoloLoopIsShrink(s2, t, capacity);
      ExecutePair(s, PopOldest(t), RemoveOldest(t), SoloLoop(s2.cache, t, capacity), capacity);
    }
  }

  /** All the steps of one `insert` when no other thread runs. */
  function SoloInsert<K(==), V>(c: State<K, V>, t: nat, key: K, value: V, capacity: nat): (r: seq<Action<K, V>>) {
    [LockForInsert(t, key, value), StoreKey(t)] + SoloLoop(Store(c, key, value), t, capacity)
  }

  /** Run without interference, the step system computes what the sequential model computes. */
  lemma SoloInsertIsSequential<K, V>(s: System<K, V>, t: nat, key: K, value: V, capacity: nat)
    requires s.lock.None? && PcOf(s, t).Idle?
    ensures Execute(s, SoloInsert(s.cache, t, key, value, capacity), capacity)
         == Some(System(InsertState(s.cache, key, value, capacity), None, s.threads[t := Idle]))
  {
    var s1 := Apply(s, LockForInsert(t, key, value), capacity);
    var s2 := Apply(s1, StoreKey(t), capacity);
    var rest := SoloLoop(s2.cache, t, capacity);
    SoloLoopIsShrink(s2, t, capacity);
    ExecutePair(s, LockForInsert(t, key, value), StoreKey(t), rest, capacity);
    assert s2.threads[t := Idle] == s.threads[t := Idle];
  }

  /** Run without interference, `get` computes the sequential one: a hit promotes, a miss changes nothing. */
  lemma SoloGetIsSequential<K, V>(s: System<K, V>, t: nat, key: K, capacity: nat)
    requires s.lock.None? && PcOf(s, t).Idle?
    ensures Execute(s, [ReadMap(t, key)] + (if key in s.cache.entries then [Promote(t)] else []), capacity)
         == Some(System(GetState(s.cache, key), None, s.threads[t := Idle]))
  {
    var s1 := Apply(s, ReadMap(t, key), capacity);
    if key in s.cache.entries {
      ExecuteOne(s1, Promote(t), capacity);
      ExecuteCons(s, ReadMap(t, key), [Promote(t)], capacity);
      assert s1.threads[t := Idle] == s.threads[t := Idle];
    } else {
      ExecuteCons(s, ReadMap(t, key), [], capacity);
    }
  }

  /** Run without interference, `evict_lru` does what `Cache.EvictLru` does: the first listed key leaves the list
      and the map, and every other key keeps its value. */
  lemma SoloEvictIsSequential<K, V>(s: System<K, V>, t: nat, capacity: nat)
    requires s.lock.None? && PcOf(s, t).Idle?
    ensures var r := Execute(s, [LockForEvict(t), EvictOldest(t)], capacity);
      && r.Some? && r.value.lock.None? && r.value.threads == s.threads[t := Idle]
      && r.value.cache.order == (if s.cache.order == [] then [] else s.cache.order[1..])
      && r.value.cache.entries ==
         (if s.cache.order == [] then s.cache.entries else s.cache.entries - {s.cache.order[0]})
  {
    var s1 := Apply(s, LockForEvict(t), capacity);
    ExecutePair(s, LockForEvict(t), EvictOldest(t), [], capacity);
    var run: seq<Action<K, V>> := [LockForEvict(t), EvictOldest(t)];
    assert run + [] == run;
    assert s1.threads[t := Idle] == s.threads[t := Idle];
  }

  lemma {:induction false} ExecuteSplit<K, V>(
    s: System<K, V>, a: seq<Action<K, V>>, b: seq<Action<K, V>>, capacity: nat)
    requires Execute(s, a, capacity).Some?
    ensures Execute(s, a + b, capacity) == Execute(Execute(s, a, capacity).value, b, capacity)
    decreases |a|
  {
    if a == [] {
      assert a + b == b;
    } else {
      assert (a + b)[1..] == a[1..] + b;
      ExecuteSplit(Apply(s, a[0], capacity), a[1..], b, capacity);
    }
  }

  lemma ExecuteAround<K, V>(
    s: System<K, V>, first: seq<Action<K, V>>, mid: System<K, V>, a: Action<K, V>, rest: seq<Action<K, V>>,
    capacity: nat)
    requires Execute(s, first, capacity) == Some(mid) && Enabled(mid, a, capacity)
    ensures Execute(s, first + ([a] + rest), capacity) == Execute(Apply(mid, a, capacity), rest, capacity)
  {
    ExecuteCons(mid, a, rest, capacity);
    ExecuteSplit(s, first, [a] + rest, capacity);
  }

  // ---- overlapping calls can make an insertion evict its own key ----

  /** A cache of one entry: thread `u` reads key `a`, but promotes it only after thread `t` has
      replaced it by `b`; then `t` inserts `c`. */
  function StalePromotion<K(==), V>(t: nat, u: nat, a: K, b: K, c: K, x: V): (r: seq<Action<K, V>>) {
    SoloInsert(State(map[], []), t, a, x, 1) +
    ([ReadMap(u, a)] +
    (SoloInsert(State(map[a := x], [a]), t, b, x, 1) +
    ([Promote(u)] +
    SoloInsert(State(map[b := x], [b, a]), t, c, x, 1))))
  }

  lemma InsertIntoEmpty<K, V>(key: K, value: V)
    ensures InsertState(State(map[], []), key, value, 1) == State(map[key := value], [key])
  {
  }

  lemma ReplaceOnlyEntry<K, V>(a: K, tail: seq<K>, key: K, x: V)
    requires key != a
    ensures InsertState(State(map[a := x], [a] + tail), key, x, 1) == State(map[key := x], tail + [key])
  {
    var t := Store(State(map[a := x], [a] + tail), key, x);
    assert |t.entries| == |t.entries.Keys| == 2 by { assert t.entries.Keys == {a, key}; }
    var u := State(t.entries - {t.order[0]}, t.order[1..]);
    assert u.entries == map[key := x] && u.order == tail + [key];
    assert |u.entries| == |u.entries.Keys| == 1 by { assert u.entries.Keys == {key}; }
    assert t.order == [a] + (tail + [key]);
    assert Shrink(t, 1) == Shrink(u, 1) == u;
  }

  /** An undisturbed insertion that replaces the only entry `a` by `b`. */
  lemma SoloReplace<K, V>(threads: map<nat, Pc<K, V>>, t: nat, a: K, tail: seq<K>, b: K, x: V)
    requires a != b && t in threads && threads[t].Idle?
    ensures Execute(System(State(map[a := x], [a] + tail), None, threads),
                    SoloInsert(State(map[a := x], [a] + tail), t, b, x, 1), 1)
         == Some(System(State(map[b := x], tail + [b]), None, threads))
  {
    SoloInsertIsSequential(System(State(map[a := x], [a] + tail), None, threads), t, b, x, 1);
    ReplaceOnlyEntry(a, tail, b, x);
    assert threads[t := Idle] == threads;
  }

  lemma LatePromotion<K, V>(t: nat, u: nat, a: K, b: K, x: V)
    requires t != u && a != b
    ensures var s := System(State(map[b := x], [b]), None, map[t := Idle, u := Promoting(a)]);
      Apply(s, Promote(u), 1) == System(State(map[b := x], [b, a]), None, map[t := Idle, u := Idle])
  {
    WithoutAbsent([b], a);
    var threads: map<nat, Pc<K, V>> := map[t := Idle, u := Promoting(a)];
    assert threads[u := Idle] == map[t := Idle, u := Idle];
  }

  lemma ReplaceFirst<K, V>(threads: map<nat, Pc<K, V>>, t: nat, a: K, b: K, x: V)
    requires t in threads && threads[t] == Idle && a != b
    ensures Execute(System(State(map[a := x], [a]), None, threads), SoloInsert(State(map[a := x], [a]), t, b, x, 1), 1)
         == Some(System(State(map[b := x], [b]), None, threads))
  {
    SoloReplace(threads, t, a, [], b, x);
    assert [a] + [] == [a] && [] + [b] == [b];
  }

  lemma ReplaceBehindStale<K, V>(threads: map<nat, Pc<K, V>>, t: nat, a: K, b: K, c: K, x: V)
    requires t in threads && threads[t] == Idle && a != b && b != c
    ensures Execute(System(State(map[b := x], [b, a]), None, threads),
                    SoloInsert(State(map[b := x], [b, a]), t, c, x, 1), 1)
         == Some(System(State(map[c := x], [a, c]), None, threads))
  {
    SoloReplace(threads, t, b, [a], c, x);
    assert [b] + [a] == [b, a] && [a] + [c] == [a, c];
  }

  /** The second half of that run, from the moment `u` has read the map. */
  lemma StalePromotionTail<K, V>(t: nat, u: nat, a: K, b: K, c: K, x: V)
    requires t != u && a != b && b != c
    ensures Execute(System(State(map[a := x], [a]), None, map[t := Idle, u := Promoting(a)]),
                    SoloInsert(State(map[a := x], [a]), t, b, x, 1) +
                    ([Promote(u)] + SoloInsert(State(map[b := x], [b, a]), t, c, x, 1)), 1)
         == Some(System(State(map[c := x], [a, c]), None, map[t := Idle, u := Idle]))
  {
    var s2 := System(State(map[a := x], [a]), None, map[t := Idle, u := Promoting(a)]);
    var s3 := s2.(cache := State(map[b := x], [b]));
    var s4 := System(State(map[b := x], [b, a]), None, map[t := Idle, u := Idle]);
    var last := SoloInsert(s4.cache, t, c, x, 1);
    ReplaceFirst(s2.threads, t, a, b, x);
    ReplaceBehindStale(s4.threads, t, a, b, c, x);
    LatePromotion<K, V>(t, u, a, b, x);
    ExecuteAround(s2, SoloInsert(s2.cache, t, b, x, 1), s3, Promote(u), last, 1);
  }

  lemma StalePromotionEnd<K, V>(t: nat, u: nat, a: K, b: K, c: K, x: V)
    requires t != u && a != b && b != c
    ensures Execute(Initial(), StalePromotion(t, u, a, b, c, x), 1) ==
            Some(System(State(map[c := x], [a, c]), None, map[t := Idle, u := Idle]))
  {
    var s0: System<K, V> := Initial();
    var s1 := System(State(map[a := x], [a]), None, map[t := Idle]);
    var third := SoloInsert(State(map[a := x], [a]), t, b, x, 1) +
                 ([Promote(u)] + SoloInsert(State(map[b := x], [b, a]), t, c, x, 1));
    assert Execute(s0, SoloInsert(s0.cache, t, a, x, 1), 1) == Some(s1) by {
      SoloInsertIsSequential(s0, t, a, x, 1);
      InsertIntoEmpty(a, x);
    }
    StalePromotionTail(t, u, a, b, c, x);
    assert Apply(s1, ReadMap(u, a), 1).threads == map[t := Idle, u := Promoting(a)];
    ExecuteAround(s0, SoloInsert(s0.cache, t, a, x, 1), s1, ReadMap(u, a), third, 1);
  }

  /** After that overlap an undisturbed `insert(a, x)` returns with `a` absent: when calls overlap
      the promise that an inserted key is cached fails, by the case `InsertKeepsKeyIff` describes. */
  lemma InsertCanEvictItself<K, V>(t: nat, u: nat, a: K, b: K, c: K, x: V)
    requires t != u && a != b && b != c && a != c
    ensures var last := SoloInsert(State(map[c := x], [a, c]), t, a, x, 1);
      var r := Execute(Initial(), StalePromotion(t, u, a, b, c, x) + last, 1);
      r.Some? && r.value.lock.None? && a !in r.value.cache.entries
  {
    StalePromotionEnd(t, u, a, b, c, x);
    var before := State(map[c := x], [a, c]);
    var mid := System(before, None, map[t := Idle, u := Idle]);
    ExecuteSplit(Initial(), StalePromotion(t, u, a, b, c, x), SoloInsert(before, t, a, x, 1), 1);
    SoloInsertIsSequential(mid, t, a, x, 1);
    assert |before.entries| == |before.entries.Keys| == 1 by { assert before.entries.Keys == {c}; }
    InsertKeepsKeyIff(before, a, x, 1);
  }
}
