/** When an insertion keeps the key it inserts, whatever the other threads do meanwhile. While the
    inserting thread holds the map mutex only promotions can run beside it, but a promotion can move the
    key that would have been evicted behind the new one. */
module CacheInsertion {
  import opened Sequences
  import opened SpeculativeCache
  import opened CacheInterleaving

  /** Some copy of `p` comes before every copy of `key` in the recency list. */
  predicate Ahead<K(==)>(order: seq<K>, p: K, key: K) {
    p != key && FirstLive(order, {p, key}) == Some(p)
  }

  /** Some thread has looked `p` up and has yet to promote it. */
  predicate BeingPromoted<K(==), V>(s: System<K, V>, p: K) {
    exists u :: u in s.threads && s.threads[u].Promoting? && s.threads[u].key == p
  }

  /** `p` will be evicted before `key`: it is mapped, listed ahead of `key`, and nobody will move it. */
  predicate Shields<K(==), V>(s: System<K, V>, p: K, key: K) {
    p in s.cache.entries && Ahead(s.cache.order, p, key) && !BeingPromoted(s, p)
  }

  /** What a caller can check before `insert(key, _)`. */
  predicate KeepsKey<K(==), V>(s: System<K, V>, key: K, capacity: nat) {
    || key in s.cache.entries
    || |s.cache.entries| < capacity
    || exists p :: p in s.cache.entries && Shields(s, p, key)
  }

  /** The steps of all threads from the lock of `t` to its return from `insert`. */
  ghost predicate Returns<K, V>(actions: seq<Action<K, V>>, t: nat) {
    && |actions| > 0 && actions[|actions| - 1] == LeaveLoop(t)
    && forall i :: 0 <= i < |actions| - 1 ==> !Releases(actions[i])
  }

  ghost predicate InsertRun<K, V>(s: System<K, V>, t: nat, key: K, value: V, rest: seq<Action<K, V>>, capacity: nat) {
    Returns(rest, t) && Execute(s, [LockForInsert(t, key, value)] + rest, capacity).Some?
  }

  // ---- the first listed key of a set, as the list changes ----

  lemma {:induction false} FirstAfterWithout<K>(order: seq<K>, k: K, keys: set<K>)
    ensures FirstLive(Without(order, k), keys) == FirstLive(order, keys - {k})
  {
    if order == [] {
    } else {
      FirstAfterWithout(order[1..], k, keys);
    }
  }

  lemma {:induction false} FirstAfterAppend<K>(order: seq<K>, k: K, keys: set<K>)
    ensures FirstLive(order + [k], keys) ==
            if FirstLive(order, keys).Some? then FirstLive(order, keys) else if k in keys then Some(k) else None
  {
    if order == [] {
      assert order + [k] == [k];
    } else {
      assert (order + [k])[1..] == order[1..] + [k];
      FirstAfterAppend(order[1..], k, keys);
    }
  }

  /** Promoting another key leaves `p` ahead of `key`. */
  lemma AheadAfterTouch<K>(order: seq<K>, p: K, key: K, k: K)
    requires Ahead(order, p, key) && k != p
    ensures Ahead(Touch(order, k), p, key)
  {
    FirstAfterWithout(order, k, {p, key});
    FirstAfterAppend(Without(order, k), k, {p, key});
    if k == key {
      assert {p, key} - {k} == {p};
    } else {
      assert {p, key} - {k} == {p, key};
    }
  }

  /** Promoting `p` puts it behind `key`, and changes nothing between `key` and a third key. */
  lemma NotAheadAfterTouch<K>(order: seq<K>, p: K, key: K, k: K)
    requires key in order && k != key
    ensures p == k ==> !Ahead(Touch(order, k), p, key)
    ensures p != k && p != key ==> (Ahead(Touch(order, k), p, key) <==> Ahead(order, p, key))
  {
    FirstAfterWithout(order, k, {p, key});
    FirstAfterAppend(Without(order, k), k, {p, key});
    if k == p {
      assert {p, key} - {k} == {key};
    } else {
      assert {p, key} - {k} == {p, key};
    }
  }

  lemma {:induction false} FirstOfFewer<K>(order: seq<K>, keys: set<K>, fewer: set<K>)
    requires fewer <= keys && FirstLive(order, keys).Some? && FirstLive(order, keys).value in fewer
    ensures FirstLive(order, fewer) == FirstLive(order, keys)
  {
    if order[0] in keys {
    } else {
      FirstOfFewer(order[1..], keys, fewer);
    }
  }

  // ---- a shielded key survives every interleaving ----

  /** What holds while `t` is inside the loop. `p` shields the key as long as an eviction is due. */
  ghost predicate Guarded<K, V>(s: System<K, V>, t: nat, key: K, p: K, capacity: nat) {
    && key in s.cache.entries
    && (PcOf(s, t).Looping? || PcOf(s, t).Removing?)
    && (|s.cache.entries| > capacity ==>
          && p in s.cache.entries && !BeingPromoted(s, p)
          && (PcOf(s, t).Looping? ==> Ahead(s.cache.order, p, key))
          && (PcOf(s, t).Removing? ==>
                && PcOf(s, t).oldest != key
                && (PcOf(s, t).oldest !in s.cache.entries ==> Ahead(s.cache.order, p, key))))
  }

  /** What holds from the lock of the map until the key is stored. */
  ghost predicate Waiting<K, V>(s: System<K, V>, t: nat, key: K, p: K, capacity: nat) {
    && PcOf(s, t).Storing? && PcOf(s, t).key == key
    && (key in s.cache.entries || |s.cache.entries| < capacity || Shields(s, p, key))
  }

  ghost predicate Held<K, V>(s: System<K, V>, t: nat, key: K, p: K, capacity: nat) {
    Waiting(s, t, key, p, capacity) || Guarded(s, t, key, p, capacity)
  }

  lemma PromotedFrame<K, V>(s: System<K, V>, a: Action<K, V>, p: K, capacity: nat)
    requires Enabled(s, a, capacity) && s.lock.Some?
    ensures !BeingPromoted(s, p) ==> !BeingPromoted(Apply(s, a, capacity), p)
    ensures !BeingPromoted(s, p) && a.Promote? ==> PcOf(s, a.t).key != p
  {
  }

  lemma StoreGrows<K, V>(c: State<K, V>, key: K, value: V)
    ensures |Store(c, key, value).entries| == if key in c.entries then |c.entries| else |c.entries| + 1
  {
    var after := Store(c, key, value).entries;
    assert after.Keys == c.entries.Keys + {key};
    assert |after| == |after.Keys| && |c.entries| == |c.entries.Keys|;
  }

  lemma WaitingStep<K, V>(s: System<K, V>, t: nat, a: Action<K, V>, key: K, p: K, capacity: nat)
    requires Inv(s, capacity) && s.lock == Some(t) && Enabled(s, a, capacity) && !Releases(a)
    requires Waiting(s, t, key, p, capacity)
    ensures var s' := Apply(s, a, capacity);
      s'.lock == Some(t) && (Waiting(s', t, key, p, capacity) || Guarded(s', t, key, p, capacity))
  {
    assert HoldsMap(PcOf(s, a.t)) <==> s.lock == Some(a.t);
    PromotedFrame(s, a, p, capacity);
    if a.Promote? {
      if Shields(s, p, key) {
        AheadAfterTouch(s.cache.order, p, key, PcOf(s, a.t).key);
      }
    } else {
      assert a == StoreKey(t);
      FirstAfterAppend(s.cache.order, key, {p, key});
      StoreGrows(s.cache, key, PcOf(s, t).value);
    }
  }

  lemma GuardedStep<K, V>(s: System<K, V>, t: nat, a: Action<K, V>, key: K, p: K, capacity: nat)
    requires Inv(s, capacity) && s.lock == Some(t) && Enabled(s, a, capacity) && !Releases(a)
    requires Guarded(s, t, key, p, capacity)
    ensures Apply(s, a, capacity).lock == Some(t) && Guarded(Apply(s, a, capacity), t, key, p, capacity)
  {
    assert HoldsMap(PcOf(s, a.t)) <==> s.lock == Some(a.t);
    PromotedFrame(s, a, p, capacity);
    match a {
      case Promote(u) =>
        if |s.cache.entries| > capacity && Ahead(s.cache.order, p, key) {
          AheadAfterTouch(s.cache.order, p, key, PcOf(s, u).key);
        }
      case RemoveOldest(_) => RemoveOneKey(s.cache.entries, PcOf(s, t).oldest);
      case _ =>
    }
  }

  lemma HeldStep<K, V>(s: System<K, V>, t: nat, a: Action<K, V>, key: K, p: K, capacity: nat)
    requires Inv(s, capacity) && s.lock == Some(t) && Enabled(s, a, capacity) && !Releases(a)
    requires Held(s, t, key, p, capacity)
    ensures var s' := Apply(s, a, capacity); Inv(s', capacity) && s'.lock == Some(t) && Held(s', t, key, p, capacity)
  {
    InvKept(s, a, capacity);
    if Waiting(s, t, key, p, capacity) {
      WaitingStep(s, t, a, key, p, capacity);
    } else {
      GuardedStep(s, t, a, key, p, capacity);
    }
  }

  lemma LeavingKeeps<K, V>(s: System<K, V>, t: nat, key: K, p: K, capacity: nat)
    requires Enabled(s, LeaveLoop(t), capacity) && Held(s, t, key, p, capacity)
    ensures key in Apply(s, LeaveLoop(t), capacity).cache.entries
  {
  }

  lemma ReturnsTail<K, V>(actions: seq<Action<K, V>>, t: nat)
    requires Returns(actions, t)
    ensures if |actions| == 1 then actions == [LeaveLoop(t)] else Returns(actions[1..], t) && !Releases(actions[0])
  {
  }

  lemma {:induction false} GuardedUntilReturn<K, V>(
    s: System<K, V>, t: nat, actions: seq<Action<K, V>>, key: K, p: K, capacity: nat)
    requires Inv(s, capacity) && s.lock == Some(t) && Held(s, t, key, p, capacity)
    requires Returns(actions, t) && Execute(s, actions, capacity).Some?
    ensures key in Execute(s, actions, capacity).value.cache.entries
    decreases |actions|
  {
    var a, rest := actions[0], actions[1..];
    ReturnsTail(actions, t);
    assert Enabled(s, a, capacity) && Execute(s, actions, capacity) == Execute(Apply(s, a, capacity), rest, capacity);
    if |actions| == 1 {
      LeavingKeeps(s, t, key, p, capacity);
      assert rest == [];
    } else {
      HeldStep(s, t, a, key, p, capacity);
      GuardedUntilReturn(Apply(s, a, capacity), t, rest, key, p, capacity);
    }
  }

  lemma ShieldedKeySurvives<K, V>(s: System<K, V>, t: nat, key: K, value: V, rest: seq<Action<K, V>>, capacity: nat)
    requires Inv(s, capacity) && s.lock.None? && PcOf(s, t).Idle?
    requires KeepsKey(s, key, capacity) && InsertRun(s, t, key, value, rest, capacity)
    ensures key in Execute(s, [LockForInsert(t, key, value)] + rest, capacity).value.cache.entries
  {
    var lock := LockForInsert(t, key, value);
    var s1 := Apply(s, lock, capacity);
    InvKept(s, lock, capacity);
    ExecuteCons(s, lock, rest, capacity);
    var p := key;
    if key !in s.cache.entries && |s.cache.entries| >= capacity {
      p :| p in s.cache.entries && Shields(s, p, key);
      assert !BeingPromoted(s1, p);
    }
    GuardedUntilReturn(s1, t, rest, key, p, capacity);
  }

  // ---- an unshielded key is lost in some interleaving ----

  /** Every mapped key ahead of `key` is about to be promoted. */
  ghost predicate Exposed<K, V>(s: System<K, V>, key: K) {
    forall p :: p in s.cache.entries && Ahead(s.cache.order, p, key) ==> BeingPromoted(s, p)
  }

  lemma PromoteKeepsExposed<K, V>(s: System<K, V>, u: nat, key: K, capacity: nat)
    requires Exposed(s, key) && key in s.cache.order
    requires PcOf(s, u).Promoting? && PcOf(s, u).key != key
    ensures Exposed(Apply(s, Promote(u), capacity), key)
  {
    var s' := Apply(s, Promote(u), capacity);
    var k := PcOf(s, u).key;
    forall p | p in s'.cache.entries && Ahead(s'.cache.order, p, key) ensures BeingPromoted(s', p) {
      NotAheadAfterTouch(s.cache.order, p, key, k);
      assert p != k && BeingPromoted(s, p);
      var v :| v in s.threads && s.threads[v].Promoting? && s.threads[v].key == p;
      assert v in s'.threads && s'.threads[v] == s.threads[v];
    }
  }

  lemma PromoteOne<K, V>(s: System<K, V>, t: nat, u: nat, key: K, capacity: nat)
    requires s.lock == Some(t) && PcOf(s, t).Looping? && Covered(s.cache)
    requires key in s.cache.order && Exposed(s, key)
    requires PcOf(s, u).Promoting? && PcOf(s, u).key != key
    ensures var s' := Apply(s, Promote(u), capacity);
      && s'.lock == Some(t) && PcOf(s', t).Looping? && Covered(s'.cache) && s'.cache.entries == s.cache.entries
      && key in s'.cache.order && Exposed(s', key) && |Pending(s')| < |Pending(s)|
  {
    var s' := Apply(s, Promote(u), capacity);
    PromoteKeepsExposed(s, u, key, capacity);
    assert Pending(s') == Pending(s) - {u} && u in Pending(s);
  }

  /** Let every key ahead of `key` be promoted: then `key` is the first mapped key of the list. */
  lemma {:induction false} ClearTheWay<K, V>(s: System<K, V>, t: nat, key: K, capacity: nat)
    returns (promotions: seq<Action<K, V>>, s': System<K, V>)
    requires s.lock == Some(t) && PcOf(s, t).Looping? && Covered(s.cache)
    requires key in s.cache.order && Exposed(s, key)
    ensures Execute(s, promotions, capacity) == Some(s')
    ensures forall a :: a in promotions ==> !Releases(a)
    ensures s'.lock == Some(t) && PcOf(s', t).Looping? && s'.cache.entries == s.cache.entries
    ensures Covered(s'.cache) && key in s'.cache.order
    ensures forall p :: p in s'.cache.entries ==> !Ahead(s'.cache.order, p, key)
    decreases |Pending(s)|
  {
    if p :| p in s.cache.entries && Ahead(s.cache.order, p, key) {
      var u :| u in s.threads && s.threads[u].Promoting? && s.threads[u].key == p;
      var mid := Apply(s, Promote(u), capacity);
      PromoteOne(s, t, u, key, capacity);
      var more: seq<Action<K, V>>;
      more, s' := ClearTheWay(mid, t, key, capacity);
      promotions := [Promote(u)] + more;
      ExecuteCons(s, Promote(u), more, capacity);
    } else {
      promotions, s' := [], s;
    }
  }

  lemma ReturnsAppend<K, V>(before: seq<Action<K, V>>, rest: seq<Action<K, V>>, t: nat)
    requires Returns(rest, t) && forall a :: a in before ==> !Releases(a)
    ensures Returns(before + rest, t)
  {
  }

  lemma {:induction false} SoloLoopReturns<K, V>(c: State<K, V>, t: nat, capacity: nat)
    requires Covered(c)
    ensures Returns(SoloLoop(c, t, capacity), t)
    decreases |c.order|
  {
    if |c.entries| <= capacity {
    } else {
      CoveredOrderNonEmpty(c);
      var c' := State(c.entries - {c.order[0]}, c.order[1..]);
      assert c.order == [c.order[0]] + c'.order;
      SoloLoopReturns(c', t, capacity);
      ReturnsAppend([PopOldest(t), RemoveOldest(t)], SoloLoop(c', t, capacity), t);
    }
  }

  /** With nothing mapped ahead of it, the undisturbed loop evicts `key`. */
  lemma LoopEvictsFirst<K, V>(s: System<K, V>, t: nat, key: K, capacity: nat)
    requires s.lock == Some(t) && PcOf(s, t).Looping? && Covered(s.cache)
    requires |s.cache.entries| == capacity + 1 && key in s.cache.entries
    requires forall p :: p in s.cache.entries ==> !Ahead(s.cache.order, p, key)
    ensures var r := Execute(s, SoloLoop(s.cache, t, capacity), capacity);
      r.Some? && key !in r.value.cache.entries
  {
    SoloLoopIsShrink(s, t, capacity);
    ShrinkByOne(s.cache, capacity);
    var first := FirstLive(s.cache.order, s.cache.entries.Keys).value;
    FirstOfFewer(s.cache.order, s.cache.entries.Keys, {first, key});
  }

  lemma ExposedAfterStore<K, V>(s: System<K, V>, t: nat, key: K, value: V, capacity: nat)
    requires Inv(s, capacity) && s.lock.None? && PcOf(s, t).Idle? && !KeepsKey(s, key, capacity)
    ensures var s2 := Apply(Apply(s, LockForInsert(t, key, value), capacity), StoreKey(t), capacity);
      && s2.lock == Some(t) && PcOf(s2, t).Looping? && Covered(s2.cache)
      && |s2.cache.entries| == capacity + 1 && key in s2.cache.entries && key in s2.cache.order
      && Exposed(s2, key)
  {
    var s2 := Apply(Apply(s, LockForInsert(t, key, value), capacity), StoreKey(t), capacity);
    StoreGrows(s.cache, key, value);
    forall p | p in s2.cache.entries && Ahead(s2.cache.order, p, key) ensures BeingPromoted(s2, p) {
      FirstAfterAppend(s.cache.order, key, {p, key});
      assert p in s.cache.entries && p in s.cache.order;
      assert BeingPromoted(s, p);
      var u :| u in s.threads && s.threads[u].Promoting? && s.threads[u].key == p;
      assert u in s2.threads && s2.threads[u] == s.threads[u];
    }
  }

  lemma {:induction false} ExecuteThrough<K, V>(
    s: System<K, V>, a: Action<K, V>, b: Action<K, V>, s2: System<K, V>, xs: seq<Action<K, V>>, s3: System<K, V>,
    ys: seq<Action<K, V>>, capacity: nat)
    requires Enabled(s, a, capacity) && Enabled(Apply(s, a, capacity), b, capacity)
    requires Apply(Apply(s, a, capacity), b, capacity) == s2 && Execute(s2, xs, capacity) == Some(s3)
    ensures Execute(s, [a] + ([b] + (xs + ys)), capacity) == Execute(s3, ys, capacity)
  {
    ExecuteSplit(s2, xs, ys, capacity);
    ExecuteCons(Apply(s, a, capacity), b, xs + ys, capacity);
    ExecuteCons(s, a, [b] + (xs + ys), capacity);
  }

  /** The run that loses an unshielded key: store it, let every key ahead of it be promoted, evict. */
  lemma LosingRun<K, V>(s: System<K, V>, t: nat, key: K, value: V, capacity: nat) returns (rest: seq<Action<K, V>>)
    requires Inv(s, capacity) && s.lock.None? && PcOf(s, t).Idle? && !KeepsKey(s, key, capacity)
    ensures Returns(rest, t)
    ensures var r := Execute(s, [LockForInsert(t, key, value)] + rest, capacity);
      r.Some? && key !in r.value.cache.entries
  {
    var lock: Action<K, V> := LockForInsert(t, key, value);
    var s2 := Apply(Apply(s, lock, capacity), StoreKey(t), capacity);
    ExposedAfterStore(s, t, key, value, capacity);
    var promotions, s3 := ClearTheWay(s2, t, key, capacity);
    var loop := SoloLoop(s3.cache, t, capacity);
    LoopEvictsFirst(s3, t, key, capacity);
    SoloLoopReturns(s3.cache, t, capacity);
    ReturnsAppend(promotions, loop, t);
    ReturnsAppend([StoreKey(t)], promotions + loop, t);
    ExecuteThrough(s, lock, StoreKey(t), s2, promotions, s3, loop, capacity);
    rest := [StoreKey(t)] + (promotions + loop);
  }

  /** From any state of any interleaving with the map mutex free: `key` is mapped when the insertion
      returns, whatever the other threads do meanwhile, if and only if it was mapped before, or there was
      room, or some mapped key listed ahead of it is being promoted by no thread. */
  lemma InterleavedInsertKeepsKeyIff<K, V>(s: System<K, V>, t: nat, key: K, value: V, capacity: nat)
    requires Inv(s, capacity) && s.lock.None? && PcOf(s, t).Idle?
    ensures (forall rest :: InsertRun(s, t, key, value, rest, capacity) ==>
               key in Execute(s, [LockForInsert(t, key, value)] + rest, capacity).value.cache.entries)
            <==> KeepsKey(s, key, capacity)
  {
    if KeepsKey(s, key, capacity) {
      forall rest | InsertRun(s, t, key, value, rest, capacity)
        ensures key in Execute(s, [LockForInsert(t, key, value)] + rest, capacity).value.cache.entries
      {
        ShieldedKeySurvives(s, t, key, value, rest, capacity);
      }
    } else {
      var rest := LosingRun(s, t, key, value, capacity);
      assert InsertRun(s, t, key, value, rest, capacity);
    }
  }

  // ---- a promotion during the insertion ----

  /** Thread `u` reads `b`, the only entry; then `t` inserts `a`, and `u` promotes `b` before `t` evicts. */
  function LateShield<K(==), V>(t: nat, u: nat, a: K, b: K, x: V): (r: seq<Action<K, V>>) {
    SoloInsert(State(map[], []), t, b, x, 1) +
    ([ReadMap(u, b)] +
    ([LockForInsert(t, a, x), StoreKey(t)] +
    ([Promote(u), PopOldest(t)] +
    ([RemoveOldest(t), LeaveLoop(t)] + []))))
  }

  lemma ExecuteThreePairs<K, V>(
    s: System<K, V>, a: Action<K, V>, b: Action<K, V>, s': System<K, V>, c: Action<K, V>, d: Action<K, V>,
    s'': System<K, V>, e: Action<K, V>, f: Action<K, V>, capacity: nat)
    requires Enabled(s, a, capacity) && Enabled(Apply(s, a, capacity), b, capacity)
    requires Apply(Apply(s, a, capacity), b, capacity) == s'
    requires Enabled(s', c, capacity) && Enabled(Apply(s', c, capacity), d, capacity)
    requires Apply(Apply(s', c, capacity), d, capacity) == s''
    requires Enabled(s'', e, capacity) && Enabled(Apply(s'', e, capacity), f, capacity)
    ensures Execute(s, [a, b] + ([c, d] + ([e, f] + [])), capacity) == Some(Apply(Apply(s'', e, capacity), f, capacity))
  {
    ExecutePair(s, a, b, [c, d] + ([e, f] + []), capacity);
    ExecutePair(s', c, d, [e, f] + [], capacity);
    ExecutePair(s'', e, f, [], capacity);
  }

  lemma PromoteBehind<K, V>(t: nat, u: nat, a: K, b: K, x: V)
    requires t != u && a != b
    ensures var s := System(State(map[b := x, a := x], [b, a]), Some(t), map[t := Looping, u := Promoting(b)]);
      && Enabled(Apply(s, Promote(u), 1), PopOldest(t), 1)
      && Apply(Apply(s, Promote(u), 1), PopOldest(t), 1) ==
         System(State(map[b := x, a := x], [b]), Some(t), map[t := Removing(a), u := Idle])
  {
    assert Without([b, a], b) == [a] by {
      assert [b, a][1..] == [a];
      WithoutAbsent([a], b);
    }
    var entries := map[b := x, a := x];
    assert |entries| == |entries.Keys| == 2 by { assert entries.Keys == {a, b}; }
    assert ([a] + [b])[1..] == [b];
  }

  lemma StoreBehind<K, V>(t: nat, u: nat, a: K, b: K, x: V)
    requires t != u && a != b
    ensures var s := System(State(map[b := x], [b]), None, map[t := Idle, u := Promoting(b)]);
      Apply(Apply(s, LockForInsert(t, a, x), 1), StoreKey(t), 1) ==
      System(State(map[b := x, a := x], [b, a]), Some(t), map[t := Looping, u := Promoting(b)])
  {
    var threads: map<nat, Pc<K, V>> := map[t := Idle, u := Promoting(b)];
    assert threads[t := Storing(a, x)][t := Looping] == map[t := Looping, u := Promoting(b)];
  }

  lemma RemoveNew<K, V>(t: nat, u: nat, a: K, b: K, x: V)
    requires t != u && a != b
    ensures var s := System(State(map[b := x, a := x], [b]), Some(t), map[t := Removing(a), u := Idle]);
      && Enabled(Apply(s, RemoveOldest(t), 1), LeaveLoop(t), 1)
      && Apply(Apply(s, RemoveOldest(t), 1), LeaveLoop(t), 1) ==
         System(State(map[b := x], [b]), None, map[t := Idle, u := Idle])
  {
    var entries := map[b := x, a := x] - {a};
    assert entries == map[b := x];
    assert |entries| == |entries.Keys| == 1 by { assert entries.Keys == {b}; }
    var threads: map<nat, Pc<K, V>> := map[t := Removing(a), u := Idle];
    assert threads[t := Looping][t := Idle] == map[t := Idle, u := Idle];
  }

  lemma InterferedInsert<K, V>(t: nat, u: nat, a: K, b: K, x: V)
    requires t != u && a != b
    ensures Execute(System(State(map[b := x], [b]), None, map[t := Idle, u := Promoting(b)]),
                    [LockForInsert(t, a, x), StoreKey(t)] +
                    ([Promote(u), PopOldest(t)] + ([RemoveOldest(t), LeaveLoop(t)] + [])), 1)
         == Some(System(State(map[b := x], [b]), None, map[t := Idle, u := Idle]))
  {
    StoreBehind(t, u, a, b, x);
    PromoteBehind(t, u, a, b, x);
    RemoveNew(t, u, a, b, x);
    ExecuteThreePairs(
      System(State(map[b := x], [b]), None, map[t := Idle, u := Promoting(b)]), LockForInsert(t, a, x), StoreKey(t),
      System(State(map[b := x, a := x], [b, a]), Some(t), map[t := Looping, u := Promoting(b)]),
      Promote(u), PopOldest(t),
      System(State(map[b := x, a := x], [b]), Some(t), map[t := Removing(a), u := Idle]),
      RemoveOldest(t), LeaveLoop(t), 1);
  }

  /** From the empty cache, with no stale key anywhere: the insertion of `a` finds a live key ahead of it,
      so undisturbed it would keep `a` (`InsertKeepsKeyIff`), but it returns with `a` absent. */
  lemma PromotionDuringInsertLosesKey<K, V>(t: nat, u: nat, a: K, b: K, x: V)
    requires t != u && a != b
    ensures var r := Execute(Initial(), LateShield(t, u, a, b, x), 1);
      r.Some? && r.value.lock.None? && a !in r.value.cache.entries
    ensures a in InsertState(State(map[b := x], [b]), a, x, 1).entries
  {
    var s0: System<K, V> := Initial();
    var s1 := System(State(map[b := x], [b]), None, map[t := Idle]);
    var rest: seq<Action<K, V>> := [LockForInsert(t, a, x), StoreKey(t)] +
                ([Promote(u), PopOldest(t)] + ([RemoveOldest(t), LeaveLoop(t)] + []));
    SoloInsertIsSequential(s0, t, b, x, 1);
    InsertIntoEmpty(b, x);
    assert Apply(s1, ReadMap(u, b), 1).threads == map[t := Idle, u := Promoting(b)];
    InterferedInsert(t, u, a, b, x);
    ExecuteAround(s0, SoloInsert(s0.cache, t, b, x, 1), s1, ReadMap(u, b), rest, 1);
    ReplaceOnlyEntry(b, [], a, x);
    assert [b] + [] == [b];
  }
}
