/** The file-backed priority queue: one list, stably sorted by priority on every operation.
    A read-modify-write of the file is one step; a missing file reads as the empty list. */
module TaskQueue {
  import opened Sequences
  import opened StableSort

  datatype QueuePriority = Low | Normal | High | Critical

  datatype TaskStatus = Pending | Dequeued

  datatype Item = Item(id: string, command: string, priority: QueuePriority, createdAt: int, status: TaskStatus)

  function Rank(p: QueuePriority): (r: nat) {
    match p
    case Critical => 0
    case High => 1
    case Normal => 2
    case Low => 3
  }

  predicate ByRank(a: Item, b: Item) {
    Rank(a.priority) <= Rank(b.priority)
  }

  function Read(file: Option<seq<Item>>): (items: seq<Item>) {
    if file.None? then [] else file.value
  }

  function EnqueueList(items: seq<Item>, item: Item): (r: seq<Item>) {
    Sort(items + [item], ByRank)
  }

  function DequeueList(items: seq<Item>): (r: seq<Item>) {
    var sorted := Sort(items, ByRank);
    if sorted == [] then [] else sorted[1..]
  }

  function DequeueResult(items: seq<Item>): (r: Option<Item>) {
    var sorted := Sort(items, ByRank);
    if sorted == [] then None else Some(sorted[0].(status := Dequeued))
  }

  lemma RankIsTotal()
    ensures TotalPreorder(ByRank)
  {
  }

  class PriorityTaskQueue {
    var file: Option<seq<Item>>

    constructor ()
      ensures file == None
    {
      file := None;
    }

    method Enqueue(id: string, command: string, priority: QueuePriority, now: int) returns (item: Item)
      modifies this
      ensures item == Item(id, command, priority, now, Pending)
      ensures file == Some(EnqueueList(Read(old(file)), item))
    {
      var items := Read(file);
      item := Item(id, command, priority, now, Pending);
      items := items + [item];
      items := Sort(items, ByRank);
      file := Some(items);
    }

    method Dequeue() returns (r: Option<Item>)
      modifies this
      ensures r == DequeueResult(Read(old(file)))
      ensures Read(file) == DequeueList(Read(old(file)))
      ensures r.None? ==> file == old(file)
    {
      var items := Read(file);
      items := Sort(items, ByRank);
      if items == [] {
        return None;
      }
      var item := items[0];
      items := items[1..];
      r := Some(item.(status := Dequeued));
      file := Some(items);
    }

    /** Shows the item the next dequeue hands out. */
    method Peek() returns (r: Option<Item>)
      ensures DequeueResult(Read(file)) == match r case None => None case Some(x) => Some(x.(status := Dequeued))
      ensures r.Some? ==> r.value in Read(file)
    {
      SortMembers(Read(file), ByRank);
      var items := Sort(Read(file), ByRank);
      r := if items == [] then None else Some(items[0]);
    }

    method ListAll() returns (items: seq<Item>)
      ensures Sorted(items, ByRank) && Stable(Read(file), items, ByRank)
    {
      RankIsTotal();
      IsSort(Read(file), Sort(Read(file), ByRank), ByRank);
      items := Sort(Read(file), ByRank);
    }
  }

  // ---- the reference: four first-in-first-out queues ----

  datatype Queues = Queues(critical: seq<Item>, high: seq<Item>, normal: seq<Item>, low: seq<Item>)

  function Join(q: Queues): (r: seq<Item>) {
    q.critical + q.high + q.normal + q.low
  }

  function Put(q: Queues, item: Item): (r: Queues) {
    match item.priority
    case Critical => q.(critical := q.critical + [item])
    case High => q.(high := q.high + [item])
    case Normal => q.(normal := q.normal + [item])
    case Low => q.(low := q.low + [item])
  }

  /** The oldest item of the highest nonempty priority. */
  function Front(q: Queues): (r: Option<Item>) {
    if q.critical != [] then Some(q.critical[0])
    else if q.high != [] then Some(q.high[0])
    else if q.normal != [] then Some(q.normal[0])
    else if q.low != [] then Some(q.low[0])
    else None
  }

  function Take(q: Queues): (r: Queues) {
    if q.critical != [] then q.(critical := q.critical[1..])
    else if q.high != [] then q.(high := q.high[1..])
    else if q.normal != [] then q.(normal := q.normal[1..])
    else if q.low != [] then q.(low := q.low[1..])
    else q
  }

  ghost predicate AllOf(s: seq<Item>, p: QueuePriority) {
    forall x :: x in s ==> x.priority == p
  }

  ghost predicate Proper(q: Queues) {
    AllOf(q.critical, Critical) && AllOf(q.high, High) && AllOf(q.normal, Normal) && AllOf(q.low, Low)
  }

  function Of(q: Queues, p: QueuePriority): (r: seq<Item>) {
    match p
    case Critical => q.critical
    case High => q.high
    case Normal => q.normal
    case Low => q.low
  }

  lemma RankInjective(p: QueuePriority, q: QueuePriority)
    ensures Rank(p) == Rank(q) <==> p == q
  {
  }

  lemma {:induction false} ClassOfUniform(s: seq<Item>, p: QueuePriority, x: Item)
    requires AllOf(s, p)
    ensures Class(s, x, ByRank) == if x.priority == p then s else []
  {
    RankInjective(x.priority, p);
    if s == [] {
    } else {
      assert s[0] in s;
      ClassOfUniform(s[1..], p, x);
      assert s == [s[0]] + s[1..];
    }
  }

  lemma {:induction false} ClassOfJoin(q: Queues, x: Item)
    requires Proper(q)
    ensures Class(Join(q), x, ByRank) == Of(q, x.priority)
  {
    ClassConcat(q.critical + q.high + q.normal, q.low, x, ByRank);
    ClassConcat(q.critical + q.high, q.normal, x, ByRank);
    ClassConcat(q.critical, q.high, x, ByRank);
    ClassOfUniform(q.critical, Critical, x);
    ClassOfUniform(q.high, High, x);
    ClassOfUniform(q.normal, Normal, x);
    ClassOfUniform(q.low, Low, x);
  }

  lemma SortedConcat(a: seq<Item>, b: seq<Item>)
    requires Sorted(a, ByRank) && Sorted(b, ByRank)
    requires forall x, y :: x in a && y in b ==> ByRank(x, y)
    ensures Sorted(a + b, ByRank)
  {
  }

  lemma JoinSorted(q: Queues)
    requires Proper(q)
    ensures Sorted(Join(q), ByRank)
  {
    SortedConcat(q.critical, q.high);
    SortedConcat(q.critical + q.high, q.normal);
    SortedConcat(q.critical + q.high + q.normal, q.low);
  }

  /** Sorting the file again on every read changes nothing. */
  lemma ResortIsIdentity(q: Queues)
    requires Proper(q)
    ensures Sort(Join(q), ByRank) == Join(q)
  {
    RankIsTotal();
    JoinSorted(q);
    IsSort(Join(q), Join(q), ByRank);
  }

  lemma PutProper(q: Queues, item: Item)
    requires Proper(q)
    ensures Proper(Put(q, item))
    ensures forall p :: Of(Put(q, item), p) == if p == item.priority then Of(q, p) + [item] else Of(q, p)
  {
  }

  /** Appending and stably sorting is putting the item at the end of its own queue. */
  lemma EnqueueIsPut(q: Queues, item: Item)
    requires Proper(q)
    ensures EnqueueList(Join(q), item) == Join(Put(q, item)) && Proper(Put(q, item))
  {
    RankIsTotal();
    PutProper(q, item);
    JoinSorted(Put(q, item));
    forall x ensures Class(Join(q) + [item], x, ByRank) == Class(Join(Put(q, item)), x, ByRank) {
      ClassConcat(Join(q), [item], x, ByRank);
      ClassOfJoin(q, x);
      ClassOfJoin(Put(q, item), x);
      ClassOfUniform([item], item.priority, x);
    }
    IsSort(Join(q) + [item], Join(Put(q, item)), ByRank);
  }

  lemma JoinFront(q: Queues)
    ensures Front(q) == if Join(q) == [] then None else Some(Join(q)[0])
    ensures Join(Take(q)) == if Join(q) == [] then [] else Join(q)[1..]
  {
    if q.critical != [] {
      assert Join(Take(q)) == Join(q)[1..];
    } else if q.high != [] {
      assert Join(Take(q)) == Join(q)[1..];
    } else if q.normal != [] {
      assert Join(Take(q)) == Join(q)[1..];
    } else if q.low != [] {
      assert Join(Take(q)) == Join(q)[1..];
    }
  }

  lemma DequeueIsTake(q: Queues)
    requires Proper(q)
    ensures DequeueList(Join(q)) == Join(Take(q)) && Proper(Take(q))
    ensures DequeueResult(Join(q)) == match Front(q) case None => None case Some(x) => Some(x.(status := Dequeued))
  {
    ResortIsIdentity(q);
    JoinFront(q);
  }

  predicate MoreUrgent(p: QueuePriority, q: QueuePriority) {
    || (p == Critical && q != Critical)
    || (p == High && (q == Normal || q == Low))
    || (p == Normal && q == Low)
  }

  lemma UrgencyIsRank(p: QueuePriority, q: QueuePriority)
    ensures MoreUrgent(p, q) <==> Rank(p) < Rank(q)
  {
  }

  /** The first item of the sorted list is the first one of least rank. */
  lemma {:induction false} SortedHead(items: seq<Item>) returns (k: nat)
    requires items != []
    ensures k < |items| && Sort(items, ByRank)[0] == items[k]
    ensures forall j :: 0 <= j < |items| ==> ByRank(items[k], items[j])
    ensures forall j :: 0 <= j < k ==> !ByRank(items[j], items[k])
  {
    var rest := items[1..];
    if rest == [] {
      k := 0;
    } else {
      var m := SortedHead(rest);
      assert forall j :: 0 < j < |items| ==> items[j] == rest[j - 1];
      k := if ByRank(items[0], rest[m]) then 0 else m + 1;
    }
  }

  /** Whatever is in the file: what is handed out was waiting, is marked dequeued, nothing that waited is more
      urgent, and nothing as urgent stood before it. */
  lemma DequeueIsUrgent(items: seq<Item>)
    ensures DequeueResult(items).None? <==> items == []
    ensures items != [] ==>
      exists k :: 0 <= k < |items| && DequeueResult(items) == Some(items[k].(status := Dequeued))
        && (forall j :: 0 <= j < |items| ==> !MoreUrgent(items[j].priority, items[k].priority))
        && (forall j :: 0 <= j < k ==> MoreUrgent(items[k].priority, items[j].priority))
  {
    if items != [] {
      var k := SortedHead(items);
      forall j | 0 <= j < |items|
        ensures !MoreUrgent(items[j].priority, items[k].priority)
        ensures j < k ==> MoreUrgent(items[k].priority, items[j].priority)
      {
        UrgencyIsRank(items[j].priority, items[k].priority);
        UrgencyIsRank(items[k].priority, items[j].priority);
      }
    }
  }

  // ---- whole runs ----

  datatype Op = Enqueue(item: Item) | Dequeue

  /** The list in the file and everything handed out so far. */
  datatype Trace = Trace(items: seq<Item>, taken: seq<Item>)

  function Step(t: Trace, op: Op): (r: Trace) {
    match op
    case Enqueue(item) => t.(items := EnqueueList(t.items, item))
    case Dequeue =>
      Trace(DequeueList(t.items),
            match DequeueResult(t.items) case None => t.taken case Some(x) => t.taken + [x])
  }

  function Run(ops: seq<Op>): (t: Trace) {
    if ops == [] then Trace([], []) else Step(Run(ops[..|ops| - 1]), ops[|ops| - 1])
  }

  /** The queues of the reference and everything they handed out. */
  datatype Model = Model(queues: Queues, taken: seq<Item>)

  function ModelStep(m: Model, op: Op): (r: Model) {
    match op
    case Enqueue(item) => m.(queues := Put(m.queues, item))
    case Dequeue =>
      Model(Take(m.queues),
            match Front(m.queues) case None => m.taken case Some(x) => m.taken + [x.(status := Dequeued)])
  }

  function Reference(ops: seq<Op>): (m: Model) {
    if ops == [] then Model(Queues([], [], [], []), [])
    else ModelStep(Reference(ops[..|ops| - 1]), ops[|ops| - 1])
  }

  ghost predicate Refines(t: Trace, m: Model) {
    Proper(m.queues) && t.items == Join(m.queues) && t.taken == m.taken
  }

  lemma StepRefines(t: Trace, m: Model, op: Op)
    requires Refines(t, m)
    ensures Refines(Step(t, op), ModelStep(m, op))
  {
    match op {
      case Enqueue(item) => EnqueueIsPut(m.queues, item);
      case Dequeue => DequeueIsTake(m.queues);
    }
  }

  /** In every run from an empty file the one sorted list is the four queues joined, highest first, and
      what has been handed out is what the queues hand out: always the oldest item of the highest
      nonempty priority. */
  lemma {:induction false} RunIsFourQueues(ops: seq<Op>)
    ensures Refines(Run(ops), Reference(ops))
    ensures Sort(Run(ops).items, ByRank) == Run(ops).items
    decreases |ops|
  {
    if ops == [] {
    } else {
      RunIsFourQueues(ops[..|ops| - 1]);
      StepRefines(Run(ops[..|ops| - 1]), Reference(ops[..|ops| - 1]), ops[|ops| - 1]);
    }
    ResortIsIdentity(Reference(ops).queues);
  }

  function Enqueued(ops: seq<Op>): (r: seq<Item>) {
    if ops == [] then []
    else Enqueued(ops[..|ops| - 1]) + (if ops[|ops| - 1].Enqueue? then [ops[|ops| - 1].item] else [])
  }

  /** Items as they were while still in the queue. */
  function AsPending(s: seq<Item>): (r: seq<Item>) {
    if s == [] then [] else AsPending(s[..|s| - 1]) + [s[|s| - 1].(status := Pending)]
  }

  lemma AsPendingAppend(s: seq<Item>, x: Item)
    ensures AsPending(s + [x]) == AsPending(s) + [x.(status := Pending)]
  {
  }

  ghost predicate AllPending(s: seq<Item>) {
    forall x :: x in s ==> x.status == Pending
  }

  lemma SortAllPending(s: seq<Item>)
    requires AllPending(s)
    ensures AllPending(Sort(s, ByRank))
  {
    SortMembers(s, ByRank);
  }

  lemma DequeueConserves(t: Trace)
    requires AllPending(t.items)
    ensures var r := Step(t, Dequeue);
      && AllPending(r.items)
      && multiset(AsPending(r.taken)) + multiset(r.items) == multiset(AsPending(t.taken)) + multiset(t.items)
  {
    var sorted := Sort(t.items, ByRank);
    SortAllPending(t.items);
    SortPermutes(t.items, ByRank);
    if sorted == [] {
      assert multiset(t.items) == multiset(sorted);
    } else {
      assert sorted[0] in sorted;
      assert sorted == [sorted[0]] + sorted[1..];
      AsPendingAppend(t.taken, sorted[0].(status := Dequeued));
      assert multiset(t.items) == multiset{sorted[0]} + multiset(sorted[1..]);
    }
  }

  /** Nothing is lost, duplicated or invented: what was enqueued is what was handed out plus what waits. */
  lemma {:induction false} RunConserves(ops: seq<Op>)
    requires AllPending(Enqueued(ops))
    ensures AllPending(Run(ops).items)
    ensures multiset(Enqueued(ops)) == multiset(AsPending(Run(ops).taken)) + multiset(Run(ops).items)
    decreases |ops|
  {
    if ops == [] {
    } else {
      var init, op := ops[..|ops| - 1], ops[|ops| - 1];
      forall x | x in Enqueued(init) ensures x.status == Pending {
        assert x in Enqueued(ops);
      }
      RunConserves(init);
      match op {
        case Enqueue(item) =>
          assert item in Enqueued(ops);
          SortAllPending(Run(init).items + [item]);
          SortPermutes(Run(init).items + [item], ByRank);
        case Dequeue =>
          DequeueConserves(Run(init));
          assert Enqueued(ops) == Enqueued(init);
      }
    }
  }
}
