/** The weighted directed graph and its breadth-first search. */
module Graph {
  import opened Sequences

  type Adjacency = map<nat, seq<(nat, nat)>>

  ghost predicate HasEdge(adj: Adjacency, u: nat, v: nat) {
    u in adj && exists k :: 0 <= k < |adj[u]| && adj[u][k].0 == v
  }

  /** Every edge ends at a node of the graph. */
  ghost predicate Closed(adj: Adjacency) {
    forall u, k :: u in adj && 0 <= k < |adj[u]| ==> adj[u][k].0 in adj
  }

  /** There is a walk of exactly `n` edges from `start` to `v`. */
  ghost predicate Walk(adj: Adjacency, start: nat, v: nat, n: nat)
    decreases n
  {
    if n == 0 then v == start
    else exists u :: Walk(adj, start, u, n - 1) && HasEdge(adj, u, v)
  }

  ghost predicate Reachable(adj: Adjacency, start: nat, v: nat) {
    exists n: nat :: Walk(adj, start, v, n)
  }

  /** `d` is the number of edges on a shortest walk. */
  ghost predicate IsDistance(adj: Adjacency, start: nat, v: nat, d: nat) {
    Walk(adj, start, v, d) && forall n: nat :: Walk(adj, start, v, n) ==> d <= n
  }

  ghost predicate InDistanceOrder(adj: Adjacency, start: nat, order: seq<nat>) {
    forall i, j, a, b |
      0 <= i < j < |order| && IsDistance(adj, start, order[i], a) && IsDistance(adj, start, order[j], b) ::
      a <= b
  }

  lemma {:induction false} ShortestWalkExists(adj: Adjacency, start: nat, v: nat, n: nat) returns (d: nat)
    requires Walk(adj, start, v, n)
    ensures IsDistance(adj, start, v, d)
  {
    if m: nat :| m < n && Walk(adj, start, v, m) {
      d := ShortestWalkExists(adj, start, v, m);
    } else {
      d := n;
    }
  }

  // ---- invariants of the search ----

  ghost predicate Ascending(list: seq<nat>, depth: map<nat, nat>) {
    && (forall v :: v in list ==> v in depth)
    && forall i, j :: 0 <= i < j < |list| ==> depth[list[i]] <= depth[list[j]]
  }

  /** Listed nodes are distinct nodes of the graph, labelled by the length of some walk, and the
      labels never decrease along the list. */
  ghost predicate Labelled(adj: Adjacency, start: nat, list: seq<nat>, depth: map<nat, nat>) {
    && |list| > 0 && list[0] == start && start in depth && depth[start] == 0
    && NoDup(list)
    && (forall v :: v in list <==> v in depth)
    && (forall v :: v in list ==> v in adj && Walk(adj, start, v, depth[v]))
    && Ascending(list, depth)
  }

  /** All edges out of `u` up to the `k`-th lead to labelled nodes at most one step further. */
  ghost predicate Relaxed(adj: Adjacency, depth: map<nat, nat>, u: nat, k: nat) {
    && u in adj && u in depth && k <= |adj[u]|
    && forall j :: 0 <= j < k ==> adj[u][j].0 in depth && depth[adj[u][j].0] <= depth[u] + 1
  }

  ghost predicate AllRelaxed(adj: Adjacency, depth: map<nat, nat>, done: seq<nat>) {
    forall u :: u in done ==> u in adj && Relaxed(adj, depth, u, |adj[u]|)
  }

  ghost predicate LabelsUpTo(list: seq<nat>, depth: map<nat, nat>, bound: nat) {
    forall v :: v in list ==> v in depth && depth[v] <= bound
  }

  /** Once every listed node is relaxed, a walk of `n` edges ends at a node labelled `n` or less. */
  lemma {:induction false} WalkIsLabelled(
    adj: Adjacency, start: nat, list: seq<nat>, depth: map<nat, nat>, v: nat, n: nat)
    requires Labelled(adj, start, list, depth) && AllRelaxed(adj, depth, list) && Walk(adj, start, v, n)
    ensures v in depth && depth[v] <= n
    decreases n
  {
    if n == 0 {
    } else {
      var u :| Walk(adj, start, u, n - 1) && HasEdge(adj, u, v);
      WalkIsLabelled(adj, start, list, depth, u, n - 1);
      assert u in list && Relaxed(adj, depth, u, |adj[u]|);
    }
  }

  lemma LabelsAreDistances(adj: Adjacency, start: nat, list: seq<nat>, depth: map<nat, nat>, v: nat)
    requires Labelled(adj, start, list, depth) && AllRelaxed(adj, depth, list)
    ensures v in list <==> Reachable(adj, start, v)
    ensures v in list ==> IsDistance(adj, start, v, depth[v])
  {
    forall n: nat | Walk(adj, start, v, n) ensures v in depth && depth[v] <= n {
      WalkIsLabelled(adj, start, list, depth, v, n);
    }
  }

  lemma AscendingAppend(list: seq<nat>, depth: map<nat, nat>, next: nat, d: nat)
    requires Ascending(list, depth) && next !in depth && LabelsUpTo(list, depth, d)
    ensures Ascending(list + [next], depth[next := d]) && LabelsUpTo(list + [next], depth[next := d], d)
  {
  }

  lemma WalkOn(adj: Adjacency, start: nat, u: nat, v: nat, n: nat)
    requires Walk(adj, start, u, n) && u in adj && (exists k :: 0 <= k < |adj[u]| && adj[u][k].0 == v)
    ensures Walk(adj, start, v, n + 1)
  {
    assert HasEdge(adj, u, v);
  }

  lemma LabelsExtend(adj: Adjacency, start: nat, list: seq<nat>, depth: map<nat, nat>, next: nat, d: nat)
    requires next !in depth && (forall v :: v in list <==> v in depth) && next in adj && Walk(adj, start, next, d)
    requires forall v :: v in list ==> v in adj && Walk(adj, start, v, depth[v])
    ensures forall v :: v in list + [next] <==> v in depth[next := d]
    ensures forall v :: v in list + [next] ==> v in adj && Walk(adj, start, v, depth[next := d][v])
  {
    assert forall v :: v in list + [next] <==> v in list || v == next;
  }

  lemma NoDupAppend(list: seq<nat>, next: nat)
    requires NoDup(list) && next !in list
    ensures NoDup(list + [next])
  {
  }

  /** Discovering a new node from `u` extends the list by a node one step further. */
  lemma Discover(adj: Adjacency, start: nat, list: seq<nat>, depth: map<nat, nat>, u: nat, k: nat)
    requires Closed(adj) && Labelled(adj, start, list, depth)
    requires u in depth && u in adj && k < |adj[u]| && adj[u][k].0 !in depth
    requires LabelsUpTo(list, depth, depth[u] + 1)
    ensures var next := adj[u][k].0;
      && Labelled(adj, start, list + [next], depth[next := depth[u] + 1])
      && LabelsUpTo(list + [next], depth[next := depth[u] + 1], depth[u] + 1)
  {
    var next := adj[u][k].0;
    AscendingAppend(list, depth, next, depth[u] + 1);
    assert u in list;
    WalkOn(adj, start, u, next, depth[u]);
    assert next in adj;
    NoDupAppend(list, next);
    LabelsExtend(adj, start, list, depth, next, depth[u] + 1);
  }

  lemma RelaxedGrows(adj: Adjacency, depth: map<nat, nat>, done: seq<nat>, next: nat, d: nat)
    requires next !in depth && AllRelaxed(adj, depth, done)
    ensures AllRelaxed(adj, depth[next := d], done)
  {
  }

  // ---- the two loop invariants and the steps between them ----

  ghost predicate BetweenNodes(adj: Adjacency, start: nat, order: seq<nat>, queue: seq<nat>, depth: map<nat, nat>) {
    && Labelled(adj, start, order + queue, depth)
    && AllRelaxed(adj, depth, order)
    && (queue != [] ==> queue[0] in depth && LabelsUpTo(order + queue, depth, depth[queue[0]] + 1))
  }

  /** `n` has just left the queue and its first `k` edges have been followed. */
  ghost predicate InsideNode(
    adj: Adjacency, start: nat, before: seq<nat>, n: nat, queue: seq<nat>, depth: map<nat, nat>, k: nat) {
    && Labelled(adj, start, before + [n] + queue, depth)
    && AllRelaxed(adj, depth, before)
    && Relaxed(adj, depth, n, k)
    && LabelsUpTo(before + [n] + queue, depth, depth[n] + 1)
  }

  lemma StartSearch(adj: Adjacency, start: nat)
    requires start in adj
    ensures BetweenNodes(adj, start, [], [start], map[start := 0])
  {
  }

  lemma EnterNode(adj: Adjacency, start: nat, order: seq<nat>, queue: seq<nat>, depth: map<nat, nat>)
    requires BetweenNodes(adj, start, order, queue, depth) && queue != []
    ensures InsideNode(adj, start, order, queue[0], queue[1..], depth, 0)
    ensures queue[0] !in order && queue[0] in adj
    ensures Elements(order + [queue[0]]) == Elements(order) + {queue[0]}
  {
    var list := order + queue;
    assert list == order + [queue[0]] + queue[1..];
    assert list[|order|] == queue[0];
    assert queue[0] in list;
    assert queue[0] !in order by {
      assert forall i :: 0 <= i < |order| ==> list[i] == order[i];
    }
  }

  lemma VisitNew(adj: Adjacency, start: nat, before: seq<nat>, n: nat, queue: seq<nat>, depth: map<nat, nat>, k: nat)
    requires Closed(adj) && InsideNode(adj, start, before, n, queue, depth, k)
    requires k < |adj[n]| && adj[n][k].0 !in depth
    ensures var next := adj[n][k].0;
      InsideNode(adj, start, before, n, queue + [next], depth[next := depth[n] + 1], k + 1)
  {
    var next := adj[n][k].0;
    var list := before + [n] + queue;
    Discover(adj, start, list, depth, n, k);
    RelaxedGrows(adj, depth, before, next, depth[n] + 1);
    assert list + [next] == before + [n] + (queue + [next]);
  }

  lemma VisitSeen(adj: Adjacency, start: nat, before: seq<nat>, n: nat, queue: seq<nat>, depth: map<nat, nat>, k: nat)
    requires InsideNode(adj, start, before, n, queue, depth, k)
    requires k < |adj[n]| && adj[n][k].0 in depth
    ensures InsideNode(adj, start, before, n, queue, depth, k + 1)
  {
  }

  lemma LeaveNode(adj: Adjacency, start: nat, before: seq<nat>, n: nat, queue: seq<nat>, depth: map<nat, nat>)
    requires n in adj && InsideNode(adj, start, before, n, queue, depth, |adj[n]|)
    ensures BetweenNodes(adj, start, before + [n], queue, depth)
  {
    if queue != [] {
      var list := before + [n] + queue;
      assert list[|before|] == n && list[|before| + 1] == queue[0];
      assert queue[0] in list;
      assert depth[n] <= depth[queue[0]];
    }
  }

  lemma DistanceOrder(adj: Adjacency, start: nat, order: seq<nat>, depth: map<nat, nat>)
    requires Labelled(adj, start, order, depth) && AllRelaxed(adj, depth, order)
    ensures forall v :: v in order <==> Reachable(adj, start, v)
    ensures InDistanceOrder(adj, start, order)
  {
    forall v ensures v in order <==> Reachable(adj, start, v) {
      LabelsAreDistances(adj, start, order, depth, v);
    }
    forall i, j, a, b | 0 <= i < j < |order|
      && IsDistance(adj, start, order[i], a) && IsDistance(adj, start, order[j], b)
      ensures a <= b
    {
      LabelsAreDistances(adj, start, order, depth, order[i]);
      LabelsAreDistances(adj, start, order, depth, order[j]);
      assert depth[order[i]] <= depth[order[j]];
    }
  }

  // ---- the graph ----

  class Graph {
    var adj: Adjacency

    ghost predicate Valid()
      reads this
    {
      Closed(adj)
    }

    constructor ()
      ensures Valid() && adj == map[]
    {
      adj := map[];
    }

    method AddNode(n: nat)
      requires Valid()
      modifies this
      ensures Valid()
      ensures adj.Keys == old(adj.Keys) + {n}
      ensures forall u, v :: HasEdge(adj, u, v) <==> HasEdge(old(adj), u, v)
      ensures forall u :: u in old(adj) ==> adj[u] == old(adj)[u]
    {
      if n !in adj {
        adj := adj[n := []];
      }
    }

    method AddEdge(from: nat, to: nat, weight: nat)
      requires Valid()
      modifies this
      ensures Valid()
      ensures adj.Keys == old(adj.Keys) + {from, to}
      ensures adj[from] == (if from in old(adj) then old(adj)[from] else []) + [(to, weight)]
      ensures forall u :: u in adj && u != from ==> adj[u] == if u in old(adj) then old(adj)[u] else []
    {
      var entry := if from in adj then adj[from] else [];
      adj := adj[from := entry + [(to, weight)]];
      if to !in adj {
        adj := adj[to := []];
      }
    }

    /** The inner loop: put the unvisited successors of `n` at the end of the queue. */
    method VisitEdges(
      ghost start: nat, ghost before: seq<nat>, n: nat, queue0: seq<nat>, visited0: set<nat>,
      ghost depth0: map<nat, nat>)
      returns (queue: seq<nat>, visited: set<nat>, ghost depth: map<nat, nat>)
      requires Valid() && InsideNode(adj, start, before, n, queue0, depth0, 0) && visited0 == depth0.Keys
      ensures n in adj && InsideNode(adj, start, before, n, queue, depth, |adj[n]|) && visited == depth.Keys
    {
      queue, visited, depth := queue0, visited0, depth0;
      var k := 0;
      while k < |adj[n]|
        invariant k <= |adj[n]|
        invariant InsideNode(adj, start, before, n, queue, depth, k) && visited == depth.Keys
      {
        var next := adj[n][k].0;
        if next !in visited {
          VisitNew(adj, start, before, n, queue, depth, k);
          visited := visited + {next};
          queue := queue + [next];
          depth := depth[next := depth[n] + 1];
        } else {
          VisitSeen(adj, start, before, n, queue, depth, k);
        }
        k := k + 1;
      }
    }

    /** Exactly the nodes reachable from `start`, each once, `start` first, in order of distance. */
    method Bfs(start: nat) returns (order: seq<nat>)
      requires Valid() && start in adj
      ensures |order| > 0 && order[0] == start
      ensures NoDup(order)
      ensures forall v :: v in order <==> Reachable(adj, start, v)
      ensures InDistanceOrder(adj, start, order)
    {
      var visited := {start};
      var queue := [start];
      order := [];
      ghost var depth: map<nat, nat> := map[start := 0];
      StartSearch(adj, start);
      while queue != []
        invariant BetweenNodes(adj, start, order, queue, depth) && visited == depth.Keys
        decreases adj.Keys - Elements(order)
      {
        EnterNode(adj, start, order, queue, depth);
        ghost var before := order;
        var n := queue[0];
        queue := queue[1..];
        order := order + [n];
        queue, visited, depth := VisitEdges(start, before, n, queue, visited, depth);
        LeaveNode(adj, start, before, n, queue, depth);
      }
      assert order + queue == order;
      DistanceOrder(adj, start, order, depth);
    }
  }
}
