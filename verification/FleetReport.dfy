/** Aggregation of process snapshots into a fleet report. */
module FleetReport {
  import opened Sequences
  import opened StableSort
  import Lexicographic

  datatype Process = Process(pid: nat, name: string, project: Option<string>, memoryMb: nat)

  datatype Breakdown = Breakdown(count: nat, memoryMb: nat)

  datatype SortBy = Memory | Name

  datatype Report = Report(
    totalProcesses: nat, totalMemoryMb: nat, byProject: map<string, Breakdown>, topConsumers: seq<Process>)

  const UNTAGGED := "<untagged>"
  const TOP: nat := 5

  function Key(p: Process): (k: string) {
    if p.project.Some? then p.project.value else UNTAGGED
  }

  /** Count and memory of the processes filed under `key`. */
  function Tally(ps: seq<Process>, key: string): (b: Breakdown) {
    if ps == [] then Breakdown(0, 0)
    else
      var b := Tally(ps[..|ps| - 1], key);
      var p := ps[|ps| - 1];
      if Key(p) == key then Breakdown(b.count + 1, b.memoryMb + p.memoryMb) else b
  }

  function TotalMemory(ps: seq<Process>): (n: nat) {
    if ps == [] then 0 else TotalMemory(ps[..|ps| - 1]) + ps[|ps| - 1].memoryMb
  }

  /** Descending memory. */
  predicate ByMemory(a: Process, b: Process) {
    a.memoryMb >= b.memoryMb
  }

  predicate ByName(a: Process, b: Process) {
    Lexicographic.Leq(a.name, b.name)
  }

  function SortConsumers(ps: seq<Process>, sort: SortBy): (r: seq<Process>) {
    match sort
    case Memory => Sort(ps, ByMemory)
    case Name => Sort(ps, ByName)
  }

  function Truncate<T>(s: seq<T>, n: nat): (r: seq<T>) {
    if |s| <= n then s else s[..n]
  }

  /** The entry of `key`, if any, is the tally of its processes, and there is one if it has any. */
  ghost predicate FiledUnder(breakdown: map<string, Breakdown>, ps: seq<Process>, key: string) {
    && (key in breakdown <==> Tally(ps, key).count > 0)
    && (key in breakdown ==> breakdown[key] == Tally(ps, key))
  }

  ghost predicate Files(breakdown: map<string, Breakdown>, ps: seq<Process>) {
    forall key :: FiledUnder(breakdown, ps, key)
  }

  ghost function Counts(m: map<string, Breakdown>): nat {
    if m == map[] then 0 else var k :| k in m; m[k].count + Counts(m - {k})
  }

  ghost function Memories(m: map<string, Breakdown>): nat {
    if m == map[] then 0 else var k :| k in m; m[k].memoryMb + Memories(m - {k})
  }

  ghost predicate Balanced(breakdown: map<string, Breakdown>, ps: seq<Process>) {
    Files(breakdown, ps) && Counts(breakdown) == |ps| && Memories(breakdown) == TotalMemory(ps)
  }

  /** The breakdown after filing `p`. */
  function File(breakdown: map<string, Breakdown>, p: Process): (r: map<string, Breakdown>) {
    var key := Key(p);
    var entry := if key in breakdown then breakdown[key] else Breakdown(0, 0);
    breakdown[key := Breakdown(entry.count + 1, entry.memoryMb + p.memoryMb)]
  }

  // ---- per-project figures add up to the totals ----

  lemma TallyAppend(ps: seq<Process>, p: Process, key: string)
    ensures var b := Tally(ps, key);
      Tally(ps + [p], key) == if Key(p) == key then Breakdown(b.count + 1, b.memoryMb + p.memoryMb) else b
  {
  }

  lemma {:induction false} TallyNone(ps: seq<Process>, key: string)
    ensures Tally(ps, key).count == 0 ==> Tally(ps, key).memoryMb == 0
  {
    if ps == [] {
    } else {
      TallyNone(ps[..|ps| - 1], key);
    }
  }

  lemma {:induction false} SumCountsByKey(m: map<string, Breakdown>, k: string)
    requires k in m
    ensures Counts(m) == m[k].count + Counts(m - {k})
    decreases |m|
  {
    var j :| j in m && Counts(m) == m[j].count + Counts(m - {j});
    if j == k {
    } else {
      SumCountsByKey(m - {j}, k);
      SumCountsByKey(m - {k}, j);
      assert m - {j} - {k} == m - {k} - {j};
    }
  }

  lemma {:induction false} SumMemoriesByKey(m: map<string, Breakdown>, k: string)
    requires k in m
    ensures Memories(m) == m[k].memoryMb + Memories(m - {k})
    decreases |m|
  {
    var j :| j in m && Memories(m) == m[j].memoryMb + Memories(m - {j});
    if j == k {
    } else {
      SumMemoriesByKey(m - {j}, k);
      SumMemoriesByKey(m - {k}, j);
      assert m - {j} - {k} == m - {k} - {j};
    }
  }

  /** The sums do not depend on the order in which keys are visited. */
  lemma SumsByKey(m: map<string, Breakdown>, k: string)
    requires k in m
    ensures Counts(m) == m[k].count + Counts(m - {k})
    ensures Memories(m) == m[k].memoryMb + Memories(m - {k})
    decreases |m|
  {
    SumCountsByKey(m, k);
    SumMemoriesByKey(m, k);
  }

  lemma UpdateSums(m: map<string, Breakdown>, k: string, b: Breakdown)
    ensures var before := if k in m then m[k] else Breakdown(0, 0);
      && Counts(m[k := b]) == Counts(m) - before.count + b.count
      && Memories(m[k := b]) == Memories(m) - before.memoryMb + b.memoryMb
  {
    SumsByKey(m[k := b], k);
    assert m[k := b] - {k} == m - {k};
    if k in m {
      SumsByKey(m, k);
    } else {
      assert m - {k} == m;
    }
  }

  lemma FileKeepsBalance(breakdown: map<string, Breakdown>, ps: seq<Process>, p: Process)
    requires Balanced(breakdown, ps)
    ensures Balanced(File(breakdown, p), ps + [p])
    ensures TotalMemory(ps + [p]) == TotalMemory(ps) + p.memoryMb
  {
    assert (ps + [p])[..|ps|] == ps;
    forall key ensures FiledUnder(File(breakdown, p), ps + [p], key) {
      assert FiledUnder(breakdown, ps, key);
      TallyAppend(ps, p, key);
      TallyNone(ps, key);
    }
    var key := Key(p);
    UpdateSums(breakdown, key, File(breakdown, p)[key]);
  }

  // ---- the code ----

  /** The loop over processes: every project's figures are those of its processes, and over all projects
      they add up to the totals. */
  method Aggregate(ps: seq<Process>) returns (total: nat, byProject: map<string, Breakdown>)
    ensures total == TotalMemory(ps) && Balanced(byProject, ps)
  {
    total, byProject := 0, map[];
    var i := 0;
    while i < |ps|
      invariant 0 <= i <= |ps|
      invariant total == TotalMemory(ps[..i]) && Balanced(byProject, ps[..i])
    {
      FileKeepsBalance(byProject, ps[..i], ps[i]);
      assert ps[..i + 1] == ps[..i] + [ps[i]];
      byProject := File(byProject, ps[i]);
      total := total + ps[i].memoryMb;
      i := i + 1;
    }
    assert ps[..i] == ps;
  }

  function TopConsumers(ps: seq<Process>, sort: SortBy): (r: seq<Process>) {
    SortConsumers(Truncate(Sort(ps, ByMemory), TOP), sort)
  }

  method BuildReport(ps: seq<Process>, sort: SortBy) returns (r: Report)
    ensures r.totalProcesses == |ps| && r.totalMemoryMb == TotalMemory(ps)
    ensures Balanced(r.byProject, ps)
    ensures r.topConsumers == TopConsumers(ps, sort)
  {
    var total, byProject := Aggregate(ps);
    var candidates := Sort(ps, ByMemory);
    candidates := Truncate(candidates, TOP);
    candidates := SortConsumers(candidates, sort);
    r := Report(|ps|, total, byProject, candidates);
  }

  /** Count and memory of the processes whose project is `project`. */
  function OfProject(ps: seq<Process>, project: Option<string>): (b: Breakdown) {
    if ps == [] then Breakdown(0, 0)
    else
      var b, p := OfProject(ps[..|ps| - 1], project), ps[|ps| - 1];
      if p.project == project then Breakdown(b.count + 1, b.memoryMb + p.memoryMb) else b
  }

  /** Every line is that of the processes tagged with its name, apart from the one line that also takes the processes
      without a project: so differently tagged processes are on different lines. */
  lemma {:induction false} LinePerTag(ps: seq<Process>, name: string)
    ensures name != "<untagged>" ==> Tally(ps, name) == OfProject(ps, Some(name))
    ensures var tagged, rest := OfProject(ps, Some("<untagged>")), OfProject(ps, None);
      Tally(ps, "<untagged>") == Breakdown(tagged.count + rest.count, tagged.memoryMb + rest.memoryMb)
  {
    if ps == [] {
    } else {
      LinePerTag(ps[..|ps| - 1], name);
    }
  }

  // ---- the untagged line ----

  function Untagged(ps: seq<Process>): (n: nat) {
    if ps == [] then 0 else Untagged(ps[..|ps| - 1]) + (if ps[|ps| - 1].project.None? then 1 else 0)
  }

  /** The line for processes without a project counts only those if and only if no project bears its name. */
  lemma {:induction false} UntaggedLineIff(ps: seq<Process>)
    ensures Tally(ps, UNTAGGED).count >= Untagged(ps)
    ensures Tally(ps, UNTAGGED).count == Untagged(ps) <==> forall p :: p in ps ==> p.project != Some(UNTAGGED)
  {
    if ps == [] {
    } else {
      var init, p := ps[..|ps| - 1], ps[|ps| - 1];
      UntaggedLineIff(init);
      assert ps == init + [p];
    }
  }

  // ---- the top consumers ----

  lemma MemoryIsTotal()
    ensures TotalPreorder(ByMemory)
  {
  }

  lemma NameIsTotal()
    ensures TotalPreorder(ByName)
  {
    forall x: Process, y: Process ensures ByName(x, y) || ByName(y, x) {
      Lexicographic.Total(x.name, y.name);
    }
    forall x: Process, y: Process, z: Process | ByName(x, y) && ByName(y, z) ensures ByName(x, z) {
      Lexicographic.Transitive(x.name, y.name, z.name);
    }
  }

  /** In a list sorted by memory no later process uses more than an earlier one. */
  lemma PrefixDominates(all: seq<Process>, k: nat, x: Process, y: Process)
    requires Sorted(all, ByMemory) && k <= |all| && x in all[k..] && y in all[..k]
    ensures x.memoryMb <= y.memoryMb
  {
  }

  lemma SortConsumersSorts(ps: seq<Process>, sort: SortBy)
    ensures multiset(SortConsumers(ps, sort)) == multiset(ps) && |SortConsumers(ps, sort)| == |ps|
    ensures Sorted(SortConsumers(ps, sort), if sort.Memory? then ByMemory else ByName)
  {
    match sort {
      case Memory =>
        MemoryIsTotal();
        SortSorted(ps, ByMemory);
        SortPermutes(ps, ByMemory);
      case Name =>
        NameIsTotal();
        SortSorted(ps, ByName);
        SortPermutes(ps, ByName);
    }
  }

  lemma SplitPermutes(ps: seq<Process>, all: seq<Process>, k: nat)
    requires multiset(all) == multiset(ps) && k <= |all|
    ensures multiset(ps) == multiset(all[..k]) + multiset(all[k..])
  {
    assert all == all[..k] + all[k..];
  }

  function Listed(ps: seq<Process>): (k: nat)
    ensures k <= |ps|
  {
    if |ps| <= TOP then |ps| else TOP
  }

  /** The processes that do not make the list. */
  function Omitted(ps: seq<Process>): (r: seq<Process>) {
    Sort(ps, ByMemory)[Listed(ps)..]
  }

  /** The five (or all) listed processes and the omitted ones together are the input, each once; the list
      is in the requested order; and the requested order does not change which processes are listed. */
  lemma TopConsumersPartition(ps: seq<Process>, sort: SortBy)
    ensures |TopConsumers(ps, sort)| == Listed(ps) == if |ps| < 5 then |ps| else 5
    ensures multiset(ps) == multiset(TopConsumers(ps, sort)) + multiset(Omitted(ps))
    ensures multiset(TopConsumers(ps, sort)) == multiset(Sort(ps, ByMemory)[..Listed(ps)])
    ensures var r := TopConsumers(ps, sort);
      forall i, j :: 0 <= i < j < |r| ==>
        if sort.Memory? then r[i].memoryMb >= r[j].memoryMb else Lexicographic.Leq(r[i].name, r[j].name)
  {
    var all, k := Sort(ps, ByMemory), Listed(ps);
    assert Truncate(all, TOP) == all[..k];
    SortPermutes(ps, ByMemory);
    SplitPermutes(ps, all, k);
    SortConsumersSorts(all[..k], sort);
  }

  /** No omitted process uses more memory than a listed one. */
  lemma TopConsumersDominate(ps: seq<Process>, sort: SortBy, x: Process, y: Process)
    requires x in Omitted(ps) && y in TopConsumers(ps, sort)
    ensures x.memoryMb <= y.memoryMb
  {
    var all, k := Sort(ps, ByMemory), Listed(ps);
    MemoryIsTotal();
    SortSorted(ps, ByMemory);
    TopConsumersPartition(ps, sort);
    assert y in multiset(TopConsumers(ps, sort));
    assert y in all[..k];
    PrefixDominates(all, k, x, y);
  }
}
