/** The health states of the monitored processes, driven by rounds of endpoint probes whose results are
    inputs. */
module HealthCheck {
  import opened Sequences

  datatype Status = Status(healthy: bool, failures: nat, lastError: Option<string>)

  function Default(): (s: Status) {
    Status(true, 0, None)
  }

  /** The first error among the endpoints, in order. */
  function FirstError(results: seq<Option<string>>): (r: Option<string>)
    ensures r.None? <==> forall i :: 0 <= i < |results| ==> results[i].None?
    ensures r.Some? ==>
      exists i :: 0 <= i < |results| && results[i] == r && forall j :: 0 <= j < i ==> results[j].None?
  {
    if results == [] then None
    else if results[0].Some? then results[0]
    else FirstError(results[1..])
  }

  /** The status after one round with first error `e`. */
  function After(s: Status, e: Option<string>, threshold: nat): (r: Status) {
    if e.None? then Default()
    else Status(s.healthy && s.failures + 1 < threshold, s.failures + 1, e)
  }

  predicate Notifies(s: Status, e: Option<string>, threshold: nat) {
    e.Some? && s.failures + 1 >= threshold && s.healthy
  }

  /** The statuses by process name and the names notified so far. */
  datatype Board = Board(store: map<string, Status>, notified: seq<string>)

  function StatusIn(store: map<string, Status>, name: string): (s: Status) {
    if name in store then store[name] else Default()
  }

  /** What a round of probes of `name` does; `results` are the errors of its endpoints, none if there are none. */
  function Probed(b: Board, name: string, results: seq<Option<string>>, threshold: nat): (b': Board) {
    if results == [] then b
    else
      var s, e := StatusIn(b.store, name), FirstError(results);
      Board(b.store[name := After(s, e, threshold)], b.notified + if Notifies(s, e, threshold) then [name] else [])
  }

  class Monitor {
    var store: map<string, Status>
    var notified: seq<string>

    constructor ()
      ensures store == map[] && notified == []
    {
      store, notified := map[], [];
    }

    method ProbeAll(name: string, results: seq<Option<string>>, threshold: nat)
      modifies this
      ensures Board(store, notified) == Probed(Board(old(store), old(notified)), name, results, threshold)
    {
      if results == [] {
        return;
      }
      var allOk := true;
      var lastError: Option<string> := None;
      var i := 0;
      while i < |results|
        invariant 0 <= i <= |results| && allOk && lastError == None
        invariant FirstError(results) == FirstError(results[i..])
      {
        if results[i].Some? {
          allOk := false;
          lastError := results[i];
          break;
        }
        assert results[i..][1..] == results[i + 1..];
        i := i + 1;
      }
      var status := if name in store then store[name] else Default();
      if allOk {
        status := Status(true, 0, None);
      } else {
        status := status.(failures := status.failures + 1, lastError := lastError);
        if status.failures >= threshold {
          if status.healthy {
            notified := notified + [name];
          }
          status := status.(healthy := false);
        }
      }
      store := store[name := status];
    }
  }

  // ---- the rounds of one process ----

  type Rounds = seq<Option<string>>

  function Run(rounds: Rounds, threshold: nat): (s: Status) {
    if rounds == [] then Default() else After(Run(rounds[..|rounds| - 1], threshold), rounds[|rounds| - 1], threshold)
  }

  function Notifications(rounds: Rounds, threshold: nat): (n: nat) {
    if rounds == [] then 0
    else
      Notifications(rounds[..|rounds| - 1], threshold) +
      (if Notifies(Run(rounds[..|rounds| - 1], threshold), rounds[|rounds| - 1], threshold) then 1 else 0)
  }

  /** Length of the run of failed rounds at the end. */
  function Trailing(rounds: Rounds): (n: nat)
    ensures n <= |rounds|
  {
    if rounds == [] || rounds[|rounds| - 1].None? then 0 else 1 + Trailing(rounds[..|rounds| - 1])
  }

  /** Length of the run of failed rounds at the start. */
  function Leading(rounds: Rounds): (n: nat)
    ensures n <= |rounds|
    ensures n < |rounds| ==> rounds[n].None?
    ensures forall i :: 0 <= i < n ==> rounds[i].Some?
  {
    if rounds == [] || rounds[0].None? then 0 else 1 + Leading(rounds[1..])
  }

  /** The lengths of the maximal runs of failed rounds, in order. */
  function FailureRuns(rounds: Rounds): (r: seq<nat>)
    decreases |rounds|
  {
    if rounds == [] then []
    else if rounds[0].None? then FailureRuns(rounds[1..])
    else [Leading(rounds)] + FailureRuns(rounds[Leading(rounds)..])
  }

  function CountAtLeast(lengths: seq<nat>, limit: nat): (n: nat) {
    if lengths == [] then 0
    else CountAtLeast(lengths[..|lengths| - 1], limit) + (if lengths[|lengths| - 1] >= limit then 1 else 0)
  }

  function EffectiveThreshold(threshold: nat): (n: nat) {
    if threshold < 1 then 1 else threshold
  }

  lemma {:induction false} TrailingOfSuffix(rounds: Rounds, n: nat)
    requires n < |rounds| && rounds[n].None?
    ensures Trailing(rounds) == Trailing(rounds[n..])
    decreases |rounds|
  {
    var last := |rounds| - 1;
    if n == last || rounds[last].None? {
    } else {
      TrailingOfSuffix(rounds[..last], n);
      assert rounds[n..][..last - n] == rounds[..last][n..];
    }
  }

  lemma {:induction false} TrailingOfAllFailed(rounds: Rounds)
    requires forall i :: 0 <= i < |rounds| ==> rounds[i].Some?
    ensures Trailing(rounds) == |rounds|
    decreases |rounds|
  {
    if rounds == [] {
    } else {
      TrailingOfAllFailed(rounds[..|rounds| - 1]);
    }
  }

  lemma LeadingUnique(rounds: Rounds, n: nat)
    requires n <= |rounds| && (n < |rounds| ==> rounds[n].None?)
    requires forall i :: 0 <= i < n ==> rounds[i].Some?
    ensures Leading(rounds) == n
  {
  }

  /** How the maximal runs change when one more round is appended. */
  ghost predicate RunsExtend(runs: seq<nat>, trailing: nat, runs': seq<nat>, failed: bool) {
    && (trailing > 0 ==> runs != [] && runs[|runs| - 1] == trailing)
    && (!failed ==> runs' == runs)
    && (failed && trailing == 0 ==> runs' == runs + [1])
    && (failed && trailing > 0 ==> runs != [] && runs' == runs[..|runs| - 1] + [trailing + 1])
  }

  lemma {:induction false} TrailingOfSuffixTail(rounds: Rounds)
    requires rounds != [] && rounds[0].None?
    ensures Trailing(rounds) == Trailing(rounds[1..])
    decreases |rounds|
  {
    var last := |rounds| - 1;
    if last == 0 || rounds[last].None? {
    } else {
      TrailingOfSuffixTail(rounds[..last]);
      assert rounds[1..][..last - 1] == rounds[..last][1..];
    }
  }

  lemma AppendBehind(n: nat, runs: seq<nat>, trailing: nat, runs': seq<nat>, failed: bool)
    requires RunsExtend(runs, trailing, runs', failed)
    ensures RunsExtend([n] + runs, trailing, [n] + runs', failed)
  {
  }

  lemma {:induction false} AppendRound(rounds: Rounds, e: Option<string>)
    ensures RunsExtend(FailureRuns(rounds), Trailing(rounds), FailureRuns(rounds + [e]), e.Some?)
    decreases |rounds|
  {
    var more := rounds + [e];
    if rounds == [] {
      assert more == [e];
      if e.Some? {
        LeadingUnique(more, 1);
        assert more[1..] == [];
      } else {
        assert more[1..] == [];
      }
    } else if rounds[0].None? {
      TrailingOfSuffixTail(rounds);
      assert more[1..] == rounds[1..] + [e];
      AppendRound(rounds[1..], e);
    } else {
      var n := Leading(rounds);
      if n < |rounds| {
        LeadingUnique(more, n);
        assert more[n..] == rounds[n..] + [e];
        AppendRound(rounds[n..], e);
        TrailingOfSuffix(rounds, n);
        AppendBehind(n, FailureRuns(rounds[n..]), Trailing(rounds), FailureRuns(rounds[n..] + [e]), e.Some?);
      } else {
        TrailingOfAllFailed(rounds);
        assert rounds[n..] == [];
        if e.Some? {
          LeadingUnique(more, n + 1);
          assert more[n + 1..] == [];
        } else {
          LeadingUnique(more, n);
          assert more[n..] == [e] && [e][1..] == [];
        }
      }
    }
  }

  lemma CountExtends(runs: seq<nat>, trailing: nat, runs': seq<nat>, failed: bool, limit: nat)
    requires limit >= 1 && RunsExtend(runs, trailing, runs', failed)
    ensures CountAtLeast(runs', limit) == CountAtLeast(runs, limit) + (if failed && trailing + 1 == limit then 1 else 0)
  {
  }

  /** For every sequence of rounds: the failure counter is the length of the trailing run of failures, the
      process is unhealthy exactly when that run has reached the threshold (at least 1), and there has been
      one notification for each maximal run of failures that reached it. */
  lemma {:induction false} StatusOfRounds(rounds: Rounds, threshold: nat)
    ensures var s := Run(rounds, threshold);
      && s.failures == Trailing(rounds)
      && (s.healthy <==> Trailing(rounds) < EffectiveThreshold(threshold))
      && s.lastError == (if Trailing(rounds) == 0 then None else rounds[|rounds| - 1])
    ensures Notifications(rounds, threshold) == CountAtLeast(FailureRuns(rounds), EffectiveThreshold(threshold))
    decreases |rounds|
  {
    if rounds == [] {
    } else {
      var init, e := rounds[..|rounds| - 1], rounds[|rounds| - 1];
      assert rounds == init + [e];
      StatusOfRounds(init, threshold);
      AppendRound(init, e);
      CountExtends(FailureRuns(init), Trailing(init), FailureRuns(rounds), e.Some?, EffectiveThreshold(threshold));
    }
  }

  // ---- the rounds of many processes, interleaved ----

  /** What the polling task of a process does: it seeds the entry of the process, then probes in rounds. */
  datatype Event = Seed(name: string) | Round(name: string, results: seq<Option<string>>)

  function Seeded(b: Board, name: string): (b': Board) {
    if name in b.store then b else b.(store := b.store[name := Default()])
  }

  /** The board after these events, each process with its own threshold. */
  function Boarded(events: seq<Event>, thresholds: map<string, nat>): (b: Board)
    requires forall i :: 0 <= i < |events| ==> events[i].name in thresholds
  {
    if events == [] then Board(map[], [])
    else
      var b, last := Boarded(events[..|events| - 1], thresholds), events[|events| - 1];
      match last
      case Seed(name) => Seeded(b, name)
      case Round(name, results) => Probed(b, name, results, thresholds[name])
  }

  /** Position of the first failed endpoint, or the number of endpoints when none failed. */
  function FirstFailed(results: seq<Option<string>>): (n: nat)
    ensures n <= |results| && (n < |results| ==> results[n].Some?)
    ensures forall j :: 0 <= j < n ==> results[j].None?
  {
    if results == [] || results[0].Some? then 0 else 1 + FirstFailed(results[1..])
  }

  /** A round fails if some endpoint failed, and then with the error of the first one. */
  function Outcome(results: seq<Option<string>>): (r: Option<string>) {
    var n := FirstFailed(results);
    if n < |results| then results[n] else None
  }

  lemma FirstErrorIsOutcome(results: seq<Option<string>>)
    ensures FirstError(results) == Outcome(results)
  {
    var r, n := FirstError(results), FirstFailed(results);
    if r.Some? {
      var i :| 0 <= i < |results| && results[i] == r && forall j :: 0 <= j < i ==> results[j].None?;
      assert n >= i && n <= i;
    }
  }

  /** The outcomes of the rounds that probed something of `name`. */
  function Own(events: seq<Event>, name: string): (r: Rounds) {
    if events == [] then []
    else
      var init, last := Own(events[..|events| - 1], name), events[|events| - 1];
      if last.Round? && last.name == name && last.results != [] then init + [Outcome(last.results)] else init
  }

  /** `name` has been seeded or has had a round that probed something. */
  predicate Seen(events: seq<Event>, name: string) {
    exists e :: e in events && e.name == name && (e.Seed? || e.results != [])
  }

  function Count(names: seq<string>, name: string): (n: nat) {
    if names == [] then 0 else Count(names[..|names| - 1], name) + if names[|names| - 1] == name then 1 else 0
  }

  lemma CountAppend(names: seq<string>, more: string, name: string)
    ensures Count(names + [more], name) == Count(names, name) + if more == name then 1 else 0
  {
    assert (names + [more])[..|names|] == names;
  }

  lemma OwnRoundAppended(rounds: Rounds, e: Option<string>, threshold: nat)
    ensures Run(rounds + [e], threshold) == After(Run(rounds, threshold), e, threshold)
    ensures Notifications(rounds + [e], threshold) ==
            Notifications(rounds, threshold) + if Notifies(Run(rounds, threshold), e, threshold) then 1 else 0
  {
    assert (rounds + [e])[..|rounds|] == rounds;
  }

  /** A board agrees with one process's own rounds. */
  ghost predicate Agrees(b: Board, name: string, own: Rounds, threshold: nat) {
    && StatusIn(b.store, name) == Run(own, threshold)
    && Count(b.notified, name) == Notifications(own, threshold)
  }

  lemma OtherProbed(b: Board, other: string, results: seq<Option<string>>, limit: nat, name: string)
    requires other != name
    ensures var b' := Probed(b, other, results, limit);
      && (name in b'.store <==> name in b.store)
      && StatusIn(b'.store, name) == StatusIn(b.store, name)
      && Count(b'.notified, name) == Count(b.notified, name)
  {
    CountAppend(b.notified, other, name);
    assert b.notified + [] == b.notified;
  }

  lemma {:induction false} OwnProbed(b: Board, name: string, results: seq<Option<string>>, own: Rounds, threshold: nat)
    requires Agrees(b, name, own, threshold) && results != []
    ensures Agrees(Probed(b, name, results, threshold), name, own + [FirstError(results)], threshold)
  {
    CountAppend(b.notified, name, name);
    assert b.notified + [] == b.notified;
    OwnRoundAppended(own, FirstError(results), threshold);
  }

  lemma SeenAppend(events: seq<Event>, name: string)
    requires events != []
    ensures var last := events[|events| - 1];
      Seen(events, name) <==>
      Seen(events[..|events| - 1], name) || (last.name == name && (last.Seed? || last.results != []))
  {
    var init, last := events[..|events| - 1], events[|events| - 1];
    assert events == init + [last];
    assert forall e :: e in events <==> e in init || e == last;
  }

  lemma {:induction false} BoardAgrees(events: seq<Event>, thresholds: map<string, nat>, name: string)
    requires name in thresholds && forall i :: 0 <= i < |events| ==> events[i].name in thresholds
    ensures Agrees(Boarded(events, thresholds), name, Own(events, name), thresholds[name])
    ensures name in Boarded(events, thresholds).store <==> Seen(events, name)
    decreases |events|
  {
    if events == [] {
    } else {
      var init, last := events[..|events| - 1], events[|events| - 1];
      BoardAgrees(init, thresholds, name);
      SeenAppend(events, name);
      if last.Seed? {
      } else if last.name != name {
        OtherProbed(Boarded(init, thresholds), last.name, last.results, thresholds[last.name], name);
      } else if last.results != [] {
        FirstErrorIsOutcome(last.results);
        OwnProbed(Boarded(init, thresholds), name, last.results, Own(init, name), thresholds[name]);
      }
    }
  }

  /** Notifications are only ever added, at the end: what had been sent after part of the events is the beginning of
      what has been sent after all of them. */
  lemma {:induction false} NotificationsOnlyGrow(events: seq<Event>, thresholds: map<string, nat>, k: nat)
    requires forall i :: 0 <= i < |events| ==> events[i].name in thresholds
    requires k <= |events|
    ensures Boarded(events[..k], thresholds).notified <= Boarded(events, thresholds).notified
    decreases |events|
  {
    if k == |events| {
      assert events[..k] == events;
    } else {
      var init := events[..|events| - 1];
      assert init[..k] == events[..k];
      NotificationsOnlyGrow(init, thresholds, k);
    }
  }

  /** However the seedings and rounds of the processes interleave, what the store says of a process and how often
      it has been notified depend on its own rounds and its own threshold alone. */
  lemma StoreOfRounds(events: seq<Event>, thresholds: map<string, nat>, name: string)
    requires name in thresholds && forall i :: 0 <= i < |events| ==> events[i].name in thresholds
    ensures var b, own, limit := Boarded(events, thresholds), Own(events, name), EffectiveThreshold(thresholds[name]);
      var s := StatusIn(b.store, name);
      && (name in b.store <==> Seen(events, name))
      && s.failures == Trailing(own)
      && (s.healthy <==> Trailing(own) < limit)
      && s.lastError == (if Trailing(own) == 0 then None else own[|own| - 1])
      && Count(b.notified, name) == CountAtLeast(FailureRuns(own), limit)
  {
    BoardAgrees(events, thresholds, name);
    StatusOfRounds(Own(events, name), thresholds[name]);
  }
}
