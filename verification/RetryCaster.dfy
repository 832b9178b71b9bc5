/** The retry wrapper around a caster and the fallback chain of such casters. The answers of the
    inner casters are given; inner calls and sleeps are recorded. Arithmetic on 64-bit delays is checked: an
    overflowing shift or product ends the call. */
module RetryCaster {
  import opened Sequences

  datatype Outcome = Delivered | NeedsFocus | Unsupported(msg: string) | Failed(msg: string)

  const NO_ATTEMPT := "retry exhausted without recorded error"

  const NO_CASTERS := "no casters configured"

  const U64_LIMIT: nat := 0x1_0000_0000_0000_0000

  function Pow2(k: nat): (r: nat)
    ensures r > 0
  {
    if k == 0 then 1 else 2 * Pow2(k - 1)
  }

  /** The `i`-th delay, counted from 0: it doubles every time. */
  function Delay(base: nat, i: nat): (d: nat) {
    if i == 0 then base else 2 * Delay(base, i - 1)
  }

  lemma {:induction false} DelayIsProduct(base: nat, i: nat)
    ensures Delay(base, i) == base * Pow2(i)
  {
    if i == 0 {
    } else {
      DelayIsProduct(base, i - 1);
      assert base * (2 * Pow2(i - 1)) == 2 * (base * Pow2(i - 1));
    }
  }

  /** The delay after failed attempt `k` does not fit in 64 bits. */
  predicate DelayOverflows(base: nat, k: nat)
    requires k >= 1
  {
    k - 1 >= 64 || Delay(base, k - 1) >= U64_LIMIT
  }

  /** A retrying caster, with its label in a fallback chain. `inner` holds what the inner caster answers to
      attempt 1, 2 and so on, up to the number of attempts allowed. */
  datatype Caster = Caster(name: string, inner: seq<Outcome>, base: nat)

  /** What one `send` does: its outcome, or `None` on overflow, the inner calls in order, and the sleeps. */
  datatype SendRun = SendRun(result: Option<Outcome>, calls: seq<nat>, sleeps: seq<nat>)

  /** Attempt `k` is the last one made, if it is made. */
  predicate Ends(c: Caster, k: nat)
    requires 1 <= k <= |c.inner|
  {
    !c.inner[k - 1].Failed? || k == |c.inner| || DelayOverflows(c.base, k)
  }

  function LastCall(c: Caster, k: nat): (n: nat)
    requires 1 <= k <= |c.inner|
    ensures k <= n <= |c.inner|
    decreases |c.inner| - k
  {
    if Ends(c, k) then k else LastCall(c, k + 1)
  }

  lemma {:induction false} LastCallIsFirstEnd(c: Caster, k: nat)
    requires 1 <= k <= |c.inner|
    ensures Ends(c, LastCall(c, k)) && forall j :: k <= j < LastCall(c, k) ==> !Ends(c, j)
    decreases |c.inner| - k
  {
    if Ends(c, k) {
    } else {
      LastCallIsFirstEnd(c, k + 1);
    }
  }

  function UpTo(n: nat): (r: seq<nat>)
    ensures |r| == n && forall i :: 0 <= i < n ==> r[i] == i + 1
  {
    seq(n, i => i + 1)
  }

  function Delays(base: nat, n: nat): (r: seq<nat>)
    ensures |r| == n
  {
    if n == 0 then [] else Delays(base, n - 1) + [Delay(base, n - 1)]
  }

  /** The `send` of one caster, for any outcomes of its inner caster. */
  function Sent(c: Caster): (run: SendRun) {
    if |c.inner| == 0 then SendRun(Some(Failed(NO_ATTEMPT)), [], [])
    else
      var n := LastCall(c, 1);
      var last := c.inner[n - 1];
      SendRun(if last.Failed? && n < |c.inner| then None else Some(last), UpTo(n), Delays(c.base, n - 1))
  }

  /** It stops at the first outcome that is no failure or at the last attempt, sleeping between attempts,
      unless a delay before that does not fit. */
  lemma SentStops(c: Caster)
    ensures var run := Sent(c);
      var n := |run.calls|;
      && n <= |c.inner| && (|c.inner| > 0 ==> n >= 1)
      // every call before the last one made failed, with a delay that fits
      && (forall k :: 0 <= k < n - 1 ==> c.inner[k].Failed?)
      && (forall k :: 1 <= k < n ==> !DelayOverflows(c.base, k))
      // overflow: a failed attempt before the last one allowed has a delay that does not fit
      && (run.result.None? <==> 1 <= n < |c.inner| && c.inner[n - 1].Failed?)
      && (run.result.None? ==> DelayOverflows(c.base, n))
      // otherwise the outcome of the last call made
      && (run.result.Some? && n > 0 ==> run.result.value == c.inner[n - 1])
      && (run.result.Some? && n == 0 ==> run.result.value == Failed("retry exhausted without recorded error"))
      // the calls are numbered from 1, with one sleep between calls
      && run.calls == UpTo(n)
      && run.sleeps == Delays(c.base, if n == 0 then 0 else n - 1)
  {
    if |c.inner| > 0 {
      LastCallIsFirstEnd(c, 1);
      var n := LastCall(c, 1);
      forall k | 0 <= k < n - 1 ensures c.inner[k].Failed? {
        assert !Ends(c, k + 1);
      }
      forall k | 1 <= k < n ensures !DelayOverflows(c.base, k) {
        assert !Ends(c, k);
      }
    }
  }

  lemma FirstEndIsLastCall(c: Caster, n: nat)
    requires 1 <= n <= |c.inner| && Ends(c, n) && forall k :: 1 <= k < n ==> !Ends(c, k)
    ensures LastCall(c, 1) == n
  {
    LastCallIsFirstEnd(c, 1);
  }

  method Send(c: Caster) returns (run: SendRun)
    ensures run == Sent(c)
  {
    var last: Option<Outcome> := None;
    var calls, sleeps := [], [];
    var attempt := 1;
    while attempt <= |c.inner|
      invariant 1 <= attempt <= |c.inner| + 1
      invariant forall k :: 1 <= k < attempt && k < |c.inner| ==> !Ends(c, k)
      invariant last == if attempt == 1 then None else Some(c.inner[attempt - 2])
      invariant last.Some? ==> last.value.Failed?
      invariant calls == UpTo(attempt - 1)
      invariant sleeps ==
        Delays(c.base, if attempt <= |c.inner| then attempt - 1 else if attempt == 1 then 0 else attempt - 2)
    {
      var outcome := c.inner[attempt - 1];
      calls := calls + [attempt];
      if !outcome.Failed? {
        FirstEndIsLastCall(c, attempt);
        return SendRun(Some(outcome), calls, sleeps);
      }
      last := Some(outcome);
      if attempt < |c.inner| {
        DelayIsProduct(c.base, attempt - 1);
        var factor := Pow2(attempt - 1);
        if attempt - 1 >= 64 || c.base * factor >= U64_LIMIT {
          FirstEndIsLastCall(c, attempt);
          return SendRun(None, calls, sleeps);
        }
        sleeps := sleeps + [c.base * factor];
      }
      attempt := attempt + 1;
    }
    if |c.inner| > 0 {
      FirstEndIsLastCall(c, |c.inner|);
    }
    run := SendRun(if last.Some? then last else Some(Failed(NO_ATTEMPT)), calls, sleeps);
  }

  function Sum(s: seq<nat>): (r: nat) {
    if s == [] then 0 else Sum(s[..|s| - 1]) + s[|s| - 1]
  }

  lemma DoubleMinusOne(base: nat, a: nat)
    ensures base * (2 * a - 1) == base * (a - 1) + base * a
  {
  }

  function Geometric(base: nat, n: nat): (t: nat) {
    base * (Pow2(n) - 1)
  }

  /** The delays between `n` + 1 calls sum to base times (2^n - 1). */
  lemma {:induction false} TotalSleep(base: nat, n: nat)
    ensures Sum(Delays(base, n)) == Geometric(base, n)
  {
    if n == 0 {
    } else {
      TotalSleep(base, n - 1);
      DelayIsProduct(base, n - 1);
      DoubleMinusOne(base, Pow2(n - 1));
      assert Delays(base, n)[..n - 1] == Delays(base, n - 1);
    }
  }

  lemma {:induction false} OverflowMonotone(base: nat, k: nat, m: nat)
    requires 1 <= k <= m && DelayOverflows(base, k)
    ensures DelayOverflows(base, m)
    decreases m
  {
    if k == m {
    } else {
      OverflowMonotone(base, k, m - 1);
    }
  }

  lemma OverflowsIfAllFail(c: Caster)
    requires |c.inner| > 1 && DelayOverflows(c.base, |c.inner| - 1)
    requires forall k :: 0 <= k < |c.inner| ==> c.inner[k].Failed?
    ensures Sent(c).result.None?
  {
    LastCallIsFirstEnd(c, 1);
    assert Ends(c, |c.inner| - 1);
  }

  lemma FitsIfLastFits(c: Caster)
    requires |c.inner| > 1 ==> !DelayOverflows(c.base, |c.inner| - 1)
    ensures Sent(c).result.Some?
  {
    SentStops(c);
    if Sent(c).result.None? {
      OverflowMonotone(c.base, |Sent(c).calls|, |c.inner| - 1);
    }
  }

  /** No answers of the inner caster make `send` overflow. */
  ghost predicate NeverOverflows(name: string, attempts: nat, base: nat) {
    forall inner: seq<Outcome> :: |inner| == attempts ==> Sent(Caster(name, inner, base)).result.Some?
  }

  lemma NeverOverflowsIffLastFits(name: string, attempts: nat, base: nat)
    ensures NeverOverflows(name, attempts, base) <==> (attempts > 1 ==> !DelayOverflows(base, attempts - 1))
  {
    if attempts > 1 && DelayOverflows(base, attempts - 1) {
      var failing := seq(attempts, i => Failed(""));
      OverflowsIfAllFail(Caster(name, failing, base));
    } else {
      forall inner: seq<Outcome> | |inner| == attempts ensures Sent(Caster(name, inner, base)).result.Some? {
        FitsIfLastFits(Caster(name, inner, base));
      }
    }
  }

  /** With two or more attempts, `send` overflows on no answers if and only if the last delay that can be slept
      fits: the shift by `attempts` - 2 stays below 64 and the product below 2^64. In particular a base of zero
      does not save a wrapper with more than 65 attempts. */
  lemma NeverOverflowsIff(name: string, attempts: nat, base: nat)
    ensures NeverOverflows(name, attempts, base) <==>
            attempts <= 1 || (attempts - 2 < 64 && base * Pow2(attempts - 2) < 0x1_0000_0000_0000_0000)
  {
    NeverOverflowsIffLastFits(name, attempts, base);
    if attempts > 1 {
      DelayIsProduct(base, attempts - 2);
    }
  }

  // ---- the fallback chain ----

  /** An inner call made in a chain: which caster, and which attempt of it. */
  datatype Call = Call(caster: nat, attempt: nat)

  /** What every caster does if it is asked. */
  function Runs(casters: seq<Caster>): (runs: seq<SendRun>)
    ensures |runs| == |casters|
  {
    seq(|casters|, i requires 0 <= i < |casters| => Sent(casters[i]))
  }

  /** The caster answers `Unsupported`, so the chain goes on. */
  predicate PassesOn(run: SendRun) {
    run.result.Some? && run.result.value.Unsupported?
  }

  function CallsOf(i: nat, attempts: seq<nat>): (r: seq<Call>)
    ensures |r| == |attempts| && forall j :: 0 <= j < |r| ==> r[j] == Call(i, attempts[j])
  {
    seq(|attempts|, j requires 0 <= j < |attempts| => Call(i, attempts[j]))
  }

  /** The inner calls when the first `k` casters are each asked once ... */
  function Log(runs: seq<SendRun>, k: nat): (log: seq<Call>)
    requires k <= |runs|
  {
    if k == 0 then [] else Log(runs, k - 1) + CallsOf(k - 1, runs[k - 1].calls)
  }

  /** ... and their sleeps in all. */
  function Slept(runs: seq<SendRun>, k: nat): (t: nat)
    requires k <= |runs|
  {
    if k == 0 then 0 else Slept(runs, k - 1) + Sum(runs[k - 1].sleeps)
  }

  /** What the chain remembers of a caster that answered `Unsupported`. */
  function Complaint(c: Caster, run: SendRun): (msg: string)
    requires PassesOn(run)
  {
    c.name + ": " + run.result.value.msg
  }

  /** Asks the next caster and records its inner calls and its sleeps. */
  method Ask(casters: seq<Caster>, k: nat, log: seq<Call>, slept: nat)
    returns (run: SendRun, log': seq<Call>, slept': nat)
    requires k < |casters| && log == Log(Runs(casters), k) && slept == Slept(Runs(casters), k)
    ensures run == Runs(casters)[k]
    ensures log' == Log(Runs(casters), k + 1) && slept' == Slept(Runs(casters), k + 1)
  {
    run := Send(casters[k]);
    log' := log + CallsOf(k, run.calls);
    slept' := slept + Sum(run.sleeps);
  }

  /** The casters are asked in order until one does not answer `Unsupported`: the earlier ones are asked, the
      later ones are not, and an overflow ends the chain too. */
  method SendWithFallback(casters: seq<Caster>)
    returns (r: Option<Outcome>, asked: nat, log: seq<Call>, slept: nat)
    ensures var runs := Runs(casters);
      && asked <= |casters|
      && (forall i :: 0 <= i < asked - 1 ==> PassesOn(runs[i]))
      && (!(r.Some? && r.value.Unsupported?) ==> asked >= 1 && r == runs[asked - 1].result)
      && (r.Some? && r.value.Unsupported? ==>
            && asked == |casters|
            && (forall i :: 0 <= i < |casters| ==> PassesOn(runs[i]))
            && r.value.msg == if asked == 0 then "no casters configured"
                              else casters[asked - 1].name + ": " + runs[asked - 1].result.value.msg)
      && log == Log(runs, asked) && slept == Slept(runs, asked)
  {
    ghost var runs := Runs(casters);
    var last: Option<string> := None;
    asked, log, slept := 0, [], 0;
    while asked < |casters|
      invariant 0 <= asked <= |casters|
      invariant forall i :: 0 <= i < asked ==> PassesOn(runs[i])
      invariant last == if asked == 0 then None else Some(Complaint(casters[asked - 1], runs[asked - 1]))
      invariant log == Log(runs, asked) && slept == Slept(runs, asked)
    {
      var run;
      run, log, slept := Ask(casters, asked, log, slept);
      asked := asked + 1;
      if PassesOn(run) {
        last := Some(Complaint(casters[asked - 1], run));
      } else {
        return run.result, asked, log, slept;
      }
    }
    r := Some(Unsupported(if last.Some? then last.value else NO_CASTERS));
  }

  predicate Before(x: Call, y: Call) {
    x.caster < y.caster || (x.caster == y.caster && x.attempt < y.attempt)
  }

  /** The calls of every run are numbered from 1. */
  ghost predicate Numbered(runs: seq<SendRun>) {
    forall i :: 0 <= i < |runs| ==> runs[i].calls == UpTo(|runs[i].calls|)
  }

  lemma RunsNumbered(casters: seq<Caster>)
    ensures Numbered(Runs(casters))
  {
    forall i | 0 <= i < |casters| ensures Runs(casters)[i].calls == UpTo(|Runs(casters)[i].calls|) {
      SentStops(casters[i]);
    }
  }

  lemma InCallsOf(i: nat, attempts: nat, x: Call)
    ensures x in CallsOf(i, UpTo(attempts)) <==> x.caster == i && 1 <= x.attempt <= attempts
  {
    if x.caster == i && 1 <= x.attempt <= attempts {
      assert CallsOf(i, UpTo(attempts))[x.attempt - 1] == x;
    }
  }

  ghost predicate Exact(log: seq<Call>, runs: seq<SendRun>, k: nat)
    requires k <= |runs|
  {
    && (forall x :: x in log <==> x.caster < k && 1 <= x.attempt <= |runs[x.caster].calls|)
    && (forall i, j :: 0 <= i < j < |log| ==> Before(log[i], log[j]))
  }

  lemma {:induction false} LogOfRuns(runs: seq<SendRun>, k: nat)
    requires k <= |runs| && Numbered(runs)
    ensures Exact(Log(runs, k), runs, k)
    decreases k
  {
    if k == 0 {
    } else {
      var c := k - 1;
      var log, init, more := Log(runs, k), Log(runs, c), CallsOf(c, runs[c].calls);
      LogOfRuns(runs, c);
      forall x ensures x in log <==> x.caster < k && 1 <= x.attempt <= |runs[x.caster].calls| {
        assert x in log <==> x in init || x in more;
        InCallsOf(c, |runs[c].calls|, x);
      }
      forall i, j | 0 <= i < j < |log| ensures Before(log[i], log[j]) {
        assert i < |init| ==> log[i] == init[i] && init[i] in init;
      }
    }
  }

  /** The log of a chain holds exactly the attempts of the casters asked, each once, caster by caster and
      attempt by attempt. */
  lemma LogIsExact(casters: seq<Caster>, asked: nat)
    requires asked <= |casters|
    ensures Exact(Log(Runs(casters), asked), Runs(casters), asked)
  {
    RunsNumbered(casters);
    LogOfRuns(Runs(casters), asked);
  }

  /** The number of inner calls of caster `i`. */
  function CountOf(log: seq<Call>, i: nat): (n: nat) {
    if log == [] then 0 else CountOf(log[..|log| - 1], i) + if log[|log| - 1].caster == i then 1 else 0
  }

  lemma {:induction false} CountOfAll(log: seq<Call>, more: seq<Call>, k: nat, i: nat)
    requires forall j :: 0 <= j < |more| ==> more[j].caster == k
    ensures CountOf(log + more, i) == CountOf(log, i) + if i == k then |more| else 0
    decreases |more|
  {
    if more == [] {
      assert log + more == log;
    } else {
      var last := |more| - 1;
      assert (log + more)[..|log + more| - 1] == log + more[..last];
      CountOfAll(log, more[..last], k, i);
    }
  }

  /** So each caster asked makes the inner calls of its own `send` and every other caster makes none. */
  lemma {:induction false} CallsPerCaster(runs: seq<SendRun>, asked: nat, i: nat)
    requires asked <= |runs|
    ensures CountOf(Log(runs, asked), i) == if i < asked then |runs[i].calls| else 0
    decreases asked
  {
    if asked == 0 {
    } else {
      CallsPerCaster(runs, asked - 1, i);
      CountOfAll(Log(runs, asked - 1), CallsOf(asked - 1, runs[asked - 1].calls), asked - 1, i);
    }
  }

  lemma SleepsOfOne(c: Caster)
    ensures Sum(Sent(c).sleeps) == Geometric(c.base, |Sent(c).sleeps|)
  {
    SentStops(c);
    TotalSleep(c.base, |Sent(c).sleeps|);
  }

  /** What `k` casters with these bases sleep in closed form. */
  function GeometricSum(casters: seq<Caster>, runs: seq<SendRun>, k: nat): (t: nat)
    requires k <= |casters| == |runs|
  {
    if k == 0 then 0
    else GeometricSum(casters, runs, k - 1) + Geometric(casters[k - 1].base, |runs[k - 1].sleeps|)
  }

  lemma {:induction false} SumOfSleeps(casters: seq<Caster>, runs: seq<SendRun>, k: nat)
    requires k <= |casters| == |runs|
    requires forall i :: 0 <= i < |runs| ==> Sum(runs[i].sleeps) == Geometric(casters[i].base, |runs[i].sleeps|)
    ensures Slept(runs, k) == GeometricSum(casters, runs, k)
    decreases k
  {
    if k == 0 {
    } else {
      SumOfSleeps(casters, runs, k - 1);
    }
  }

  /** The time slept by a chain is the sum of base times (2^(calls - 1) - 1) over the casters asked. */
  lemma TotalSlept(casters: seq<Caster>, asked: nat)
    requires asked <= |casters|
    ensures Slept(Runs(casters), asked) == GeometricSum(casters, Runs(casters), asked)
  {
    var runs := Runs(casters);
    forall i | 0 <= i < |runs| ensures Sum(runs[i].sleeps) == Geometric(casters[i].base, |runs[i].sleeps|) {
      SleepsOfOne(casters[i]);
    }
    SumOfSleeps(casters, runs, asked);
  }
}
