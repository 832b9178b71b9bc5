/** The sliding-window limiter, with the monotonic clock as an input in nanoseconds. */
module RateLimiter {
  const NANOS_PER_SEC: nat := 1_000_000_000

  /** `hits.retain(|t| *t > cutoff)` */
  function Retain(hits: seq<int>, cutoff: int): (r: seq<int>)
    ensures forall t :: t in r <==> t in hits && t > cutoff
    ensures |r| <= |hits|
  {
    if hits == [] then []
    else if hits[0] > cutoff then [hits[0]] + Retain(hits[1..], cutoff)
    else Retain(hits[1..], cutoff)
  }

  function Min(hits: seq<int>): (m: int)
    requires hits != []
    ensures m in hits && forall t :: t in hits ==> m <= t
  {
    if |hits| == 1 then hits[0]
    else
      assert hits == [hits[0]] + hits[1..];
      var m := Min(hits[1..]);
      if hits[0] < m then hits[0] else m
  }

  predicate Admits(hits: seq<int>, max: nat, window: nat, now: int) {
    |Retain(hits, now - window)| < max
  }

  function HitsAfter(hits: seq<int>, max: nat, window: nat, now: int): (r: seq<int>) {
    Retain(hits, now - window) + (if Admits(hits, max, window, now) then [now] else [])
  }

  function SaturatingSub(a: nat, b: nat): (r: nat) {
    if a < b then 0 else a - b
  }

  /** `now.duration_since(t)` */
  function Elapsed(t: int, now: int): (r: nat) {
    if now < t then 0 else now - t
  }

  ghost predicate IsOldestLive(hits: seq<int>, cutoff: int, t: int) {
    t in hits && t > cutoff && forall u :: u in hits && u > cutoff ==> t <= u
  }

  function RetryAfter(hits: seq<int>, max: nat, window: nat, now: int): (secs: nat) {
    if |hits| < max then 0
    else
      var live := Retain(hits, now - window);
      if live == [] then 0
      else
        SaturatingSub(window, Elapsed(Min(live), now)) / NANOS_PER_SEC
  }

  /** The advice: 0 under the cap, 0 when every hit has expired, and otherwise the whole seconds, rounded down, until
      the oldest live hit expires. */
  lemma RetryAfterIs(hits: seq<int>, max: nat, window: nat, now: int)
    ensures |hits| < max ==> RetryAfter(hits, max, window, now) == 0
    ensures (forall t :: t in hits ==> t + window <= now) ==> RetryAfter(hits, max, window, now) == 0
    ensures forall t :: |hits| >= max && t in hits && now - window < t <= now && IsOldestLive(hits, now - window, t) ==>
      var r := RetryAfter(hits, max, window, now);
      now + r * 1_000_000_000 <= t + window < now + (r + 1) * 1_000_000_000
  {
    var live := Retain(hits, now - window);
    if live == [] {
    } else {
      assert Min(live) in hits && Min(live) > now - window;
    }
    forall t | |hits| >= max && t in hits && now - window < t <= now && IsOldestLive(hits, now - window, t)
      ensures var r := RetryAfter(hits, max, window, now);
        now + r * NANOS_PER_SEC <= t + window < now + (r + 1) * NANOS_PER_SEC
    {
      assert t in live && Min(live) == t;
    }
  }

  class RateLimiter {
    const max: nat
    const window: nat
    var hits: seq<int>

    constructor (max: nat, window: nat)
      ensures this.max == max && this.window == window && hits == []
    {
      this.max, this.window, hits := max, window, [];
    }

    method TryAcquire(now: int) returns (ok: bool)
      modifies this
      ensures ok == Admits(old(hits), max, window, now)
      ensures hits == HitsAfter(old(hits), max, window, now)
    {
      var cutoff := now - window;
      hits := Retain(hits, cutoff);
      if |hits| < max {
        hits := hits + [now];
        ok := true;
      } else {
        ok := false;
      }
    }

    method RetryAfterSecs(now: int) returns (secs: nat)
      ensures secs == RetryAfter(hits, max, window, now)
    {
      if |hits| < max {
        return 0;
      }
      var live := Retain(hits, now - window);
      if live == [] {
        return 0;
      }
      secs := SaturatingSub(window, Elapsed(Min(live), now)) / NANOS_PER_SEC;
    }
  }

  // ---- whole runs ----

  ghost predicate NonDecreasing(times: seq<int>) {
    forall i, j :: 0 <= i < j < |times| ==> times[i] <= times[j]
  }

  function Hits(calls: seq<int>, max: nat, window: nat): (r: seq<int>) {
    if calls == [] then []
    else HitsAfter(Hits(calls[..|calls| - 1], max, window), max, window, calls[|calls| - 1])
  }

  /** The times of all admitted calls. */
  function Admitted(calls: seq<int>, max: nat, window: nat): (r: seq<int>) {
    if calls == [] then []
    else
      var init, now := calls[..|calls| - 1], calls[|calls| - 1];
      Admitted(init, max, window) + (if Admits(Hits(init, max, window), max, window, now) then [now] else [])
  }

  /** How many of `times` lie in the half-open interval from `lo` to `hi`. */
  function CountIn(times: seq<int>, lo: int, hi: int): (n: nat) {
    if times == [] then 0
    else CountIn(times[1..], lo, hi) + (if lo <= times[0] < hi then 1 else 0)
  }

  lemma {:induction false} RetainTwice(s: seq<int>, c: int, d: int)
    requires c <= d
    ensures Retain(Retain(s, c), d) == Retain(s, d)
  {
    if s == [] {
    } else {
      RetainTwice(s[1..], c, d);
    }
  }

  lemma {:induction false} RetainConcat(s: seq<int>, t: seq<int>, c: int)
    ensures Retain(s + t, c) == Retain(s, c) + Retain(t, c)
  {
    if s == [] {
      assert s + t == t;
    } else {
      assert (s + t)[1..] == s[1..] + t;
      RetainConcat(s[1..], t, c);
    }
  }

  lemma {:induction false} CountInAppend(s: seq<int>, x: int, lo: int, hi: int)
    ensures CountIn(s + [x], lo, hi) == CountIn(s, lo, hi) + (if lo <= x < hi then 1 else 0)
  {
    if s == [] {
      assert s + [x] == [x];
    } else {
      assert (s + [x])[1..] == s[1..] + [x];
      CountInAppend(s[1..], x, lo, hi);
    }
  }

  lemma {:induction false} CountInAtMostRetained(s: seq<int>, lo: int, hi: int, cutoff: int)
    requires cutoff < lo
    ensures CountIn(s, lo, hi) <= |Retain(s, cutoff)|
  {
    if s == [] {
    } else {
      CountInAtMostRetained(s[1..], lo, hi, cutoff);
    }
  }

  lemma {:induction false} RetainedAreCounted(s: seq<int>, cutoff: int, hi: int)
    requires forall t :: t in s ==> t < hi
    ensures |Retain(s, cutoff)| == CountIn(s, cutoff + 1, hi)
  {
    if s == [] {
    } else {
      assert s[0] in s && forall t :: t in s[1..] ==> t in s;
      RetainedAreCounted(s[1..], cutoff, hi);
    }
  }

  /** The pruned list and the full record agree on everything a present or future call looks at. */
  lemma {:induction false} HitsMatchAdmitted(calls: seq<int>, max: nat, window: nat, cutoff: int)
    requires NonDecreasing(calls)
    requires calls != [] ==> cutoff >= calls[|calls| - 1] - window
    ensures Retain(Hits(calls, max, window), cutoff) == Retain(Admitted(calls, max, window), cutoff)
    decreases |calls|
  {
    if calls == [] {
    } else {
      var init, now := calls[..|calls| - 1], calls[|calls| - 1];
      var hits := Hits(init, max, window);
      var last := if Admits(hits, max, window, now) then [now] else [];
      HitsMatchAdmitted(init, max, window, cutoff);
      RetainTwice(hits, now - window, cutoff);
      RetainConcat(Retain(hits, now - window), last, cutoff);
      RetainConcat(Admitted(init, max, window), last, cutoff);
    }
  }

  lemma {:induction false} AdmittedNotLater(calls: seq<int>, max: nat, window: nat)
    requires NonDecreasing(calls)
    ensures calls != [] ==> forall t :: t in Admitted(calls, max, window) ==> t <= calls[|calls| - 1]
    decreases |calls|
  {
    if calls == [] {
    } else {
      AdmittedNotLater(calls[..|calls| - 1], max, window);
    }
  }

  /** No half-open interval as long as the window ever holds more than `max` admissions. */
  lemma {:induction false} WindowNeverExceeded(calls: seq<int>, max: nat, window: nat, lo: int)
    requires NonDecreasing(calls)
    ensures CountIn(Admitted(calls, max, window), lo, lo + window) <= max
    decreases |calls|
  {
    if calls == [] {
    } else {
      var init, now := calls[..|calls| - 1], calls[|calls| - 1];
      var before := Admitted(init, max, window);
      WindowNeverExceeded(init, max, window, lo);
      if Admits(Hits(init, max, window), max, window, now) {
        CountInAppend(before, now, lo, lo + window);
        HitsMatchAdmitted(init, max, window, now - window);
        if lo <= now < lo + window {
          CountInAtMostRetained(before, lo, lo + window, now - window);
        }
      } else {
        assert before + [] == before;
      }
    }
  }

  lemma {:induction false} HitsAtMostMax(calls: seq<int>, max: nat, window: nat)
    ensures |Hits(calls, max, window)| <= max
  {
    if calls == [] {
    } else {
      var hits, now := Hits(calls[..|calls| - 1], max, window), calls[|calls| - 1];
      HitsAtMostMax(calls[..|calls| - 1], max, window);
      assert |Retain(hits, now - window)| <= |hits|;
    }
  }

  lemma RefusedIffFull(hits: seq<int>, admitted: seq<int>, max: nat, window: nat, now: int)
    requires |hits| <= max && Retain(hits, now - window) == Retain(admitted, now - window)
    requires forall t :: t in admitted ==> t <= now
    ensures !Admits(hits, max, window, now) <==> CountIn(admitted, now - window + 1, now + 1) == max
  {
    RetainedAreCounted(admitted, now - window, now + 1);
  }

  /** A call is refused exactly when the window that ends at the call already holds `max` admissions. */
  lemma {:induction false} RefusedIffWindowFull(calls: seq<int>, max: nat, window: nat, now: int)
    requires NonDecreasing(calls) && (calls != [] ==> calls[|calls| - 1] <= now)
    ensures !Admits(Hits(calls, max, window), max, window, now) <==>
            CountIn(Admitted(calls, max, window), now - window + 1, now + 1) == max
  {
    HitsMatchAdmitted(calls, max, window, now - window);
    AdmittedNotLater(calls, max, window);
    HitsAtMostMax(calls, max, window);
    RefusedIffFull(Hits(calls, max, window), Admitted(calls, max, window), max, window, now);
  }

  // ---- the advice given to a refused caller ----

  lemma {:induction false} RetainAll(hits: seq<int>, cutoff: int)
    requires hits != []
    ensures |Retain(hits, cutoff)| == |hits| <==> Min(hits) > cutoff
    ensures |Retain(hits, cutoff)| == |hits| ==> Retain(hits, cutoff) == hits
  {
    if |hits| == 1 {
      assert hits[1..] == [];
    } else {
      RetainAll(hits[1..], cutoff);
      assert hits == [hits[0]] + hits[1..];
    }
  }

  /** With the window full, a call is admitted exactly from the moment the oldest hit expires. */
  lemma {:induction false} AdmittedFromExpiry(hits: seq<int>, max: nat, window: nat, now: int)
    requires |hits| == max >= 1
    ensures Admits(hits, max, window, now) <==> Min(hits) + window <= now
  {
    RetainAll(hits, now - window);
  }

  // ---- on whole runs ----

  lemma {:induction false} HitsNotLater(calls: seq<int>, max: nat, window: nat)
    requires NonDecreasing(calls)
    ensures calls != [] ==> forall t :: t in Hits(calls, max, window) ==> t <= calls[|calls| - 1]
    decreases |calls|
  {
    if calls == [] {
    } else {
      HitsNotLater(calls[..|calls| - 1], max, window);
    }
  }

  lemma RunAppend(calls: seq<int>, max: nat, window: nat, now: int)
    ensures Hits(calls + [now], max, window) == HitsAfter(Hits(calls, max, window), max, window, now)
    ensures Admitted(calls + [now], max, window) ==
            Admitted(calls, max, window) + (if Admits(Hits(calls, max, window), max, window, now) then [now] else [])
  {
    assert (calls + [now])[..|calls|] == calls;
  }

  lemma {:induction false} AdmittedGrows(calls: seq<int>, more: seq<int>, max: nat, window: nat)
    ensures |Admitted(calls + more, max, window)| >= |Admitted(calls, max, window)|
    decreases |more|
  {
    if more == [] {
      assert calls + more == calls;
    } else {
      var init, last := more[..|more| - 1], more[|more| - 1];
      AdmittedGrows(calls, init, max, window);
      assert calls + more == calls + init + [last];
      RunAppend(calls + init, max, window, last);
    }
  }

  lemma {:induction false} RefusalKeepsHits(hits: seq<int>, max: nat, window: nat, now: int)
    requires |hits| == max >= 1 && !Admits(hits, max, window, now)
    ensures HitsAfter(hits, max, window, now) == hits
  {
    var kept := Retain(hits, now - window);
    assert kept == hits by {
      RetainAll(hits, now - window);
    }
    assert kept + [] == kept;
  }

  /** One call more: admitted calls can only grow, and grow exactly when it is admitted. */
  lemma LastRefused(run: seq<int>, last: int, max: nat, window: nat, count: nat)
    requires |Admitted(run + [last], max, window)| == count <= |Admitted(run, max, window)|
    ensures |Admitted(run, max, window)| == count && !Admits(Hits(run, max, window), max, window, last)
    ensures Hits(run + [last], max, window) == HitsAfter(Hits(run, max, window), max, window, last)
  {
    RunAppend(run, max, window, last);
  }

  /** While the window is full and no call is admitted, the hits stay as they are. */
  lemma {:induction false} RefusalsChangeNothing(calls: seq<int>, more: seq<int>, max: nat, window: nat)
    requires max >= 1 && |Hits(calls, max, window)| == max
    requires |Admitted(calls + more, max, window)| == |Admitted(calls, max, window)|
    ensures Hits(calls + more, max, window) == Hits(calls, max, window)
    decreases |more|
  {
    if more == [] {
      assert calls + more == calls;
    } else {
      var init, last := more[..|more| - 1], more[|more| - 1];
      assert calls + more == calls + init + [last];
      AdmittedGrows(calls, init, max, window);
      LastRefused(calls + init, last, max, window, |Admitted(calls, max, window)|);
      RefusalsChangeNothing(calls, init, max, window);
      RefusalKeepsHits(Hits(calls + init, max, window), max, window, last);
    }
  }

  lemma FullWindow(before: seq<int>, max: nat, window: nat, now: int)
    requires max >= 1 && |before| <= max && (forall t :: t in before ==> t <= now)
    requires !Admits(before, max, window, now)
    ensures var hits := HitsAfter(before, max, window, now);
      && |hits| == max && 0 < Min(hits) + window - now <= window
      && RetryAfter(hits, max, window, now) == (Min(hits) + window - now) / NANOS_PER_SEC
  {
  }

  /** After a refusal the window is full of hits that are still live, and the advice is the whole seconds
      until the oldest expires. */
  lemma RefusedStateIsFull(calls: seq<int>, max: nat, window: nat, now: int)
    requires max >= 1 && NonDecreasing(calls) && (calls != [] ==> calls[|calls| - 1] <= now)
    requires !Admits(Hits(calls, max, window), max, window, now)
    ensures var hits := Hits(calls + [now], max, window);
      && |hits| == max && 0 < Min(hits) + window - now <= window
      && RetryAfter(hits, max, window, now) == (Min(hits) + window - now) / NANOS_PER_SEC
  {
    HitsNotLater(calls, max, window);
    HitsAtMostMax(calls, max, window);
    RunAppend(calls, max, window, now);
    FullWindow(Hits(calls, max, window), max, window, now);
  }

  lemma Brackets(expiry: int, now: int, r: nat, retry: int)
    requires 0 < expiry - now && r == (expiry - now) / NANOS_PER_SEC
    ensures retry < now + r * NANOS_PER_SEC ==> retry < expiry
    ensures retry >= now + (r + 1) * NANOS_PER_SEC ==> retry >= expiry
  {
  }

  /** In every run of calls, a caller refused at `now` reads r = `retry_after_secs`. As long as no later call
      is admitted, every retry earlier than r seconds after `now` is refused and every retry from r + 1
      seconds on is admitted. */
  lemma RetryAfterBrackets(calls: seq<int>, max: nat, window: nat, now: int, between: seq<int>, retry: int)
    requires max >= 1 && NonDecreasing(calls) && (calls != [] ==> calls[|calls| - 1] <= now)
    requires !Admits(Hits(calls, max, window), max, window, now)
    requires |Admitted(calls + [now] + between, max, window)| == |Admitted(calls + [now], max, window)|
    ensures var r := RetryAfter(Hits(calls + [now], max, window), max, window, now);
      var later := Hits(calls + [now] + between, max, window);
      && (retry < now + r * NANOS_PER_SEC ==> !Admits(later, max, window, retry))
      && (retry >= now + (r + 1) * NANOS_PER_SEC ==> Admits(later, max, window, retry))
  {
    var hits := Hits(calls + [now], max, window);
    RefusedStateIsFull(calls, max, window, now);
    RefusalsChangeNothing(calls + [now], between, max, window);
    AdmittedFromExpiry(hits, max, window, retry);
    Brackets(Min(hits) + window, now, RetryAfter(hits, max, window, now), retry);
  }

  /** The HTTP layer raises the advice to at least one second. */
  function Advice(secs: nat): (r: nat) {
    if secs < 1 then 1 else secs
  }

  lemma AdviceReachesWaitIff(wait: nat)
    requires wait > 0
    ensures wait <= Advice(wait / NANOS_PER_SEC) * NANOS_PER_SEC <==> wait % NANOS_PER_SEC == 0 || wait <= NANOS_PER_SEC
  {
  }

  /** A client that retries exactly at the advice is admitted if and only if the remaining wait was a whole
      number of seconds or at most one second; otherwise it is refused once more. */
  lemma RetryAtAdviceIff(calls: seq<int>, max: nat, window: nat, now: int)
    requires max >= 1 && NonDecreasing(calls) && (calls != [] ==> calls[|calls| - 1] <= now)
    requires !Admits(Hits(calls, max, window), max, window, now)
    ensures var hits := Hits(calls + [now], max, window);
      var wait := Min(hits) + window - now;
      Admits(hits, max, window, now + Advice(RetryAfter(hits, max, window, now)) * NANOS_PER_SEC) <==>
      wait % NANOS_PER_SEC == 0 || wait <= NANOS_PER_SEC
  {
    var hits := Hits(calls + [now], max, window);
    RefusedStateIsFull(calls, max, window, now);
    var wait := Min(hits) + window - now;
    AdmittedFromExpiry(hits, max, window, now + Advice(wait / NANOS_PER_SEC) * NANOS_PER_SEC);
    AdviceReachesWaitIff(wait);
  }
}
