/** `probe` and `decide`: what they answer at one instant, what that says about the holder over all runs, and
    what an answer put together from separate system calls still says. */
module ServeProbe {
  import opened Sequences
  import opened ServeLock

  datatype OnConflict = Prompt | AttachTo | ReplaceIt | AbortIt

  datatype Decision = Serve | Attach | Replace | Abort

  function Decide(state: ServeState, policy: OnConflict): (d: Decision)
    ensures d == Serve <==> state.Free? || state.stale
    ensures d == Attach <==> state.Running? && !state.stale && policy == AttachTo
    ensures d == Replace <==> state.Running? && !state.stale && policy == ReplaceIt
  {
    match state
    case Free => Serve
    case Running(_, true) => Serve
    case Running(_, false) =>
      match policy
      case AttachTo => Attach
      case ReplaceIt => Replace
      case AbortIt => Abort
      case Prompt => Abort
  }

  predicate LeadsToServe(r: ProbeResult, policy: OnConflict) {
    r.Ok? && Decide(r.state, policy) == Serve
  }

  ghost predicate Readable(s: System) {
    s.path.Some? ==> s.path.value in s.contents
  }

  /** `probe` with nobody else running. */
  function Probe(s: System): (r: ProbeResult)
    requires Readable(s)
  {
    if s.path.None? then Ok(Free)
    else
      var held := Held(s, s.path.value);
      match s.contents[s.path.value]
      case None => if held then Err else Ok(Free)
      case Some(info) => Ok(Running(info, !(held || Alive(s, info.pid))))
  }

  /** What a probe answers: free without a file and for an unheld file without readable text, an error for a held
      one, and otherwise the text, stale exactly if the file is unheld and names no living process. */
  lemma ProbeIs(s: System)
    requires Readable(s)
    ensures s.path.None? ==> Probe(s) == Ok(Free)
    ensures s.path.Some? ==>
      var i, text := s.path.value, s.contents[s.path.value];
      && (Probe(s) == Ok(Free) <==> text.None? && !Held(s, i))
      && (Probe(s) == Err <==> text.None? && Held(s, i))
      && (text.Some? ==> Probe(s).Ok? && Probe(s).state.Running? && Probe(s).state.info == text.value)
      && (text.Some? ==> (Probe(s).state.stale <==> !Held(s, i) && !Alive(s, text.value.pid)))
  {
  }

  ghost predicate SaysServe(s: System, policy: OnConflict)
    requires Readable(s)
  {
    LeadsToServe(Probe(s), policy)
  }

  // ---- the calls of an undisturbed probe compute that answer ----

  lemma SetTwice(s: System, p: nat, a: Phase, b: Phase)
    ensures SetPhase(SetPhase(s, p, a), p, b) == SetPhase(s, p, b)
  {
    assert s.procs[p := a][p := b] == s.procs[p := b];
  }

  lemma LocksOfOthers(s: System, p: nat, ph: Phase, i: nat)
    requires p in s.procs && s.procs[p].Idle? && !HoldsLock(ph)
    ensures Held(SetPhase(s, p, ph), i) <==> Held(s, i)
  {
    var s' := SetPhase(s, p, ph);
    forall q ensures IsHolder(s', q) <==> IsHolder(s, q) {
    }
    assert forall q :: IsHolder(s, q) ==> s'.procs[q] == s.procs[q];
  }

  /** From the text on. */
  lemma ReadAndJudge(s: System, p: nat, i: nat, held: bool) returns (run: seq<Action>)
    requires p in s.procs && s.procs[p].Idle? && i in s.contents
    ensures forall a :: a in run ==> a.p == p
    ensures var text := s.contents[i];
      Execute(SetPhase(s, p, Reading(i, held)), run) ==
      Some(SetPhase(s, p, Answered(if text.None? then (if held then Err else Ok(Free))
                                   else Ok(Running(text.value, !(held || Alive(s, text.value.pid)))))))
  {
    var s1 := SetPhase(s, p, Reading(i, held));
    var ph := AfterReading(s.contents[i], held);
    SetTwice(s, p, Reading(i, held), ph);
    if ph.Judging? {
      var s2 := SetPhase(s, p, ph);
      var info := ph.named;
      SetTwice(s, p, ph, Answered(Ok(Running(info, !Alive(s, info.pid)))));
      assert Alive(s2, info.pid) <==> Alive(s, info.pid);
      OneCall(s2, AskAlive(p), []);
      OneCall(s1, ReadText(p), [AskAlive(p)] + []);
      run := [ReadText(p)] + ([AskAlive(p)] + []);
    } else {
      OneCall(s1, ReadText(p), []);
      run := [ReadText(p)] + [];
    }
  }

  /** From the shared lock on. */
  lemma ShareAndRead(s: System, p: nat, i: nat) returns (run: seq<Action>)
    requires p in s.procs && s.procs[p].Idle? && i in s.contents && s.path == Some(i)
    ensures forall a :: a in run ==> a.p == p
    ensures Execute(SetPhase(s, p, Inspecting(i)), run) == Some(SetPhase(s, p, Answered(Probe(s))))
  {
    var s1 := SetPhase(s, p, Inspecting(i));
    LocksOfOthers(s, p, Inspecting(i), i);
    var held := Held(s, i);
    var rest := ReadAndJudge(s, p, i, held);
    if held {
      SetTwice(s, p, Inspecting(i), Reading(i, true));
      OneCall(s1, ShareLock(p), rest);
      run := [ShareLock(p)] + rest;
    } else {
      var s2 := SetPhase(s, p, Sharing(i));
      SetTwice(s, p, Inspecting(i), Sharing(i));
      SetTwice(s, p, Sharing(i), Reading(i, false));
      OneCall(s2, ShareUnlock(p), rest);
      OneCall(s1, ShareLock(p), [ShareUnlock(p)] + rest);
      run := [ShareLock(p)] + ([ShareUnlock(p)] + rest);
    }
  }

  /** Run alone, the calls of `probe` end with the answer of `Probe` and change nothing else. */
  lemma ProbeAlone(s: System, p: nat) returns (run: seq<Action>)
    requires Readable(s) && p in s.procs && s.procs[p].Idle?
    ensures forall a :: a in run ==> a.p == p
    ensures Execute(s, run) == Some(SetPhase(s, p, Answered(Probe(s))))
  {
    var rest := [];
    if s.path.Some? {
      rest := ShareAndRead(s, p, s.path.value);
    }
    OneCall(s, ProbeOpen(p), rest);
    run := [ProbeOpen(p)] + rest;
  }

  // ---- the answer at one instant and the holder ----

  /** The file at the path, if there is one, is unheld and names no living process. */
  ghost predicate BoundFileIdle(s: System)
    requires Readable(s)
  {
    s.path.Some? ==>
      && !Held(s, s.path.value)
      && (s.contents[s.path.value].Some? ==> !Alive(s, s.contents[s.path.value].value.pid))
  }

  /** In any state of any interleaving: `Serve` is answered while the lock is held exactly when some holder
      is on a file the path does not name and the file it does name is idle. */
  lemma ServeWhileHeldIff(s: System, policy: OnConflict)
    requires Inv(s)
    ensures SaysServe(s, policy) && !NobodyHolds(s) <==>
            (exists p :: IsHolder(s, p) && s.path != Some(s.procs[p].inode)) && BoundFileIdle(s)
  {
    assert SaysServe(s, policy) <==> BoundFileIdle(s);
    forall p | IsHolder(s, p) && s.path == Some(s.procs[p].inode) ensures Held(s, s.path.value) {
    }
  }

  /** The file at the path names a living process only if that one serves from it or is leaving it. */
  ghost predicate TextNamesServer(s: System) {
    s.path.Some? && s.path.value in s.contents && s.contents[s.path.value].Some? ==>
      var i, info := s.path.value, s.contents[s.path.value].value;
      Alive(s, info.pid) ==> s.procs[info.pid] == Serving(i, info) || s.procs[info.pid] == Unlocked(i)
  }

  lemma TextKept(s: System, a: Action)
    requires Inv(s) && HoldersBound(s) && Enabled(s, a) && TextNamesServer(s)
    ensures TextNamesServer(Apply(s, a))
  {
    assert HoldsLock(s.procs[a.p]) ==> IsHolder(s, a.p);
  }

  lemma {:induction false} TextAlongSafeRun(s: System, actions: seq<Action>)
    requires Inv(s) && HoldersBound(s) && TextNamesServer(s) && SafeRun(s, actions)
    ensures Execute(s, actions).Some? && TextNamesServer(Execute(s, actions).value)
    decreases |actions|
  {
    if actions == [] {
    } else {
      TextKept(s, actions[0]);
      StepKeepsBoundIffSafe(s, actions[0]);
      InvKept(s, actions[0]);
      TextAlongSafeRun(Apply(s, actions[0]), actions[1..]);
    }
  }

  /** Some process is in the gap of its drop, with its identity still in the file at the path. */
  ghost predicate InDropGap(s: System)
    requires Readable(s)
  {
    exists p :: p in s.procs && s.procs[p].Unlocked? && s.path == Some(s.procs[p].inode)
      && s.contents[s.path.value].Some? && s.contents[s.path.value].value.pid == p
  }

  lemma ServeIffIdle(s: System, policy: OnConflict)
    requires Inv(s) && HoldersBound(s)
    ensures SaysServe(s, policy) ==> NobodyHolds(s) && !InDropGap(s)
    ensures TextNamesServer(s) && NobodyHolds(s) && !InDropGap(s) ==> SaysServe(s, policy)
  {
    ServeWhileHeldIff(s, policy);
    assert SaysServe(s, policy) <==> BoundFileIdle(s);
    if TextNamesServer(s) && NobodyHolds(s) && s.path.Some? && s.contents[s.path.value].Some? {
      assert !IsHolder(s, s.contents[s.path.value].value.pid);
    }
  }

  /** The file found at the start, if any, names no living process. */
  ghost predicate LeftoverIsStale(s: System) {
    s.path.Some? && s.path.value in s.contents && s.contents[s.path.value].Some? ==>
      !Alive(s, s.contents[s.path.value].value.pid)
  }

  /** After every run without an unsafe lock or remove: `Serve` means that nobody holds the lock and nobody is in
      the gap of its drop; and if the run began with a stale leftover at most, that state of affairs means
      `Serve` under every policy, whoever crashed before. */
  lemma ServeOnSafeRunsIff(s0: System, actions: seq<Action>, policy: OnConflict)
    requires Initial(s0) && SafeRun(s0, actions)
    ensures Execute(s0, actions).Some?
    ensures var s := Execute(s0, actions).value;
      && Readable(s)
      && (SaysServe(s, policy) ==> NobodyHolds(s) && !InDropGap(s))
      && (LeftoverIsStale(s0) && NobodyHolds(s) && !InDropGap(s) ==> SaysServe(s, policy))
  {
    SafeRunStaysBound(s0, actions);
    ServeIffIdle(Execute(s0, actions).value, policy);
    if LeftoverIsStale(s0) {
      TextAlongSafeRun(s0, actions);
    }
  }

  /** With both pairs atomic there is no gap: from a stale leftover at most, `Serve` is answered after every run
      if and only if nobody holds the lock. */
  lemma ServeIffUnheld(s0: System, atoms: seq<Atomic>, policy: OnConflict)
    requires Initial(s0) && Execute(s0, Flatten(atoms)).Some?
    requires forall x :: x in atoms ==> Wellformed(x)
    ensures var s := Execute(s0, Flatten(atoms)).value;
      && Readable(s)
      && (SaysServe(s, policy) ==> NobodyHolds(s))
      && (LeftoverIsStale(s0) && NobodyHolds(s) ==> SaysServe(s, policy))
  {
    AtomicRunIsSafe(s0, atoms);
    ServeOnSafeRunsIff(s0, Flatten(atoms), policy);
  }

  /** The safety is needed: in the drop race the name of `q`'s file is gone. */
  lemma ServeDespiteHolder(s: System, p: nat, q: nat, policy: OnConflict)
    requires Inv(s) && HoldersBound(s) && p in s.procs && q in s.procs
    requires s.procs[p].Serving? && s.procs[q].Idle?
    ensures var e := Execute(s, DropRace(p, q));
      e.Some? && IsHolder(e.value, q) && e.value.path.None? && SaysServe(e.value, policy)
  {
    DropWindow(s, p, q);
  }

  // ---- the answer of a disturbed probe ----

  /** Process `p` is in a probe that has not met an unheld service so far. */
  ghost predicate NotMet(s: System, p: nat, policy: OnConflict) {
    && p in s.procs
    && match s.procs[p]
       case Inspecting(i) => s.path == Some(i)
       case Reading(_, held) => held
       case Answered(r) => !LeadsToServe(r, policy)
       case Dead => true
       case _ => false
  }

  /** The service is unheld after some of these calls, none of them and all of them included. */
  ghost predicate UnheldAtSomePoint(s: System, actions: seq<Action>) {
    exists k :: 0 <= k <= |actions| && Execute(s, actions[..k]).Some? && NobodyHolds(Execute(s, actions[..k]).value)
  }

  lemma UnheldNow(s: System, actions: seq<Action>)
    requires NobodyHolds(s)
    ensures UnheldAtSomePoint(s, actions)
  {
    assert actions[..0] == [];
    assert Execute(s, actions[..0]) == Some(s);
  }

  lemma UnheldLater(s: System, actions: seq<Action>)
    requires |actions| > 0 && Enabled(s, actions[0]) && UnheldAtSomePoint(Apply(s, actions[0]), actions[1..])
    ensures UnheldAtSomePoint(s, actions)
  {
    var s', rest := Apply(s, actions[0]), actions[1..];
    var k :| 0 <= k <= |rest| && Execute(s', rest[..k]).Some? && NobodyHolds(Execute(s', rest[..k]).value);
    assert actions[..k + 1] == [actions[0]] + rest[..k];
    OneCall(s, actions[0], rest[..k]);
    assert Execute(s, actions[..k + 1]) == Execute(s', rest[..k]);
  }

  /** The probe gets the shared lock of the file at the path only if nobody holds. */
  lemma OwnCallNotMet(s: System, a: Action, policy: OnConflict)
    requires HoldersBound(s) && Enabled(s, a) && NotMet(s, a.p, policy) && !a.Proceed?
    ensures NotMet(Apply(s, a), a.p, policy) || NobodyHolds(Apply(s, a))
  {
    if a.ShareLock? && !Held(s, s.procs[a.p].inode) {
      forall q ensures !IsHolder(Apply(s, a), q) {
        assert IsHolder(Apply(s, a), q) ==> IsHolder(s, q);
      }
    }
  }

  /** While it looks at that file, only a remove can take the path from it, and then nobody holds. */
  lemma OtherCallNotMet(s: System, a: Action, p: nat, policy: OnConflict)
    requires Enabled(s, a) && HoldersBound(Apply(s, a)) && NotMet(s, p, policy) && a.p != p
    ensures NotMet(Apply(s, a), p, policy) || NobodyHolds(Apply(s, a))
  {
    var s' := Apply(s, a);
    assert s'.procs[p] == s.procs[p];
    if a.Remove? {
      assert s'.path.None?;
    }
  }

  lemma {:induction false} MetIfServe(s: System, actions: seq<Action>, p: nat, policy: OnConflict)
    requires Inv(s) && HoldersBound(s) && SafeRun(s, actions) && Proceed(p) !in actions && NotMet(s, p, policy)
    ensures Execute(s, actions).Some?
    ensures var s' := Execute(s, actions).value;
      p in s'.procs && s'.procs[p].Answered? && LeadsToServe(s'.procs[p].result, policy) ==>
        UnheldAtSomePoint(s, actions)
    decreases |actions|
  {
    SafeRunStaysBound(s, actions);
    if actions == [] {
    } else {
      var a := actions[0];
      var s', rest := Apply(s, a), actions[1..];
      assert a in actions;
      StepKeepsBoundIffSafe(s, a);
      InvKept(s, a);
      if a.p == p {
        OwnCallNotMet(s, a, policy);
      } else {
        OtherCallNotMet(s, a, p, policy);
      }
      if NobodyHolds(s') {
        UnheldNow(s', rest);
        UnheldLater(s, actions);
      } else {
        MetIfServe(s', rest, p, policy);
        if UnheldAtSomePoint(s', rest) {
          UnheldLater(s, actions);
        }
      }
    }
  }

  /** In every run without an unsafe lock or remove, however its calls are interleaved with those of others: if a
      probe's answer leads to `Serve`, then nobody held the lock at some moment between its open and its answer. */
  lemma ServeAnswerMetUnheld(s0: System, before: seq<Action>, p: nat, during: seq<Action>, policy: OnConflict)
    requires Initial(s0) && SafeRun(s0, before) && Execute(s0, before).Some?
    requires SafeRun(Execute(s0, before).value, [ProbeOpen(p)] + during) && Proceed(p) !in during
    ensures var s := Execute(s0, before).value;
      && Enabled(s, ProbeOpen(p))
      && var s1 := Apply(s, ProbeOpen(p));
         && Execute(s1, during).Some?
         && var s' := Execute(s1, during).value;
            p in s'.procs && s'.procs[p].Answered? && LeadsToServe(s'.procs[p].result, policy) ==>
              UnheldAtSomePoint(s1, during)
  {
    SafeRunStaysBound(s0, before);
    var s := Execute(s0, before).value;
    assert ([ProbeOpen(p)] + during)[1..] == during;
    var s1 := Apply(s, ProbeOpen(p));
    InvKept(s, ProbeOpen(p));
    OtherKeepsBound(s, ProbeOpen(p));
    SafeRunStaysBound(s1, during);
    if s.path.Some? {
      MetIfServe(s1, during, p, policy);
    } else {
      assert NobodyHolds(s1);
      UnheldNow(s1, during);
    }
  }

  // ---- a whole start ----

  /** After every run, a probe of the file a server holds at the path answers with the url and the time it wrote. */
  lemma ProbeShowsLastWrite(s0: System, actions: seq<Action>, p: nat)
    requires Initial(s0) && Execute(s0, actions).Some?
    ensures var s := Execute(s0, actions).value;
      p in s.procs && s.procs[p].Serving? && s.path == Some(s.procs[p].inode) ==>
        && LastWrite(actions, p).Some? && Readable(s)
        && var (url, now) := LastWrite(actions, p).value; Probe(s) == Ok(Running(ServeInfo(p, url, now), false))
  {
    InvAlongRun(s0, actions);
    ServerAnnouncesLastWrite(s0, actions, p);
    var s := Execute(s0, actions).value;
    assert p in s.procs && s.procs[p].Serving? ==> IsHolder(s, p);
  }

  lemma TruncateAndWrite(s: System, p: nat, i: nat, url: string, now: nat)
    requires p in s.procs && s.procs[p] == Locked(i)
    ensures var info := ServeInfo(p, url, now);
      Execute(s, [Truncate(p), Write(p, url, now)]) ==
      Some(SetPhase(s.(contents := s.contents[i := Some(info)]), p, Serving(i, info)))
  {
    var info := ServeInfo(p, url, now);
    TwoCalls(s, Truncate(p), Write(p, url, now));
    assert s.contents[i := None][i := Some(info)] == s.contents[i := Some(info)];
    assert s.procs[p := Truncated(i)][p := Serving(i, info)] == s.procs[p := Serving(i, info)];
  }

  /** The calls of a start after its probe. */
  function AnnounceCalls(p: nat, url: string, now: nat): (r: seq<Action>) {
    [Open(p), TryLock(p)] + [Truncate(p), Write(p, url, now)]
  }

  /** `p` has come to serve with this identity, everybody who probes reads it, and nobody else has moved. */
  ghost predicate Started(s: System, e: Option<System>, p: nat, info: ServeInfo) {
    && e.Some? && e.value.path.Some? && Readable(e.value)
    && e.value.procs == s.procs[p := Serving(e.value.path.value, info)]
    && Probe(e.value) == Ok(Running(info, false))
  }

  lemma AcquireAndAnnounce(s: System, p: nat, url: string, now: nat)
    requires Inv(s) && HoldersBound(s) && p in s.procs && s.procs[p].Idle? && NobodyHolds(s) && !PathShared(s)
    ensures Started(s, Execute(s, AnnounceCalls(p, url, now)), p, ServeInfo(p, url, now))
  {
    AcquireTakesIff(s, p);
    AcquireNowIs(s, p);
    var s1 := AcquireNow(s, p);
    var i := s1.path.value;
    TruncateAndWrite(s1, p, i, url, now);
    ExecuteSplit(s, [Open(p), TryLock(p)], [Truncate(p), Write(p, url, now)]);
    var info := ServeInfo(p, url, now);
    var e := SetPhase(s1.(contents := s1.contents[i := Some(info)]), p, Serving(i, info));
    assert s1.procs[p := Serving(i, info)] == s.procs[p := Serving(i, info)];
    assert IsHolder(e, p);
    assert Held(e, i);
  }

  /** An undisturbed probe that is left again changes nothing. */
  lemma ProbeAndProceed(s: System, p: nat) returns (run: seq<Action>)
    requires Readable(s) && p in s.procs && s.procs[p].Idle?
    ensures Execute(s, run) == Some(s) && forall a :: a in run ==> a.p == p
  {
    var probe := ProbeAlone(s, p);
    var s1 := SetPhase(s, p, Answered(Probe(s)));
    SetTwice(s, p, Answered(Probe(s)), Idle);
    assert SetPhase(s, p, Idle).procs == s.procs;
    OneCall(s1, Proceed(p), []);
    ExecuteSplit(s, probe, [Proceed(p)] + []);
    run := probe + ([Proceed(p)] + []);
  }

  /** A start with nobody else running, from any state whose holders are on the bound inode, in which the decision is
      to serve and no probe is in the way: probe, leave it, acquire and announce. Then the process serves with the
      url and the time of the start. */
  lemma StartServes(s: System, p: nat, policy: OnConflict, url: string, now: nat) returns (run: seq<Action>)
    requires Inv(s) && HoldersBound(s) && p in s.procs && s.procs[p].Idle?
    requires SaysServe(s, policy) && !PathShared(s)
    ensures forall a :: a in run ==> a.p == p
    ensures Started(s, Execute(s, run), p, ServeInfo(p, url, now))
  {
    var probe := ProbeAndProceed(s, p);
    ServeIffIdle(s, policy);
    AcquireAndAnnounce(s, p, url, now);
    ExecuteSplit(s, probe, AnnounceCalls(p, url, now));
    run := probe + AnnounceCalls(p, url, now);
  }

  // ---- remarks: what single states look like ----

  /** In any state of any interleaving: while `p` holds the bound file, `probe` never leads to `Serve`;
      it names `p` once `p` has written, fails while the file is empty, and before the truncation shows
      whatever the previous owner left, marked live. */
  lemma ProbeOfHeldFile(s: System, p: nat, policy: OnConflict)
    requires Inv(s) && IsHolder(s, p) && s.path == Some(s.procs[p].inode)
    ensures !SaysServe(s, policy)
    ensures s.procs[p].Serving? ==> Probe(s) == Ok(Running(s.procs[p].info, false)) && s.procs[p].info.pid == p
    ensures s.procs[p].Truncated? ==> Probe(s) == Err
    ensures s.procs[p].Locked? ==>
      Probe(s) == match s.contents[s.path.value] case None => Err case Some(info) => Ok(Running(info, false))
  {
    assert Held(s, s.path.value);
  }

  /** Right after the crash of a server its file is reported stale with its identity, every policy says `Serve`,
      and the next acquire takes the lock over, since no probe can have the shared lock of that file yet. */
  lemma CrashIsTakenOver(s: System, p: nat, q: nat, policy: OnConflict)
    requires Inv(s) && HoldersBound(s) && p in s.procs && s.procs[p].Serving?
    requires q in s.procs && s.procs[q].Idle?
    ensures var s' := Apply(s, Crash(p));
      && Readable(s')
      && Probe(s') == Ok(Running(s.procs[p].info, true))
      && SaysServe(s', policy)
      && AcquireNow(s', q).procs[q] == Locked(s.procs[p].inode)
  {
    var s' := Apply(s, Crash(p));
    assert IsHolder(s, p);
    FileLeft(s, p, s');
    FreshKept(s, Crash(p));
    AcquireNowIs(s', q);
  }

  /** In the gap of a drop, after the unlock and before the remove, the leaving server is still reported as
      running and not stale, although nobody holds the lock. */
  lemma DropGapLooksRunning(s: System, p: nat)
    requires Inv(s) && HoldersBound(s) && p in s.procs && s.procs[p].Serving?
    ensures var s' := Apply(s, Unlock(p));
      && Readable(s') && InDropGap(s') && NobodyHolds(s')
      && Probe(s') == Ok(Running(s.procs[p].info, false))
  {
    BoundMeansOneHolder(s);
    var s' := Apply(s, Unlock(p));
    assert IsHolder(s, p);
    assert Alive(s', p);
    assert s'.procs[p].Unlocked?;
    forall q ensures !IsHolder(s', q) {
      assert IsHolder(s', q) ==> IsHolder(s, q) && q != p;
    }
  }

  /** A completed drop leaves the service free, and the next acquire succeeds on a new file. */
  lemma DropLeavesFree(s: System, p: nat, q: nat)
    requires Inv(s) && HoldersBound(s) && Settled(s) && p in s.procs && s.procs[p].Serving?
    requires q in s.procs && s.procs[q].Idle?
    ensures var s' := Apply(Apply(s, Unlock(p)), Remove(p));
      s'.path.None? && Probe(s') == Ok(Free) && AcquireNow(s', q).procs[q] == Locked(s.next)
  {
    FreshKept(s, Unlock(p));
    FreshKept(Apply(s, Unlock(p)), Remove(p));
    AcquireNowIs(Apply(Apply(s, Unlock(p)), Remove(p)), q);
  }
}
