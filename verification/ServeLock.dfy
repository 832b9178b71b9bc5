/** The single-instance guard of `serve`: processes, the pidfile path, the inodes it has named, and the
    exclusive and shared advisory locks on each inode. One action is one system call; `Crash` ends a process
    anywhere and the system then drops its lock but leaves the file. Each process has one handle on the
    pidfile. */
module ServeLock {
  import opened Sequences

  datatype ServeInfo = ServeInfo(pid: nat, url: string, startedAt: nat)

  datatype ServeState = Free | Running(info: ServeInfo, stale: bool)

  datatype ProbeResult = Err | Ok(state: ServeState)

  /** Progress of one process through `try_acquire` and `Drop`, or through `probe`. */
  datatype Phase =
    | Idle
    | Opened(inode: nat)                     // file open, exclusive lock not yet tried
    | Locked(inode: nat)                     // exclusive lock held, old text still in the file
    | Truncated(inode: nat)                  // exclusive lock held, file empty
    | Serving(inode: nat, info: ServeInfo)   // exclusive lock held, own identity written
    | Unlocked(inode: nat)                   // in `Drop`, between unlock and remove
    | Inspecting(inode: nat)                 // in `probe`, file open, shared lock not yet tried
    | Sharing(inode: nat)                    // in `probe`, shared lock held
    | Reading(inode: nat, held: bool)        // in `probe`, shared lock refused, or got and given back
    | Judging(named: ServeInfo)              // in `probe`, text read, liveness of its owner not yet asked
    | Answered(result: ProbeResult)
    | Dead

  /** `contents` gives the parsed text of each inode; `None` is empty or malformed text. */
  datatype System = System(
    path: Option<nat>, contents: map<nat, Option<ServeInfo>>, next: nat, procs: map<nat, Phase>)

  datatype Action =
    | Open(p: nat)
    | TryLock(p: nat)
    | Truncate(p: nat)
    | Write(p: nat, url: string, now: nat)
    | Fail(p: nat)     // an I/O error inside `try_acquire` closes the file
    | Unlock(p: nat)
    | Remove(p: nat)
    | ProbeOpen(p: nat)
    | ShareLock(p: nat)
    | ShareUnlock(p: nat)
    | ReadText(p: nat)
    | AskAlive(p: nat)
    | Proceed(p: nat)  // leaves `probe` with its answer
    | Crash(p: nat)

  predicate HoldsLock(ph: Phase) {
    ph.Locked? || ph.Truncated? || ph.Serving?
  }

  predicate IsHolder(s: System, p: nat) {
    p in s.procs && HoldsLock(s.procs[p])
  }

  predicate Held(s: System, inode: nat) {
    exists p :: p in s.procs && IsHolder(s, p) && s.procs[p].inode == inode
  }

  predicate Shared(s: System, inode: nat) {
    exists p :: p in s.procs && s.procs[p] == Sharing(inode)
  }

  predicate Alive(s: System, pid: nat) {
    pid in s.procs && !s.procs[pid].Dead?
  }

  predicate Enabled(s: System, a: Action) {
    a.p in s.procs &&
    var ph := s.procs[a.p];
    match a
    case Open(_) => ph.Idle?
    case TryLock(_) => ph.Opened?
    case Truncate(_) => ph.Locked?
    case Write(_, _, _) => ph.Truncated?
    case Fail(_) => ph.Locked? || ph.Truncated?
    case Unlock(_) => ph.Serving?
    case Remove(_) => ph.Unlocked?
    case ProbeOpen(_) => ph.Idle?
    case ShareLock(_) => ph.Inspecting?
    case ShareUnlock(_) => ph.Sharing?
    case ReadText(_) => ph.Reading? && ph.inode in s.contents
    case AskAlive(_) => ph.Judging?
    case Proceed(_) => ph.Answered?
    case Crash(_) => !ph.Dead?
  }

  function SetPhase(s: System, p: nat, ph: Phase): (s': System) {
    s.(procs := s.procs[p := ph])
  }

  /** What `probe` makes of the text it reads. */
  function AfterReading(text: Option<ServeInfo>, held: bool): (ph: Phase) {
    match text
    case None => Answered(if held then Err else Ok(Free))
    case Some(info) => if held then Answered(Ok(Running(info, false))) else Judging(info)
  }

  /** The exclusive lock is refused while anybody has the exclusive or the shared lock; the shared lock only
      while somebody has the exclusive one. */
  function Apply(s: System, a: Action): (s': System)
    requires Enabled(s, a)
  {
    var p := a.p;
    match a
    case Open(_) =>
      (match s.path
       case Some(i) => SetPhase(s, p, Opened(i))
       case None =>
         var created := s.(path := Some(s.next), contents := s.contents[s.next := None], next := s.next + 1);
         SetPhase(created, p, Opened(s.next)))
    case TryLock(_) =>
      var i := s.procs[p].inode;
      SetPhase(s, p, if Held(s, i) || Shared(s, i) then Idle else Locked(i))
    case Truncate(_) =>
      var i := s.procs[p].inode;
      SetPhase(s.(contents := s.contents[i := None]), p, Truncated(i))
    case Write(_, url, now) =>
      var i, info := s.procs[p].inode, ServeInfo(p, url, now);
      SetPhase(s.(contents := s.contents[i := Some(info)]), p, Serving(i, info))
    case Fail(_) => SetPhase(s, p, Idle)
    case Unlock(_) => SetPhase(s, p, Unlocked(s.procs[p].inode))
    case Remove(_) => SetPhase(s.(path := None), p, Idle)
    case ProbeOpen(_) =>
      SetPhase(s, p, if s.path.Some? then Inspecting(s.path.value) else Answered(Ok(Free)))
    case ShareLock(_) =>
      var i := s.procs[p].inode;
      SetPhase(s, p, if Held(s, i) then Reading(i, true) else Sharing(i))
    case ShareUnlock(_) => SetPhase(s, p, Reading(s.procs[p].inode, false))
    case ReadText(_) => SetPhase(s, p, AfterReading(s.contents[s.procs[p].inode], s.procs[p].held))
    case AskAlive(_) =>
      var info := s.procs[p].named;
      SetPhase(s, p, Answered(Ok(Running(info, !Alive(s, info.pid)))))
    case Proceed(_) => SetPhase(s, p, Idle)
    case Crash(_) => SetPhase(s, p, Dead)
  }

  function Execute(s: System, actions: seq<Action>): (r: Option<System>)
    decreases |actions|
  {
    if actions == [] then Some(s)
    else if !Enabled(s, actions[0]) then None
    else Execute(Apply(s, actions[0]), actions[1..])
  }

  /** Any live processes, none of them inside the protocol, and any leftover file. */
  ghost predicate Initial(s: System) {
    && (forall p :: p in s.procs ==> s.procs[p].Idle?)
    && (s.path.Some? ==> s.path.value < s.next && s.path.value in s.contents)
  }

  // ---- every interleaving of single system calls ----

  predicate HasFile(ph: Phase) {
    !ph.Idle? && !ph.Judging? && !ph.Answered? && !ph.Dead?
  }

  ghost predicate Fresh(s: System) {
    && (s.path.Some? ==> s.path.value < s.next && s.path.value in s.contents)
    && forall p :: p in s.procs && HasFile(s.procs[p]) ==> s.procs[p].inode < s.next && s.procs[p].inode in s.contents
  }

  /** At most one process holds a given inode. */
  ghost predicate Exclusive(s: System) {
    forall p, q :: IsHolder(s, p) && IsHolder(s, q) && s.procs[p].inode == s.procs[q].inode ==> p == q
  }

  /** Nobody has the shared lock of an inode that somebody holds. */
  ghost predicate Unmixed(s: System) {
    forall p :: IsHolder(s, p) ==> !Shared(s, s.procs[p].inode)
  }

  /** A holder that has truncated the file sees it empty; one that has written sees its own identity. */
  ghost predicate OwnText(s: System) {
    forall p :: p in s.procs ==>
      match s.procs[p]
      case Truncated(i) => i in s.contents && s.contents[i] == None
      case Serving(i, info) => i in s.contents && s.contents[i] == Some(info) && info.pid == p
      case _ => true
  }

  ghost predicate Inv(s: System) {
    Fresh(s) && Exclusive(s) && Unmixed(s) && OwnText(s)
  }

  lemma FreshKept(s: System, a: Action)
    requires Fresh(s) && Enabled(s, a)
    ensures Fresh(Apply(s, a))
  {
  }

  /** Only a successful lock attempt creates a holder, and then nobody held or shared that inode. */
  lemma NewHolder(s: System, a: Action, p: nat)
    requires Enabled(s, a) && IsHolder(Apply(s, a), p)
    ensures var i := Apply(s, a).procs[p].inode;
      && (IsHolder(s, p) ==> s.procs[p].inode == i)
      && (!IsHolder(s, p) ==> a == TryLock(p) && !Held(s, i) && !Shared(s, i))
  {
  }

  /** Only a successful shared attempt creates a sharer, and then nobody held that inode. */
  lemma NewSharer(s: System, a: Action, p: nat)
    requires Enabled(s, a) && p in Apply(s, a).procs && Apply(s, a).procs[p].Sharing?
    ensures p in s.procs
    ensures s.procs[p] == Apply(s, a).procs[p] || (a == ShareLock(p) && !Held(s, Apply(s, a).procs[p].inode))
  {
  }

  lemma ExclusiveKept(s: System, a: Action)
    requires Exclusive(s) && Enabled(s, a)
    ensures Exclusive(Apply(s, a))
  {
    var s' := Apply(s, a);
    forall p, q | IsHolder(s', p) && IsHolder(s', q) && s'.procs[p].inode == s'.procs[q].inode ensures p == q {
      NewHolder(s, a, p);
      NewHolder(s, a, q);
    }
  }

  lemma UnmixedKept(s: System, a: Action)
    requires Unmixed(s) && Enabled(s, a)
    ensures Unmixed(Apply(s, a))
  {
    var s' := Apply(s, a);
    forall p | IsHolder(s', p) ensures !Shared(s', s'.procs[p].inode) {
      NewHolder(s, a, p);
      forall q | q in s'.procs ensures s'.procs[q] != Sharing(s'.procs[p].inode) {
        if s'.procs[q] == Sharing(s'.procs[p].inode) {
          NewSharer(s, a, q);
        }
      }
    }
  }

  lemma OwnTextKept(s: System, a: Action)
    requires Fresh(s) && Exclusive(s) && OwnText(s) && Enabled(s, a)
    ensures OwnText(Apply(s, a))
  {
    var s' := Apply(s, a);
    forall p | p in s'.procs
      ensures match s'.procs[p]
              case Truncated(i) => i in s'.contents && s'.contents[i] == None
              case Serving(i, info) => i in s'.contents && s'.contents[i] == Some(info) && info.pid == p
              case _ => true
    {
      if p != a.p {
        assert s'.procs[p] == s.procs[p];
        if HoldsLock(s.procs[p]) {
          assert s.procs[p].inode < s.next;
          assert HoldsLock(s.procs[a.p]) ==> s.procs[a.p].inode != s.procs[p].inode;
        }
      }
    }
  }

  lemma InvKept(s: System, a: Action)
    requires Inv(s) && Enabled(s, a)
    ensures Inv(Apply(s, a))
  {
    FreshKept(s, a);
    ExclusiveKept(s, a);
    UnmixedKept(s, a);
    OwnTextKept(s, a);
  }

  lemma {:induction false} InvAlongRun(s: System, actions: seq<Action>)
    requires Inv(s) && Execute(s, actions).Some?
    ensures Inv(Execute(s, actions).value)
    decreases |actions|
  {
    if actions == [] {
    } else {
      InvKept(s, actions[0]);
      InvAlongRun(Apply(s, actions[0]), actions[1..]);
    }
  }

  /** In every interleaving, crashes and probes included, no inode has two holders or a holder beside a probe's
      shared lock, and whoever has announced itself still finds exactly its own identity in the file it holds. */
  lemma InodeNeverSharedInAnyRun(s: System, actions: seq<Action>)
    requires Initial(s) && Execute(s, actions).Some?
    ensures var s' := Execute(s, actions).value; Exclusive(s') && Unmixed(s') && OwnText(s')
  {
    InvAlongRun(s, actions);
  }

  // ---- the service lock: holders must hold the inode the path names ----

  ghost predicate HoldersBound(s: System) {
    forall p :: IsHolder(s, p) ==> s.path == Some(s.procs[p].inode)
  }

  ghost predicate AtMostOneHolder(s: System) {
    forall p, q :: IsHolder(s, p) && IsHolder(s, q) ==> p == q
  }

  ghost predicate NobodyHolds(s: System) {
    forall p :: !IsHolder(s, p)
  }

  /** The two calls that can go wrong: locking a file the path no longer names, and removing the path
      while it names a file that somebody holds. */
  predicate Safe(s: System, a: Action)
    requires Enabled(s, a)
  {
    match a
    case TryLock(p) =>
      var i := s.procs[p].inode;
      Held(s, i) || Shared(s, i) || s.path == Some(i)
    case Remove(_) => s.path.None? || !Held(s, s.path.value)
    case _ => true
  }

  lemma TryLockKeepsBoundIff(s: System, p: nat)
    requires HoldersBound(s) && Enabled(s, TryLock(p))
    ensures HoldersBound(Apply(s, TryLock(p))) <==> Safe(s, TryLock(p))
  {
    var s', i := Apply(s, TryLock(p)), s.procs[p].inode;
    assert s'.procs[p] == if Held(s, i) || Shared(s, i) then Idle else Locked(i);
    assert forall q :: q in s.procs && q != p ==> s'.procs[q] == s.procs[q];
    assert s'.procs[p].Locked? ==> IsHolder(s', p);
  }

  lemma RemoveKeepsBoundIff(s: System, p: nat)
    requires HoldersBound(s) && Enabled(s, Remove(p))
    ensures HoldersBound(Apply(s, Remove(p))) <==> Safe(s, Remove(p))
  {
    var s' := Apply(s, Remove(p));
    forall q ensures IsHolder(s', q) <==> IsHolder(s, q) {
    }
  }

  /** Every other call leaves the holders, or makes fewer, and does not take the path from them. */
  lemma OtherKeepsBound(s: System, a: Action)
    requires Fresh(s) && HoldersBound(s) && Enabled(s, a) && !a.TryLock? && !a.Remove?
    ensures HoldersBound(Apply(s, a))
  {
    var s' := Apply(s, a);
    forall q | IsHolder(s', q) ensures s'.path == Some(s'.procs[q].inode) {
      NewHolder(s, a, q);
    }
  }

  lemma StepKeepsBoundIffSafe(s: System, a: Action)
    requires Fresh(s) && HoldersBound(s) && Enabled(s, a)
    ensures HoldersBound(Apply(s, a)) <==> Safe(s, a)
  {
    if a.TryLock? {
      TryLockKeepsBoundIff(s, a.p);
    } else if a.Remove? {
      RemoveKeepsBoundIff(s, a.p);
    } else {
      OtherKeepsBound(s, a);
    }
  }

  predicate SafeRun(s: System, actions: seq<Action>)
    decreases |actions|
  {
    actions != [] ==>
      Enabled(s, actions[0]) && Safe(s, actions[0]) && SafeRun(Apply(s, actions[0]), actions[1..])
  }

  ghost predicate BoundThroughout(s: System, actions: seq<Action>)
    decreases |actions|
  {
    HoldersBound(s) && (actions != [] ==>
      Enabled(s, actions[0]) && BoundThroughout(Apply(s, actions[0]), actions[1..]))
  }

  /** Exactly the runs without an unsafe call keep every holder on the bound inode at every step. */
  lemma {:induction false} BoundThroughoutIffSafeRun(s: System, actions: seq<Action>)
    requires Inv(s) && HoldersBound(s) && Execute(s, actions).Some?
    ensures BoundThroughout(s, actions) <==> SafeRun(s, actions)
    decreases |actions|
  {
    if actions == [] {
    } else {
      StepKeepsBoundIffSafe(s, actions[0]);
      InvKept(s, actions[0]);
      if HoldersBound(Apply(s, actions[0])) {
        BoundThroughoutIffSafeRun(Apply(s, actions[0]), actions[1..]);
      }
    }
  }

  lemma {:induction false} SafeRunStaysBound(s: System, actions: seq<Action>)
    requires Inv(s) && HoldersBound(s) && SafeRun(s, actions)
    ensures Execute(s, actions).Some?
    ensures Inv(Execute(s, actions).value) && HoldersBound(Execute(s, actions).value)
    decreases |actions|
  {
    if actions == [] {
    } else {
      StepKeepsBoundIffSafe(s, actions[0]);
      InvKept(s, actions[0]);
      SafeRunStaysBound(Apply(s, actions[0]), actions[1..]);
    }
  }

  lemma BoundMeansOneHolder(s: System)
    requires Exclusive(s) && HoldersBound(s)
    ensures AtMostOneHolder(s)
  {
  }

  lemma {:induction false} ExecuteSplit(s: System, a: seq<Action>, b: seq<Action>)
    requires Execute(s, a).Some?
    ensures Execute(s, a + b) == Execute(Execute(s, a).value, b)
    decreases |a|
  {
    if a == [] {
      assert a + b == b;
    } else {
      assert (a + b)[1..] == a[1..] + b;
      ExecuteSplit(Apply(s, a[0]), a[1..], b);
    }
  }

  lemma {:induction false} ExecutesFirst(s: System, a: seq<Action>, b: seq<Action>)
    requires Execute(s, a + b).Some?
    ensures Execute(s, a).Some?
    decreases |a|
  {
    if a == [] {
    } else {
      assert (a + b)[1..] == a[1..] + b;
      ExecutesFirst(Apply(s, a[0]), a[1..], b);
    }
  }

  lemma {:induction false} SafeRunSplit(s: System, a: seq<Action>, b: seq<Action>)
    requires SafeRun(s, a) && Execute(s, a).Some? && SafeRun(Execute(s, a).value, b)
    ensures SafeRun(s, a + b)
    decreases |a|
  {
    if a == [] {
      assert a + b == b;
    } else {
      assert (a + b)[1..] == a[1..] + b;
      SafeRunSplit(Apply(s, a[0]), a[1..], b);
    }
  }

  lemma OneCall(s: System, a: Action, rest: seq<Action>)
    requires Enabled(s, a)
    ensures Execute(s, [a] + rest) == Execute(Apply(s, a), rest)
    ensures Safe(s, a) && SafeRun(Apply(s, a), rest) ==> SafeRun(s, [a] + rest)
  {
    assert ([a] + rest)[1..] == rest;
  }

  lemma TwoCalls(s: System, a: Action, b: Action)
    requires Enabled(s, a) && Enabled(Apply(s, a), b)
    ensures Execute(s, [a, b]) == Some(Apply(Apply(s, a), b))
    ensures Safe(s, a) && Safe(Apply(s, a), b) ==> SafeRun(s, [a, b])
  {
    var s1 := Apply(s, a);
    var s2 := Apply(s1, b);
    assert [a, b][1..] == [b] && [b][1..] == [];
    assert Execute(s2, []) == Some(s2) && SafeRun(s2, []);
    assert Execute(s1, [b]) == Some(s2);
  }

  // ---- what a server announces ----

  /** The url and the time of the last write of `p`. */
  function LastWrite(actions: seq<Action>, p: nat): (r: Option<(string, nat)>) {
    if actions == [] then None
    else
      var a := actions[|actions| - 1];
      if a.Write? && a.p == p then Some((a.url, a.now)) else LastWrite(actions[..|actions| - 1], p)
  }

  lemma ExecuteLast(s: System, actions: seq<Action>)
    requires actions != [] && Execute(s, actions).Some?
    ensures var init, a := actions[..|actions| - 1], actions[|actions| - 1];
      && Execute(s, init).Some? && Enabled(Execute(s, init).value, a)
      && Execute(s, actions).value == Apply(Execute(s, init).value, a)
  {
    var init, a := actions[..|actions| - 1], actions[|actions| - 1];
    assert init + [a] == actions;
    ExecutesFirst(s, init, [a]);
    ExecuteSplit(s, init, [a]);
    assert [a][1..] == [];
  }

  /** Process `p` announces `text`, if it is serving. */
  ghost predicate Announces(s: System, p: nat, text: Option<(string, nat)>) {
    p in s.procs && s.procs[p].Serving? ==> text.Some? && s.procs[p].info == ServeInfo(p, text.value.0, text.value.1)
  }

  lemma AnnouncesKept(s: System, a: Action, p: nat, text: Option<(string, nat)>)
    requires Enabled(s, a) && Announces(s, p, text)
    ensures Announces(Apply(s, a), p, if a.Write? && a.p == p then Some((a.url, a.now)) else text)
  {
  }

  /** In every run from a start, a serving process announces its own pid with the url and the time of the last write it
      made. */
  lemma {:induction false} ServerAnnouncesLastWrite(s: System, actions: seq<Action>, p: nat)
    requires Initial(s) && Execute(s, actions).Some?
    ensures Announces(Execute(s, actions).value, p, LastWrite(actions, p))
    decreases |actions|
  {
    if actions == [] {
    } else {
      var init, a := actions[..|actions| - 1], actions[|actions| - 1];
      ExecuteLast(s, actions);
      ServerAnnouncesLastWrite(s, init, p);
      AnnouncesKept(Execute(s, init).value, a, p, LastWrite(init, p));
    }
  }

  /** A failed acquire, a crash and the unlock of a drop give up the lock and change nothing else; a process that has
      locked but does not serve yet can fail, and every living process can crash. */
  lemma LettingGo(s: System, a: Action)
    requires (a.Fail? || a.Crash? || a.Unlock?) && Enabled(s, a)
    ensures var s' := Apply(s, a);
      && !IsHolder(s', a.p) && (a.Fail? ==> s'.procs[a.p].Idle?) && (a.Crash? ==> !Alive(s', a.p))
      && s'.path == s.path && s'.contents == s.contents && s'.procs.Keys == s.procs.Keys
      && forall q :: q in s.procs && q != a.p ==> s'.procs[q] == s.procs[q]
  {
  }

  lemma CanLetGo(s: System, p: nat)
    requires p in s.procs
    ensures IsHolder(s, p) ==> Enabled(s, Fail(p)) != Enabled(s, Unlock(p))
    ensures Alive(s, p) <==> Enabled(s, Crash(p))
  {
  }

  // ---- when an acquire gets the lock ----

  /** One complete `try_acquire` by `q` up to its lock attempt, nobody else running. */
  function AcquireNow(s: System, q: nat): (s': System)
    requires q in s.procs && s.procs[q].Idle?
    ensures Execute(s, [Open(q), TryLock(q)]) == Some(s')
  {
    TwoCalls(s, Open(q), TryLock(q));
    Apply(Apply(s, Open(q)), TryLock(q))
  }

  /** Some probe has the shared lock of the file at the path. */
  predicate PathShared(s: System) {
    s.path.Some? && Shared(s, s.path.value)
  }

  lemma OpenKeepsLocks(s: System, q: nat, i: nat)
    requires Fresh(s) && q in s.procs && s.procs[q].Idle? && i < s.next
    ensures var s1 := Apply(s, Open(q)); (Held(s1, i) <==> Held(s, i)) && (Shared(s1, i) <==> Shared(s, i))
  {
    var s1 := Apply(s, Open(q));
    forall p ensures IsHolder(s1, p) <==> IsHolder(s, p) {
    }
    assert forall p :: p in s.procs && p != q ==> s1.procs[p] == s.procs[p];
  }

  lemma NewFileIsFree(s: System, q: nat)
    requires Fresh(s) && q in s.procs && s.procs[q].Idle? && s.path.None?
    ensures var s1 := Apply(s, Open(q)); !Held(s1, s.next) && !Shared(s1, s.next)
  {
    var s1 := Apply(s, Open(q));
    assert forall p :: p in s.procs && p != q ==> s1.procs[p] == s.procs[p];
  }

  /** The acquire is refused exactly by a holder or a probe of the file at the path. */
  lemma AcquireNowIs(s: System, q: nat)
    requires Fresh(s) && q in s.procs && s.procs[q].Idle?
    ensures var s' := AcquireNow(s, q);
      var i := if s.path.Some? then s.path.value else s.next;
      && s'.procs == s.procs[q := if s.path.Some? && (Held(s, i) || Shared(s, i)) then Idle else Locked(i)]
      && s'.path == Some(i)
      && s'.contents == if s.path.Some? then s.contents else s.contents[i := None]
  {
    if s.path.Some? {
      OpenKeepsLocks(s, q, s.path.value);
    } else {
      NewFileIsFree(s, q);
    }
  }

  /** In a state whose holders are on the bound inode, an acquire gets the lock if and only if nobody holds it
      and no probe has the shared lock of the file at the path. */
  lemma AcquireTakesIff(s: System, q: nat)
    requires Fresh(s) && HoldersBound(s) && q in s.procs && s.procs[q].Idle?
    ensures IsHolder(AcquireNow(s, q), q) <==> NobodyHolds(s) && !PathShared(s)
  {
    AcquireNowIs(s, q);
    if !NobodyHolds(s) {
      var p :| IsHolder(s, p);
      assert Held(s, s.path.value);
    }
  }

  /** After every run without an unsafe lock or remove, whoever crashed before and whatever file was left, an
      idle process that acquires gets the lock if and only if nobody holds it and no probe is in the way. */
  lemma AcquireSucceedsIff(s0: System, actions: seq<Action>, q: nat)
    requires Initial(s0) && SafeRun(s0, actions)
    ensures Execute(s0, actions).Some?
    ensures var s := Execute(s0, actions).value;
      q in s.procs && s.procs[q].Idle? ==> (IsHolder(AcquireNow(s, q), q) <==> NobodyHolds(s) && !PathShared(s))
  {
    SafeRunStaysBound(s0, actions);
    var s := Execute(s0, actions).value;
    if q in s.procs && s.procs[q].Idle? {
      AcquireTakesIff(s, q);
    }
  }

  /** A probe in progress refuses an acquire that nobody blocks: from every start with a leftover file, `p`
      takes the shared lock and `q` comes back empty-handed, although nobody held the lock at any moment. */
  lemma ProbeRefusesAcquire(s: System, p: nat, q: nat)
    requires Initial(s) && s.path.Some? && p in s.procs && q in s.procs && p != q
    ensures var run := [ProbeOpen(p), ShareLock(p)] + [Open(q), TryLock(q)];
      && SafeRun(s, run)
      && Execute(s, run) == Some(SetPhase(s, p, Sharing(s.path.value)))
      && NobodyHolds(SetPhase(s, p, Sharing(s.path.value)))
  {
    var i := s.path.value;
    var s1, s2 := SetPhase(s, p, Inspecting(i)), SetPhase(s, p, Sharing(i));
    assert !Held(s1, i);
    assert s1.procs[p := Sharing(i)] == s2.procs;
    assert Shared(s2, i);
    assert NobodyHolds(s2);
    AcquireNowIs(s2, q);
    assert s2.procs[q := Idle] == s2.procs;
    OpenKeepsLocks(s2, q, i);
    TwoCalls(s, ProbeOpen(p), ShareLock(p));
    TwoCalls(s2, Open(q), TryLock(q));
    ExecuteSplit(s, [ProbeOpen(p), ShareLock(p)], [Open(q), TryLock(q)]);
    SafeRunSplit(s, [ProbeOpen(p), ShareLock(p)], [Open(q), TryLock(q)]);
  }

  // ---- safe runs are the runs that cannot lead to two servers ----

  lemma AcquireNowKeepsBound(s: System, q: nat)
    requires Inv(s) && HoldersBound(s) && q in s.procs && s.procs[q].Idle?
    ensures Inv(AcquireNow(s, q)) && HoldersBound(AcquireNow(s, q))
  {
    var s1 := Apply(s, Open(q));
    InvKept(s, Open(q));
    OtherKeepsBound(s, Open(q));
    InvKept(s1, TryLock(q));
    TryLockKeepsBoundIff(s1, q);
  }

  /** A state keeps its holders on the bound inode exactly when it has one holder at most and a newcomer that no
      probe refuses would not become a second. */
  lemma BoundIffNextAcquireIsSafe(s: System, q: nat)
    requires Inv(s) && q in s.procs && s.procs[q].Idle? && !PathShared(s)
    ensures HoldersBound(s) <==> AtMostOneHolder(s) && AtMostOneHolder(AcquireNow(s, q))
  {
    var s' := AcquireNow(s, q);
    if HoldersBound(s) {
      AcquireNowKeepsBound(s, q);
      BoundMeansOneHolder(s);
      BoundMeansOneHolder(s');
    } else {
      var p :| IsHolder(s, p) && s.path != Some(s.procs[p].inode);
      AcquireNowIs(s, q);
      if s.path.Some? && Held(s, s.path.value) {
        var r :| r in s.procs && IsHolder(s, r) && s.procs[r].inode == s.path.value;
        assert IsHolder(s, r) && IsHolder(s, p) && r != p;
      } else {
        assert IsHolder(s', q) && IsHolder(s', p) && p != q;
      }
    }
  }

  function LetGo(ph: Phase): (r: Phase) {
    if ph.Sharing? then Reading(ph.inode, false) else ph
  }

  /** The state once every probe has given back its shared lock, as its next call does. */
  function Unshared(s: System): (s': System)
    ensures s'.procs.Keys == s.procs.Keys && forall p :: p in s.procs ==> s'.procs[p] == LetGo(s.procs[p])
  {
    s.(procs := map p | p in s.procs :: LetGo(s.procs[p]))
  }

  function Sharers(s: System): (r: set<nat>) {
    set p | p in s.procs && s.procs[p].Sharing?
  }

  lemma NothingShared(s: System)
    requires Sharers(s) == {}
    ensures Unshared(s) == s
  {
    forall p | p in s.procs ensures LetGo(s.procs[p]) == s.procs[p] {
      assert p !in Sharers(s);
    }
    assert Unshared(s).procs == s.procs;
  }

  lemma OneLetsGo(s: System, p: nat)
    requires p in Sharers(s)
    ensures var s' := Apply(s, ShareUnlock(p)); Sharers(s') == Sharers(s) - {p} && Unshared(s') == Unshared(s)
  {
    var s' := Apply(s, ShareUnlock(p));
    assert Unshared(s').procs == Unshared(s).procs;
  }

  /** That state is reached by the probes alone. */
  lemma {:induction false} UnsharedIsReached(s: System) returns (run: seq<Action>)
    ensures Execute(s, run) == Some(Unshared(s)) && forall a :: a in run ==> a.ShareUnlock?
    decreases |Sharers(s)|
  {
    if Sharers(s) == {} {
      NothingShared(s);
      run := [];
    } else {
      var p :| p in Sharers(s);
      var s1 := Apply(s, ShareUnlock(p));
      OneLetsGo(s, p);
      var rest := UnsharedIsReached(s1);
      OneCall(s, ShareUnlock(p), rest);
      run := [ShareUnlock(p)] + rest;
    }
  }

  lemma UnsharedSame(s: System)
    ensures forall p :: IsHolder(Unshared(s), p) <==> IsHolder(s, p)
    ensures HoldersBound(Unshared(s)) <==> HoldersBound(s)
    ensures AtMostOneHolder(Unshared(s)) <==> AtMostOneHolder(s)
    ensures !PathShared(Unshared(s))
  {
    var s' := Unshared(s);
    forall p ensures IsHolder(s', p) <==> IsHolder(s, p) {
    }
    assert forall p :: IsHolder(s, p) ==> s'.procs[p] == s.procs[p];
  }

  lemma UnsharedInv(s: System)
    requires Inv(s)
    ensures Inv(Unshared(s))
  {
    var run := UnsharedIsReached(s);
    InvAlongRun(s, run);
  }

  /** After this run there is at most one holder, and the newcomer `q` would not become a second once the probes
      in progress have let go. */
  ghost predicate NeverTwo(s: System, run: seq<Action>, q: nat) {
    && Execute(s, run).Some?
    && var s' := Execute(s, run).value;
       && q in s'.procs && s'.procs[q].Idle?
       && AtMostOneHolder(s') && AtMostOneHolder(AcquireNow(Unshared(s'), q))
  }

  lemma NeverTwoNowIffBound(s: System, q: nat)
    requires Inv(s) && q in s.procs && s.procs[q].Idle?
    ensures NeverTwo(s, [], q) <==> HoldersBound(s)
  {
    UnsharedSame(s);
    UnsharedInv(s);
    BoundIffNextAcquireIsSafe(Unshared(s), q);
  }

  lemma NeverTwoFromNext(s: System, actions: seq<Action>, q: nat, k: nat)
    requires 0 < k <= |actions| && Enabled(s, actions[0])
    ensures NeverTwo(s, actions[..k], q) <==> NeverTwo(Apply(s, actions[0]), actions[1..][..k - 1], q)
  {
    assert actions[..k][0] == actions[0] && actions[..k][1..] == actions[1..][..k - 1];
  }

  ghost predicate NeverTwoThroughout(s: System, actions: seq<Action>, q: nat) {
    forall k :: 0 <= k <= |actions| ==> NeverTwo(s, actions[..k], q)
  }

  lemma NeverTwoSplit(s: System, actions: seq<Action>, q: nat)
    requires |actions| > 0 && Enabled(s, actions[0])
    ensures NeverTwoThroughout(s, actions, q) <==>
            NeverTwo(s, [], q) && NeverTwoThroughout(Apply(s, actions[0]), actions[1..], q)
  {
    var s', rest := Apply(s, actions[0]), actions[1..];
    assert actions[..0] == [];
    if NeverTwoThroughout(s, actions, q) {
      assert NeverTwo(s, actions[..0], q);
      forall k | 0 <= k <= |rest| ensures NeverTwo(s', rest[..k], q) {
        assert NeverTwo(s, actions[..k + 1], q);
        NeverTwoFromNext(s, actions, q, k + 1);
      }
    }
    if NeverTwo(s, [], q) && NeverTwoThroughout(s', rest, q) {
      forall k | 0 <= k <= |actions| ensures NeverTwo(s, actions[..k], q) {
        if k > 0 {
          assert NeverTwo(s', rest[..k - 1], q);
          NeverTwoFromNext(s, actions, q, k);
        }
      }
    }
  }

  /** The runs without an unsafe lock or remove are exactly the runs in which, at every moment, there is at
      most one holder and there still is at most one if an idle newcomer acquires then, the probes in progress
      having let go. */
  lemma {:induction false} SafeRunIffNeverTwo(s: System, actions: seq<Action>, q: nat)
    requires Inv(s) && HoldersBound(s) && Execute(s, actions).Some?
    requires q in s.procs && s.procs[q].Idle? && forall a :: a in actions ==> a.p != q
    ensures SafeRun(s, actions) <==> NeverTwoThroughout(s, actions, q)
    decreases |actions|
  {
    NeverTwoNowIffBound(s, q);
    if actions == [] {
      assert actions[..0] == [];
    } else {
      var a := actions[0];
      var s' := Apply(s, a);
      assert a in actions;
      StepKeepsBoundIffSafe(s, a);
      InvKept(s, a);
      NeverTwoSplit(s, actions, q);
      if HoldersBound(s') {
        SafeRunIffNeverTwo(s', actions[1..], q);
      } else {
        NeverTwoNowIffBound(s', q);
        assert actions[1..][..0] == [];
      }
    }
  }

  // ---- runs in which open+lock and unlock+remove are each one step ----

  datatype Atomic = Acquire(p: nat) | Release(p: nat) | Single(a: Action)

  predicate Wellformed(atom: Atomic) {
    atom.Single? ==> !atom.a.Open? && !atom.a.TryLock? && !atom.a.Unlock? && !atom.a.Remove?
  }

  function Expand(atom: Atomic): (r: seq<Action>) {
    match atom
    case Acquire(p) => [Open(p), TryLock(p)]
    case Release(p) => [Unlock(p), Remove(p)]
    case Single(a) => [a]
  }

  function Flatten(atoms: seq<Atomic>): (r: seq<Action>) {
    if atoms == [] then [] else Expand(atoms[0]) + Flatten(atoms[1..])
  }

  /** Nobody is between its open and its lock, or between its unlock and its remove. */
  ghost predicate Settled(s: System) {
    forall p :: p in s.procs ==> !s.procs[p].Opened? && !s.procs[p].Unlocked?
  }

  lemma AcquireIsSafe(s: System, p: nat)
    requires Inv(s) && HoldersBound(s) && Settled(s) && Enabled(s, Open(p))
    ensures SafeRun(s, [Open(p), TryLock(p)]) && Settled(AcquireNow(s, p))
  {
    AcquireNowIs(s, p);
    TwoCalls(s, Open(p), TryLock(p));
  }

  lemma ReleaseIsSafe(s: System, p: nat)
    requires Inv(s) && HoldersBound(s) && Settled(s) && Enabled(s, Unlock(p))
    ensures SafeRun(s, [Unlock(p), Remove(p)])
    ensures Execute(s, [Unlock(p), Remove(p)]) == Some(SetPhase(s.(path := None), p, Idle))
    ensures Settled(SetPhase(s.(path := None), p, Idle))
  {
    var s1 := Apply(s, Unlock(p));
    BoundMeansOneHolder(s);
    assert IsHolder(s, p);
    assert forall q :: IsHolder(s1, q) ==> IsHolder(s, q) && q != p;
    TwoCalls(s, Unlock(p), Remove(p));
    assert Apply(s1, Remove(p)).procs == s.procs[p := Idle];
  }

  lemma SingleIsSafe(s: System, a: Action)
    requires Settled(s) && Wellformed(Single(a)) && Enabled(s, a)
    ensures SafeRun(s, [a]) && Execute(s, [a]) == Some(Apply(s, a)) && Settled(Apply(s, a))
  {
    OneCall(s, a, []);
    assert [a] + [] == [a];
  }

  lemma AtomIsSafe(s: System, atom: Atomic)
    requires Inv(s) && HoldersBound(s) && Settled(s) && Wellformed(atom) && Execute(s, Expand(atom)).Some?
    ensures SafeRun(s, Expand(atom)) && Settled(Execute(s, Expand(atom)).value)
  {
    match atom {
      case Acquire(p) =>
        assert Enabled(s, Open(p));
        AcquireIsSafe(s, p);
      case Release(p) =>
        assert Enabled(s, Unlock(p));
        ReleaseIsSafe(s, p);
      case Single(a) =>
        assert Enabled(s, a);
        SingleIsSafe(s, a);
    }
  }

  /** Every run in which the two pairs are atomic is a run without an unsafe call. */
  lemma {:induction false} AtomicRunIsSafe(s: System, atoms: seq<Atomic>)
    requires Inv(s) && HoldersBound(s) && Settled(s)
    requires Execute(s, Flatten(atoms)).Some? && forall x :: x in atoms ==> Wellformed(x)
    ensures SafeRun(s, Flatten(atoms)) && Settled(Execute(s, Flatten(atoms)).value)
    decreases |atoms|
  {
    if atoms == [] {
    } else {
      var first, rest := Expand(atoms[0]), Flatten(atoms[1..]);
      assert atoms[0] in atoms;
      ExecutesFirst(s, first, rest);
      ExecuteSplit(s, first, rest);
      AtomIsSafe(s, atoms[0]);
      SafeRunStaysBound(s, first);
      AtomicRunIsSafe(Execute(s, first).value, atoms[1..]);
      SafeRunSplit(s, first, rest);
    }
  }

  /** With both pairs atomic, every run of acquires, drops, probes, failures and crashes keeps every holder on
      the inode bound to the path, so the service never has two holders. */
  lemma AtomicRunsNeverDoubleServe(s: System, atoms: seq<Atomic>)
    requires Initial(s) && Execute(s, Flatten(atoms)).Some?
    requires forall x :: x in atoms ==> Wellformed(x)
    ensures var s' := Execute(s, Flatten(atoms)).value; HoldersBound(s') && AtMostOneHolder(s')
  {
    AtomicRunIsSafe(s, atoms);
    SafeRunStaysBound(s, Flatten(atoms));
    BoundMeansOneHolder(Execute(s, Flatten(atoms)).value);
  }

  // ---- why both assumptions are needed: the calls as they stand in the source ----

  /** After the server `p` has let go of its file, nobody holds or shares it. */
  lemma FileLeft(s: System, p: nat, s': System)
    requires Inv(s) && HoldersBound(s) && p in s.procs && s.procs[p].Serving?
    requires forall q :: q in s'.procs && (HoldsLock(s'.procs[q]) || s'.procs[q].Sharing?) ==>
               q != p && q in s.procs && s'.procs[q] == s.procs[q]
    ensures !Held(s', s.procs[p].inode) && !Shared(s', s.procs[p].inode)
  {
    BoundMeansOneHolder(s);
    assert IsHolder(s, p);
    forall q ensures !IsHolder(s', q) {
      assert IsHolder(s', q) ==> q != p && IsHolder(s, q);
    }
    assert !Shared(s, s.procs[p].inode);
  }

  lemma BothOrders(s: System, p: nat, q: nat, i: nat)
    requires s.path == Some(i) && p in s.procs && q in s.procs
    requires s.procs[p].Serving? && s.procs[p].inode == i && s.procs[q].Idle?
    ensures var s2 := s.(procs := s.procs[p := Unlocked(i)][q := Opened(i)]);
      Execute(s, [Unlock(p), Open(q)]) == Some(s2) && Execute(s, [Open(q), Unlock(p)]) == Some(s2)
  {
    TwoCalls(s, Unlock(p), Open(q));
    TwoCalls(s, Open(q), Unlock(p));
    assert s.procs[q := Opened(i)][p := Unlocked(i)] == s.procs[p := Unlocked(i)][q := Opened(i)];
  }

  /** A server `p` unlocks and `q` opens, in either order: then nobody has locked the file. */
  lemma UnlockAndOpen(s: System, p: nat, q: nat)
    requires Inv(s) && HoldersBound(s) && p in s.procs && q in s.procs
    requires s.procs[p].Serving? && s.procs[q].Idle?
    ensures var i := s.procs[p].inode;
      var s2 := s.(procs := s.procs[p := Unlocked(i)][q := Opened(i)]);
      && Execute(s, [Unlock(p), Open(q)]) == Some(s2) && Execute(s, [Open(q), Unlock(p)]) == Some(s2)
      && !Held(s2, i) && !Shared(s2, i)
  {
    assert IsHolder(s, p);
    var i := s.procs[p].inode;
    BothOrders(s, p, q, i);
    FileLeft(s, p, s.(procs := s.procs[p := Unlocked(i)][q := Opened(i)]));
  }

  /** With `p` about to remove the name of a file that nobody has locked and `q` about to lock it, either order
      gives `q` a file without a name. */
  lemma RemoveAndLock(s: System, p: nat, q: nat, i: nat)
    requires p in s.procs && q in s.procs && s.procs[p] == Unlocked(i) && s.procs[q] == Opened(i)
    requires !Held(s, i) && !Shared(s, i)
    ensures var e := Some(s.(path := None, procs := s.procs[q := Locked(i)][p := Idle]));
      Execute(s, [TryLock(q), Remove(p)]) == e && Execute(s, [Remove(p), TryLock(q)]) == e
  {
    TwoCalls(s, TryLock(q), Remove(p));
    var s1 := Apply(s, Remove(p));
    assert forall r :: r in s1.procs && r != p ==> s1.procs[r] == s.procs[r];
    assert !Held(s1, i) && !Shared(s1, i);
    TwoCalls(s, Remove(p), TryLock(q));
    assert s.procs[p := Idle][q := Locked(i)] == s.procs[q := Locked(i)][p := Idle];
  }

  function DropRace(p: nat, q: nat): (r: seq<Action>) {
    [Unlock(p), Open(q)] + [TryLock(q), Remove(p)]
  }

  /** `Drop` unlocks before it removes: with `p` serving alone, `q` can lock the still-named file in
      between, and `p` then removes the name of `q`'s file. */
  lemma DropWindow(s: System, p: nat, q: nat)
    requires Inv(s) && HoldersBound(s) && p in s.procs && q in s.procs
    requires s.procs[p].Serving? && s.procs[q].Idle?
    ensures Execute(s, DropRace(p, q)) ==
            Some(s.(path := None, procs := s.procs[q := Locked(s.procs[p].inode)][p := Idle]))
  {
    var i := s.procs[p].inode;
    var s2 := s.(procs := s.procs[p := Unlocked(i)][q := Opened(i)]);
    UnlockAndOpen(s, p, q);
    RemoveAndLock(s2, p, q, i);
    assert s2.procs[q := Locked(i)][p := Idle] == s.procs[q := Locked(i)][p := Idle];
    ExecuteSplit(s, [Unlock(p), Open(q)], [TryLock(q), Remove(p)]);
  }

  /** Once `q` holds a file without a name, a third process locks a new file. */
  lemma ThirdGetsNewFile(s: System, q: nat, r: nat)
    requires Fresh(s) && s.path.None? && IsHolder(s, q) && r in s.procs && s.procs[r].Idle?
    ensures var s' := AcquireNow(s, r); IsHolder(s', q) && IsHolder(s', r)
  {
    AcquireNowIs(s, r);
  }

  /** After that window a third process locks a new file: two servers. */
  lemma DropRaceDoubleServes(s: System, p: nat, q: nat, r: nat)
    requires Inv(s) && HoldersBound(s) && p in s.procs && q in s.procs && r in s.procs
    requires s.procs[p].Serving? && s.procs[q].Idle? && s.procs[r].Idle? && q != r
    ensures var e := Execute(s, DropRace(p, q) + [Open(r), TryLock(r)]);
      e.Some? && IsHolder(e.value, q) && IsHolder(e.value, r)
  {
    DropWindow(s, p, q);
    InvAlongRun(s, DropRace(p, q));
    var mid := s.(path := None, procs := s.procs[q := Locked(s.procs[p].inode)][p := Idle]);
    ThirdGetsNewFile(mid, q, r);
    ExecuteSplit(s, DropRace(p, q), [Open(r), TryLock(r)]);
  }

  function AcquireRace(p: nat, q: nat): (r: seq<Action>) {
    [Open(q), Unlock(p)] + [Remove(p), TryLock(q)]
  }

  /** `try_acquire` opens before it locks: even when a drop is atomic, `q` can open the file of `p` and
      lock it after `p` has removed its name. */
  lemma AcquireWindow(s: System, p: nat, q: nat)
    requires Inv(s) && HoldersBound(s) && p in s.procs && q in s.procs
    requires s.procs[p].Serving? && s.procs[q].Idle?
    ensures Execute(s, AcquireRace(p, q)) ==
            Some(s.(path := None, procs := s.procs[q := Locked(s.procs[p].inode)][p := Idle]))
  {
    var i := s.procs[p].inode;
    var s2 := s.(procs := s.procs[p := Unlocked(i)][q := Opened(i)]);
    UnlockAndOpen(s, p, q);
    RemoveAndLock(s2, p, q, i);
    assert s2.procs[q := Locked(i)][p := Idle] == s.procs[q := Locked(i)][p := Idle];
    ExecuteSplit(s, [Open(q), Unlock(p)], [Remove(p), TryLock(q)]);
  }

  lemma AcquireRaceDoubleServes(s: System, p: nat, q: nat, r: nat)
    requires Inv(s) && HoldersBound(s) && p in s.procs && q in s.procs && r in s.procs
    requires s.procs[p].Serving? && s.procs[q].Idle? && s.procs[r].Idle? && q != r
    ensures var e := Execute(s, AcquireRace(p, q) + [Open(r), TryLock(r)]);
      e.Some? && IsHolder(e.value, q) && IsHolder(e.value, r)
  {
    AcquireWindow(s, p, q);
    InvAlongRun(s, AcquireRace(p, q));
    var mid := s.(path := None, procs := s.procs[q := Locked(s.procs[p].inode)][p := Idle]);
    ThirdGetsNewFile(mid, q, r);
    ExecuteSplit(s, AcquireRace(p, q), [Open(r), TryLock(r)]);
  }

  // ---- remarks: what single states look like ----

  /** While somebody holds the bound file, a second acquire returns empty-handed and changes nothing. */
  lemma SecondAcquireRefused(s: System, p: nat, q: nat)
    requires Inv(s) && IsHolder(s, p) && s.path == Some(s.procs[p].inode)
    requires q in s.procs && s.procs[q].Idle?
    ensures AcquireNow(s, q) == s
  {
    assert Held(s, s.procs[p].inode);
    AcquireNowIs(s, q);
    assert s.procs[q := Idle] == s.procs;
  }
}
