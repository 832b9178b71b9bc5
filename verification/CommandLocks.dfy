/** The file-backed command locks. A read-modify-write of the file is one step; a missing file reads as
    the empty list. */
module CommandLocks {
  import opened Sequences

  datatype LockStatus = Unlocked | Locked

  datatype CommandLock = CommandLock(
    cmdHash: string, pid: nat, status: LockStatus, outputPath: Option<string>, startTime: Option<int>)

  datatype Error = AlreadyLocked | NoLockFound | HeldByOther(pid: nat)

  datatype Result<T> = Ok(value: T) | Err(error: Error)

  predicate IsLocked(lock: CommandLock) {
    lock.pid != 0 && lock.status == Locked
  }

  /** Position of the first record of `hash`, or the length of the list. */
  function Find(locks: seq<CommandLock>, hash: string): (k: nat)
    ensures k <= |locks|
    ensures k < |locks| ==> locks[k].cmdHash == hash
    ensures forall i :: 0 <= i < k ==> locks[i].cmdHash != hash
  {
    if locks == [] then 0
    else if locks[0].cmdHash == hash then 0
    else 1 + Find(locks[1..], hash)
  }

  function Get(locks: seq<CommandLock>, hash: string): (r: Option<CommandLock>) {
    var k := Find(locks, hash);
    if k < |locks| then Some(locks[k]) else None
  }

  function AcquireIn(locks: seq<CommandLock>, hash: string, pid: nat, output: Option<string>, now: int)
    : (r: (Result<CommandLock>, seq<CommandLock>))
  {
    var k := Find(locks, hash);
    var lock := CommandLock(hash, pid, Locked, output, Some(now));
    if k == |locks| then (Ok(lock), locks + [lock])
    else if IsLocked(locks[k]) && locks[k].pid != pid then (Err(AlreadyLocked), locks)
    else (Ok(lock), locks[k := lock])
  }

  function ReleaseIn(locks: seq<CommandLock>, hash: string, pid: nat): (r: (Result<()>, seq<CommandLock>)) {
    var k := Find(locks, hash);
    if k == |locks| then (Err(NoLockFound), locks)
    else if locks[k].pid != pid then (Err(HeldByOther(locks[k].pid)), locks)
    else (Ok(()), locks[k := locks[k].(pid := 0, status := Unlocked, startTime := None)])
  }

  class CommandLockStore {
    var locks: seq<CommandLock>

    constructor ()
      ensures locks == []
    {
      locks := [];
    }

    method Acquire(hash: string, pid: nat, output: Option<string>, now: int) returns (r: Result<CommandLock>)
      modifies this
      ensures (r, locks) == AcquireIn(old(locks), hash, pid, output, now)
    {
      var k := Find(locks, hash);
      if k < |locks| {
        var lock := locks[k];
        if IsLocked(lock) && lock.pid != pid {
          return Err(AlreadyLocked);
        }
        lock := lock.(pid := pid, status := Locked, outputPath := output, startTime := Some(now));
        locks := locks[k := lock];
        return Ok(lock);
      }
      var lock := CommandLock(hash, pid, Locked, output, Some(now));
      locks := locks + [lock];
      r := Ok(lock);
    }

    method Release(hash: string, pid: nat) returns (r: Result<()>)
      modifies this
      ensures (r, locks) == ReleaseIn(old(locks), hash, pid)
    {
      var k := Find(locks, hash);
      if k == |locks| {
        return Err(NoLockFound);
      }
      var lock := locks[k];
      if lock.pid != pid {
        return Err(HeldByOther(lock.pid));
      }
      locks := locks[k := lock.(pid := 0, status := Unlocked, startTime := None)];
      r := Ok(());
    }
  }

  // ---- runs ----

  datatype Op = Acquire(hash: string, pid: nat, output: Option<string>, now: int) | Release(hash: string, pid: nat)

  function Step(locks: seq<CommandLock>, op: Op): (r: seq<CommandLock>) {
    match op
    case Acquire(hash, pid, output, now) => AcquireIn(locks, hash, pid, output, now).1
    case Release(hash, pid) => ReleaseIn(locks, hash, pid).1
  }

  predicate Succeeds(locks: seq<CommandLock>, op: Op) {
    match op
    case Acquire(hash, pid, output, now) => AcquireIn(locks, hash, pid, output, now).0.Ok?
    case Release(hash, pid) => ReleaseIn(locks, hash, pid).0.Ok?
  }

  function Run(locks: seq<CommandLock>, ops: seq<Op>): (r: seq<CommandLock>)
    decreases |ops|
  {
    if ops == [] then locks else Run(Step(locks, ops[0]), ops[1..])
  }

  /** At most one record per command hash. */
  ghost predicate Unique(locks: seq<CommandLock>) {
    forall i, j :: 0 <= i < j < |locks| ==> locks[i].cmdHash != locks[j].cmdHash
  }

  lemma FindIsTheOne(locks: seq<CommandLock>, hash: string, k: nat)
    requires k <= |locks|
    requires k < |locks| ==> locks[k].cmdHash == hash
    requires forall i :: 0 <= i < k ==> locks[i].cmdHash != hash
    ensures Find(locks, hash) == k
  {
  }

  /** The list after `op` is the list before, with one record of its hash replaced or appended. */
  lemma {:induction false} StepShape(locks: seq<CommandLock>, op: Op)
    ensures var after, k := Step(locks, op), Find(locks, op.hash);
      && |locks| <= |after| <= |locks| + 1
      && (|after| == |locks| + 1 ==> k == |locks|)
      && (forall i :: 0 <= i < |locks| ==> after[i].cmdHash == locks[i].cmdHash && (i != k ==> after[i] == locks[i]))
      && (|after| == |locks| + 1 ==> after[|locks|].cmdHash == op.hash)
  {
  }

  lemma StepUnique(locks: seq<CommandLock>, op: Op)
    requires Unique(locks)
    ensures Unique(Step(locks, op))
  {
    StepShape(locks, op);
  }

  /** Records of other hashes are untouched, and a refused step touches nothing. */
  lemma StepFrame(locks: seq<CommandLock>, op: Op, other: string)
    ensures other != op.hash ==> Get(Step(locks, op), other) == Get(locks, other)
    ensures !Succeeds(locks, op) ==> Step(locks, op) == locks
  {
    StepShape(locks, op);
    if other != op.hash {
      var j, after := Find(locks, other), Step(locks, op);
      FindIsTheOne(after, other, if j < |locks| then j else |after|);
    }
  }

  /** A successful step leaves the record of its hash as stated. */
  lemma StepOwn(locks: seq<CommandLock>, op: Op)
    requires Succeeds(locks, op)
    ensures var after := Get(Step(locks, op), op.hash);
      && after.Some?
      && (op.Acquire? ==> after.value == CommandLock(op.hash, op.pid, Locked, op.output, Some(op.now)))
      && (op.Release? ==>
            && Get(locks, op.hash).Some?
            && after.value == CommandLock(op.hash, 0, Unlocked, Get(locks, op.hash).value.outputPath, None))
  {
    StepShape(locks, op);
    FindIsTheOne(Step(locks, op), op.hash, Find(locks, op.hash));
  }

  /** An acquire is refused exactly while a record says that another, nonzero process has the lock; the holder's
      own acquire is granted again; and what a granted acquire returns is the record it stores. */
  lemma AcquireGrantedIff(locks: seq<CommandLock>, hash: string, pid: nat, output: Option<string>, now: int)
    ensures var before, (r, after) := Get(locks, hash), AcquireIn(locks, hash, pid, output, now);
      && (r.Err? <==> before.Some? && before.value.status == Locked && before.value.pid != 0 && before.value.pid != pid)
      && (r.Err? ==> r.error == AlreadyLocked && after == locks)
      && (r.Ok? ==>
            && r.value == CommandLock(hash, pid, Locked, output, Some(now))
            && Get(after, hash) == Some(r.value))
  {
    if AcquireIn(locks, hash, pid, output, now).0.Ok? {
      StepOwn(locks, Op.Acquire(hash, pid, output, now));
    }
  }

  /** A release is granted exactly to the pid in the record; without a record, or with another pid in it, the error
      says so and nothing changes. */
  lemma ReleaseGrantedIff(locks: seq<CommandLock>, hash: string, pid: nat)
    ensures var before, (r, after) := Get(locks, hash), ReleaseIn(locks, hash, pid);
      && (r.Ok? <==> before.Some? && before.value.pid == pid)
      && (r == Err(NoLockFound) <==> before.None?)
      && (before.Some? && before.value.pid != pid ==> r == Err(HeldByOther(before.value.pid)))
      && (r.Err? ==> after == locks)
      && (r.Ok? ==> Get(after, hash) == Some(CommandLock(hash, 0, Unlocked, before.value.outputPath, None)))
  {
    if ReleaseIn(locks, hash, pid).0.Ok? {
      StepOwn(locks, Op.Release(hash, pid));
    }
  }

  lemma {:induction false} UniqueAlongRun(locks: seq<CommandLock>, ops: seq<Op>)
    requires Unique(locks)
    ensures Unique(Run(locks, ops))
    decreases |ops|
  {
    if ops == [] {
    } else {
      StepUnique(locks, ops[0]);
      UniqueAlongRun(Step(locks, ops[0]), ops[1..]);
    }
  }

  /** Every run from an empty store keeps one record per hash. */
  lemma OneRecordPerHash(ops: seq<Op>)
    ensures Unique(Run([], ops))
  {
    UniqueAlongRun([], ops);
  }

  ghost predicate HeldBy(locks: seq<CommandLock>, hash: string, pid: nat) {
    var r := Get(locks, hash);
    r.Some? && r.value.status == Locked && r.value.pid == pid
  }

  /** While `pid` holds `hash`, a step of any other process on `hash` fails and changes nothing. */
  lemma OthersRefused(locks: seq<CommandLock>, hash: string, pid: nat, op: Op)
    requires pid != 0 && HeldBy(locks, hash, pid) && op.hash == hash && op.pid != pid
    ensures !Succeeds(locks, op) && Step(locks, op) == locks
  {
  }

  lemma HolderKeeps(locks: seq<CommandLock>, hash: string, pid: nat, op: Op)
    requires pid != 0 && HeldBy(locks, hash, pid) && op != Release(hash, pid)
    ensures HeldBy(Step(locks, op), hash, pid)
  {
    StepFrame(locks, op, hash);
    if op.hash == hash {
      if op.pid != pid {
        OthersRefused(locks, hash, pid, op);
      } else {
        StepOwn(locks, op);
      }
    }
  }

  /** A lock taken by a nonzero pid stays with that pid through every run in which that pid does not
      release it, and throughout it every other process is refused. */
  lemma {:induction false} HeldUntilReleased(locks: seq<CommandLock>, hash: string, pid: nat, ops: seq<Op>, k: nat)
    requires pid != 0 && HeldBy(locks, hash, pid)
    requires forall op :: op in ops ==> op != Release(hash, pid)
    requires k <= |ops|
    ensures HeldBy(Run(locks, ops[..k]), hash, pid)
    ensures k < |ops| && ops[k].hash == hash && ops[k].pid != pid ==> !Succeeds(Run(locks, ops[..k]), ops[k])
    decreases k
  {
    if k == 0 {
      assert ops[..k] == [];
      if ops != [] && ops[0].hash == hash && ops[0].pid != pid {
        OthersRefused(locks, hash, pid, ops[0]);
      }
    } else {
      var op := ops[0];
      assert op in ops;
      HolderKeeps(locks, hash, pid, op);
      forall x | x in ops[1..] ensures x != Release(hash, pid) {
        assert x in ops;
      }
      HeldUntilReleased(Step(locks, op), hash, pid, ops[1..], k - 1);
      assert ops[..k][1..] == ops[1..][..k - 1];
    }
  }

  lemma {:induction false} RunLast(locks: seq<CommandLock>, ops: seq<Op>)
    requires ops != []
    ensures Run(locks, ops) == Step(Run(locks, ops[..|ops| - 1]), ops[|ops| - 1])
    decreases |ops|
  {
    var last := |ops| - 1;
    if last == 0 {
      assert ops[..0] == [] && ops[1..] == [];
    } else {
      RunLast(Step(locks, ops[0]), ops[1..]);
      assert ops[1..][..last - 1] == ops[..last][1..];
    }
  }

  /** The last step on `hash` that was granted in the run from an empty store. */
  function LastGranted(ops: seq<Op>, hash: string): (r: Option<Op>) {
    if ops == [] then None
    else
      var init, op := ops[..|ops| - 1], ops[|ops| - 1];
      if op.hash == hash && Succeeds(Run([], init), op) then Some(op) else LastGranted(init, hash)
  }

  /** Who holds what, after every run from an empty store: `pid` holds `hash` if and only if the last granted step
      on `hash` is an acquire by `pid`. */
  lemma {:induction false} HeldByLastGranted(ops: seq<Op>, hash: string, pid: nat)
    ensures var g := LastGranted(ops, hash);
      && (HeldBy(Run([], ops), hash, pid) <==> g.Some? && g.value.Acquire? && g.value.pid == pid)
      && (Get(Run([], ops), hash).None? <==> g.None?)
    decreases |ops|
  {
    if ops == [] {
    } else {
      var init, op := ops[..|ops| - 1], ops[|ops| - 1];
      var before := Run([], init);
      RunLast([], ops);
      HeldByLastGranted(init, hash, pid);
      StepFrame(before, op, hash);
      if op.hash == hash && Succeeds(before, op) {
        StepOwn(before, op);
      }
    }
  }

  /** After every run the holder can release, and then nobody holds the hash and every process can acquire it. */
  lemma ReleaseFrees(ops: seq<Op>, hash: string, pid: nat, q: nat, output: Option<string>, now: int)
    requires HeldBy(Run([], ops), hash, pid)
    ensures Succeeds(Run([], ops), Op.Release(hash, pid))
    ensures var after := Run([], ops + [Op.Release(hash, pid)]);
      && !HeldBy(after, hash, q)
      && Succeeds(after, Op.Acquire(hash, q, output, now))
      && HeldBy(Step(after, Op.Acquire(hash, q, output, now)), hash, q)
  {
    var more := ops + [Op.Release(hash, pid)];
    RunLast([], more);
    assert more[..|more| - 1] == ops;
    ReleaseGrantedIff(Run([], ops), hash, pid);
    AcquireGrantedIff(Run([], more), hash, q, output, now);
  }

  /** A granted lock shuts out another process exactly when it was granted to a nonzero pid. */
  lemma GrantExcludesIff(locks: seq<CommandLock>, hash: string, p: nat, q: nat, output: Option<string>, now: int)
    requires p != q && AcquireIn(locks, hash, p, output, now).0.Ok?
    ensures AcquireIn(AcquireIn(locks, hash, p, output, now).1, hash, q, output, now).0.Err? <==> p != 0
  {
    StepOwn(locks, Op.Acquire(hash, p, output, now));
  }

  /** Why the read-modify-write must be one step: two processes that read the same file both get the lock
      exactly when nobody holds it, and the one that writes last erases the other. */
  lemma SameSnapshotDoubleGrant(locks: seq<CommandLock>, hash: string, p: nat, q: nat, output: Option<string>, now: int)
    requires p != q
    ensures AcquireIn(locks, hash, p, output, now).0.Ok? && AcquireIn(locks, hash, q, output, now).0.Ok? <==>
            Get(locks, hash).None? || !IsLocked(Get(locks, hash).value)
    ensures AcquireIn(locks, hash, q, output, now).0.Ok? ==>
            !HeldBy(AcquireIn(locks, hash, q, output, now).1, hash, p)
  {
    if AcquireIn(locks, hash, q, output, now).0.Ok? {
      StepOwn(locks, Op.Acquire(hash, q, output, now));
    }
  }
}
