/** The audit log with size-based rotation. A directory maps index 0 to the active file and index i to
    the i-th rotated file; a file is the list of its lines, each stored with a newline. */
module AuditLog {
  import opened Sequences

  type Line = seq<bv8>
  type File = seq<Line>
  type Directory = map<nat, File>

  function Bytes(file: File): (n: nat) {
    if file == [] then 0 else |file[0]| + 1 + Bytes(file[1..])
  }

  /** What the file holds on disk: every line with its newline. */
  function Text(file: File): (bytes: seq<bv8>) {
    if file == [] then [] else file[0] + [10] + Text(file[1..])
  }

  lemma {:induction false} BytesIsLength(file: File)
    ensures Bytes(file) == |Text(file)|
  {
    if file == [] {
    } else {
      BytesIsLength(file[1..]);
    }
  }

  function At(dir: Directory, i: nat): (file: Option<File>) {
    if i in dir then Some(dir[i]) else None
  }

  /** A failing rename, for want of the source file, changes nothing. */
  function Rename(dir: Directory, from: nat, to: nat): (r: Directory)
    requires from != to
    ensures At(r, from) == None
    ensures At(r, to) == if from in dir then At(dir, from) else At(dir, to)
    ensures forall i :: i != from && i != to ==> At(r, i) == At(dir, i)
  {
    if from in dir then (dir - {from})[to := dir[from]] else dir
  }

  predicate MustRotate(dir: Directory, maxBytes: nat) {
    0 in dir && Bytes(dir[0]) >= maxBytes
  }

  /** `r` is `dir` with files 0 to `retain` - 1 moved up by one, the old file `retain` gone, and every
      file beyond `retain` left alone. */
  ghost predicate Shifted(dir: Directory, r: Directory, retain: nat) {
    && At(r, 0) == None
    && (forall i: nat :: i < retain ==> At(r, i + 1) == At(dir, i))
    && (forall i: nat :: i > retain ==> At(r, i) == At(dir, i))
  }

  /** The state of the shift when files above `i` have been moved and slot `i + 1` is free. */
  ghost predicate ShiftedAbove(dir: Directory, r: Directory, i: nat, retain: nat) {
    && At(r, i + 1) == None
    && (forall j: nat :: j <= i ==> At(r, j) == At(dir, j))
    && (forall j: nat :: i < j < retain ==> At(r, j + 1) == At(dir, j))
    && (forall j: nat :: j > retain ==> At(r, j) == At(dir, j))
  }

  lemma ShiftOne(dir: Directory, r: Directory, i: nat, retain: nat)
    requires 1 <= i < retain && ShiftedAbove(dir, r, i, retain)
    ensures ShiftedAbove(dir, Rename(r, i, i + 1), i - 1, retain)
  {
  }

  lemma ShiftActive(dir: Directory, r: Directory, retain: nat)
    requires retain > 0 && 0 in dir && ShiftedAbove(dir, r, 0, retain)
    ensures Shifted(dir, Rename(r, 0, 1), retain)
  {
  }

  // ---- the directory as a chain of files, newest first ----

  /** The directory holding exactly the files of `chain`, the active file first. */
  function Directories(chain: seq<File>): (dir: Directory) {
    map i: nat | 0 <= i < |chain| :: chain[i]
  }

  /** The files that survive a rotation: all but the one at index `retain`. Files beyond it, left over from
      a larger retention count, stay where they are. */
  function Kept(chain: seq<File>, retain: nat): (kept: seq<File>) {
    if |chain| <= retain then chain else chain[..retain] + chain[retain + 1..]
  }

  predicate ChainFull(chain: seq<File>, maxBytes: nat) {
    |chain| > 0 && Bytes(chain[0]) >= maxBytes
  }

  /** What one emit does to the chain ... */
  function EmitChain(chain: seq<File>, line: Line, maxBytes: nat, retain: nat): (r: seq<File>) {
    if |chain| == 0 then [[line]]
    else if ChainFull(chain, maxBytes) then [[line]] + Kept(chain, retain)
    else [chain[0] + [line]] + chain[1..]
  }

  /** ... and the lines of the file it removes. */
  function Removed(chain: seq<File>, maxBytes: nat, retain: nat): (r: File) {
    if ChainFull(chain, maxBytes) && |chain| > retain then chain[retain] else []
  }

  /** The chain is what `AuditLog.Emit` leaves on disk. */
  lemma EmitChainIsEmit(chain: seq<File>, line: Line, maxBytes: nat, retain: nat, dir: Directory)
    requires maxBytes > 0 && retain > 0 && 0 in dir
    requires MustRotate(Directories(chain), maxBytes) ==>
               dir[0] == [line] && Shifted(Directories(chain), dir - {0}, retain)
    requires !MustRotate(Directories(chain), maxBytes) ==>
               dir == Directories(chain)[0 := (if 0 in Directories(chain) then Directories(chain)[0] else []) + [line]]
    ensures dir == Directories(EmitChain(chain, line, maxBytes, retain))
  {
    var before, after := Directories(chain), Directories(EmitChain(chain, line, maxBytes, retain));
    forall i: nat ensures (i in dir <==> i in after) && (i in dir ==> dir[i] == after[i]) {
      if MustRotate(before, maxBytes) && i > 0 {
        assert At(dir, i) == At(dir - {0}, i);
        assert i <= retain ==> At(dir - {0}, i - 1 + 1) == At(before, i - 1);
      }
    }
    assert dir.Keys == after.Keys;
  }

  /** The audit log. The size budget and the retention count are read from the environment on every
      call; values that are not positive are replaced by defaults before they get here. */
  class AuditLog {
    var dir: Directory

    constructor ()
      ensures dir == map[]
    {
      dir := map[];
    }

    /** On any directory whatever, gaps included: nothing below the size budget, and otherwise a shift. */
    method RotateIfNeeded(maxBytes: nat, retain: nat)
      requires maxBytes > 0 && retain > 0
      modifies this
      ensures if MustRotate(old(dir), maxBytes) then Shifted(old(dir), dir, retain) else dir == old(dir)
    {
      if 0 !in dir {
        return;
      }
      if Bytes(dir[0]) < maxBytes {
        return;
      }
      dir := dir - {retain};
      var i := retain - 1;
      while i >= 1
        invariant 0 <= i < retain && ShiftedAbove(old(dir), dir, i, retain)
      {
        ShiftOne(old(dir), dir, i, retain);
        dir := Rename(dir, i, i + 1);
        i := i - 1;
      }
      ShiftActive(old(dir), dir, retain);
      dir := Rename(dir, 0, 1);
    }

    method Emit(line: Line, maxBytes: nat, retain: nat)
      requires maxBytes > 0 && retain > 0
      modifies this
      ensures 0 in dir
      ensures MustRotate(old(dir), maxBytes) ==> dir[0] == [line] && Shifted(old(dir), dir - {0}, retain)
      ensures !MustRotate(old(dir), maxBytes) ==>
                dir == old(dir)[0 := (if 0 in old(dir) then old(dir)[0] else []) + [line]]
      ensures forall chain :: old(dir) == Directories(chain) ==>
                dir == Directories(EmitChain(chain, line, maxBytes, retain))
    {
      RotateIfNeeded(maxBytes, retain);
      ghost var mid := dir;
      dir := dir[0 := (if 0 in dir then dir[0] else []) + [line]];
      assert MustRotate(old(dir), maxBytes) ==> dir - {0} == mid;
      forall chain | old(dir) == Directories(chain)
        ensures dir == Directories(EmitChain(chain, line, maxBytes, retain))
      {
        EmitChainIsEmit(chain, line, maxBytes, retain, dir);
      }
    }
  }

  // ---- lines and bytes of a chain ----

  /** All lines on disk, oldest first: rotated files from the highest index down, then the active file. */
  function ReadBack(chain: seq<File>): (r: seq<Line>) {
    if chain == [] then [] else ReadBack(chain[1..]) + chain[0]
  }

  lemma ReadBackCons(file: File, chain: seq<File>)
    ensures ReadBack([file] + chain) == ReadBack(chain) + file
  {
  }

  lemma {:induction false} ReadBackLast(chain: seq<File>)
    requires chain != []
    ensures ReadBack(chain) == chain[|chain| - 1] + ReadBack(chain[..|chain| - 1])
  {
    var last := |chain| - 1;
    if last == 0 {
      assert chain == [chain[0]] + [];
      ReadBackCons(chain[0], []);
    } else {
      ReadBackLast(chain[1..]);
      assert chain[1..][..last - 1] == chain[1..last];
      assert chain[..last] == [chain[0]] + chain[1..last];
      ReadBackCons(chain[0], chain[1..last]);
      assert chain[last] + ReadBack(chain[1..last]) + chain[0] == chain[last] + (ReadBack(chain[1..last]) + chain[0]);
    }
  }

  lemma {:induction false} ReadBackKept(chain: seq<File>, retain: nat)
    requires |chain| <= retain + 1
    ensures ReadBack(chain) == (if |chain| > retain then chain[retain] else []) + ReadBack(Kept(chain, retain))
  {
    if |chain| > retain {
      ReadBackLast(chain);
      assert Kept(chain, retain) == chain[..retain];
    }
  }

  lemma Assoc<T>(a: seq<T>, b: seq<T>, c: seq<T>)
    ensures a + b + c == a + (b + c)
  {
  }

  /** One emit adds its line at the end and loses exactly the lines of the file at the oldest index. */
  lemma {:induction false} EmitConservesLines(chain: seq<File>, line: Line, maxBytes: nat, retain: nat)
    requires |chain| <= retain + 1
    ensures ReadBack(chain) + [line] ==
            Removed(chain, maxBytes, retain) + ReadBack(EmitChain(chain, line, maxBytes, retain))
  {
    if |chain| == 0 {
      ReadBackCons([line], []);
      assert [[line]] + [] == [[line]];
    } else if ChainFull(chain, maxBytes) {
      var kept := Kept(chain, retain);
      ReadBackCons([line], kept);
      ReadBackKept(chain, retain);
      Assoc(Removed(chain, maxBytes, retain), ReadBack(kept), [line]);
    } else {
      var rest := chain[1..];
      assert ReadBack(chain) == ReadBack(rest) + chain[0];
      ReadBackCons(chain[0] + [line], rest);
      Assoc(ReadBack(rest), chain[0], [line]);
    }
  }

  lemma {:induction false} BytesAppend(file: File, line: Line)
    ensures Bytes(file + [line]) == Bytes(file) + |line| + 1
  {
    if file == [] {
      assert file + [line] == [line];
      assert [line][1..] == [];
    } else {
      assert (file + [line])[1..] == file[1..] + [line];
      BytesAppend(file[1..], line);
    }
  }

  lemma {:induction false} BytesConcat(a: File, b: File)
    ensures Bytes(a + b) == Bytes(a) + Bytes(b)
  {
    if a == [] {
      assert a + b == b;
    } else {
      assert (a + b)[1..] == a[1..] + b;
      BytesConcat(a[1..], b);
    }
  }
}
