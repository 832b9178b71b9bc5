/** Whole runs of the audit log. The size budget and the retention count may change from one emit to the
    next, as the environment they are read from may. Lines are told apart by the position at which they were
    emitted, so that equal lines are not confused. */
module AuditRuns {
  import opened AuditLog

  datatype Emission = Emission(line: Line, maxBytes: nat, retain: nat)

  /** The positions `lo` to `hi` - 1 of the lines in one file. */
  datatype Span = Span(lo: nat, hi: nat)

  /** The files on disk, newest first, and the positions of their lines. */
  datatype Disk = Disk(chain: seq<File>, spans: seq<Span>)

  function KeptSpans(spans: seq<Span>, retain: nat): (r: seq<Span>) {
    if |spans| <= retain then spans else spans[..retain] + spans[retain + 1..]
  }

  /** What an emit of the line at position `n` does to the positions. */
  function EmitSpans(spans: seq<Span>, n: nat, rotate: bool, retain: nat): (r: seq<Span>) {
    if |spans| == 0 then [Span(n, n + 1)]
    else if rotate then [Span(n, n + 1)] + KeptSpans(spans, retain)
    else [Span(spans[0].lo, n + 1)] + spans[1..]
  }

  function Emit(d: Disk, e: Emission, n: nat): (r: Disk) {
    Disk(EmitChain(d.chain, e.line, e.maxBytes, e.retain),
         EmitSpans(d.spans, n, ChainFull(d.chain, e.maxBytes), e.retain))
  }

  /** The disk after a run of emits from an empty directory. */
  function Run(es: seq<Emission>): (d: Disk) {
    if |es| == 0 then Disk([], []) else Emit(Run(es[..|es| - 1]), es[|es| - 1], |es| - 1)
  }

  function Lines(es: seq<Emission>): (r: seq<Line>)
    ensures |r| == |es|
    ensures forall i :: 0 <= i < |es| ==> r[i] == es[i].line
  {
    seq(|es|, i requires 0 <= i < |es| => es[i].line)
  }

  /** The settings in force are positive, as the code makes sure. */
  ghost predicate Positive(es: seq<Emission>) {
    forall i :: 0 <= i < |es| ==> es[i].maxBytes > 0 && es[i].retain > 0
  }

  lemma RunStep(es: seq<Emission>, k: nat)
    requires k < |es|
    ensures Run(es[..k + 1]) == Emit(Run(es[..k]), es[k], k)
  {
    assert es[..k + 1][..k] == es[..k];
  }

  // ---- every file is a block of the emitted lines, newer files later blocks ----

  /** Nonempty disjoint blocks below `n`, newest first. */
  ghost predicate Blocks(spans: seq<Span>, n: nat) {
    && (forall i :: 0 <= i < |spans| ==> spans[i].lo < spans[i].hi <= n)
    && (forall i, j :: 0 <= i < j < |spans| ==> spans[j].hi <= spans[i].lo)
  }

  ghost predicate Ordered(spans: seq<Span>, n: nat) {
    && (|spans| == 0 <==> n == 0)
    && (|spans| > 0 ==> spans[0].hi == n)
    && Blocks(spans, n)
  }

  ghost predicate Holds(chain: seq<File>, spans: seq<Span>, lines: seq<Line>) {
    && |chain| == |spans|
    && (forall i :: 0 <= i < |spans| ==> spans[i].lo <= spans[i].hi <= |lines|)
    && (forall i :: 0 <= i < |spans| ==> chain[i] == lines[spans[i].lo..spans[i].hi])
  }

  /** Where the `i`-th kept block was before. */
  function Source(count: nat, retain: nat, i: nat): (k: nat) {
    if count <= retain || i < retain then i else i + 1
  }

  lemma KeptAt(spans: seq<Span>, retain: nat, i: nat)
    requires i < |KeptSpans(spans, retain)|
    ensures Source(|spans|, retain, i) < |spans| && KeptSpans(spans, retain)[i] == spans[Source(|spans|, retain, i)]
  {
  }

  lemma KeptBlocks(spans: seq<Span>, n: nat, retain: nat)
    requires Blocks(spans, n)
    ensures Blocks(KeptSpans(spans, retain), n)
  {
    var kept := KeptSpans(spans, retain);
    forall i | 0 <= i < |kept| ensures kept[i].lo < kept[i].hi <= n {
      KeptAt(spans, retain, i);
    }
    forall i, j | 0 <= i < j < |kept| ensures kept[j].hi <= kept[i].lo {
      KeptAt(spans, retain, i);
      KeptAt(spans, retain, j);
    }
  }

  lemma NewBlock(spans: seq<Span>, first: Span, n: nat)
    requires Blocks(spans, first.lo) && first.lo < first.hi <= n
    ensures Blocks([first] + spans, n)
  {
  }

  lemma SpansStayOrdered(spans: seq<Span>, n: nat, rotate: bool, retain: nat)
    requires Ordered(spans, n) && retain > 0
    ensures Ordered(EmitSpans(spans, n, rotate, retain), n + 1)
  {
    if |spans| == 0 {
    } else if rotate {
      KeptBlocks(spans, n, retain);
      NewBlock(KeptSpans(spans, retain), Span(n, n + 1), n + 1);
    } else {
      assert Blocks(spans[1..], spans[0].lo);
      NewBlock(spans[1..], Span(spans[0].lo, n + 1), n + 1);
    }
  }

  lemma HoldsMore(chain: seq<File>, spans: seq<Span>, lines: seq<Line>, line: Line)
    requires Holds(chain, spans, lines)
    ensures Holds(chain, spans, lines + [line])
  {
    forall i | 0 <= i < |spans| ensures chain[i] == (lines + [line])[spans[i].lo..spans[i].hi] {
      assert (lines + [line])[spans[i].lo..spans[i].hi] == lines[spans[i].lo..spans[i].hi];
    }
  }

  lemma KeptFileAt(chain: seq<File>, retain: nat, i: nat)
    requires i < |Kept(chain, retain)|
    ensures Source(|chain|, retain, i) < |chain| && Kept(chain, retain)[i] == chain[Source(|chain|, retain, i)]
  {
  }

  lemma KeptHolds(chain: seq<File>, spans: seq<Span>, lines: seq<Line>, retain: nat)
    requires Holds(chain, spans, lines)
    ensures Holds(Kept(chain, retain), KeptSpans(spans, retain), lines)
  {
    var files, kept := Kept(chain, retain), KeptSpans(spans, retain);
    forall i | 0 <= i < |kept|
      ensures kept[i].lo <= kept[i].hi <= |lines| && files[i] == lines[kept[i].lo..kept[i].hi]
    {
      KeptAt(spans, retain, i);
      KeptFileAt(chain, retain, i);
    }
  }

  lemma NewHolds(file: File, span: Span, chain: seq<File>, spans: seq<Span>, lines: seq<Line>)
    requires Holds(chain, spans, lines)
    requires span.lo <= span.hi <= |lines| && file == lines[span.lo..span.hi]
    ensures Holds([file] + chain, [span] + spans, lines)
  {
  }

  lemma TailHolds(chain: seq<File>, spans: seq<Span>, lines: seq<Line>)
    requires Holds(chain, spans, lines) && |spans| > 0
    ensures Holds(chain[1..], spans[1..], lines)
  {
  }

  lemma RotateHolds(d: Disk, e: Emission, lines: seq<Line>)
    requires Holds(d.chain, d.spans, lines + [e.line]) && |d.spans| > 0 && ChainFull(d.chain, e.maxBytes)
    ensures var r := Emit(d, e, |lines|); Holds(r.chain, r.spans, lines + [e.line])
  {
    var n, more := |lines|, lines + [e.line];
    assert more[n..n + 1] == [e.line];
    KeptHolds(d.chain, d.spans, more, e.retain);
    NewHolds([e.line], Span(n, n + 1), Kept(d.chain, e.retain), KeptSpans(d.spans, e.retain), more);
  }

  lemma AppendHolds(d: Disk, e: Emission, lines: seq<Line>)
    requires Holds(d.chain, d.spans, lines + [e.line]) && |d.spans| > 0 && d.spans[0].hi == |lines|
    requires !ChainFull(d.chain, e.maxBytes)
    ensures var r := Emit(d, e, |lines|); Holds(r.chain, r.spans, lines + [e.line])
  {
    var n, more, lo := |lines|, lines + [e.line], d.spans[0].lo;
    assert more[lo..n + 1] == more[lo..n] + [e.line];
    TailHolds(d.chain, d.spans, more);
    NewHolds(d.chain[0] + [e.line], Span(lo, n + 1), d.chain[1..], d.spans[1..], more);
  }

  lemma EmitHolds(d: Disk, e: Emission, lines: seq<Line>)
    requires Ordered(d.spans, |lines|) && Holds(d.chain, d.spans, lines) && e.retain > 0
    ensures var r := Emit(d, e, |lines|); Holds(r.chain, r.spans, lines + [e.line])
  {
    HoldsMore(d.chain, d.spans, lines, e.line);
    if |d.spans| == 0 {
      assert lines == [];
    } else if ChainFull(d.chain, e.maxBytes) {
      RotateHolds(d, e, lines);
    } else {
      AppendHolds(d, e, lines);
    }
  }

  /** In every run, whatever the settings: each file holds a block of consecutive emitted lines, the blocks
      are disjoint and in order, and the newest block ends with the last line emitted. */
  lemma {:induction false} DiskHoldsBlocks(es: seq<Emission>)
    requires Positive(es)
    ensures Ordered(Run(es).spans, |es|) && Holds(Run(es).chain, Run(es).spans, Lines(es))
    decreases |es|
  {
    if |es| == 0 {
    } else {
      var init, e := es[..|es| - 1], es[|es| - 1];
      DiskHoldsBlocks(init);
      SpansStayOrdered(Run(init).spans, |init|, ChainFull(Run(init).chain, e.maxBytes), e.retain);
      EmitHolds(Run(init), e, Lines(init));
      assert Lines(es) == Lines(init) + [e.line];
    }
  }

  // ---- files beyond the retention count ----

  /** The number of files after an emit: it never falls, and a rotation adds one only up to the count. */
  lemma FileCount(chain: seq<File>, e: Emission)
    ensures |EmitChain(chain, e.line, e.maxBytes, e.retain)| ==
            if |chain| == 0 then 1
            else if ChainFull(chain, e.maxBytes) && |chain| <= e.retain then |chain| + 1
            else |chain|
  {
  }

  lemma SpanCount(spans: seq<Span>, n: nat, rotate: bool, retain: nat)
    ensures var after := EmitSpans(spans, n, rotate, retain);
      |after| == if |spans| == 0 then 1 else if rotate && |spans| <= retain then |spans| + 1 else |spans|
  {
  }

  /** The header promises that files beyond the retention count are deleted. */
  ghost predicate NoneBeyond(d: Disk, retain: nat) {
    |d.chain| <= retain + 1
  }

  /** In every run, after every emit: no file lies beyond the retention count then in force if and only if
      none did before that emit. A file once beyond the count is there for good. */
  lemma BeyondRetentionIff(es: seq<Emission>, k: nat)
    requires Positive(es) && k < |es|
    ensures NoneBeyond(Run(es[..k + 1]), es[k].retain) <==> NoneBeyond(Run(es[..k]), es[k].retain)
  {
    RunStep(es, k);
    var d := Run(es[..k]);
    FileCount(d.chain, es[k]);
  }

  ghost predicate NeverLowered(es: seq<Emission>) {
    forall i :: 0 <= i < |es| - 1 ==> es[i].retain <= es[i + 1].retain
  }

  /** So the promise is kept throughout every run in which the count is never lowered. */
  lemma {:induction false} PromiseKeptIfNeverLowered(es: seq<Emission>, k: nat)
    requires Positive(es) && NeverLowered(es) && k < |es|
    ensures NoneBeyond(Run(es[..k + 1]), es[k].retain) && NoneBeyond(Run(es[..k]), es[k].retain)
    decreases k
  {
    BeyondRetentionIff(es, k);
    if k == 0 {
      assert es[..0] == [];
    } else {
      PromiseKeptIfNeverLowered(es, k - 1);
    }
  }

  // ---- when the disk holds a suffix ----

  ghost predicate OnDisk(spans: seq<Span>, p: nat) {
    exists i :: 0 <= i < |spans| && spans[i].lo <= p < spans[i].hi
  }

  /** No line is missing behind a line that is there. */
  ghost predicate IsSuffix(spans: seq<Span>, n: nat) {
    forall p: nat, q: nat :: p <= q < n && OnDisk(spans, p) ==> OnDisk(spans, q)
  }

  ghost predicate Contiguous(spans: seq<Span>) {
    forall i :: 0 <= i < |spans| - 1 ==> spans[i + 1].hi == spans[i].lo
  }

  lemma {:induction false} ContiguousCovers(spans: seq<Span>, n: nat, k: nat, q: nat)
    requires Ordered(spans, n) && Contiguous(spans) && k < |spans| && spans[k].lo <= q < n
    ensures OnDisk(spans, q)
    decreases k
  {
    if k == 0 {
      assert spans[0].lo <= q < spans[0].hi;
    } else if q < spans[k].hi {
      assert spans[k].lo <= q < spans[k].hi;
    } else {
      assert spans[k - 1 + 1].hi == spans[k - 1].lo;
      ContiguousCovers(spans, n, k - 1, q);
    }
  }

  lemma GapIsMissing(spans: seq<Span>, n: nat, i: nat)
    requires Ordered(spans, n) && i + 1 < |spans| && spans[i + 1].hi < spans[i].lo
    ensures !OnDisk(spans, spans[i + 1].hi)
  {
    var q := spans[i + 1].hi;
    forall j | 0 <= j < |spans| ensures !(spans[j].lo <= q < spans[j].hi) {
      if j < i {
        assert spans[i].hi <= spans[j].lo;
      } else if j > i + 1 {
        assert spans[j].hi <= spans[i + 1].lo;
      }
    }
  }

  lemma SuffixIffContiguous(spans: seq<Span>, n: nat)
    requires Ordered(spans, n)
    ensures IsSuffix(spans, n) <==> Contiguous(spans)
  {
    if Contiguous(spans) {
      forall p: nat, q: nat | p <= q < n && OnDisk(spans, p) ensures OnDisk(spans, q) {
        var k :| 0 <= k < |spans| && spans[k].lo <= p < spans[k].hi;
        ContiguousCovers(spans, n, k, q);
      }
    } else {
      var i :| 0 <= i < |spans| - 1 && spans[i + 1].hi != spans[i].lo;
      assert spans[i + 1].hi < spans[i].lo;
      GapIsMissing(spans, n, i);
      var p := spans[i + 1].hi - 1;
      assert OnDisk(spans, p);
    }
  }

  lemma JoinSlices<T>(s: seq<T>, a: nat, b: nat, c: nat)
    requires a <= b <= c <= |s|
    ensures s[a..b] + s[b..c] == s[a..c]
  {
  }

  lemma TailIsContiguous(chain: seq<File>, spans: seq<Span>, lines: seq<Line>, n: nat)
    requires Holds(chain, spans, lines) && Ordered(spans, n) && Contiguous(spans) && |spans| > 1
    ensures Holds(chain[1..], spans[1..], lines) && Ordered(spans[1..], spans[0].lo) && Contiguous(spans[1..])
    ensures spans[|spans| - 1].lo <= spans[0].lo
  {
    TailHolds(chain, spans, lines);
    assert spans[0 + 1].hi == spans[0].lo;
    var later := spans[1..];
    forall i | 0 <= i < |later| - 1 ensures later[i + 1].hi == later[i].lo {
      assert spans[i + 1 + 1].hi == spans[i + 1].lo;
    }
  }

  lemma {:induction false} ReadBackOfContiguous(chain: seq<File>, spans: seq<Span>, lines: seq<Line>, n: nat)
    requires Holds(chain, spans, lines) && Ordered(spans, n) && n <= |lines| && Contiguous(spans) && |spans| > 0
    ensures ReadBack(chain) == lines[spans[|spans| - 1].lo..n]
    decreases |spans|
  {
    var rest, later, lo := chain[1..], spans[1..], spans[0].lo;
    if |spans| == 1 {
      assert rest == [];
    } else {
      var m := spans[|spans| - 1].lo;
      assert later[|later| - 1] == spans[|spans| - 1];
      assert spans[0 + 1].hi == lo;
      TailIsContiguous(chain, spans, lines, n);
      ReadBackOfContiguous(rest, later, lines, lo);
      JoinSlices(lines, m, lo, n);
    }
  }

  /** If the disk holds a suffix, reading it back gives that suffix of everything emitted. */
  lemma {:induction false} SuffixReadsBack(es: seq<Emission>)
    requires Positive(es) && |es| > 0 && IsSuffix(Run(es).spans, |es|)
    ensures var d := Run(es);
      && |d.spans| > 0 && d.spans[|d.spans| - 1].lo < |es|
      && ReadBack(d.chain) == Lines(es)[d.spans[|d.spans| - 1].lo..]
  {
    DiskHoldsBlocks(es);
    SuffixIffContiguous(Run(es).spans, |es|);
    ReadBackOfContiguous(Run(es).chain, Run(es).spans, Lines(es), |es|);
  }

  function Min(a: nat, b: nat): (r: nat) {
    if a < b then a else b
  }

  function RecentAfter(d: Disk, c: nat, e: Emission): (r: nat) {
    if |d.spans| == 0 then 1 else if ChainFull(d.chain, e.maxBytes) then Min(c, e.retain) + 1 else c
  }

  /** How many files, counted from the newest, hold consecutive lines: a rotation cuts this block at the
      retention count and adds a file. */
  function Recent(es: seq<Emission>): (c: nat) {
    if |es| == 0 then 0 else RecentAfter(Run(es[..|es| - 1]), Recent(es[..|es| - 1]), es[|es| - 1])
  }

  /** The first `c` blocks follow each other; before them, if anything, there is a gap. */
  ghost predicate Block(spans: seq<Span>, c: nat) {
    && c <= |spans| && (|spans| > 0 ==> c > 0)
    && (forall i :: 0 <= i < c - 1 ==> spans[i + 1].hi == spans[i].lo)
    && (c < |spans| ==> spans[c].hi < spans[c - 1].lo)
  }

  /** After a rotation, the files of the new block follow each other ... */
  lemma RotatedFront(spans: seq<Span>, n: nat, c: nat, retain: nat, i: nat)
    requires Ordered(spans, n) && Block(spans, c) && |spans| > 0 && i < Min(c, retain)
    ensures var kept := [Span(n, n + 1)] + KeptSpans(spans, retain);
      i + 1 < |kept| && kept[i + 1].hi == kept[i].lo
  {
    KeptAt(spans, retain, i);
    if i > 0 {
      KeptAt(spans, retain, i - 1);
      assert spans[i - 1 + 1].hi == spans[i - 1].lo;
    }
  }

  /** ... and the next one, if there is one, lies behind a gap. */
  lemma RotatedGap(spans: seq<Span>, n: nat, c: nat, retain: nat)
    requires Ordered(spans, n) && Block(spans, c) && |spans| > 0 && retain > 0
    requires Min(c, retain) < |KeptSpans(spans, retain)|
    ensures var kept := KeptSpans(spans, retain); kept[Min(c, retain)].hi < kept[Min(c, retain) - 1].lo
  {
    var m := Min(c, retain);
    KeptAt(spans, retain, m);
    KeptAt(spans, retain, m - 1);
    if |spans| > retain && retain <= c {
      assert spans[retain + 1].hi <= spans[retain].lo < spans[retain].hi <= spans[retain - 1].lo;
    }
  }

  lemma RotateBlock(spans: seq<Span>, n: nat, c: nat, retain: nat)
    requires Ordered(spans, n) && Block(spans, c) && |spans| > 0 && retain > 0
    ensures Block(EmitSpans(spans, n, true, retain), Min(c, retain) + 1)
  {
    var after, m := EmitSpans(spans, n, true, retain), Min(c, retain);
    assert m < |after| by {
      RotatedFront(spans, n, c, retain, m - 1);
    }
    forall i | 0 <= i < m ensures after[i + 1].hi == after[i].lo {
      RotatedFront(spans, n, c, retain, i);
    }
    if m + 1 < |after| {
      RotatedGap(spans, n, c, retain);
    }
  }

  lemma AppendBlock(spans: seq<Span>, n: nat, c: nat)
    requires Block(spans, c) && |spans| > 0
    ensures Block(EmitSpans(spans, n, false, 0), c)
  {
    var after := EmitSpans(spans, n, false, 0);
    forall i | 0 <= i < c - 1 ensures after[i + 1].hi == after[i].lo {
      assert spans[i + 1].hi == spans[i].lo;
    }
  }

  lemma EmitBlock(d: Disk, c: nat, e: Emission, n: nat)
    requires Ordered(d.spans, n) && Block(d.spans, c) && e.retain > 0
    ensures Block(Emit(d, e, n).spans, RecentAfter(d, c, e))
  {
    if |d.spans| == 0 {
    } else if ChainFull(d.chain, e.maxBytes) {
      RotateBlock(d.spans, n, c, e.retain);
    } else {
      AppendBlock(d.spans, n, c);
    }
  }

  lemma {:induction false} RecentIsBlock(es: seq<Emission>)
    requires Positive(es)
    ensures Block(Run(es).spans, Recent(es))
    decreases |es|
  {
    if |es| == 0 {
    } else {
      var init, e := es[..|es| - 1], es[|es| - 1];
      RecentIsBlock(init);
      DiskHoldsBlocks(init);
      EmitBlock(Run(init), Recent(init), e, |init|);
    }
  }

  lemma BlockIsAll(spans: seq<Span>, c: nat)
    requires Block(spans, c)
    ensures Contiguous(spans) <==> c == |spans|
  {
    if c < |spans| && c > 0 {
      assert spans[c - 1 + 1].hi < spans[c - 1].lo;
    }
  }

  /** In every run, whatever the settings, the disk ends up holding a suffix of what was emitted if and only
      if the block of recent files, cut by every rotation at the retention count then in force, is all
      there is. */
  lemma SuffixIff(es: seq<Emission>)
    requires Positive(es)
    ensures IsSuffix(Run(es).spans, |es|) <==> Recent(es) == |Run(es).chain|
  {
    DiskHoldsBlocks(es);
    RecentIsBlock(es);
    SuffixIffContiguous(Run(es).spans, |es|);
    BlockIsAll(Run(es).spans, Recent(es));
  }

  /** An emit that removes a file from the middle: it rotates and finds files beyond the retention count. */
  predicate RemovesMiddle(d: Disk, e: Emission) {
    ChainFull(d.chain, e.maxBytes) && |d.chain| > e.retain + 1
  }

  lemma CountsAfter(d: Disk, c: nat, e: Emission, n: nat)
    requires |d.chain| == |d.spans| == c && e.retain > 0
    ensures RecentAfter(d, c, e) == |Emit(d, e, n).spans| <==> !RemovesMiddle(d, e)
  {
    SpanCount(d.spans, n, ChainFull(d.chain, e.maxBytes), e.retain);
  }

  lemma SuffixAfterIff(es: seq<Emission>, k: nat)
    requires Positive(es) && k < |es| && IsSuffix(Run(es[..k]).spans, k)
    ensures IsSuffix(Run(es[..k + 1]).spans, k + 1) <==> !RemovesMiddle(Run(es[..k]), es[k])
  {
    SuffixIff(es[..k]);
    SuffixIff(es[..k + 1]);
    DiskHoldsBlocks(es[..k]);
    DiskHoldsBlocks(es[..k + 1]);
    assert es[..k + 1][..k] == es[..k];
    CountsAfter(Run(es[..k]), Recent(es[..k]), es[k], k);
  }

  lemma {:induction false} SuffixUpTo(es: seq<Emission>, k: nat)
    requires Positive(es) && k <= |es|
    requires forall j :: 0 <= j < k ==> !RemovesMiddle(Run(es[..j]), es[j])
    ensures IsSuffix(Run(es[..k]).spans, k)
    decreases k
  {
    if k == 0 {
    } else {
      SuffixUpTo(es, k - 1);
      SuffixAfterIff(es, k - 1);
    }
  }

  /** The disk holds a suffix after every emit of a run if and only if no emit of the run rotates while there
      are files beyond its retention count. */
  lemma SuffixThroughoutIff(es: seq<Emission>)
    requires Positive(es)
    ensures (forall k :: 0 <= k <= |es| ==> IsSuffix(Run(es[..k]).spans, k)) <==>
            (forall k :: 0 <= k < |es| ==> !RemovesMiddle(Run(es[..k]), es[k]))
  {
    if forall k :: 0 <= k < |es| ==> !RemovesMiddle(Run(es[..k]), es[k]) {
      forall k | 0 <= k <= |es| ensures IsSuffix(Run(es[..k]).spans, k) {
        SuffixUpTo(es, k);
      }
    } else if forall k :: 0 <= k <= |es| ==> IsSuffix(Run(es[..k]).spans, k) {
      var k :| 0 <= k < |es| && RemovesMiddle(Run(es[..k]), es[k]);
      assert IsSuffix(Run(es[..k]).spans, k) && IsSuffix(Run(es[..k + 1]).spans, k + 1);
      SuffixAfterIff(es, k);
    }
  }

  // ---- sizes ----

  function Longest(es: seq<Emission>): (n: nat)
    ensures forall i :: 0 <= i < |es| ==> |es[i].line| <= n
  {
    if |es| == 0 then 0
    else
      var n := Longest(es[..|es| - 1]);
      if |es[|es| - 1].line| > n then |es[|es| - 1].line| else n
  }

  /** Every budget of the run is between `least` and `most`. */
  ghost predicate BudgetsWithin(es: seq<Emission>, least: nat, most: nat) {
    forall i :: 0 <= i < |es| ==> least <= es[i].maxBytes <= most
  }

  /** Every file is below a budget before its last line, and every rotated file has reached one. */
  ghost predicate SizesBounded(chain: seq<File>, least: nat, most: nat, longest: nat) {
    && (forall i :: 0 <= i < |chain| ==> Bytes(chain[i]) <= most - 1 + longest + 1)
    && (forall i :: 1 <= i < |chain| ==> Bytes(chain[i]) >= least)
  }

  lemma EmitKeepsSizes(chain: seq<File>, e: Emission, least: nat, most: nat, longest: nat)
    requires SizesBounded(chain, least, most, longest)
    requires 0 < e.maxBytes && least <= e.maxBytes <= most && |e.line| <= longest && e.retain > 0
    ensures SizesBounded(EmitChain(chain, e.line, e.maxBytes, e.retain), least, most, longest)
  {
    var after := EmitChain(chain, e.line, e.maxBytes, e.retain);
    BytesAppend([], e.line);
    assert [] + [e.line] == [e.line];
    if |chain| == 0 {
    } else if ChainFull(chain, e.maxBytes) {
      forall i | 1 <= i < |after| ensures Bytes(after[i]) <= most - 1 + longest + 1 && Bytes(after[i]) >= least {
        KeptFileAt(chain, e.retain, i - 1);
      }
    } else {
      BytesAppend(chain[0], e.line);
    }
  }

  /** In every run each file is at most the largest budget used, less one, plus the longest line with its
      newline; and each rotated file is at least the smallest budget used. */
  lemma {:induction false} SizesAlongRun(es: seq<Emission>, least: nat, most: nat, longest: nat)
    requires Positive(es) && BudgetsWithin(es, least, most) && forall i :: 0 <= i < |es| ==> |es[i].line| <= longest
    ensures SizesBounded(Run(es).chain, least, most, longest)
    decreases |es|
  {
    if |es| == 0 {
    } else {
      var init, e := es[..|es| - 1], es[|es| - 1];
      SizesAlongRun(init, least, most, longest);
      EmitKeepsSizes(Run(init).chain, e, least, most, longest);
    }
  }

  // ---- fixed settings ----

  ghost predicate Fixed(es: seq<Emission>, maxBytes: nat, retain: nat) {
    maxBytes > 0 && retain > 0 && forall i :: 0 <= i < |es| ==> es[i].maxBytes == maxBytes && es[i].retain == retain
  }

  lemma FixedKeepsSuffix(es: seq<Emission>, maxBytes: nat, retain: nat)
    requires Fixed(es, maxBytes, retain)
    ensures IsSuffix(Run(es).spans, |es|) && |Run(es).chain| <= retain + 1
  {
    forall k | 0 <= k < |es| ensures !RemovesMiddle(Run(es[..k]), es[k]) {
      PromiseKeptIfNeverLowered(es, k);
      DiskHoldsBlocks(es[..k]);
    }
    SuffixThroughoutIff(es);
    assert es[..|es|] == es;
    DiskHoldsBlocks(es);
    if |es| > 0 {
      PromiseKeptIfNeverLowered(es, |es| - 1);
    }
  }

  /** Over every run of emits from an empty directory with fixed budget and retention: the files occupy
      indices 0..k with k at most `retain`; what is on disk is a suffix of everything emitted, in order; and
      every file stays within the budget plus one line. */
  lemma FixedRunKeepsASuffix(es: seq<Emission>, maxBytes: nat, retain: nat)
    requires Fixed(es, maxBytes, retain) && |es| > 0
    ensures var d := Run(es);
      && 0 < |d.chain| == |d.spans| <= retain + 1
      && d.spans[|d.spans| - 1].lo < |es| && ReadBack(d.chain) == Lines(es)[d.spans[|d.spans| - 1].lo..]
      && SizesBounded(d.chain, maxBytes, maxBytes, Longest(es))
  {
    FixedKeepsSuffix(es, maxBytes, retain);
    SuffixReadsBack(es);
    DiskHoldsBlocks(es);
    SizesAlongRun(es, maxBytes, maxBytes, Longest(es));
  }

  /** The first line is still on disk, or the chain is as long as it gets. */
  ghost predicate FirstOrFull(spans: seq<Span>, retain: nat) {
    |spans| <= retain + 1 && (|spans| > 0 && spans[|spans| - 1].lo > 0 ==> |spans| == retain + 1)
  }

  lemma FirstLineLeavesLast(spans: seq<Span>, n: nat, rotate: bool, retain: nat)
    requires FirstOrFull(spans, retain) && (|spans| == 0 ==> n == 0)
    ensures FirstOrFull(EmitSpans(spans, n, rotate, retain), retain)
  {
    SpanCount(spans, n, rotate, retain);
    var after := EmitSpans(spans, n, rotate, retain);
    if |spans| > 0 && rotate && |spans| <= retain {
      assert after[|spans|] == spans[|spans| - 1];
    }
  }

  lemma {:induction false} LossNeedsFullChain(es: seq<Emission>, maxBytes: nat, retain: nat)
    requires Fixed(es, maxBytes, retain)
    ensures FirstOrFull(Run(es).spans, retain)
    decreases |es|
  {
    if |es| == 0 {
    } else {
      var init, e := es[..|es| - 1], es[|es| - 1];
      LossNeedsFullChain(init, maxBytes, retain);
      DiskHoldsBlocks(init);
      FirstLineLeavesLast(Run(init).spans, |init|, ChainFull(Run(init).chain, e.maxBytes), retain);
    }
  }

  lemma Distribute(each: nat, n: nat)
    ensures each * (n + 1) == each * n + each
  {
  }

  lemma {:induction false} TotalBytes(chain: seq<File>, each: nat)
    requires forall i :: 0 <= i < |chain| ==> Bytes(chain[i]) >= each
    ensures Bytes(ReadBack(chain)) >= each * |chain|
  {
    if |chain| == 0 {
    } else {
      var rest := chain[1..];
      TotalBytes(rest, each);
      BytesConcat(ReadBack(rest), chain[0]);
      Distribute(each, |rest|);
    }
  }

  lemma {:induction false} FullChainBytes(chain: seq<File>, maxBytes: nat, retain: nat)
    requires |chain| == retain + 1 && forall i :: 1 <= i < |chain| ==> Bytes(chain[i]) >= maxBytes
    ensures Bytes(ReadBack(chain)) >= maxBytes * retain
  {
    TotalBytes(chain[1..], maxBytes);
    BytesConcat(ReadBack(chain[1..]), chain[0]);
  }

  /** A suffix that lacks a line lacks the first one, so the files are as many as they can be. */
  lemma FullIfMissing(d: Disk, n: nat, retain: nat, p: nat)
    requires Ordered(d.spans, n) && IsSuffix(d.spans, n) && FirstOrFull(d.spans, retain) && |d.chain| == |d.spans|
    requires p < n && !OnDisk(d.spans, p)
    ensures |d.chain| == retain + 1
  {
    assert !OnDisk(d.spans, 0);
    var last := |d.spans| - 1;
    assert d.spans[last].lo < d.spans[last].hi;
  }

  lemma {:induction false} RotatedReachBudget(es: seq<Emission>, maxBytes: nat)
    requires Positive(es) && forall i :: 0 <= i < |es| ==> es[i].maxBytes == maxBytes
    ensures forall i :: 1 <= i < |Run(es).chain| ==> Bytes(Run(es).chain[i]) >= maxBytes
  {
    SizesAlongRun(es, maxBytes, maxBytes, Longest(es));
  }

  /** With fixed settings, a line is missing only once `retain` rotated files are on disk, each of at least the
      budget. */
  lemma {:induction false} LossImpliesFullRetention(es: seq<Emission>, maxBytes: nat, retain: nat, p: nat)
    requires Fixed(es, maxBytes, retain) && p < |es| && !OnDisk(Run(es).spans, p)
    ensures var chain := Run(es).chain;
      && |chain| == retain + 1
      && (forall i :: 1 <= i <= retain ==> Bytes(chain[i]) >= maxBytes)
      && Bytes(ReadBack(chain)) >= maxBytes * retain
  {
    DiskHoldsBlocks(es);
    LossNeedsFullChain(es, maxBytes, retain);
    FixedKeepsSuffix(es, maxBytes, retain);
    FullIfMissing(Run(es), |es|, retain, p);
    RotatedReachBudget(es, maxBytes);
    FullChainBytes(Run(es).chain, maxBytes, retain);
  }

  // ---- a run that breaks both promises ----

  lemma FullFile(line: Line)
    ensures ChainFull([[line]], 1) && Bytes([line]) >= 1
  {
    BytesAppend([], line);
    assert [] + [line] == [line];
  }

  /** With a budget every line fills, three lines under retention 2 make three files. */
  lemma ThreeFiles(a: Line, b: Line, c: Line)
    ensures var es := [Emission(a, 1, 2), Emission(b, 1, 2), Emission(c, 1, 2)];
      Run(es) == Disk([[c], [b], [a]], [Span(2, 3), Span(1, 2), Span(0, 1)])
  {
    var es := [Emission(a, 1, 2), Emission(b, 1, 2), Emission(c, 1, 2)];
    FullFile(a);
    FullFile(b);
    assert es[..1] == [Emission(a, 1, 2)] && es[..2][..1] == es[..1] && es[..1][..0] == [];
    assert Run(es[..1]) == Disk([[a]], [Span(0, 1)]);
    RunStep(es, 1);
    assert Run(es[..2]) == Disk([[b], [a]], [Span(1, 2), Span(0, 1)]);
    RunStep(es, 2);
    assert es[..3] == es;
  }

  lemma LowerOnce(a: Line, b: Line, c: Line, d: Line)
    ensures Emit(Disk([[c], [b], [a]], [Span(2, 3), Span(1, 2), Span(0, 1)]), Emission(d, 1, 1), 3)
         == Disk([[d], [c], [a]], [Span(3, 4), Span(2, 3), Span(0, 1)])
  {
    FullFile(c);
    var chain, spans := [[c], [b], [a]], [Span(2, 3), Span(1, 2), Span(0, 1)];
    assert Kept(chain, 1) == [[c], [a]] && KeptSpans(spans, 1) == [Span(2, 3), Span(0, 1)];
  }

  lemma MissingMiddle()
    ensures !IsSuffix([Span(3, 4), Span(2, 3), Span(0, 1)], 4)
  {
    var spans := [Span(3, 4), Span(2, 3), Span(0, 1)];
    assert OnDisk(spans, 0) by { assert spans[2].lo <= 0 < spans[2].hi; }
    assert !OnDisk(spans, 1);
  }

  /** Lowering the count to 1 and emitting once more: a file stays beyond the count, and the line `b` is gone
      while the older `a` is kept. */
  lemma LoweredRetentionRun(a: Line, b: Line, c: Line, d: Line)
    ensures var es := [Emission(a, 1, 2), Emission(b, 1, 2), Emission(c, 1, 2)] + [Emission(d, 1, 1)];
      && Positive(es)
      && Run(es) == Disk([[d], [c], [a]], [Span(3, 4), Span(2, 3), Span(0, 1)])
      && !NoneBeyond(Run(es), es[3].retain)
      && !IsSuffix(Run(es).spans, |es|)
  {
    var before := [Emission(a, 1, 2), Emission(b, 1, 2), Emission(c, 1, 2)];
    var es := before + [Emission(d, 1, 1)];
    ThreeFiles(a, b, c);
    LowerOnce(a, b, c, d);
    assert es[..3] == before;
    MissingMiddle();
  }
}
