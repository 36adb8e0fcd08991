/** The block heap: a table with one byte per 4096-byte block. An allocation is a
    run of blocks whose first entry is marked FIRST and whose entries up to the last
    but one are marked HAS_NEXT. */
module Heaps {
  import opened Memory
  import opened Status

  type Entry = bv8
  const FREE: Entry := 0x00
  const TAKEN: Entry := 0x01
  const HAS_NEXT: Entry := 0x80
  const IS_FIRST: Entry := 0x40

  predicate IsFree(e: Entry) {
    e & 0x0f == FREE
  }

  predicate HasNext(e: Entry) {
    e & HAS_NEXT != 0
  }

  /** The entry of a block inside a run, by its place in the run. */
  function TakenEntry(first: bool, last: bool): Entry {
    TAKEN | (if first then IS_FIRST else 0) | (if last then 0 else HAS_NEXT)
  }

  lemma TakenEntryBits(first: bool, last: bool)
    ensures !IsFree(TakenEntry(first, last)) && TakenEntry(first, last) != FREE
    ensures HasNext(TakenEntry(first, last)) <==> !last
  {
  }

  // ---------------------------------------------------------------------------
  // What a table stands for: a set of disjoint runs, start block to length.
  // ---------------------------------------------------------------------------

  type Runs = map<nat, nat>

  ghost predicate Covers(runs: Runs, s: nat, i: int) {
    s in runs && s <= i < s + runs[s]
  }

  ghost predicate DisjointRuns(runs: Runs, total: nat) {
    && (forall s: nat :: s in runs ==> runs[s] >= 1 && s + runs[s] <= total)
    && (forall s: nat, t: nat :: s in runs && t in runs && s < t ==> s + runs[s] <= t)
  }

  /** The entry of block `i` when exactly the blocks of `runs` are taken. */
  ghost function EntryOf(runs: Runs, i: nat): Entry {
    if exists s: nat :: Covers(runs, s, i)
    then var s: nat :| Covers(runs, s, i); TakenEntry(i == s, i == s + runs[s] - 1)
    else FREE
  }

  /** The table of a set of runs. */
  ghost function Table(runs: Runs, total: nat): (e: seq<Entry>)
    ensures |e| == total
  {
    seq(total, i requires 0 <= i => EntryOf(runs, i))
  }

  ghost predicate Encodes(e: seq<Entry>, runs: Runs) {
    DisjointRuns(runs, |e|) && e == Table(runs, |e|)
  }

  /** Block by block: a table entry tells whether its block lies in a run, and where in it. */
  ghost predicate EncodesBlocks(e: seq<Entry>, runs: Runs) {
    && (forall s: nat, i: nat :: Covers(runs, s, i) && i < |e|
          ==> e[i] == TakenEntry(i == s, i == s + runs[s] - 1))
    && (forall i: nat :: i < |e| && e[i] != FREE ==> exists s: nat :: Covers(runs, s, i))
  }

  lemma EncodesIffBlocks(e: seq<Entry>, runs: Runs)
    requires DisjointRuns(runs, |e|)
    ensures Encodes(e, runs) <==> EncodesBlocks(e, runs)
  {
    var t := Table(runs, |e|);
    assert EncodesBlocks(t, runs) by {
      forall s: nat, i: nat | Covers(runs, s, i) && i < |e|
        ensures t[i] == TakenEntry(i == s, i == s + runs[s] - 1)
      {
        assert t[i] == EntryOf(runs, i);
      }
    }
    if EncodesBlocks(e, runs) {
      forall i: nat | i < |e| ensures e[i] == t[i] {
        if exists s: nat :: Covers(runs, s, i) {
          var s: nat :| Covers(runs, s, i);
          assert e[i] == t[i];
        }
      }
    }
  }

  /** Bit by bit: the low half of an entry says whether its block is in a run, bit 6 whether a run starts there,
      and bit 7 whether the run goes on. */
  lemma TableBits(e: seq<Entry>, runs: Runs, i: nat)
    requires Encodes(e, runs) && i < |e|
    ensures e[i] & 0x0f == (if exists s: nat :: Covers(runs, s, i) then 1 else 0) && e[i] & 0x30 == 0
    ensures e[i] & 0x40 != 0 <==> i in runs
    ensures e[i] & 0x80 != 0 <==> exists s: nat :: Covers(runs, s, i) && Covers(runs, s, i + 1)
  {
    EncodesIffBlocks(e, runs);
    if i in runs {
      assert Covers(runs, i, i);
    }
    if s: nat :| Covers(runs, s, i) {
      assert e[i] == TakenEntry(i == s, i == s + runs[s] - 1);
      EntryBits(i == s, i == s + runs[s] - 1);
    }
  }

  lemma EntryBits(first: bool, last: bool)
    ensures TakenEntry(first, last) == if first then (if last then 0x41 else 0xC1) else if last then 0x01 else 0x81
  {
  }

  /** A table stands for one set of runs only. */
  lemma RunsOfTableAreUnique(e: seq<Entry>, runs: Runs, runs': Runs)
    requires Encodes(e, runs) && Encodes(e, runs')
    ensures runs == runs'
  {
    forall s: nat | s in runs ensures s in runs' && runs'[s] == runs[s] {
      RunInBoth(e, runs, runs', s);
    }
    forall s: nat | s in runs' ensures s in runs {
      RunInBoth(e, runs', runs, s);
    }
  }

  lemma RunInBoth(e: seq<Entry>, runs: Runs, runs': Runs, s: nat)
    requires Encodes(e, runs) && Encodes(e, runs') && s in runs
    ensures s in runs' && runs'[s] == runs[s]
  {
    EncodesIffBlocks(e, runs);
    EncodesIffBlocks(e, runs');
    assert Covers(runs, s, s);
    assert e[s] != FREE by { TakenEntryBits(true, runs[s] == 1); }
    var t: nat :| Covers(runs', t, s);
    assert t == s;
    var end, end' := s + runs[s] - 1, s + runs'[s] - 1;
    assert Covers(runs, s, end) && Covers(runs', s, end');
    assert Covers(runs, s, end') || end < end';
    assert Covers(runs', s, end) || end' < end;
  }

  // ---------------------------------------------------------------------------
  // First fit.
  // ---------------------------------------------------------------------------

  ghost predicate FreeRun(e: seq<Entry>, s: int, n: nat) {
    0 <= s && s + n <= |e| && forall k :: s <= k < s + n ==> IsFree(e[k])
  }

  /** Some `n` consecutive blocks are free. */
  ghost predicate Fits(e: seq<Entry>, n: nat) {
    n >= 1 && exists s :: FreeRun(e, s, n)
  }

  ghost predicate LastTaken(e: seq<Entry>) {
    |e| == 0 || !IsFree(e[|e| - 1])
  }

  /** What the search for `n` blocks returns: the least fitting start; with no fit, failure
      when the last block is taken and the start of the (too short) free tail otherwise. */
  ghost predicate IsStartBlock(e: seq<Entry>, n: nat, r: int) {
    if Fits(e, n) then FreeRun(e, r, n) && forall t :: 0 <= t < r ==> !FreeRun(e, t, n)
    else if LastTaken(e) then r == -ENOMEM
    else 0 <= r < |e| && FreeRun(e, r, |e| - r) && (r == 0 || !IsFree(e[r - 1]))
  }

  lemma StartBlockIsUnique(e: seq<Entry>, n: nat, r: int, r': int)
    requires IsStartBlock(e, n, r) && IsStartBlock(e, n, r')
    ensures r == r'
  {
    if Fits(e, n) {
      assert !(r < r') && !(r' < r);
    }
  }

  /** The caller's guard under which an allocation stays inside the table: the search may
      only come back without a full run when it comes back with an error. */
  ghost predicate CanServe(e: seq<Entry>, n: nat) {
    Fits(e, n) || LastTaken(e)
  }

  /** The blocks marked by an allocation of `n` lie inside the table if and only if `CanServe`:
      a free tail shorter than the request is handed out all the same. */
  lemma MarksStayInTableIff(e: seq<Entry>, n: nat, r: int)
    requires n >= 1 && IsStartBlock(e, n, r)
    ensures (r >= 0 ==> r + n <= |e|) <==> CanServe(e, n)
    ensures CanServe(e, n) ==> (r >= 0 <==> Fits(e, n))
  {
    if !CanServe(e, n) && r + n <= |e| {
      assert FreeRun(e, r, n);
    }
  }

  /** One-block requests need no guard: they fail exactly on a full heap. */
  lemma OneBlockFailsOnlyWhenFull(e: seq<Entry>, r: int)
    requires IsStartBlock(e, 1, r)
    ensures CanServe(e, 1)
    ensures r < 0 <==> forall i :: 0 <= i < |e| ==> !IsFree(e[i])
  {
    forall i | 0 <= i < |e| && IsFree(e[i]) ensures Fits(e, 1) {
      assert FreeRun(e, i, 1);
    }
    if Fits(e, 1) {
      assert IsFree(e[r]);
    }
  }

  /** The short-tail case, concretely: two blocks asked of a table whose only free block is the last. */
  lemma ShortTailIsHandedOut()
    ensures var e := [TakenEntry(true, true), FREE];
            IsStartBlock(e, 2, 1) && !Fits(e, 2)
  {
    var e := [TakenEntry(true, true), FREE];
    assert !IsFree(e[0]) && IsFree(e[1]);
    assert !FreeRun(e, 0, 2);
  }

  // ---------------------------------------------------------------------------
  // The effect of marking, on tables and on runs.
  // ---------------------------------------------------------------------------

  ghost function MarkTaken(e: seq<Entry>, s: nat, n: nat): seq<Entry>
    requires s + n <= |e|
  {
    seq(|e|, i requires 0 <= i < |e| => if s <= i < s + n then TakenEntry(i == s, i == s + n - 1) else e[i])
  }

  /** Freeing block `b` and, as long as the entry just freed had HAS_NEXT, the block after it. */
  ghost function FreeChain(e: seq<Entry>, b: nat): (r: seq<Entry>)
    ensures |r| == |e|
    decreases |e| - b
  {
    if b >= |e| then e
    else if HasNext(e[b]) then FreeChain(e[b := FREE], b + 1)
    else e[b := FREE]
  }

  /** The blocks of a free run lie in no run. */
  lemma FreeRunIsOutside(e: seq<Entry>, runs: Runs, s: nat, n: nat)
    requires Encodes(e, runs) && FreeRun(e, s, n)
    ensures forall t: nat, i: nat :: Covers(runs, t, i) ==> !(s <= i < s + n)
  {
    EncodesIffBlocks(e, runs);
    forall t: nat, i: nat | Covers(runs, t, i) ensures !(s <= i < s + n) {
      TakenEntryBits(i == t, i == t + runs[t] - 1);
      assert !IsFree(e[i]);
    }
  }

  lemma DisjointWithOneMore(runs: Runs, total: nat, s: nat, n: nat)
    requires DisjointRuns(runs, total) && n >= 1 && s + n <= total
    requires forall t: nat, i: nat :: Covers(runs, t, i) ==> !(s <= i < s + n)
    ensures s !in runs && DisjointRuns(runs[s := n], total)
  {
    assert s in runs ==> Covers(runs, s, s);
    forall t: nat | t in runs ensures t + runs[t] <= s || s + n <= t {
      assert Covers(runs, t, t);
      assert t < s < t + runs[t] ==> Covers(runs, t, s);
    }
  }

  /** Marking a free run adds one fresh run to the set. */
  lemma MarkTakenAddsRun(e: seq<Entry>, runs: Runs, s: nat, n: nat)
    requires Encodes(e, runs) && n >= 1 && FreeRun(e, s, n)
    ensures s !in runs
    ensures Encodes(MarkTaken(e, s, n), runs[s := n])
  {
    var e', runs' := MarkTaken(e, s, n), runs[s := n];
    EncodesIffBlocks(e, runs);
    FreeRunIsOutside(e, runs, s, n);
    DisjointWithOneMore(runs, |e|, s, n);
    forall t: nat, i: nat | Covers(runs', t, i) && i < |e|
      ensures e'[i] == TakenEntry(i == t, i == t + runs'[t] - 1)
    {
      assert t != s ==> Covers(runs, t, i);
    }
    forall i: nat | i < |e'| && e'[i] != FREE ensures exists t: nat :: Covers(runs', t, i) {
      if s <= i < s + n {
        assert Covers(runs', s, i);
      } else {
        var t: nat :| Covers(runs, t, i);
        assert Covers(runs', t, i);
      }
    }
    EncodesIffBlocks(e', runs');
  }

  /** Following the chain from inside a run frees the rest of that run and nothing else,
      even when the next block starts another allocation. */
  lemma {:induction false} FreeChainFreesRest(e: seq<Entry>, b: nat, last: nat)
    requires b <= last < |e|
    requires forall i: nat :: b <= i <= last ==> (HasNext(e[i]) <==> i != last)
    ensures var r := FreeChain(e, b);
            forall i :: 0 <= i < |e| ==> r[i] == if b <= i <= last then FREE else e[i]
    decreases last - b
  {
    if b != last {
      FreeChainFreesRest(e[b := FREE], b + 1, last);
    }
  }

  /** The chain from the first block of a live run ends at its last block. */
  lemma ChainOfRun(e: seq<Entry>, runs: Runs, s: nat)
    requires Encodes(e, runs) && s in runs
    ensures forall i: nat :: s <= i < s + runs[s] ==>
              i < |e| && !IsFree(e[i]) && (HasNext(e[i]) <==> i != s + runs[s] - 1)
    ensures var r := FreeChain(e, s);
            forall i :: 0 <= i < |e| ==> r[i] == if s <= i < s + runs[s] then FREE else e[i]
  {
    EncodesIffBlocks(e, runs);
    forall i: nat | s <= i < s + runs[s]
      ensures i < |e| && !IsFree(e[i]) && (HasNext(e[i]) <==> i != s + runs[s] - 1)
    {
      assert Covers(runs, s, i);
      TakenEntryBits(i == s, i == s + runs[s] - 1);
    }
    FreeChainFreesRest(e, s, s + runs[s] - 1);
  }

  /** With the blocks of one run free, the table encodes the other runs. */
  lemma FreedRunEncodes(e: seq<Entry>, runs: Runs, s: nat, r: seq<Entry>)
    requires DisjointRuns(runs, |e|) && EncodesBlocks(e, runs) && s in runs
    requires |r| == |e| && forall i :: 0 <= i < |e| ==> r[i] == if s <= i < s + runs[s] then FREE else e[i]
    ensures EncodesBlocks(r, runs - {s})
  {
    var rest := runs - {s};
    forall t: nat, i: nat | Covers(rest, t, i) && i < |r|
      ensures r[i] == TakenEntry(i == t, i == t + rest[t] - 1)
    {
      assert Covers(runs, t, i);
    }
    forall i: nat | i < |r| && r[i] != FREE ensures exists t: nat :: Covers(rest, t, i) {
      var t: nat :| Covers(runs, t, i);
      assert Covers(rest, t, i);
    }
  }

  /** Freeing the start of a live run removes exactly that run. */
  lemma FreeChainRemovesRun(e: seq<Entry>, runs: Runs, s: nat)
    requires Encodes(e, runs) && s in runs
    ensures Encodes(FreeChain(e, s), runs - {s})
  {
    ChainOfRun(e, runs, s);
    EncodesIffBlocks(e, runs);
    FreedRunEncodes(e, runs, s, FreeChain(e, s));
    EncodesIffBlocks(FreeChain(e, s), runs - {s});
  }

  /** malloc followed by free of the result restores the table entry for entry. */
  lemma MallocThenFreeRestores(e: seq<Entry>, runs: Runs, s: nat, n: nat)
    requires Encodes(e, runs) && n >= 1 && FreeRun(e, s, n)
    ensures FreeChain(MarkTaken(e, s, n), s) == e
  {
    MarkTakenAddsRun(e, runs, s, n);
    FreeChainRemovesRun(MarkTaken(e, s, n), runs[s := n], s);
    assert runs[s := n] - {s} == runs;
  }

  /** Taking a run and giving it back leaves the set of runs as it was. */
  lemma TakeAndGiveBack(runs: Runs, s: nat, n: nat)
    requires s !in runs
    ensures runs[s := n] - {s} == runs
  {
  }

  // ---------------------------------------------------------------------------
  // Counting free blocks.
  // ---------------------------------------------------------------------------

  ghost function FreeBlocks(e: seq<Entry>): set<nat> {
    set i: nat | i < |e| && IsFree(e[i])
  }

  ghost function Interval(s: nat, n: nat): (r: set<nat>)
    ensures |r| == n
    ensures forall i: nat :: i in r <==> s <= i < s + n
  {
    if n == 0 then {} else Interval(s, n - 1) + {s + n - 1}
  }

  lemma MarkTakenUsesBlocks(e: seq<Entry>, s: nat, n: nat)
    requires FreeRun(e, s, n)
    ensures FreeBlocks(MarkTaken(e, s, n)) == FreeBlocks(e) - Interval(s, n)
    ensures |FreeBlocks(MarkTaken(e, s, n))| == |FreeBlocks(e)| - n
  {
    var e' := MarkTaken(e, s, n);
    forall i: nat | i < |e| ensures IsFree(e'[i]) <==> IsFree(e[i]) && i !in Interval(s, n) {
      TakenEntryBits(i == s, i == s + n - 1);
    }
    assert Interval(s, n) <= FreeBlocks(e);
  }

  lemma FreeChainReturnsBlocks(e: seq<Entry>, runs: Runs, s: nat)
    requires Encodes(e, runs) && s in runs
    ensures |FreeBlocks(FreeChain(e, s))| == |FreeBlocks(e)| + runs[s]
  {
    ChainOfRun(e, runs, s);
    assert FreeBlocks(FreeChain(e, s)) == FreeBlocks(e) + Interval(s, runs[s]);
  }

  // ---------------------------------------------------------------------------
  // Whole runs of the allocator.
  // ---------------------------------------------------------------------------

  datatype Op = Malloc(blocks: nat, result: int) | Free(start: nat)

  /** One call, on the table alone, as the code performs it. */
  ghost predicate Step(e: seq<Entry>, op: Op, e': seq<Entry>) {
    match op
    case Malloc(n, r) =>
      && n >= 1 && CanServe(e, n) && IsStartBlock(e, n, r)
      && (if r < 0 then e' == e else r + n <= |e| && e' == MarkTaken(e, r, n))
    case Free(s) => e' == FreeChain(e, s)
  }

  /** What a caller who held `runs` holds after one more call. */
  ghost function After(runs: Runs, op: Op): Runs {
    match op
    case Malloc(n, r) => if r < 0 then runs else runs[r := n]
    case Free(b) => runs - {b}
  }

  /** One call on a well-formed table: the table follows the caller's view. A malloc that
      succeeds gives a run not held before; it succeeds exactly when a long enough gap exists. */
  lemma StepEncodes(e: seq<Entry>, runs: Runs, op: Op, e': seq<Entry>)
    requires Encodes(e, runs) && Step(e, op, e')
    requires op.Free? ==> op.start in runs
    ensures |e'| == |e| && Encodes(e', After(runs, op))
    ensures op.Malloc? ==>
              && (op.result >= 0 <==> Fits(e, op.blocks))
              && (op.result >= 0 ==> op.result !in runs && op.result + op.blocks <= |e|)
    ensures op.Malloc? && op.result >= 0 ==> |FreeBlocks(e')| == |FreeBlocks(e)| - op.blocks
    ensures op.Free? ==> |FreeBlocks(e')| == |FreeBlocks(e)| + runs[op.start]
  {
    match op {
      case Malloc(n, r) =>
        MarksStayInTableIff(e, n, r);
        if r >= 0 {
          MarkTakenAddsRun(e, runs, r, n);
          MarkTakenUsesBlocks(e, r, n);
        }
      case Free(b) =>
        FreeChainRemovesRun(e, runs, b);
        FreeChainReturnsBlocks(e, runs, b);
    }
  }

  /** What the caller believes is allocated after `ops`. */
  ghost function RunsAfter(ops: seq<Op>): Runs {
    if ops == [] then map[] else After(RunsAfter(ops[..|ops| - 1]), ops[|ops| - 1])
  }

  /** The calls of `ops` lead from the empty heap through `tables`, and only results of earlier,
      not yet freed, calls are freed. */
  ghost predicate Trace(tables: seq<seq<Entry>>, ops: seq<Op>) {
    var trace :=
      && |tables| == |ops| + 1
      && (forall i: nat :: i < |tables[0]| ==> tables[0][i] == FREE)
      && (forall i: nat :: i < |ops| ==> Step(tables[i], ops[i], tables[i + 1]))
      && (forall i: nat :: i < |ops| && ops[i].Free? ==> ops[i].start in RunsAfter(ops[..i]));
    trace
  }

  /** Over every run of malloc and free, the table is the encoding of what the caller holds,
      and a successful malloc returns a run that was not held. */
  lemma {:induction false} TraceEncodes(tables: seq<seq<Entry>>, ops: seq<Op>)
    requires Trace(tables, ops)
    ensures |tables[|ops|]| == |tables[0]|
    ensures Encodes(tables[|ops|], RunsAfter(ops))
    ensures |ops| > 0 && ops[|ops| - 1].Malloc? && ops[|ops| - 1].result >= 0 ==>
              ops[|ops| - 1].result !in RunsAfter(ops[..|ops| - 1])
    decreases |ops|
  {
    if ops == [] {
      EmptyEncodes(tables[0]);
    } else {
      var n := |ops| - 1;
      TracePrefix(tables, ops);
      TraceEncodes(tables[..n + 1], ops[..n]);
      LastStep(tables, ops);
      StepEncodes(tables[n], RunsAfter(ops[..n]), ops[n], tables[n + 1]);
    }
  }

  lemma TracePrefix(tables: seq<seq<Entry>>, ops: seq<Op>)
    requires Trace(tables, ops) && ops != []
    ensures Trace(tables[..|ops|], ops[..|ops| - 1])
  {
    var n := |ops| - 1;
    assert forall i: nat :: i < n ==> ops[..n][..i] == ops[..i];
  }

  lemma LastStep(tables: seq<seq<Entry>>, ops: seq<Op>)
    requires Trace(tables, ops) && ops != []
    ensures var n := |ops| - 1;
            Step(tables[n], ops[n], tables[n + 1]) && (ops[n].Free? ==> ops[n].start in RunsAfter(ops[..n]))
  {
  }

  lemma EmptyEncodes(e: seq<Entry>)
    requires forall i: nat :: i < |e| ==> e[i] == FREE
    ensures Encodes(e, map[]) && |FreeBlocks(e)| == |e|
  {
    EncodesIffBlocks(e, map[]);
    assert FreeBlocks(e) == Interval(0, |e|);
  }

  // ---------------------------------------------------------------------------
  // The heap object.
  // ---------------------------------------------------------------------------

  /** Rounding a size up to whole blocks, on 32 bits. */
  function AlignUp(size: Word): Word {
    if size % PAGE_SIZE == 0 then size
    else Wrap(size - size % PAGE_SIZE + PAGE_SIZE)
  }

  /** Blocks needed for a size; sizes above this limit wrap to zero when rounded up. */
  const MAX_SIZE := 0xFFFF_F000

  function BlocksFor(size: Word): nat {
    (size + PAGE_SIZE - 1) / PAGE_SIZE
  }

  /** As few blocks as cover the size. */
  lemma BlocksCover(size: Word)
    ensures size <= 4096 * BlocksFor(size) < size + 4096
  {
  }

  lemma AlignUpCounts(size: Word)
    requires 1 <= size <= MAX_SIZE
    ensures AlignUp(size) / PAGE_SIZE == BlocksFor(size) >= 1
  {
  }

  /** The block index of an address, with the signed 32-bit division of the code: an address
      below the heap gives a negative quotient and so a huge unsigned index. */
  function BlockIndex(saddr: Word, a: Word): Word {
    var d := Wrap(a - saddr);
    if d < 0x8000_0000 then d / PAGE_SIZE else Wrap(-((ADDRESS_SPACE - d) / PAGE_SIZE))
  }

  /** Inside the heap the index is the distance in blocks ... */
  lemma BlockIndexInside(saddr: Word, a: Word)
    requires 0 <= a - saddr < 0x8000_0000
    ensures BlockIndex(saddr, a) == (a - saddr) / PAGE_SIZE
  {
  }

  /** ... and for NULL it wraps past the end of every table, so that freeing NULL does nothing. */
  lemma NullIsNoBlock(saddr: Word, total: nat)
    requires 0 < saddr && saddr % PAGE_SIZE == 0
    requires total < 0x8_0000 && saddr + PAGE_SIZE * total <= ADDRESS_SPACE
    ensures BlockIndex(saddr, 0) >= total
  {
    var q := saddr / PAGE_SIZE;
    WrapNegative(saddr);
    WrapNegative(q);
    WholeBlocks(q);
    WholeBlocks(0x10_0000 - q);
  }

  lemma WholeBlocks(n: nat)
    ensures PAGE_SIZE * n / PAGE_SIZE == n
  {
  }

  lemma WrapNegative(q: int)
    requires 0 < q < ADDRESS_SPACE
    ensures Wrap(-q) == ADDRESS_SPACE - q
  {
  }

  /** The state of a heap object. */
  datatype Snapshot = Snapshot(saddr: Word, entries: seq<Entry>, runs: Runs)

  /** A page-aligned heap that ends inside the address space and whose table encodes its runs. */
  ghost predicate Sound(h: Snapshot) {
    var sound :=
      && h.saddr % PAGE_SIZE == 0 && h.saddr > 0
      && |h.entries| < 0x8_0000 && h.saddr + PAGE_SIZE * |h.entries| <= ADDRESS_SPACE
      && Encodes(h.entries, h.runs);
    sound
  }

  class Heap {
    var entries: array<Entry>
    var saddr: Word
    ghost var runs: Runs

    ghost predicate Valid()
      reads this, entries
    {
      Sound(Snapshot(saddr, entries[..], runs))
    }

    constructor ()
    {
      entries := new Entry[0];
      saddr := 0;
      runs := map[];
    }

    /** Sets up the heap over [start, end) with the given table; a misaligned bound or a table
        of the wrong size is refused. */
    method Create(start: Word, end: Word, table: array<Entry>) returns (res: int)
      modifies this, table
      ensures start % PAGE_SIZE != 0 || end % PAGE_SIZE != 0 ==> res == -EINVARG && unchanged(this) && unchanged(table)
      ensures start % PAGE_SIZE == 0 && end % PAGE_SIZE == 0 && table.Length != Wrap(end - start) / PAGE_SIZE
              ==> res == -EINVARG && unchanged(table)
      ensures start % PAGE_SIZE == 0 && end % PAGE_SIZE == 0 && table.Length == Wrap(end - start) / PAGE_SIZE
              ==> res == 0 && entries == table && saddr == start && runs == map[] && Encodes(entries[..], map[])
                  && |FreeBlocks(entries[..])| == entries.Length
      ensures res == 0 && 0 < start <= end && table.Length < 0x8_0000 ==> Valid()
    {
      if start % PAGE_SIZE != 0 || end % PAGE_SIZE != 0 {
        return -EINVARG;
      }
      saddr := start;
      entries := table;
      runs := map[];
      if table.Length != Wrap(end - start) / PAGE_SIZE {
        return -EINVARG;
      }
      for i := 0 to table.Length
        invariant entries == table && saddr == start && runs == map[]
        invariant forall k :: 0 <= k < i ==> table[k] == FREE
      {
        table[i] := FREE;
      }
      EmptyEncodes(entries[..]);
      if start <= end {
        WrapSmall(end - start);
      }
      res := 0;
    }

    /** Scans for `n` free blocks in a row. */
    method GetStartBlock(n: nat) returns (r: int)
      ensures IsStartBlock(entries[..], n, r)
    {
      var bc, bs := 0, -1;
      var i := 0;
      while i < entries.Length
        invariant 0 <= i <= entries.Length
        invariant bs == -1 ==> bc == 0 && (i == 0 || !IsFree(entries[i - 1]))
        invariant bs != -1 ==> 0 <= bs < i && bc == i - bs && (bs == 0 || !IsFree(entries[bs - 1]))
        invariant bs != -1 ==> forall k :: bs <= k < i ==> IsFree(entries[k])
        invariant n >= 1 ==> bc < n && forall t :: t + n <= i ==> !FreeRun(entries[..], t, n)
      {
        if !IsFree(entries[i]) {
          bc, bs := 0, -1;
          i := i + 1;
          if n >= 1 {
            NoNewRun(entries[..], n, i);
          }
          continue;
        }
        if bs == -1 {
          bs := i;
        }
        bc := bc + 1;
        if bc == n {
          assert FreeRun(entries[..], bs, n);
          NoRunAcross(entries[..], n, bs);
          break;
        }
        i := i + 1;
        NoRunAcross(entries[..], n, bs);
      }
      if bs == -1 {
        r := -ENOMEM;
      } else {
        r := bs;
      }
    }

    /** Marks `n` blocks from `s` as one run. */
    method MarkBlocksTaken(s: nat, n: nat)
      requires n >= 1 && s + n <= entries.Length
      modifies entries
      ensures entries[..] == MarkTaken(old(entries[..]), s, n)
    {
      var end := s + n - 1;
      var entry := TAKEN | IS_FIRST;
      if n > 1 {
        entry := entry | HAS_NEXT;
      }
      var i := s;
      while i <= end
        invariant s <= i <= end + 1
        invariant i <= end ==> entry == TakenEntry(i == s, i == end)
        invariant forall k :: s <= k < i ==> entries[k] == TakenEntry(k == s, k == end)
        invariant forall k :: 0 <= k < entries.Length && !(s <= k < i) ==> entries[k] == old(entries[k])
      {
        entries[i] := entry;
        entry := TAKEN;
        if i != end - 1 {
          entry := entry | HAS_NEXT;
        }
        i := i + 1;
      }
    }

    /** `a` is the address of one of the heap's blocks, and which one. */
    ghost predicate IsBlock(a: Word)
      reads this
    {
      saddr <= a < saddr + PAGE_SIZE * entries.Length && (a - saddr) % PAGE_SIZE == 0
    }

    ghost function BlockOf(a: Word): nat
      requires IsBlock(a)
      reads this
    {
      (a - saddr) / PAGE_SIZE
    }

    /** Allocates `size` bytes; 0 when there is no room. */
    method Malloc(size: Word) returns (address: Word)
      requires Valid() && 1 <= size <= MAX_SIZE
      requires CanServe(entries[..], BlocksFor(size))
      modifies entries, this`runs
      ensures Valid()
      ensures address == 0 || IsBlock(address)
      ensures var op := Op.Malloc(BlocksFor(size), if address == 0 then -ENOMEM else BlockOf(address));
              Step(old(entries[..]), op, entries[..]) && runs == After(old(runs), op)
    {
      ghost var e := entries[..];
      var n := AlignUp(size) / PAGE_SIZE;
      AlignUpCounts(size);
      var start := GetStartBlock(n);
      MarksStayInTableIff(e, n, start);
      if start < 0 {
        return 0;
      }
      address := Wrap(saddr + start * PAGE_SIZE);
      assert address == saddr + start * PAGE_SIZE;
      StepEncodes(e, runs, Op.Malloc(n, start), MarkTaken(e, start, n));
      MarkBlocksTaken(start, n);
      runs := runs[start := n];
    }

    /** Follows HAS_NEXT from block `b`, freeing as it goes. */
    method MarkBlocksFree(b: nat)
      modifies entries
      ensures entries[..] == FreeChain(old(entries[..]), b)
    {
      var i := b;
      while i < entries.Length
        invariant b <= i
        invariant FreeChain(entries[..], i) == FreeChain(old(entries[..]), b)
      {
        var entry := entries[i];
        ghost var before := entries[..];
        entries[i] := FREE;
        assert entries[..] == before[i := FREE];
        if !HasNext(entry) {
          break;
        }
        i := i + 1;
      }
    }

    /** heap_free, for any pointer: frees along the chain from the pointer's block. The table goes on to
        encode the live runs if and only if the block is not inside a run; the start of a live run removes
        that run, and a free block or one outside the table, as for NULL, changes nothing. */
    method Free(ptr: Word)
      requires Valid()
      modifies entries, this`runs
      ensures var b := BlockIndex(saddr, ptr);
              && entries[..] == FreeChain(old(entries[..]), b) && runs == old(runs) - {b}
              && (Valid() <==> !Inside(old(runs), b))
      ensures var b := BlockIndex(saddr, ptr);
              if b in old(runs) then Step(old(entries[..]), Op.Free(b), entries[..])
              else !Inside(old(runs), b) ==> runs == old(runs) && entries[..] == old(entries[..])
    {
      var b := BlockIndex(saddr, ptr);
      FreeKeepsEncodingIff(entries[..], runs, b);
      MarkBlocksFree(b);
      runs := runs - {b};
    }
  }

  /** Block `b` belongs to a run and is not its first. */
  ghost predicate Inside(runs: Runs, b: nat) {
    exists s: nat :: Covers(runs, s, b) && s != b
  }

  lemma {:induction false} FreeChainStart(e: seq<Entry>, b: nat)
    ensures forall i :: 0 <= i < b && i < |e| ==> FreeChain(e, b)[i] == e[i]
    ensures b < |e| ==> FreeChain(e, b)[b] == FREE
    decreases |e| - b
  {
    if b < |e| && HasNext(e[b]) {
      FreeChainStart(e[b := FREE], b + 1);
    }
  }

  /** A free from a block keeps the table the encoding of some runs if and only if the block is not inside
      a run; then these are the runs without the one that starts there. */
  lemma FreeKeepsEncodingIff(e: seq<Entry>, runs: Runs, b: nat)
    requires Encodes(e, runs)
    ensures Encodes(FreeChain(e, b), runs - {b}) <==> !Inside(runs, b)
    ensures (exists runs' :: Encodes(FreeChain(e, b), runs')) <==> !Inside(runs, b)
    ensures b !in runs && !Inside(runs, b) ==> FreeChain(e, b) == e && runs - {b} == runs
  {
    if Inside(runs, b) {
      forall runs' ensures !Encodes(FreeChain(e, b), runs') {
        InsideBreaks(e, runs, b, runs');
      }
    } else if b in runs {
      FreeChainRemovesRun(e, runs, b);
    } else {
      assert forall s: nat :: !Covers(runs, s, b);
      FreeBlockStays(e, runs, b);
      assert runs - {b} == runs;
    }
  }

  lemma FreeBlockStays(e: seq<Entry>, runs: Runs, b: nat)
    requires Encodes(e, runs) && forall s: nat :: !Covers(runs, s, b)
    ensures FreeChain(e, b) == e
  {
    if b < |e| {
      assert e[b] == FREE;
      assert e[b := FREE] == e;
    }
  }

  /** The block before goes on pointing behind itself, to a block that is free. */
  lemma InsideBreaks(e: seq<Entry>, runs: Runs, b: nat, runs': Runs)
    requires Encodes(e, runs) && Inside(runs, b)
    ensures !Encodes(FreeChain(e, b), runs')
  {
    var e' := FreeChain(e, b);
    var s: nat :| Covers(runs, s, b) && s != b;
    ChainOfRun(e, runs, s);
    FreeChainStart(e, b);
    forall first, last ensures TakenEntry(first, last) != FREE {
      TakenEntryBits(first, last);
    }
    if Encodes(e', runs') {
      EncodesIffBlocks(e', runs');
      assert !IsFree(e'[b - 1]) && HasNext(e'[b - 1]);
      var t: nat :| Covers(runs', t, b - 1);
      TakenEntryBits(b - 1 == t, b - 1 == t + runs'[t] - 1);
      assert Covers(runs', t, b);
    }
  }

  lemma NoRunAcross(e: seq<Entry>, n: nat, gap: nat)
    requires gap <= |e| && (gap == 0 || !IsFree(e[gap - 1]))
    ensures forall t :: t < gap < t + n ==> !FreeRun(e, t, n)
  {
    if gap > 0 {
      assert !IsFree(e[gap - 1]);
    }
  }

  lemma NoNewRun(e: seq<Entry>, n: nat, i: nat)
    requires 0 < i <= |e| && !IsFree(e[i - 1]) && n >= 1
    requires forall t :: t + n <= i - 1 ==> !FreeRun(e, t, n)
    ensures forall t :: t + n <= i ==> !FreeRun(e, t, n)
  {
  }
}
