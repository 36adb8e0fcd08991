/** The kernel's heap together with the physical memory it hands out. */
module Kheap {
  import opened Memory
  import opened Heaps
  import opened Status

  const HEAP_SIZE_BYTES := 104857600
  const HEAP_ADDRESS := 0x0100_0000
  const HEAP_BLOCKS := 25600

  /** The page frame that block 0 of the kernel heap lies in. */
  const HEAP_FRAME := 0x1000

  /** The first byte of a heap block. */
  function AddressOf(block: nat): Word
    requires block < HEAP_BLOCKS
  {
    (HEAP_FRAME + block) * PAGE_SIZE
  }

  /** `ptr` is what kmalloc returns for a run starting at `block`. */
  ghost predicate PointsTo(ptr: Word, block: nat) {
    block < HEAP_BLOCKS && ptr == AddressOf(block)
  }

  class Kernel {
    const heap: Heap
    var ram: Ram

    ghost predicate Valid()
      reads this, heap, heap.entries
    {
      var valid := heap.Valid() && heap.saddr == HEAP_ADDRESS && heap.entries.Length == HEAP_BLOCKS;
      valid
    }

    /** kheap_init: a heap of 25600 blocks at 16 MB, everything free. */
    constructor Init(memory: Ram)
      ensures Valid() && fresh(heap) && fresh(heap.entries) && ram == memory
      ensures Runs() == map[] && FreeCount() == 25600 && heap.saddr == 0x0100_0000
    {
      ram := memory;
      var h := new Heap();
      heap := h;
      new;
      var table := new Entry[HEAP_SIZE_BYTES / PAGE_SIZE];
      var res := heap.Create(HEAP_ADDRESS, HEAP_ADDRESS + HEAP_SIZE_BYTES, table);
    }

    /** The live runs: first block to length. */
    ghost function Runs(): Runs
      reads heap
    {
      heap.runs
    }

    lemma RunsAreDisjoint()
      requires Valid()
      ensures DisjointRuns(Runs(), HEAP_BLOCKS)
    {
    }

    ghost function Table(): seq<Entry>
      reads heap, heap.entries
    {
      heap.entries[..]
    }

    ghost function FreeCount(): nat
      reads heap, heap.entries
    {
      |FreeBlocks(Table())|
    }

    /** kmalloc: a run that was not live before, or 0 exactly when no gap is long enough. */
    method Kmalloc(size: Word) returns (ptr: Word, ghost block: nat)
      requires Valid() && 1 <= size <= MAX_SIZE && CanServe(Table(), BlocksFor(size))
      modifies heap.entries, heap`runs
      ensures Valid()
      ensures ptr == 0 <==> !Fits(old(Table()), BlocksFor(size))
      ensures ptr == 0 ==> Runs() == old(Runs()) && Table() == old(Table())
      ensures ptr != 0 ==>
                && PointsTo(ptr, block) && IsStartBlock(old(Table()), BlocksFor(size), block)
                && block !in old(Runs()) && Runs() == old(Runs())[block := BlocksFor(size)]
                && FreeCount() == old(FreeCount()) - BlocksFor(size)
    {
      ghost var e, runs := heap.entries[..], heap.runs;
      ptr := heap.Malloc(size);
      block := if ptr == 0 then 0 else heap.BlockOf(ptr);
      StepEncodes(e, runs, Op.Malloc(BlocksFor(size), if ptr == 0 then -ENOMEM else block), heap.entries[..]);
    }

    /** kfree: removes the run; NULL is ignored. */
    method Kfree(ptr: Word, ghost block: nat)
      requires Valid() && (ptr == 0 || (PointsTo(ptr, block) && block in Runs()))
      modifies heap.entries, heap`runs
      ensures Valid()
      ensures ptr == 0 ==> Runs() == old(Runs()) && Table() == old(Table())
      ensures ptr != 0 ==>
                && Runs() == old(Runs()) - {block}
                && FreeCount() == old(FreeCount()) + old(Runs())[block]
    {
      ghost var e, runs := heap.entries[..], heap.runs;
      if ptr == 0 {
        NullIsNoBlock(HEAP_ADDRESS, HEAP_BLOCKS);
      } else {
        BlockIndexInside(HEAP_ADDRESS, ptr);
      }
      heap.Free(ptr);
      if ptr != 0 {
        StepEncodes(e, runs, Op.Free(block), heap.entries[..]);
      }
    }

    /** memset(ptr, 0, size) */
    method Clear(ptr: Word, size: nat)
      requires ptr + size <= ADDRESS_SPACE
      modifies this`ram
      ensures Cleared(old(ram), ram, ptr, size)
    {
      for i := 0 to size
        invariant Cleared(old(ram), ram, ptr, i)
      {
        ram := StoreByte(ram, ptr + i, 0);
      }
    }

    /** kzalloc: kmalloc, then clears the bytes asked for. */
    method Kzalloc(size: Word) returns (ptr: Word, ghost block: nat)
      requires Valid() && 1 <= size <= MAX_SIZE && CanServe(Table(), BlocksFor(size))
      modifies heap.entries, heap`runs, this`ram
      ensures Valid()
      ensures ptr == 0 <==> !Fits(old(Table()), BlocksFor(size))
      ensures ptr == 0 ==> Runs() == old(Runs()) && Table() == old(Table()) && ram == old(ram)
      ensures ptr != 0 ==> Allocated(old(Runs()), old(ram), Runs(), ram, block, size) && PointsTo(ptr, block)
      ensures ptr != 0 ==> IsStartBlock(old(Table()), BlocksFor(size), block)
      ensures ptr != 0 ==> FreeCount() == old(FreeCount()) - BlocksFor(size)
    {
      ptr, block := Kmalloc(size);
      if ptr == 0 {
        return;
      }
      Clear(ptr, size);
    }
  }

  /** The `size` bytes from `a` are zero in `ram'`; all others are as in `ram`. */
  ghost predicate Cleared(ram: Ram, ram': Ram, a: Word, size: nat) {
    forall f, i :: 0 <= f < TOTAL_FRAMES && 0 <= i < PAGE_SIZE ==>
      ram'[f][i] == if a <= f * PAGE_SIZE + i < a + size then 0 else ram[f][i]
  }

  /** One fresh run at `block`, its first `size` bytes cleared, and no other byte of memory changed. */
  ghost predicate Allocated(runs: Runs, ram: Ram, runs': Runs, ram': Ram, block: nat, size: Word) {
    && block !in runs && block < HEAP_BLOCKS && block + BlocksFor(size) <= HEAP_BLOCKS
    && runs' == runs[block := BlocksFor(size)]
    && Cleared(ram, ram', AddressOf(block), size)
  }

  /** Clearing inside a run leaves every page outside the run as it was. */
  lemma ClearedOutside(ram: Ram, ram': Ram, block: nat, size: Word)
    requires block < HEAP_BLOCKS && Cleared(ram, ram', AddressOf(block), size)
    ensures forall f :: 0 <= f < TOTAL_FRAMES && !(block <= f - HEAP_FRAME < block + BlocksFor(size)) ==> ram'[f] == ram[f]
  {
    forall f | 0 <= f < TOTAL_FRAMES && !(block <= f - HEAP_FRAME < block + BlocksFor(size)) ensures ram'[f] == ram[f] {
      assert forall i :: 0 <= i < PAGE_SIZE ==> ram'[f][i] == ram[f][i];
    }
  }

  /** Block `b` lies in no run. */
  ghost predicate Uncovered(runs: Runs, b: nat) {
    forall s: nat :: !Covers(runs, s, b)
  }

  lemma FreshIsUncovered(runs: Runs, b: nat, runs': Runs)
    requires b !in runs && runs' == runs[b := 1] && DisjointRuns(runs', HEAP_BLOCKS)
    ensures Uncovered(runs, b)
  {
    forall s: nat ensures !Covers(runs, s, b) {
      assert s in runs ==> s in runs' && runs'[s] == runs[s];
      assert b in runs' && runs'[b] == 1;
    }
  }

  /** A request of at most one page needs no guard and fails exactly when nothing is free. */
  lemma OnePage(e: seq<Entry>, size: Word)
    requires 1 <= size <= PAGE_SIZE
    ensures BlocksFor(size) == 1 && CanServe(e, 1)
    ensures Fits(e, 1) <==> |FreeBlocks(e)| > 0
  {
    forall i | 0 <= i < |e| && IsFree(e[i]) ensures Fits(e, 1) {
      assert FreeRun(e, i, 1);
    }
    if Fits(e, 1) {
      var s :| FreeRun(e, s, 1);
      assert IsFree(e[s]) && s in FreeBlocks(e);
    }
    if b: nat :| b in FreeBlocks(e) {
      assert IsFree(e[b]);
    }
  }
}
