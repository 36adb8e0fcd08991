/** Memory of a user process: a table of allocations, each a live heap run mapped into the
    process's address space at its own address. */
module Processes {
  import opened Memory
  import opened Heaps
  import opened Kheap
  import opened Paging
  import opened Status

  const MAX_ALLOCATIONS := 1024
  const USER_FLAGS := WRITEABLE + PRESENT + ACCESS_FROM_ALL

  datatype Allocation = Allocation(ptr: Word, size: Word)

  ghost function BlockAt(ptr: Word): int {
    ptr / PAGE_SIZE - HEAP_FRAME
  }

  ghost predicate Live(slots: seq<Allocation>, i: int) {
    0 <= i < |slots| && slots[i].ptr != 0
  }

  ghost predicate HeldBySlot(slots: seq<Allocation>, b: int) {
    exists i :: Live(slots, i) && BlockAt(slots[i].ptr) == b
  }

  /** The live runs are those of `base` and, one each, those of the non-null slots. */
  ghost predicate SlotsAreRuns(runs: Runs, base: Runs, slots: seq<Allocation>) {
    && (forall i :: Live(slots, i) ==> SlotIsRun(runs, base, slots[i]))
    && (forall i, j :: Live(slots, i) && Live(slots, j) && i < j ==> slots[i].ptr != slots[j].ptr)
    && (forall b: nat :: b in runs ==> b in base || HeldBySlot(slots, b))
    && (forall b: nat :: b in base ==> b in runs && runs[b] == base[b])
  }

  ghost predicate SlotIsRun(runs: Runs, base: Runs, a: Allocation) {
    && 1 <= a.size <= MAX_SIZE && BlockAt(a.ptr) >= 0 && PointsTo(a.ptr, BlockAt(a.ptr))
    && BlockAt(a.ptr) in runs && runs[BlockAt(a.ptr)] == BlocksFor(a.size)
    && BlockAt(a.ptr) !in base
  }

  /** Page `p` lies in the allocation. */
  ghost predicate InAllocation(a: Allocation, p: int) {
    a.ptr / PAGE_SIZE <= p < a.ptr / PAGE_SIZE + BlocksFor(a.size)
  }

  /** The pages of every live slot are mapped to themselves, present, writeable, for the user. */
  ghost predicate SlotsAreMapped(ram: Ram, sp: Space, slots: seq<Allocation>)
    requires WellFormed(sp)
  {
    forall i, p: PageNo :: Live(slots, i) && InAllocation(slots[i], p) ==>
      PageEntry(ram, sp, p) == p * PAGE_SIZE + USER_FLAGS
  }

  lemma SlotAdded(runs: Runs, base: Runs, slots: seq<Allocation>, i: nat, a: Allocation)
    requires SlotsAreRuns(runs, base, slots) && i < |slots| && slots[i].ptr == 0
    requires 1 <= a.size <= MAX_SIZE && a.ptr != 0 && BlockAt(a.ptr) >= 0 && PointsTo(a.ptr, BlockAt(a.ptr))
    requires BlockAt(a.ptr) !in runs
    ensures SlotsAreRuns(runs[BlockAt(a.ptr) := BlocksFor(a.size)], base, slots[i := a])
  {
    var slots' := slots[i := a];
    var runs' := runs[BlockAt(a.ptr) := BlocksFor(a.size)];
    forall b: nat | b in runs' ensures b in base || HeldBySlot(slots', b) {
      if b == BlockAt(a.ptr) {
        assert Live(slots', i);
      } else if b !in base {
        var j :| Live(slots, j) && BlockAt(slots[j].ptr) == b;
        assert Live(slots', j) && BlockAt(slots'[j].ptr) == b;
      }
    }
    forall j | Live(slots', j) ensures SlotIsRun(runs', base, slots'[j]) && (j != i ==> slots'[j].ptr != a.ptr) {
      if j != i {
        assert Live(slots, j);
      }
    }
    forall j, l | Live(slots', j) && Live(slots', l) && j < l ensures slots'[j].ptr != slots'[l].ptr {
      if j != i && l != i {
        assert Live(slots, j) && Live(slots, l);
      }
    }
  }

  lemma SlotRemoved(runs: Runs, base: Runs, slots: seq<Allocation>, i: nat)
    requires SlotsAreRuns(runs, base, slots) && Live(slots, i)
    ensures SlotsAreRuns(runs - {BlockAt(slots[i].ptr)}, base, slots[i := slots[i].(ptr := 0)])
  {
    var a, slots' := slots[i], slots[i := slots[i].(ptr := 0)];
    var runs' := runs - {BlockAt(a.ptr)};
    forall b: nat | b in runs' ensures b in base || HeldBySlot(slots', b) {
      if b !in base {
        var j :| Live(slots, j) && BlockAt(slots[j].ptr) == b;
        assert Live(slots', j) && BlockAt(slots'[j].ptr) == b;
      }
    }
    forall j | Live(slots', j) ensures SlotIsRun(runs', base, slots'[j]) {
      assert Live(slots, j) && slots[j].ptr != a.ptr;
    }
    forall j, l | Live(slots', j) && Live(slots', l) && j < l ensures slots'[j].ptr != slots'[l].ptr {
      assert Live(slots, j) && Live(slots, l);
    }
  }

  /** The byte after the last page of a heap run, as the code computes it from the size. */
  lemma EndOfRun(ptr: Word, block: nat, size: Word)
    requires PointsTo(ptr, block) && 1 <= size && block + BlocksFor(size) <= HEAP_BLOCKS
    ensures ptr % PAGE_SIZE == 0 && ptr / PAGE_SIZE == HEAP_FRAME + block && BlockAt(ptr) == block
    ensures ptr + size < ADDRESS_SPACE && AlignAddress(ptr + size) == ptr + BlocksFor(size) * PAGE_SIZE
    ensures MapArgumentsOk(ptr, ptr, AlignAddress(ptr + size))
  {
    AddressOfFrame(block);
    AlignedSum(ptr, BlocksFor(size));
    SumRemainder(ptr, size);
    if size % PAGE_SIZE != 0 {
      WrapSmall(ptr + size + PAGE_SIZE - size % PAGE_SIZE);
    }
  }

  lemma SumRemainder(a: int, b: int)
    requires a % PAGE_SIZE == 0
    ensures (a + b) % PAGE_SIZE == b % PAGE_SIZE
  {
  }

  /** Memory after the pages of the run at `ptr` are mapped to themselves. */
  ghost function MappedToSelf(ram: Ram, sp: Space, ptr: Word, block: nat, size: Word, flags: nat): Ram
    requires WellFormed(sp) && flags < PAGE_SIZE
    requires PointsTo(ptr, block) && 1 <= size && block + BlocksFor(size) <= HEAP_BLOCKS
  {
    EndOfRun(ptr, block, size);
    AfterMapTo(ram, sp, ptr, ptr, AlignAddress(ptr + size), flags)
  }

  lemma MappedToSelfEffect(ram: Ram, sp: Space, ptr: Word, block: nat, size: Word, flags: nat)
    requires WellFormed(sp) && flags < PAGE_SIZE
    requires PointsTo(ptr, block) && 1 <= size && block + BlocksFor(size) <= HEAP_BLOCKS
    ensures var ram' := MappedToSelf(ram, sp, ptr, block, size, flags);
            forall p: PageNo :: PageEntry(ram', sp, p) ==
              if InAllocation(Allocation(ptr, size), p) then p * PAGE_SIZE + flags else PageEntry(ram, sp, p)
    ensures var ram' := MappedToSelf(ram, sp, ptr, block, size, flags);
            OnlyTablesChanged(ram, sp, ram') && (Linked(ram, sp) ==> Linked(ram', sp))
  {
    EndOfRun(ptr, block, size);
    AfterMapToKeeps(ram, sp, ptr, ptr, AlignAddress(ptr + size), flags);
    MapPagesEffect(ram, sp, ptr / PAGE_SIZE, ptr, BlocksFor(size), flags);
    forall p: PageNo, before: Word
      ensures MappedEntry(ptr / PAGE_SIZE, ptr, BlocksFor(size), flags, p, before) ==
              if InAllocation(Allocation(ptr, size), p) then p * PAGE_SIZE + flags else before
    {
      SelfEntry(HEAP_FRAME + block, ptr, BlocksFor(size), flags, p, before);
    }
  }

  lemma SelfEntry(page: PageNo, ptr: Word, n: nat, flags: nat, p: PageNo, before: Word)
    requires ptr == page * PAGE_SIZE && ptr + n * PAGE_SIZE <= ADDRESS_SPACE && flags < PAGE_SIZE
    ensures ptr % PAGE_SIZE == 0
    ensures MappedEntry(page, ptr, n, flags, p, before) ==
            if page <= p < page + n then p * PAGE_SIZE + flags else before
  {
  }

  /** The first slot that holds no allocation, or the number of slots. */
  ghost predicate IsFirst(slots: seq<Allocation>, ptr: Word, i: nat) {
    && i <= |slots| && (i < |slots| ==> slots[i].ptr == ptr)
    && forall j :: 0 <= j < i ==> slots[j].ptr != ptr
  }

  /** The slots that hold no allocation. */
  ghost function NullSlots(slots: seq<Allocation>): set<nat> {
    set i: nat | i < |slots| && slots[i].ptr == 0
  }

  /** There is a first null slot exactly when there is any. */
  lemma FirstNullSlot(slots: seq<Allocation>, i: nat)
    requires IsFirst(slots, 0, i)
    ensures i < |slots| <==> |NullSlots(slots)| > 0
  {
    if i < |slots| {
      assert i in NullSlots(slots);
    } else {
      assert NullSlots(slots) == {};
    }
  }

  lemma SlotUsedUp(slots: seq<Allocation>, i: nat, a: Allocation)
    requires i < |slots| && slots[i].ptr == 0 && a.ptr != 0
    ensures |NullSlots(slots[i := a])| == |NullSlots(slots)| - 1
  {
    assert NullSlots(slots[i := a]) == NullSlots(slots) - {i};
  }

  /** What a process's memory operations work on. */
  datatype Image = Image(runs: Runs, ram: Ram, slots: seq<Allocation>)

  /** What a process's allocations draw on: the heap's runs, memory, and the numbers of free blocks and slots. */
  datatype Means = Means(runs: Runs, ram: Ram, blocks: nat, slots: nat)

  // ---------------------------------------------------------------------------
  // The effect of one call.
  // ---------------------------------------------------------------------------

  /** The state after a successful allocation. */
  ghost function Installed(im: Image, sp: Space, cleared: Ram, i: nat, ptr: Word, block: nat, size: Word): Image
    requires WellFormed(sp) && i < |im.slots|
    requires PointsTo(ptr, block) && 1 <= size && block + BlocksFor(size) <= HEAP_BLOCKS
  {
    Image(im.runs[block := BlocksFor(size)], MappedToSelf(cleared, sp, ptr, block, size, USER_FLAGS),
          im.slots[i := Allocation(ptr, size)])
  }

  /** process_malloc either takes a fresh cleared run, the first null slot and a mapping, or, when
      no run or no slot is to be had, nothing: at most bytes of a free run were cleared. */
  ghost predicate MallocStep(im: Image, sp: Space, size: Word, im': Image, ptr: Word, i: nat, block: nat, cleared: Ram)
    requires WellFormed(sp) && 1 <= size
  {
    var step :=
      && IsFirst(im.slots, 0, i)
      && if ptr == 0 then
           && im' == im.(ram := im'.ram)
           && (im'.ram == im.ram || FreshRun(im, im'.ram, block, size))
         else
           && i < |im.slots| && PointsTo(ptr, block)
           && FreshRun(im, cleared, block, size)
           && im' == Installed(im, sp, cleared, i, ptr, block, size);
    step
  }

  /** `cleared` is memory after a fresh run was taken at `block` and cleared. */
  ghost predicate FreshRun(im: Image, cleared: Ram, block: nat, size: Word) {
    && Allocated(im.runs, im.ram, im.runs[block := BlocksFor(size)], cleared, block, size)
    && DisjointRuns(im.runs[block := BlocksFor(size)], HEAP_BLOCKS)
  }

  /** process_free looks for the first slot that holds `ptr`. Without one it does nothing;
      otherwise it makes the pages of the slot not present, clears the slot's pointer (its size
      stays) and frees the run. */
  ghost predicate FreeStep(im: Image, sp: Space, ptr: Word, im': Image, i: nat)
    requires WellFormed(sp)
  {
    && IsFirst(im.slots, ptr, i)
    && if i == |im.slots| then im' == im
       else
         var end := AlignAddress(Wrap(ptr + im.slots[i].size));
         if !MapArgumentsOk(ptr, ptr, end) then im' == im
         else im' == Image(if ptr == 0 then im.runs else im.runs - {BlockAt(ptr)},
                           AfterMapTo(im.ram, sp, ptr, ptr, end, 0), im.slots[i := im.slots[i].(ptr := 0)])
  }

  // ---------------------------------------------------------------------------
  // What a process's allocations leave alone.
  // ---------------------------------------------------------------------------

  /** Of the pages that lie in live runs, only the space's tables changed; outside the heap, none. */
  ghost predicate OnlyOwnChanged(runs: Runs, ram: Ram, sp: Space, ram': Ram) {
    forall f :: 0 <= f < TOTAL_FRAMES ==> ram'[f] == ram[f] || MayChange(runs, sp, f)
  }

  ghost predicate MayChange(runs: Runs, sp: Space, f: nat) {
    f - HEAP_FRAME in sp.tables || (0 <= f - HEAP_FRAME < HEAP_BLOCKS && Uncovered(runs, f - HEAP_FRAME))
  }

  /** The process with the given space took the blocks `used`, one run each, and left all else alone. */
  ghost predicate Grown(runs: Runs, ram: Ram, sp: Space, used: set<nat>, runs': Runs, ram': Ram) {
    var grown := Taken(runs, used, runs') && OnlyOwnChanged(runs, ram, sp, ram');
    grown
  }

  lemma NotGrown(runs: Runs, ram: Ram, sp: Space)
    ensures Grown(runs, ram, sp, {}, runs, ram)
  {
    assert runs + OneBlockRuns({}) == runs;
  }

  lemma GrownBoth(runs: Runs, ram: Ram, sp: Space, used: set<nat>, runs': Runs, ram': Ram, more: set<nat>, runs'': Runs, ram'': Ram)
    requires Grown(runs, ram, sp, used, runs', ram') && Grown(runs', ram', sp, more, runs'', ram'')
    ensures used !! more && Grown(runs, ram, sp, used + more, runs'', ram'')
  {
    TakenBoth(runs, used, runs', more, runs'');
    forall f | 0 <= f < TOTAL_FRAMES && ram''[f] != ram[f] ensures MayChange(runs, sp, f) {
      if f - HEAP_FRAME !in sp.tables && ram''[f] != ram'[f] {
        UncoveredBefore(runs, used, runs', f - HEAP_FRAME);
      }
    }
  }

  /** An allocation of at most one page takes one block; one that fails takes none. */
  lemma MallocGrows(im: Image, sp: Space, size: Word, im': Image, ptr: Word, i: nat, block: nat, cleared: Ram)
    requires WellFormed(sp) && 1 <= size <= PAGE_SIZE && MallocStep(im, sp, size, im', ptr, i, block, cleared)
    ensures Grown(im.runs, im.ram, sp, if ptr == 0 then {} else {block}, im'.runs, im'.ram)
  {
    NotGrown(im.runs, im.ram, sp);
    if ptr != 0 {
      FreshRunOnly(im, sp, cleared, block, size);
      EndOfRun(ptr, block, size);
      MappedToSelfEffect(cleared, sp, ptr, block, size, USER_FLAGS);
      TakeOneMore(im.runs, {}, im.runs, block);
    } else if im'.ram != im.ram {
      FreshRunOnly(im, sp, im'.ram, block, size);
    }
  }

  lemma FreshRunOnly(im: Image, sp: Space, cleared: Ram, block: nat, size: Word)
    requires 1 <= size <= PAGE_SIZE && FreshRun(im, cleared, block, size)
    ensures OnlyOwnChanged(im.runs, im.ram, sp, cleared)
  {
    assert BlocksFor(size) == 1;
    FreshIsUncovered(im.runs, block, im.runs[block := 1]);
    ClearedOutside(im.ram, cleared, block, size);
  }

  /** How many of `n` allocations of one block each succeed. */
  function Affordable(n: nat, blocks: int, slots: int): int {
    var room := if blocks <= slots then blocks else slots;
    if n <= room then n else room
  }

  /** The state after the pointer of slot `i` is cleared and its run freed. */
  ghost function Forgotten(im: Image, ptr: Word, i: nat): Image
    requires i < |im.slots|
  {
    Image(if ptr == 0 then im.runs else im.runs - {BlockAt(ptr)}, im.ram, im.slots[i := im.slots[i].(ptr := 0)])
  }

  lemma FreeStepOf(im: Image, sp: Space, ptr: Word, end: Word, im': Image, i: nat)
    requires WellFormed(sp) && IsFirst(im.slots, ptr, i) && i < |im.slots| && end == AlignAddress(Wrap(ptr + im.slots[i].size))
    requires im' == if MapArgumentsOk(ptr, ptr, end) then Forgotten(im.(ram := AfterMapTo(im.ram, sp, ptr, ptr, end, 0)), ptr, i) else im
    ensures FreeStep(im, sp, ptr, im', i)
  {
  }

  lemma OwnsWithout(runs: Runs, sp: Space, b: nat)
    requires Owns(runs, sp) && b !in Blocks(sp)
    ensures Owns(runs - {b}, sp)
  {
  }

  ghost function FirstIndex(slots: seq<Allocation>, ptr: Word): (i: nat)
    ensures IsFirst(slots, ptr, i)
  {
    if slots == [] then 0
    else if slots[0].ptr == ptr then 0
    else
      var i := FirstIndex(slots[1..], ptr);
      assert forall j :: 0 < j < |slots| ==> slots[j] == slots[1..][j - 1];
      i + 1
  }

  /** struct process_arguments */
  class ProcessArguments {
    var argc: int
    var argv: Word

    constructor ()
      ensures argc == 0 && argv == 0
    {
      argc, argv := 0, 0;
    }
  }

  class Process {
    const k: Kernel
    var slots: array<Allocation>
    var chunk: Word          // task->page_directory
    ghost var sp: Space      // the address space behind it
    const arguments: ProcessArguments

    ghost function Now(): Image
      reads this, k, k.heap, slots
    {
      Image(k.Runs(), k.ram, slots[..])
    }

    /** The number of allocations that the slots have room for. */
    ghost function FreeSlots(): nat
      reads this, slots
    {
      |NullSlots(slots[..])|
    }

    ghost function Held(): Means
      reads this, k, k.heap, k.heap.entries, slots
    {
      Means(k.Runs(), k.ram, k.FreeCount(), FreeSlots())
    }

    /** The heap is sound and the task's page directory is a live address space. */
    ghost predicate Valid()
      reads this, k, k.heap, k.heap.entries, slots
    {
      var valid :=
        && k.Valid() && slots.Length == MAX_ALLOCATIONS
        && WellFormed(sp) && Linked(k.ram, sp) && Owns(k.Runs(), sp) && PointsTo(chunk, sp.chunk);
      valid
    }

    /** A zeroed process record whose task runs in the given address space. */
    constructor (kernel: Kernel, directory: Word, ghost space: Space)
      requires kernel.Valid() && WellFormed(space) && Linked(kernel.ram, space) && Owns(kernel.Runs(), space)
      requires PointsTo(directory, space.chunk)
      ensures Valid() && fresh(slots) && k == kernel && chunk == directory && sp == space
      ensures forall i :: 0 <= i < slots.Length ==> slots[i] == Allocation(0, 0)
    {
      k, chunk, sp := kernel, directory, space;
      arguments := new ProcessArguments();
      slots := new Allocation[MAX_ALLOCATIONS](_ => Allocation(0, 0));
    }

    /** process_find_free_allocation_index */
    method FindFreeIndex() returns (res: int)
      requires slots.Length == MAX_ALLOCATIONS
      ensures if res >= 0 then res < MAX_ALLOCATIONS && IsFirst(slots[..], 0, res)
              else res == -ENOMEM && IsFirst(slots[..], 0, MAX_ALLOCATIONS)
    {
      for i := 0 to MAX_ALLOCATIONS
        invariant forall j :: 0 <= j < i ==> slots[j].ptr != 0
      {
        if slots[i].ptr == 0 {
          return i;
        }
      }
      res := -ENOMEM;
    }

    /** The successful end of process_malloc: maps the fresh run and fills slot `i`. */
    method Install(ptr: Word, size: Word, i: nat, ghost before: Image, ghost block: nat)
      requires WellFormed(sp) && Linked(k.ram, sp) && PointsTo(chunk, sp.chunk)
      requires before.slots == slots[..] && i < slots.Length
      requires PointsTo(ptr, block) && 1 <= size && block + BlocksFor(size) <= HEAP_BLOCKS
      requires k.Runs() == before.runs[block := BlocksFor(size)]
      modifies k`ram, slots
      ensures Linked(k.ram, sp) && Now() == Installed(before, sp, old(k.ram), i, ptr, block, size)
    {
      EndOfRun(ptr, block, size);
      AfterMapToKeeps(k.ram, sp, ptr, ptr, AlignAddress(ptr + size), USER_FLAGS);
      var res := PagingMapTo(k, chunk, ptr, ptr, AlignAddress(ptr + size), USER_FLAGS, sp);
      slots[i] := Allocation(ptr, size);
    }

    /** process_malloc: succeeds exactly when a long enough gap and a null slot exist, and then uses up
        blocks and a slot; when it fails the heap table and the slots are as they were. */
    method Malloc(size: Word) returns (ptr: Word, ghost i: nat, ghost block: nat, ghost cleared: Ram)
      requires Valid() && 1 <= size <= MAX_SIZE && CanServe(k.Table(), BlocksFor(size))
      modifies k`ram, k.heap`runs, k.heap.entries, slots
      ensures Valid() && MallocStep(old(Now()), sp, size, Now(), ptr, i, block, cleared)
      ensures ptr != 0 <==> Fits(old(k.Table()), BlocksFor(size)) && old(FreeSlots()) > 0
      ensures ptr == 0 ==> k.Table() == old(k.Table()) && FreeSlots() == old(FreeSlots())
      ensures ptr != 0 ==> k.FreeCount() == old(k.FreeCount()) - BlocksFor(size) && FreeSlots() == old(FreeSlots()) - 1
    {
      ptr, block := k.Kzalloc(size);
      cleared := k.ram;
      if ptr == 0 {
        i := FirstIndex(slots[..], 0);
        k.Kfree(ptr, 0);
        return;
      }
      AllocatedElsewhere(old(k.Runs()), old(k.ram), k.Runs(), cleared, block, size, sp);
      UntouchedKeeps(old(k.ram), sp, cleared);
      var index := FindFreeIndex();
      FirstNullSlot(slots[..], if index < 0 then MAX_ALLOCATIONS else index);
      if index < 0 {
        i := MAX_ALLOCATIONS;
        k.Kfree(ptr, block);
        TakeAndGiveBack(old(k.Runs()), block, BlocksFor(size));
        return 0, i, block, cleared;
      }
      i := index;
      SlotUsedUp(slots[..], i, Allocation(ptr, size));
      Install(ptr, size, index, old(Now()), block);
    }

    /** Maps the pages from `ptr` to `end` to themselves without any flag. */
    method Unmap(ptr: Word, end: Word) returns (res: int)
      requires Valid()
      modifies k`ram
      ensures Valid() && (res >= 0 <==> MapArgumentsOk(ptr, ptr, end))
      ensures Now() == if res < 0 then old(Now()) else old(Now()).(ram := AfterMapTo(old(k.ram), sp, ptr, ptr, end, 0))
    {
      if MapArgumentsOk(ptr, ptr, end) {
        AfterMapToKeeps(k.ram, sp, ptr, ptr, end, 0);
      }
      res := PagingMapTo(k, chunk, ptr, ptr, end, 0, sp);
    }

    /** Clears the pointer of slot `i` and frees the run. */
    method Release(ptr: Word, i: nat)
      requires Valid() && i < MAX_ALLOCATIONS && (ptr != 0 ==> OwnRun(k.Runs(), sp, ptr))
      modifies k.heap`runs, k.heap.entries, slots
      ensures Valid() && Now() == Forgotten(old(Now()), ptr, i)
    {
      ghost var b: nat := if ptr == 0 then 0 else BlockAt(ptr);
      if ptr != 0 {
        OwnsWithout(k.Runs(), sp, b);
      }
      slots[i] := slots[i].(ptr := 0);
      k.Kfree(ptr, b);
    }

    /** What process_free does with the slot that holds `ptr`. */
    method FreeSlot(ptr: Word, i: nat)
      requires Valid() && i < MAX_ALLOCATIONS && IsFirst(slots[..], ptr, i)
      requires ptr != 0 ==> OwnRun(k.Runs(), sp, ptr)
      modifies k`ram, k.heap`runs, k.heap.entries, slots
      ensures Valid() && FreeStep(old(Now()), sp, ptr, Now(), i)
    {
      ghost var before := Now();
      var end := AlignAddress(Wrap(ptr + slots[i].size));
      var res := Unmap(ptr, end);
      if res >= 0 {
        Release(ptr, i);
      }
      FreeStepOf(before, sp, ptr, end, Now(), i);
    }

    /** process_free: unmaps and frees the allocation at `ptr`, and forgets it. */
    method Free(ptr: Word) returns (ghost index: nat)
      requires Valid() && (ptr != 0 && ptr in Pointers(slots[..]) ==> OwnRun(k.Runs(), sp, ptr))
      modifies k`ram, k.heap`runs, k.heap.entries, slots
      ensures Valid() && FreeStep(old(Now()), sp, ptr, Now(), index)
    {
      index := MAX_ALLOCATIONS;
      for i := 0 to MAX_ALLOCATIONS
        invariant Valid() && Now() == old(Now())
        invariant index == MAX_ALLOCATIONS && forall j :: 0 <= j < i ==> slots[j].ptr != ptr
      {
        if slots[i].ptr == ptr {
          index := i;
          FreeSlot(ptr, i);
          break;
        }
      }
    }
  }

  ghost function Pointers(slots: seq<Allocation>): set<Word> {
    set i | 0 <= i < |slots| :: slots[i].ptr
  }

  /** `ptr` is the start of a live run that is no part of the address space. */
  ghost predicate OwnRun(runs: Runs, sp: Space, ptr: Word) {
    && BlockAt(ptr) >= 0 && PointsTo(ptr, BlockAt(ptr))
    && BlockAt(ptr) in runs && BlockAt(ptr) !in Blocks(sp)
  }
}
