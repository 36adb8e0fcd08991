/** Whole runs of process_malloc and process_free. */
module ProcessRuns {
  import opened Memory
  import opened Heaps
  import opened Kheap
  import opened Paging
  import opened Processes

  /** The non-null slots are exactly the live runs outside `base`, one each, and their pages
      are mapped; `base` holds the page tables and whatever else the kernel keeps. */
  ghost predicate Consistent(im: Image, base: Runs, sp: Space) {
    var Image(runs, ram, slots) := im;
    var consistent :=
      && WellFormed(sp) && Linked(ram, sp) && Owns(base, sp) && DisjointRuns(runs, HEAP_BLOCKS)
      && SlotsAreRuns(runs, base, slots) && SlotsAreMapped(ram, sp, slots);
    consistent
  }

  /** Taking and clearing a fresh run changes no word of the tables. */
  lemma FreshRunKeepsMappings(im: Image, base: Runs, sp: Space, cleared: Ram, block: nat, size: Word)
    requires Consistent(im, base, sp) && FreshRun(im, cleared, block, size) && 1 <= size
    ensures Consistent(im.(ram := cleared), base, sp)
  {
    assert Owns(im.runs, sp);
    AllocatedElsewhere(im.runs, im.ram, im.runs[block := BlocksFor(size)], cleared, block, size, sp);
    UntouchedKeeps(im.ram, sp, cleared);
  }

  lemma InstalledIsConsistent(im: Image, base: Runs, sp: Space, cleared: Ram, i: nat, ptr: Word, block: nat, size: Word)
    requires Consistent(im.(ram := cleared), base, sp) && FreshRun(im, cleared, block, size)
    requires i < |im.slots| && im.slots[i].ptr == 0
    requires PointsTo(ptr, block) && 1 <= size <= MAX_SIZE
    ensures Consistent(Installed(im, sp, cleared, i, ptr, block, size), base, sp)
  {
    EndOfRun(ptr, block, size);
    SlotAdded(im.runs, base, im.slots, i, Allocation(ptr, size));
    MappedToSelfEffect(cleared, sp, ptr, block, size, USER_FLAGS);
    InstalledIsMapped(cleared, MappedToSelf(cleared, sp, ptr, block, size, USER_FLAGS), sp, im.slots, i, Allocation(ptr, size));
  }

  lemma InstalledIsMapped(ram: Ram, ram': Ram, sp: Space, slots: seq<Allocation>, i: nat, a: Allocation)
    requires WellFormed(sp) && SlotsAreMapped(ram, sp, slots) && i < |slots| && slots[i].ptr == 0
    requires forall p: PageNo :: PageEntry(ram', sp, p) == if InAllocation(a, p) then p * PAGE_SIZE + USER_FLAGS else PageEntry(ram, sp, p)
    ensures SlotsAreMapped(ram', sp, slots[i := a])
  {
    var slots' := slots[i := a];
    forall j, p: PageNo | Live(slots', j) && InAllocation(slots'[j], p) ensures PageEntry(ram', sp, p) == p * PAGE_SIZE + USER_FLAGS {
      assert j != i ==> Live(slots, j) && InAllocation(slots[j], p);
    }
  }

  lemma MallocKeeps(im: Image, base: Runs, sp: Space, size: Word, im': Image, ptr: Word, i: nat, block: nat, cleared: Ram)
    requires Consistent(im, base, sp) && 1 <= size <= MAX_SIZE
    requires MallocStep(im, sp, size, im', ptr, i, block, cleared)
    ensures Consistent(im', base, sp)
  {
    if ptr == 0 {
      if im'.ram != im.ram {
        FreshRunKeepsMappings(im, base, sp, im'.ram, block, size);
      }
    } else {
      FreshRunKeepsMappings(im, base, sp, cleared, block, size);
      InstalledIsConsistent(im, base, sp, cleared, i, ptr, block, size);
    }
  }

  /** In a consistent state every held pointer may be freed. */
  lemma HeldPointersAreRuns(im: Image, base: Runs, sp: Space, ptr: Word)
    requires Consistent(im, base, sp) && ptr != 0 && ptr in Pointers(im.slots)
    ensures OwnRun(im.runs, sp, ptr)
  {
    var i :| 0 <= i < |im.slots| && im.slots[i].ptr == ptr;
    assert Live(im.slots, i);
  }

  /** Two different live slots cover different pages. */
  lemma AllocationsAreDisjoint(im: Image, base: Runs, sp: Space, i: int, j: int, p: int)
    requires Consistent(im, base, sp) && Live(im.slots, i) && Live(im.slots, j) && i != j
    requires InAllocation(im.slots[i], p)
    ensures !InAllocation(im.slots[j], p)
  {
    var a, b := BlockAt(im.slots[i].ptr), BlockAt(im.slots[j].ptr);
    AddressOfFrame(a);
    AddressOfFrame(b);
    assert a in im.runs && b in im.runs && a != b;
  }

  /** The state after slot `i` is freed. */
  ghost function Released(im: Image, sp: Space, i: nat): Image
    requires WellFormed(sp) && Live(im.slots, i)
    requires var a := im.slots[i];
             BlockAt(a.ptr) >= 0 && PointsTo(a.ptr, BlockAt(a.ptr)) && 1 <= a.size
             && BlockAt(a.ptr) + BlocksFor(a.size) <= HEAP_BLOCKS
  {
    var a := im.slots[i];
    Image(im.runs - {BlockAt(a.ptr)}, MappedToSelf(im.ram, sp, a.ptr, BlockAt(a.ptr), a.size, 0),
          im.slots[i := a.(ptr := 0)])
  }

  lemma LiveSlotFits(im: Image, base: Runs, sp: Space, i: nat)
    requires Consistent(im, base, sp) && Live(im.slots, i)
    ensures var a := im.slots[i];
            && BlockAt(a.ptr) >= 0 && PointsTo(a.ptr, BlockAt(a.ptr)) && 1 <= a.size
            && BlockAt(a.ptr) + BlocksFor(a.size) <= HEAP_BLOCKS && BlockAt(a.ptr) in im.runs
  {
    var b := BlockAt(im.slots[i].ptr);
    assert b in im.runs;
  }

  lemma FreeReleases(im: Image, base: Runs, sp: Space, ptr: Word, im': Image, i: nat)
    requires Consistent(im, base, sp) && ptr != 0 && FreeStep(im, sp, ptr, im', i) && i < |im.slots|
    ensures Live(im.slots, i) && im.slots[i].ptr == ptr
    ensures (LiveSlotFits(im, base, sp, i); im' == Released(im, sp, i))
  {
    LiveSlotFits(im, base, sp, i);
    ReleasedByFree(im, sp, ptr, im', i);
  }

  lemma ReleasedByFree(im: Image, sp: Space, ptr: Word, im': Image, i: nat)
    requires WellFormed(sp) && ptr != 0 && FreeStep(im, sp, ptr, im', i) && i < |im.slots| && BlockAt(ptr) >= 0 && PointsTo(ptr, BlockAt(ptr))
    requires 1 <= im.slots[i].size && BlockAt(ptr) + BlocksFor(im.slots[i].size) <= HEAP_BLOCKS
    ensures im.slots[i].ptr == ptr && im' == Released(im, sp, i)
  {
    var size := im.slots[i].size;
    EndOfRun(ptr, BlockAt(ptr), size);
    WrapSmall(ptr + size);
    assert AlignAddress(Wrap(ptr + size)) == AlignAddress(ptr + size);
  }

  /** A freed slot's pages are not present; every other page keeps its word. */
  lemma ReleasedEffect(im: Image, base: Runs, sp: Space, i: nat)
    requires Consistent(im, base, sp) && Live(im.slots, i)
    ensures (LiveSlotFits(im, base, sp, i);
             var ram' := Released(im, sp, i).ram;
             && Linked(ram', sp)
             && forall p: PageNo :: PageEntry(ram', sp, p) ==
                  if InAllocation(im.slots[i], p) then p * PAGE_SIZE else PageEntry(im.ram, sp, p))
  {
    LiveSlotFits(im, base, sp, i);
    MappedToSelfEffect(im.ram, sp, im.slots[i].ptr, BlockAt(im.slots[i].ptr), im.slots[i].size, 0);
  }

  lemma ReleasedIsConsistent(im: Image, base: Runs, sp: Space, i: nat)
    requires Consistent(im, base, sp) && Live(im.slots, i)
    ensures (LiveSlotFits(im, base, sp, i); Consistent(Released(im, sp, i), base, sp))
  {
    LiveSlotFits(im, base, sp, i);
    ReleasedEffect(im, base, sp, i);
    SlotRemoved(im.runs, base, im.slots, i);
    var im' := Released(im, sp, i);
    forall j, p: PageNo | Live(im'.slots, j) && InAllocation(im'.slots[j], p)
      ensures PageEntry(im'.ram, sp, p) == p * PAGE_SIZE + USER_FLAGS
    {
      assert Live(im.slots, j) && j != i;
      AllocationsAreDisjoint(im, base, sp, j, i, p);
    }
  }

  /** Freeing a held pointer gives back its run and its slot and makes its pages not present;
      any other non-null pointer changes nothing. */
  lemma FreeKeeps(im: Image, base: Runs, sp: Space, ptr: Word, im': Image, i: nat)
    requires Consistent(im, base, sp) && ptr != 0 && FreeStep(im, sp, ptr, im', i)
    ensures Consistent(im', base, sp)
    ensures i == |im.slots| <==> ptr !in Pointers(im.slots)
    ensures i == |im.slots| ==> im' == im
    ensures i < |im.slots| ==>
              && im'.runs == im.runs - {BlockAt(ptr)}
              && im'.slots == im.slots[i := im.slots[i].(ptr := 0)]
              && forall p: PageNo :: PageEntry(im'.ram, sp, p) ==
                   if InAllocation(im.slots[i], p) then p * PAGE_SIZE else PageEntry(im.ram, sp, p)
  {
    if i < |im.slots| {
      FreeReleases(im, base, sp, ptr, im', i);
      ReleasedEffect(im, base, sp, i);
      ReleasedIsConsistent(im, base, sp, i);
    }
  }

  /** Calls of the process, and what the kernel does meanwhile, for itself or for other processes. */
  datatype Call =
    | MallocCall(size: Word, ptr: Word, i: nat, block: nat, cleared: Ram)
    | FreeCall(ptr: Word, i: nat)
    | OtherAlloc(block: nat, size: Word)  // a kzalloc that is not the process's
    | OtherFree(block: nat)               // a kfree of a run of `base` that is no part of the address space
    | OtherWrite                          // a write of memory outside the process's tables

  ghost predicate Step(im: Image, base: Runs, sp: Space, call: Call, im': Image)
    requires WellFormed(sp)
  {
    match call
    case MallocCall(size, ptr, i, block, cleared) =>
      1 <= size <= MAX_SIZE && MallocStep(im, sp, size, im', ptr, i, block, cleared)
    case FreeCall(ptr, i) => ptr != 0 && FreeStep(im, sp, ptr, im', i)
    case OtherAlloc(block, size) =>
      && 1 <= size && Allocated(im.runs, im.ram, im'.runs, im'.ram, block, size)
      && DisjointRuns(im'.runs, HEAP_BLOCKS) && im'.slots == im.slots
    case OtherFree(block) => block in base && block !in Blocks(sp) && im' == im.(runs := im.runs - {block})
    case OtherWrite => Untouched(im.ram, sp, im'.ram) && im' == im.(ram := im'.ram)
  }

  /** The runs outside the process after a call. */
  ghost function BaseAfter(base: Runs, call: Call): Runs {
    match call
    case OtherAlloc(block, size) => base[block := BlocksFor(size)]
    case OtherFree(block) => base - {block}
    case _ => base
  }

  ghost function BaseAfterAll(base: Runs, calls: seq<Call>): Runs {
    if calls == [] then base else BaseAfter(BaseAfterAll(base, calls[..|calls| - 1]), calls[|calls| - 1])
  }

  lemma OtherAllocKeeps(im: Image, base: Runs, sp: Space, block: nat, size: Word, im': Image)
    requires Consistent(im, base, sp) && Step(im, base, sp, OtherAlloc(block, size), im')
    ensures Consistent(im', base[block := BlocksFor(size)], sp)
  {
    assert Owns(im.runs, sp);
    AllocatedElsewhere(im.runs, im.ram, im'.runs, im'.ram, block, size, sp);
    UntouchedKeeps(im.ram, sp, im'.ram);
    OtherRunAdded(im.runs, base, im.slots, block, BlocksFor(size));
    OwnsWith(base, sp, block, BlocksFor(size));
    assert SlotsAreMapped(im'.ram, sp, im'.slots);
  }

  lemma OwnsWith(base: Runs, sp: Space, block: nat, n: nat)
    requires Owns(base, sp) && block !in base
    ensures Owns(base[block := n], sp)
  {
  }

  lemma OtherRunAdded(runs: Runs, base: Runs, slots: seq<Allocation>, block: nat, n: nat)
    requires SlotsAreRuns(runs, base, slots) && block !in runs
    ensures SlotsAreRuns(runs[block := n], base[block := n], slots) && block !in base
  {
    assert block !in base;
    forall j | Live(slots, j) ensures SlotIsRun(runs[block := n], base[block := n], slots[j]) {
      assert SlotIsRun(runs, base, slots[j]);
    }
  }

  lemma OtherFreeKeeps(im: Image, base: Runs, sp: Space, block: nat)
    requires Consistent(im, base, sp) && block in base && block !in Blocks(sp)
    ensures Consistent(im.(runs := im.runs - {block}), base - {block}, sp)
  {
    forall j | Live(im.slots, j) ensures SlotIsRun(im.runs - {block}, base - {block}, im.slots[j]) {
      assert SlotIsRun(im.runs, base, im.slots[j]);
    }
    assert SlotsAreRuns(im.runs - {block}, base - {block}, im.slots);
  }

  /** The blocks that another process takes for its allocations join those outside this process. */
  lemma GrownElsewhere(im: Image, base: Runs, sp: Space, sq: Space, used: set<nat>, im': Image)
    requires Consistent(im, base, sp) && Blocks(sq) !! Blocks(sp)
    requires Grown(im.runs, im.ram, sq, used, im'.runs, im'.ram) && DisjointRuns(im'.runs, HEAP_BLOCKS) && im'.slots == im.slots
    ensures Consistent(im', base + OneBlockRuns(used), sp) && Owns(im'.runs, sp)
  {
    GrownUntouched(im.runs, im.ram, sq, used, im'.runs, im'.ram, sp);
    UntouchedKeeps(im.ram, sp, im'.ram);
    TakenSlots(im.runs, base, im.slots, used, im'.runs);
  }

  lemma GrownUntouched(runs: Runs, ram: Ram, sq: Space, used: set<nat>, runs': Runs, ram': Ram, sp: Space)
    requires Grown(runs, ram, sq, used, runs', ram') && Owns(runs, sp) && Blocks(sq) !! Blocks(sp)
    ensures Untouched(ram, sp, ram')
  {
    forall b | b in Blocks(sp) && b < HEAP_BLOCKS ensures ram'[HEAP_FRAME + b] == ram[HEAP_FRAME + b] {
      assert Covers(runs, b, b);
      assert b in sq.tables ==> b in Blocks(sq);
      assert !MayChange(runs, sq, HEAP_FRAME + b);
    }
  }

  lemma TakenSlots(runs: Runs, base: Runs, slots: seq<Allocation>, used: set<nat>, runs': Runs)
    requires SlotsAreRuns(runs, base, slots) && Taken(runs, used, runs')
    ensures SlotsAreRuns(runs', base + OneBlockRuns(used), slots)
  {
    forall i | Live(slots, i) ensures SlotIsRun(runs', base + OneBlockRuns(used), slots[i]) {
      assert SlotIsRun(runs, base, slots[i]);
    }
  }

  lemma StepKeeps(im: Image, base: Runs, sp: Space, call: Call, im': Image)
    requires Consistent(im, base, sp) && Step(im, base, sp, call, im')
    ensures Consistent(im', BaseAfter(base, call), sp)
  {
    match call
    case MallocCall(size, ptr, i, block, cleared) => MallocKeeps(im, base, sp, size, im', ptr, i, block, cleared);
    case FreeCall(ptr, i) => FreeKeeps(im, base, sp, ptr, im', i);
    case OtherAlloc(block, size) => OtherAllocKeeps(im, base, sp, block, size, im');
    case OtherFree(block) => OtherFreeKeeps(im, base, sp, block);
    case OtherWrite => UntouchedKeeps(im.ram, sp, im'.ram);
  }

  ghost predicate Run(states: seq<Image>, calls: seq<Call>, base: Runs, sp: Space)
    requires WellFormed(sp)
  {
    && |states| == |calls| + 1
    && forall n :: 0 <= n < |calls| ==> Step(states[n], BaseAfterAll(base, calls[..n]), sp, calls[n], states[n + 1])
  }

  /** Over every run of process_malloc and process_free of non-null pointers, interleaved with any
      other use of the heap and of memory, the non-null slots are exactly the process's live heap
      runs and each is mapped; the other live runs are those of the kernel and other processes. */
  lemma {:induction false} RunKeeps(states: seq<Image>, calls: seq<Call>, base: Runs, sp: Space)
    requires states != [] && Consistent(states[0], base, sp) && Run(states, calls, base, sp)
    ensures Consistent(states[|calls|], BaseAfterAll(base, calls), sp)
    decreases |calls|
  {
    if calls != [] {
      var n := |calls| - 1;
      assert Run(states[..n + 1], calls[..n], base, sp) by {
        assert forall m :: 0 <= m < n ==> calls[..n][..m] == calls[..m];
      }
      RunKeeps(states[..n + 1], calls[..n], base, sp);
      assert Step(states[n], BaseAfterAll(base, calls[..n]), sp, calls[n], states[n + 1]);
      StepKeeps(states[n], BaseAfterAll(base, calls[..n]), sp, calls[n], states[n + 1]);
    }
  }

  /** A successful allocation maps its own pages and changes no other page. */
  lemma MallocEffect(im: Image, base: Runs, sp: Space, size: Word, mid: Image, ptr: Word, i: nat, block: nat, cleared: Ram)
    requires Consistent(im, base, sp) && 1 <= size <= MAX_SIZE && ptr != 0
    requires MallocStep(im, sp, size, mid, ptr, i, block, cleared)
    ensures mid.runs == im.runs[block := BlocksFor(size)] && block !in im.runs && BlockAt(ptr) == block
    ensures i < |im.slots| && im.slots[i].ptr == 0 && mid.slots == im.slots[i := Allocation(ptr, size)]
    ensures forall p: PageNo :: PageEntry(mid.ram, sp, p) ==
              if InAllocation(Allocation(ptr, size), p) then p * PAGE_SIZE + USER_FLAGS else PageEntry(im.ram, sp, p)
  {
    AllocatedElsewhere(im.runs, im.ram, mid.runs, cleared, block, size, sp);
    UntouchedKeeps(im.ram, sp, cleared);
    EndOfRun(ptr, block, size);
    MappedToSelfEffect(cleared, sp, ptr, block, size, USER_FLAGS);
  }

  /** Block `b` belongs to one of the process's allocations. */
  ghost predicate OwnBlock(runs: Runs, base: Runs, s: nat, b: nat) {
    Covers(runs, s, b) && s !in base
  }

  lemma OwnBlockIsNoTable(im: Image, base: Runs, sp: Space, s: nat, b: nat)
    requires Consistent(im, base, sp) && OwnBlock(im.runs, base, s, b)
    ensures b < HEAP_BLOCKS && b !in Blocks(sp)
  {
    assert b in Blocks(sp) ==> b in base && b in im.runs;
  }

  /** Of a page that holds no table, process_malloc changes nothing but to clear the bytes asked for. */
  lemma MallocElsewhere(im: Image, base: Runs, sp: Space, size: Word, im': Image, ptr: Word, i: nat, block: nat,
                        cleared: Ram, b: nat)
    requires Consistent(im, base, sp) && 1 <= size <= MAX_SIZE && ptr != 0 && b < HEAP_BLOCKS && b !in Blocks(sp)
    requires MallocStep(im, sp, size, im', ptr, i, block, cleared)
    ensures im'.ram[HEAP_FRAME + b] == cleared[HEAP_FRAME + b]
  {
    BlocksSplit(sp);
    EndOfRun(ptr, block, size);
    MappedToSelfEffect(cleared, sp, ptr, block, size, USER_FLAGS);
    assert forall j :: 0 <= j < |sp.tables| ==> sp.tables[j] in Blocks(sp);
  }

  lemma FreshPage(im: Image, base: Runs, sp: Space, size: Word, im': Image, ptr: Word, i: nat, block: nat, cleared: Ram, b: nat)
    requires 1 <= size <= MAX_SIZE && ptr != 0 && Consistent(im, base, sp) && block <= b < block + BlocksFor(size)
    requires MallocStep(im, sp, size, im', ptr, i, block, cleared)
    ensures b < HEAP_BLOCKS && im'.ram[HEAP_FRAME + b] == cleared[HEAP_FRAME + b]
  {
    MallocKeeps(im, base, sp, size, im', ptr, i, block, cleared);
    assert block in base ==> block in im.runs;
    assert OwnBlock(im'.runs, base, block, b);
    OwnBlockIsNoTable(im', base, sp, block, b);
    MallocElsewhere(im, base, sp, size, im', ptr, i, block, cleared, b);
  }

  /** A fresh pointer is held by no slot. */
  lemma FreshPointer(im: Image, base: Runs, sp: Space, ptr: Word)
    requires Consistent(im, base, sp) && ptr != 0 && BlockAt(ptr) !in im.runs
    ensures forall l :: 0 <= l < |im.slots| ==> im.slots[l].ptr != ptr
  {
    forall l | 0 <= l < |im.slots| ensures im.slots[l].ptr != ptr {
      assert Live(im.slots, l) || im.slots[l].ptr == 0;
    }
  }

  /** An allocation that is freed again leaves the runs, and so the heap table, as they were, and
      the pages of every other live slot mapped as before; its own pages end up not present. */
  lemma MallocThenFree(im: Image, base: Runs, sp: Space, size: Word, mid: Image, ptr: Word, i: nat, block: nat,
                       cleared: Ram, im': Image, j: nat)
    requires Consistent(im, base, sp) && 1 <= size <= MAX_SIZE && ptr != 0
    requires MallocStep(im, sp, size, mid, ptr, i, block, cleared) && FreeStep(mid, sp, ptr, im', j)
    ensures im'.runs == im.runs && j == i && im'.slots == im.slots[i := Allocation(0, size)]
    ensures forall p: PageNo :: PageEntry(im'.ram, sp, p) ==
              if InAllocation(Allocation(ptr, size), p) then p * PAGE_SIZE else PageEntry(im.ram, sp, p)
  {
    MallocKeeps(im, base, sp, size, mid, ptr, i, block, cleared);
    MallocEffect(im, base, sp, size, mid, ptr, i, block, cleared);
    FreshPointer(im, base, sp, ptr);
    assert mid.slots[i].ptr == ptr;
    FreeKeeps(mid, base, sp, ptr, im', j);
    assert im.runs[block := BlocksFor(size)] - {block} == im.runs;
  }

  // ---------------------------------------------------------------------------
  // process_free(NULL).
  // ---------------------------------------------------------------------------

  /** The pages from address 0 on that process_free(NULL) unmaps: as many as the size covers that the
      first null slot has kept from its last use. */
  function StalePages(size: Word): nat {
    AlignAddress(size) / PAGE_SIZE
  }

  lemma StalePagesAreBlocks(size: Word)
    requires size <= MAX_SIZE
    ensures StalePages(size) == BlocksFor(size)
  {
    if size % PAGE_SIZE != 0 {
      WrapSmall(size + PAGE_SIZE - size % PAGE_SIZE);
    }
  }

  /** process_free(NULL) finds the first null slot, keeps runs and slots, and unmaps those pages. */
  lemma FreeNullEffect(im: Image, sp: Space, im': Image, i: nat)
    requires WellFormed(sp) && FreeStep(im, sp, 0, im', i) && i < |im.slots|
    ensures im'.runs == im.runs && im'.slots == im.slots && (Linked(im.ram, sp) ==> Linked(im'.ram, sp))
    ensures forall p: PageNo :: PageEntry(im'.ram, sp, p) ==
              if p < StalePages(im.slots[i].size) then p * PAGE_SIZE else PageEntry(im.ram, sp, p)
  {
    var size := im.slots[i].size;
    var end := AlignAddress(size);
    WrapSmall(size);
    AlignedPages(end, size);
    AfterMapToKeeps(im.ram, sp, 0, 0, end, 0);
    MapPagesEffect(im.ram, sp, 0, 0, StalePages(size), 0);
    forall p: PageNo, before: Word
      ensures MappedEntry(0, 0, StalePages(size), 0, p, before) == if p < StalePages(size) then p * PAGE_SIZE else before
    {
      SelfEntry(0, 0, StalePages(size), 0, p, before);
    }
  }

  lemma AlignedPages(end: Word, size: Word)
    requires end == AlignAddress(size)
    ensures end % PAGE_SIZE == 0 && end == StalePages(size) * PAGE_SIZE
  {
  }

  /** The mappings stay as they are if and only if those pages already have no flag and lead to
      themselves. */
  lemma FreeNullIsHarmlessIff(im: Image, sp: Space, im': Image, i: nat)
    requires WellFormed(sp) && FreeStep(im, sp, 0, im', i) && i < |im.slots|
    ensures im'.runs == im.runs && im'.slots == im.slots
    ensures (forall p: PageNo :: PageEntry(im'.ram, sp, p) == PageEntry(im.ram, sp, p)) <==>
            (forall p: PageNo :: p < StalePages(im.slots[i].size) ==> PageEntry(im.ram, sp, p) == p * PAGE_SIZE)
  {
    FreeNullEffect(im, sp, im', i);
  }

  /** The invariant is kept if and only if no live slot has one of those pages. */
  lemma FreeNullKeepsIff(im: Image, base: Runs, sp: Space, im': Image, i: nat)
    requires Consistent(im, base, sp) && FreeStep(im, sp, 0, im', i) && i < |im.slots|
    ensures Consistent(im', base, sp) <==>
            forall j, p: PageNo :: Live(im.slots, j) && InAllocation(im.slots[j], p) ==> p >= StalePages(im.slots[i].size)
  {
    FreeNullEffect(im, sp, im', i);
    assert Consistent(im', base, sp) <==> SlotsAreMapped(im'.ram, sp, im.slots);
    MappedIffAbove(im.ram, im'.ram, sp, im.slots, StalePages(im.slots[i].size));
  }

  lemma MappedIffAbove(ram: Ram, ram': Ram, sp: Space, slots: seq<Allocation>, n: nat)
    requires WellFormed(sp) && SlotsAreMapped(ram, sp, slots)
    requires forall p: PageNo :: PageEntry(ram', sp, p) == if p < n then p * PAGE_SIZE else PageEntry(ram, sp, p)
    ensures SlotsAreMapped(ram', sp, slots) <==> forall j, p: PageNo :: Live(slots, j) && InAllocation(slots[j], p) ==> p >= n
  {
    if SlotsAreMapped(ram', sp, slots) {
      forall j, p: PageNo | Live(slots, j) && InAllocation(slots[j], p) ensures p >= n {
        assert PageEntry(ram', sp, p) == p * PAGE_SIZE + USER_FLAGS;
      }
    }
    if forall j, p: PageNo :: Live(slots, j) && InAllocation(slots[j], p) ==> p >= n {
      forall j, p: PageNo | Live(slots, j) && InAllocation(slots[j], p) ensures PageEntry(ram', sp, p) == p * PAGE_SIZE + USER_FLAGS {
        assert PageEntry(ram, sp, p) == p * PAGE_SIZE + USER_FLAGS;
      }
    }
  }

  /** Allocating, freeing and then freeing NULL, with no other call between, unmaps the first pages of the
      address space, as many as the allocation had: a page of them that was mapped with any flag is lost. */
  lemma MallocFreeFreeNull(im: Image, base: Runs, sp: Space, size: Word, mid: Image, ptr: Word, i: nat, block: nat,
                           cleared: Ram, freed: Image, j: nat, im': Image, l: nat)
    requires Consistent(im, base, sp) && 1 <= size <= MAX_SIZE && ptr != 0
    requires MallocStep(im, sp, size, mid, ptr, i, block, cleared) && FreeStep(mid, sp, ptr, freed, j) && FreeStep(freed, sp, 0, im', l)
    ensures im'.runs == im.runs && FirstPagesLost(im'.ram, sp, BlocksFor(size))
    ensures PageEntry(im.ram, sp, 0) % PAGE_SIZE != 0 ==> PageEntry(im'.ram, sp, 0) != PageEntry(im.ram, sp, 0)
  {
    MallocThenFree(im, base, sp, size, mid, ptr, i, block, cleared, freed, j);
    SameFirstNull(im.slots, freed.slots, i, l);
    StalePagesAreBlocks(size);
    FreeNullLoses(freed, sp, im', l);
    assert PageEntry(im'.ram, sp, 0) == 0;
  }

  /** The first `n` pages have no flag. */
  ghost predicate FirstPagesLost(ram: Ram, sp: Space, n: nat)
    requires WellFormed(sp)
  {
    var lost := forall p: PageNo :: p < n ==> PageEntry(ram, sp, p) == p * PAGE_SIZE;
    lost
  }

  lemma FreeNullLoses(im: Image, sp: Space, im': Image, i: nat)
    requires WellFormed(sp) && FreeStep(im, sp, 0, im', i) && i < |im.slots|
    ensures im'.runs == im.runs && FirstPagesLost(im'.ram, sp, StalePages(im.slots[i].size))
  {
    FreeNullEffect(im, sp, im', i);
  }

  /** The slot that was used and freed is again the first null slot. */
  lemma SameFirstNull(slots: seq<Allocation>, slots': seq<Allocation>, i: nat, l: nat)
    requires IsFirst(slots, 0, i) && i < |slots| && |slots'| == |slots| && slots'[i].ptr == 0
    requires forall n :: 0 <= n < |slots| && n != i ==> slots'[n] == slots[n]
    requires IsFirst(slots', 0, l)
    ensures l == i
  {
  }
}
