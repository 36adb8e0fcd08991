/** What every page of a process's address space maps to after any run of process_malloc and process_free. */
module ProcessPages {
  import opened Memory
  import opened Heaps
  import opened Kheap
  import opened Paging
  import opened Processes
  import opened ProcessRuns
  import opened Wrappers

  /** Some live slot has page `p`. */
  ghost predicate InLiveSlot(slots: seq<Allocation>, p: int) {
    exists i :: Live(slots, i) && InAllocation(slots[i], p)
  }

  /** The call frees an allocation with page `p`. */
  ghost predicate FreesPage(im: Image, call: Call, p: int) {
    call.FreeCall? && call.i < |im.slots| && InAllocation(im.slots[call.i], p)
  }

  /** Some call of the run has freed page `p`. */
  ghost predicate EverFreed(states: seq<Image>, calls: seq<Call>, p: int)
    requires |calls| < |states|
  {
    exists n :: 0 <= n < |calls| && FreesPage(states[n], calls[n], p)
  }

  lemma InstalledPages(slots: seq<Allocation>, i: nat, a: Allocation, p: int)
    requires i < |slots| && slots[i].ptr == 0 && a.ptr != 0
    ensures InLiveSlot(slots[i := a], p) <==> InAllocation(a, p) || InLiveSlot(slots, p)
  {
    var slots' := slots[i := a];
    if InAllocation(a, p) {
      assert Live(slots', i);
    }
    if InLiveSlot(slots, p) {
      var j :| Live(slots, j) && InAllocation(slots[j], p);
      assert Live(slots', j) && InAllocation(slots'[j], p);
    }
    if InLiveSlot(slots', p) && !InAllocation(a, p) {
      var j :| Live(slots', j) && InAllocation(slots'[j], p);
      assert Live(slots, j) && InAllocation(slots[j], p);
    }
  }

  lemma ReleasedPages(im: Image, base: Runs, sp: Space, i: nat, p: int)
    requires Consistent(im, base, sp) && Live(im.slots, i)
    ensures InLiveSlot(im.slots[i := im.slots[i].(ptr := 0)], p) <==> InLiveSlot(im.slots, p) && !InAllocation(im.slots[i], p)
  {
    OtherSlots(im.slots, i, p);
    if j :| Live(im.slots, j) && j != i && InAllocation(im.slots[j], p) {
      AllocationsAreDisjoint(im, base, sp, j, i, p);
    }
  }

  /** A cleared slot leaves the pages of the other live slots. */
  lemma OtherSlots(slots: seq<Allocation>, i: nat, p: int)
    requires i < |slots|
    ensures InLiveSlot(slots[i := slots[i].(ptr := 0)], p) <==> exists j :: Live(slots, j) && j != i && InAllocation(slots[j], p)
  {
    var slots' := slots[i := slots[i].(ptr := 0)];
    if InLiveSlot(slots', p) {
      var j :| Live(slots', j) && InAllocation(slots'[j], p);
      assert Live(slots, j) && j != i;
    }
    if j :| Live(slots, j) && j != i && InAllocation(slots[j], p) {
      assert Live(slots', j) && InAllocation(slots'[j], p);
    }
  }

  /** A call changes the word of a page only by putting the page into a live slot or freeing it. */
  ghost predicate PageStep(im: Image, sp: Space, call: Call, im': Image, p: PageNo)
    requires WellFormed(sp)
  {
    var step :=
      if InLiveSlot(im'.slots, p) then PageEntry(im'.ram, sp, p) == p * PAGE_SIZE + USER_FLAGS
      else if FreesPage(im, call, p) then PageEntry(im'.ram, sp, p) == p * PAGE_SIZE
      else PageEntry(im'.ram, sp, p) == PageEntry(im.ram, sp, p) && !InLiveSlot(im.slots, p);
    step
  }

  lemma LiveSlotIsMapped(im: Image, base: Runs, sp: Space, p: PageNo)
    requires Consistent(im, base, sp) && InLiveSlot(im.slots, p)
    ensures PageEntry(im.ram, sp, p) == p * PAGE_SIZE + USER_FLAGS
  {
    var i :| Live(im.slots, i) && InAllocation(im.slots[i], p);
  }

  /** A call that changes neither slots nor page words. */
  lemma QuietPageStep(im: Image, base: Runs, sp: Space, call: Call, im': Image, p: PageNo)
    requires Consistent(im, base, sp) && im'.slots == im.slots && PageEntry(im'.ram, sp, p) == PageEntry(im.ram, sp, p)
    requires !FreesPage(im, call, p)
    ensures PageStep(im, sp, call, im', p)
  {
    if InLiveSlot(im.slots, p) {
      LiveSlotIsMapped(im, base, sp, p);
    }
  }

  lemma MallocPageStep(im: Image, base: Runs, sp: Space, call: Call, im': Image, p: PageNo)
    requires Consistent(im, base, sp) && call.MallocCall? && ProcessRuns.Step(im, base, sp, call, im')
    ensures PageStep(im, sp, call, im', p)
  {
    var MallocCall(size, ptr, i, block, cleared) := call;
    if ptr == 0 {
      FailedMallocKeepsPages(im, base, sp, size, im', i, block, cleared);
      QuietPageStep(im, base, sp, call, im', p);
    } else {
      MallocEffect(im, base, sp, size, im', ptr, i, block, cleared);
      InstalledPages(im.slots, i, Allocation(ptr, size), p);
      if InLiveSlot(im.slots, p) {
        LiveSlotIsMapped(im, base, sp, p);
      }
    }
  }

  lemma FailedMallocKeepsPages(im: Image, base: Runs, sp: Space, size: Word, im': Image, i: nat, block: nat, cleared: Ram)
    requires Consistent(im, base, sp) && 1 <= size <= MAX_SIZE && MallocStep(im, sp, size, im', 0, i, block, cleared)
    ensures im'.slots == im.slots && forall p: PageNo :: PageEntry(im'.ram, sp, p) == PageEntry(im.ram, sp, p)
  {
    if im'.ram != im.ram {
      assert Owns(im.runs, sp);
      AllocatedElsewhere(im.runs, im.ram, im.runs[block := BlocksFor(size)], im'.ram, block, size, sp);
      UntouchedKeeps(im.ram, sp, im'.ram);
    }
  }

  lemma FreePageStep(im: Image, base: Runs, sp: Space, call: Call, im': Image, p: PageNo)
    requires Consistent(im, base, sp) && call.FreeCall? && ProcessRuns.Step(im, base, sp, call, im')
    ensures PageStep(im, sp, call, im', p)
  {
    var FreeCall(ptr, i) := call;
    FreeKeeps(im, base, sp, ptr, im', i);
    if i == |im.slots| {
      QuietPageStep(im, base, sp, call, im', p);
    } else {
      FreeReleases(im, base, sp, ptr, im', i);
      ReleasedPages(im, base, sp, i, p);
      if InLiveSlot(im.slots, p) {
        LiveSlotIsMapped(im, base, sp, p);
      }
    }
  }

  lemma EveryPageStep(im: Image, base: Runs, sp: Space, call: Call, im': Image, p: PageNo)
    requires Consistent(im, base, sp) && ProcessRuns.Step(im, base, sp, call, im')
    ensures PageStep(im, sp, call, im', p)
  {
    match call
    case MallocCall(_, _, _, _, _) => MallocPageStep(im, base, sp, call, im', p);
    case FreeCall(_, _) => FreePageStep(im, base, sp, call, im', p);
    case OtherAlloc(block, size) =>
      assert Owns(im.runs, sp);
      AllocatedElsewhere(im.runs, im.ram, im'.runs, im'.ram, block, size, sp);
      UntouchedKeeps(im.ram, sp, im'.ram);
      QuietPageStep(im, base, sp, call, im', p);
    case OtherFree(_) => QuietPageStep(im, base, sp, call, im', p);
    case OtherWrite =>
      UntouchedKeeps(im.ram, sp, im'.ram);
      QuietPageStep(im, base, sp, call, im', p);
  }

  /** The word of a page after a run: a page of a live slot is mapped to itself, present, writeable, for the
      user; one that was freed and is in no live slot is mapped to itself without any flag; and any other
      has the word it had at the start. */
  ghost function WordAfter(states: seq<Image>, calls: seq<Call>, sp: Space, p: PageNo): Word
    requires WellFormed(sp) && |calls| < |states|
  {
    if InLiveSlot(states[|calls|].slots, p) then p * PAGE_SIZE + USER_FLAGS
    else if EverFreed(states, calls, p) then p * PAGE_SIZE
    else PageEntry(states[0].ram, sp, p)
  }

  lemma {:induction false} RunPages(states: seq<Image>, calls: seq<Call>, base: Runs, sp: Space, p: PageNo)
    requires states != [] && Consistent(states[0], base, sp) && Run(states, calls, base, sp)
    ensures PageEntry(states[|calls|].ram, sp, p) == WordAfter(states, calls, sp, p)
    decreases |calls|
  {
    if calls == [] {
      if InLiveSlot(states[0].slots, p) {
        LiveSlotIsMapped(states[0], base, sp, p);
      }
    } else {
      var n := |calls| - 1;
      RunPrefix(states, calls, base, sp);
      RunPages(states[..n + 1], calls[..n], base, sp, p);
      RunKeeps(states[..n + 1], calls[..n], base, sp);
      EveryPageStep(states[n], BaseAfterAll(base, calls[..n]), sp, calls[n], states[n + 1], p);
      FreedByLast(states, calls, p);
    }
  }

  lemma RunPrefix(states: seq<Image>, calls: seq<Call>, base: Runs, sp: Space)
    requires WellFormed(sp) && calls != [] && Run(states, calls, base, sp)
    ensures var n := |calls| - 1;
            Run(states[..n + 1], calls[..n], base, sp) && ProcessRuns.Step(states[n], BaseAfterAll(base, calls[..n]), sp, calls[n], states[n + 1])
  {
    var n := |calls| - 1;
    assert forall m :: 0 <= m < n ==> calls[..n][..m] == calls[..m];
  }

  lemma FreedByLast(states: seq<Image>, calls: seq<Call>, p: int)
    requires calls != [] && |calls| < |states|
    ensures var n := |calls| - 1;
            EverFreed(states, calls, p) <==> EverFreed(states[..n + 1], calls[..n], p) || FreesPage(states[n], calls[n], p)
  {
    var n := |calls| - 1;
    if EverFreed(states, calls, p) {
      var m :| 0 <= m < |calls| && FreesPage(states[m], calls[m], p);
      assert m < n ==> FreesPage(states[..n + 1][m], calls[..n][m], p);
    }
    if EverFreed(states[..n + 1], calls[..n], p) {
      var m :| 0 <= m < n && FreesPage(states[..n + 1][m], calls[..n][m], p);
      assert FreesPage(states[m], calls[m], p);
    }
  }

  /** What a program may reach after a run: a page of a live slot, at its own address, to read and to write; of
      one that was freed and is in no live slot, nothing; and of any other what it could at the start. */
  lemma RunAccess(states: seq<Image>, calls: seq<Call>, base: Runs, sp: Space, v: Word, write: bool)
    requires states != [] && Consistent(states[0], base, sp) && Run(states, calls, base, sp) && Open(sp)
    ensures Access(states[|calls|].ram, sp, v, write)
            == if InLiveSlot(states[|calls|].slots, v / PAGE_SIZE) then Some(v)
               else if EverFreed(states, calls, v / PAGE_SIZE) then None
               else Access(states[0].ram, sp, v, write)
  {
    var p := v / PAGE_SIZE;
    RunPages(states, calls, base, sp, p);
    RunKeeps(states, calls, base, sp);
    AccessOfWord(states[0].ram, states[|calls|].ram, sp, v, write, InLiveSlot(states[|calls|].slots, p), EverFreed(states, calls, p));
  }

  lemma AccessOfWord(ram: Ram, ram': Ram, sp: Space, v: Word, write: bool, live: bool, freed: bool)
    requires WellFormed(sp) && Linked(ram, sp) && Linked(ram', sp) && Open(sp)
    requires var p := v / PAGE_SIZE;
             PageEntry(ram', sp, p) == if live then p * PAGE_SIZE + USER_FLAGS else if freed then p * PAGE_SIZE else PageEntry(ram, sp, p)
    ensures Access(ram', sp, v, write) == if live then Some(v) else if freed then None else Access(ram, sp, v, write)
  {
    if live {
      SelfAccess(ram', sp, v, write, USER_FLAGS);
    } else if freed {
      SelfAccess(ram', sp, v, write, 0);
    } else {
      SameAccess(ram, ram', sp, v, write);
    }
  }

  lemma SelfAccess(ram: Ram, sp: Space, v: Word, write: bool, flags: nat)
    requires WellFormed(sp) && Linked(ram, sp) && Open(sp) && flags < PAGE_SIZE
    requires PageEntry(ram, sp, v / PAGE_SIZE) == v / PAGE_SIZE * PAGE_SIZE + flags
    ensures Access(ram, sp, v, write) == if Grants(flags, write) then Some(v) else None
  {
    AccessOfEntry(ram, sp, v, write, v / PAGE_SIZE * PAGE_SIZE, flags);
  }

  /** The bytes of an allocation lie in its pages. */
  lemma AllocationBytes(a: Allocation, v: Word)
    requires a.ptr % PAGE_SIZE == 0 && a.ptr <= v < a.ptr + a.size
    ensures InAllocation(a, v / PAGE_SIZE)
  {
  }

  /** After any run a program may read and write every byte of every allocation it holds, at the address it
      was given. */
  lemma AllocationsAreUsable(states: seq<Image>, calls: seq<Call>, base: Runs, sp: Space, i: nat, v: Word, write: bool)
    requires states != [] && Consistent(states[0], base, sp) && Run(states, calls, base, sp) && Open(sp)
    requires var slots := states[|calls|].slots; Live(slots, i) && slots[i].ptr <= v < slots[i].ptr + slots[i].size
    ensures Access(states[|calls|].ram, sp, v, write) == Some(v)
  {
    var end := states[|calls|];
    RunKeeps(states, calls, base, sp);
    LiveSlotFits(end, BaseAfterAll(base, calls), sp, i);
    AddressOfFrame(BlockAt(end.slots[i].ptr));
    AllocationBytes(end.slots[i], v);
    RunAccess(states, calls, base, sp, v, write);
  }

  /** A program may write to the bytes that process_malloc gives it, and reads zeros there. */
  lemma MallocGivesZeros(im: Image, base: Runs, sp: Space, size: Word, im': Image, ptr: Word, i: nat, block: nat, cleared: Ram, v: Word)
    requires Consistent(im, base, sp) && 1 <= size <= MAX_SIZE && ptr != 0 && Open(sp)
    requires MallocStep(im, sp, size, im', ptr, i, block, cleared) && ptr <= v < ptr + size
    ensures Access(im'.ram, sp, v, true) == Access(im'.ram, sp, v, false) == Some(v) && LoadByte(im'.ram, v) == 0
  {
    MallocKeeps(im, base, sp, size, im', ptr, i, block, cleared);
    MallocEffect(im, base, sp, size, im', ptr, i, block, cleared);
    AddressOfFrame(block);
    AllocationBytes(Allocation(ptr, size), v);
    AccessOfWord(im'.ram, im'.ram, sp, v, true, true, false);
    AccessOfWord(im'.ram, im'.ram, sp, v, false, true, false);
    FreshPage(im, base, sp, size, im', ptr, i, block, cleared, v / PAGE_SIZE - HEAP_FRAME);
    ClearedByte(im.ram, cleared, ptr, size, v);
  }

  lemma ClearedByte(ram: Ram, cleared: Ram, ptr: Word, size: Word, v: Word)
    requires Cleared(ram, cleared, ptr, size) && ptr <= v < ptr + size
    ensures LoadByte(cleared, v) == 0
  {
    assert v == v / PAGE_SIZE * PAGE_SIZE + v % PAGE_SIZE;
  }

  /** An address that could not be written to at the start, as none can in a new space, can be exactly when
      a live slot has its page, over every run. */
  lemma WriteableIffLive(states: seq<Image>, calls: seq<Call>, base: Runs, sp: Space, v: Word)
    requires states != [] && Consistent(states[0], base, sp) && Run(states, calls, base, sp) && Open(sp)
    requires Access(states[0].ram, sp, v, true) == None
    ensures Access(states[|calls|].ram, sp, v, true) == Some(v) <==> InLiveSlot(states[|calls|].slots, v / PAGE_SIZE)
  {
    RunAccess(states, calls, base, sp, v, true);
  }

  /** A program may read everything, where it is, and write nothing. */
  ghost predicate NothingWriteable(ram: Ram, sp: Space)
    requires WellFormed(sp)
  {
    var nothing := forall v: Word, write: bool :: Access(ram, sp, v, write) == if write then None else Some(v);
    nothing
  }

  lemma NewSpaceRights(runs: Runs, ram: Ram, sp: Space, runs': Runs, ram': Ram)
    requires Created(runs, ram, sp, PRESENT + ACCESS_FROM_ALL, runs', ram')
    ensures NothingWriteable(ram', sp) && Open(sp)
  {
    NewSpaceIsOpen(runs, ram, sp, runs', ram');
    forall v: Word, write: bool ensures Access(ram', sp, v, write) == if write then None else Some(v) {
      NewSpaceAccess(runs, ram, sp, PRESENT + ACCESS_FROM_ALL, runs', ram', v, write);
    }
  }

  lemma NewSpaceIsOpen(runs: Runs, ram: Ram, sp: Space, runs': Runs, ram': Ram)
    requires Created(runs, ram, sp, PRESENT + ACCESS_FROM_ALL, runs', ram')
    ensures Open(sp)
  {
    NewDirectoryFlags(runs, ram, sp, PRESENT + ACCESS_FROM_ALL, runs', ram', 0);
  }

  /** Before the first allocation. */
  lemma NoSlotsYet(runs: Runs, ram: Ram, sp: Space, slots: seq<Allocation>)
    requires WellFormed(sp) && Linked(ram, sp) && Owns(runs, sp) && DisjointRuns(runs, HEAP_BLOCKS)
    requires forall i :: 0 <= i < |slots| ==> slots[i].ptr == 0
    ensures Consistent(Image(runs, ram, slots), runs, sp)
  {
    assert forall i :: !Live(slots, i);
  }

  lemma {:induction false} AllSlotsNull(slots: seq<Allocation>)
    requires forall i :: 0 <= i < |slots| ==> slots[i].ptr == 0
    ensures |NullSlots(slots)| == |slots|
  {
    if slots != [] {
      var front := slots[..|slots| - 1];
      AllSlotsNull(front);
      assert NullSlots(slots) == NullSlots(front) + {|slots| - 1};
    }
  }

  /** paging_new_4gb as task_init calls it. */
  method NewSpace(k: Kernel) returns (directory: Word, ghost sp: Space)
    requires k.Valid() && k.FreeCount() >= 1026
    modifies k`ram, k.heap`runs, k.heap.entries
    ensures k.Valid() && k.FreeCount() == old(k.FreeCount()) - 1026
    ensures WellFormed(sp) && Linked(k.ram, sp) && Owns(k.Runs(), sp) && PointsTo(directory, sp.chunk)
    ensures Open(sp) && NothingWriteable(k.ram, sp)
  {
    ghost var runs, ram := k.Runs(), k.ram;
    directory, sp := PagingNew4gb(k, PRESENT + ACCESS_FROM_ALL);
    CreatedIsOwned(runs, ram, sp, PRESENT + ACCESS_FROM_ALL, k.Runs(), k.ram);
    NewSpaceRights(runs, ram, sp, k.Runs(), k.ram);
  }

  /** A new process starts that way. */
  method NewProcess(k: Kernel) returns (p: Process)
    requires k.Valid() && k.FreeCount() >= 1026
    modifies k`ram, k.heap`runs, k.heap.entries
    ensures fresh(p) && fresh(p.slots) && p.k == k && p.Valid() && Consistent(p.Now(), k.Runs(), p.sp)
    ensures p.slots[..] == NoSlots() && Open(p.sp) && NothingWriteable(k.ram, p.sp) && p.FreeSlots() == MAX_ALLOCATIONS
    ensures k.FreeCount() == old(k.FreeCount()) - 1026
  {
    var directory, sp := NewSpace(k);
    p := new Process(k, directory, sp);
    NoSlotsYet(k.Runs(), k.ram, sp, p.slots[..]);
    AllSlotsNull(p.slots[..]);
  }

  /** The images of a process that allocates a byte, frees it, and then frees NULL. */
  datatype Lost = Lost(before: Image, mid: Image, freed: Image, end: Image, ptr: Word, block: nat, cleared: Ram, i: nat, l: nat)

  /** Those three calls, and that the program, which could read at address 0, cannot any more. */
  ghost predicate PageZeroLost(sp: Space, c: Lost)
    requires WellFormed(sp)
  {
    var lost :=
      && c.ptr != 0 && MallocStep(c.before, sp, 1, c.mid, c.ptr, c.i, c.block, c.cleared)
      && FreeStep(c.mid, sp, c.ptr, c.freed, c.i) && FreeStep(c.freed, sp, 0, c.end, c.l)
      && Access(c.before.ram, sp, 0, false) == Some(0) && Access(c.end.ram, sp, 0, false) == None;
    lost
  }

  /** A new process whose program allocates one byte, frees it, and then frees NULL loses page 0, which it could read. */
  method LosePageZero(k: Kernel) returns (p: Process, ghost c: Lost)
    requires k.Valid() && k.FreeCount() >= 1027
    modifies k`ram, k.heap`runs, k.heap.entries
    ensures fresh(p) && p.k == k && p.Valid() && p.Now() == c.end && c.before.slots == NoSlots() && PageZeroLost(p.sp, c)
  {
    p := NewProcess(k);
    assert Access(k.ram, p.sp, 0, false) == Some(0);
    c := MallocFreeFreeNullOf(p, k.Runs());
  }

  /** The slots of a new process. */
  ghost function NoSlots(): seq<Allocation> {
    seq(MAX_ALLOCATIONS, _ => Allocation(0, 0))
  }

  lemma NoAccess(ram: Ram, sp: Space)
    requires WellFormed(sp) && Linked(ram, sp) && Open(sp) && PageEntry(ram, sp, 0) == 0
    ensures Access(ram, sp, 0, false) == None
  {
    SelfAccess(ram, sp, 0, false, 0);
  }

  method MallocFreeFreeNullOf(p: Process, ghost base: Runs) returns (ghost c: Lost)
    requires p.Valid() && Consistent(p.Now(), base, p.sp) && p.k.FreeCount() >= 1 && p.FreeSlots() >= 1
    requires Open(p.sp) && Access(p.k.ram, p.sp, 0, false) == Some(0)
    modifies p.k`ram, p.k.heap`runs, p.k.heap.entries, p.slots
    ensures p.Valid() && c.before == old(p.Now()) && p.Now() == c.end && PageZeroLost(p.sp, c)
  {
    ghost var im, sp := p.Now(), p.sp;
    OnePage(p.k.Table(), 1);
    var ptr, i, block, cleared := p.Malloc(1);
    ghost var mid := p.Now();
    MallocKeeps(im, base, sp, 1, mid, ptr, i, block, cleared);
    if ptr in Pointers(mid.slots) {
      HeldPointersAreRuns(mid, base, sp, ptr);
    }
    var j := p.Free(ptr);
    ghost var freed := p.Now();
    var l := p.Free(0);
    MallocThenFree(im, base, sp, 1, mid, ptr, i, block, cleared, freed, j);
    MallocFreeFreeNull(im, base, sp, 1, mid, ptr, i, block, cleared, freed, j, p.Now(), l);
    NoAccess(p.k.ram, sp);
    c := Lost(im, mid, freed, p.Now(), ptr, block, cleared, i, l);
  }
}
