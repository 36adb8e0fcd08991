/** What of a loaded program's mapping lasts, over any run of process_malloc and process_free:
    process_malloc maps heap pages to themselves over whatever was mapped there. */
module ProgramRuns {
  import opened Memory
  import opened Heaps
  import opened Kheap
  import opened Paging
  import opened Processes
  import opened ProcessRuns
  import opened ProcessPages
  import opened Loader
  import opened Wrappers

  /** Page `p` ends in no allocation and was in none that is freed, or ends in one and was mapped to itself
      for the user, writeable, from the start. */
  ghost predicate Spared(states: seq<Image>, calls: seq<ProcessRuns.Call>, sp: Space, p: PageNo)
    requires WellFormed(sp) && |calls| < |states|
  {
    if InLiveSlot(states[|calls|].slots, p) then PageEntry(states[0].ram, sp, p) == p * PAGE_SIZE + USER_FLAGS
    else !EverFreed(states, calls, p)
  }

  /** A page that has any flag keeps its word over a run if and only if it is spared. */
  lemma PageKeptIff(states: seq<Image>, calls: seq<ProcessRuns.Call>, base: Runs, sp: Space, p: PageNo)
    requires states != [] && Consistent(states[0], base, sp) && Run(states, calls, base, sp)
    requires PageEntry(states[0].ram, sp, p) % PAGE_SIZE != 0
    ensures PageEntry(states[|calls|].ram, sp, p) == PageEntry(states[0].ram, sp, p) <==> Spared(states, calls, sp, p)
  {
    RunPages(states, calls, base, sp, p);
  }

  /** What a caller can tell of address `v` of a segment: in no live slot at the end, it was in none that was
      freed; in one, the segment was writeable and mapped to itself. */
  ghost predicate AddressSpared(states: seq<Image>, calls: seq<ProcessRuns.Call>, elf: Word, ph: Phdr, v: Word)
    requires |calls| < |states|
  {
    if InLiveSlot(states[|calls|].slots, v / PAGE_SIZE) then HasFlag(ph.flags, 2) && elf + ph.offset == ph.vaddr
    else !EverFreed(states, calls, v / PAGE_SIZE)
  }

  ghost predicate SegmentSpared(states: seq<Image>, calls: seq<ProcessRuns.Call>, elf: Word, ph: Phdr)
    requires |calls| < |states|
  {
    forall v: Word :: ph.vaddr <= v < ph.vaddr + ph.memsz ==> AddressSpared(states, calls, elf, ph, v)
  }

  /** A segment that the program's accesses reach, as its flags say, at the start of a run is reached so at the
      end if and only if all its addresses are spared. */
  lemma SegmentKeptIff(states: seq<Image>, calls: seq<ProcessRuns.Call>, base: Runs, sp: Space, elf: Word, ph: Phdr)
    requires states != [] && Consistent(states[0], base, sp) && Run(states, calls, base, sp) && Open(sp)
    requires Translates(states[0].ram, sp, elf, ph)
    ensures Translates(states[|calls|].ram, sp, elf, ph) <==> SegmentSpared(states, calls, elf, ph)
  {
    var ram' := states[|calls|].ram;
    forall v: Word | ph.vaddr <= v < ph.vaddr + ph.memsz
      ensures ByteReached(ram', sp, elf, ph, v, false) && ByteReached(ram', sp, elf, ph, v, true) <==> AddressSpared(states, calls, elf, ph, v)
    {
      AddressKeptIff(states, calls, base, sp, elf, ph, v);
    }
    if SegmentSpared(states, calls, elf, ph) {
      forall v: Word, write: bool | ph.vaddr <= v < ph.vaddr + ph.memsz ensures ByteReached(ram', sp, elf, ph, v, write) {
        assert AddressSpared(states, calls, elf, ph, v);
      }
    }
  }

  lemma AddressKeptIff(states: seq<Image>, calls: seq<ProcessRuns.Call>, base: Runs, sp: Space, elf: Word, ph: Phdr, v: Word)
    requires states != [] && Consistent(states[0], base, sp) && Run(states, calls, base, sp) && Open(sp)
    requires Translates(states[0].ram, sp, elf, ph) && ph.vaddr <= v < ph.vaddr + ph.memsz
    ensures ByteReached(states[|calls|].ram, sp, elf, ph, v, false) && ByteReached(states[|calls|].ram, sp, elf, ph, v, true)
            <==> AddressSpared(states, calls, elf, ph, v)
  {
    assert ByteReached(states[0].ram, sp, elf, ph, v, false) && ByteReached(states[0].ram, sp, elf, ph, v, true);
    RunAccess(states, calls, base, sp, v, false);
    RunAccess(states, calls, base, sp, v, true);
  }

  /** Page `p` is one of the kernel heap. */
  predicate InHeap(p: int) {
    HEAP_FRAME <= p < HEAP_FRAME + HEAP_BLOCKS
  }

  lemma AllocationInHeap(im: Image, base: Runs, sp: Space, i: nat, p: int)
    requires Consistent(im, base, sp) && Live(im.slots, i) && InAllocation(im.slots[i], p)
    ensures InHeap(p)
  {
    LiveSlotFits(im, base, sp, i);
    AddressOfFrame(BlockAt(im.slots[i].ptr));
  }

  lemma FreedInHeap(im: Image, base: Runs, sp: Space, call: ProcessRuns.Call, im': Image, p: int)
    requires Consistent(im, base, sp) && ProcessRuns.Step(im, base, sp, call, im') && FreesPage(im, call, p)
    ensures InHeap(p)
  {
    FreeReleases(im, base, sp, call.ptr, im', call.i);
    AllocationInHeap(im, base, sp, call.i, p);
  }

  /** Over every run, a page outside the heap keeps its word. */
  lemma {:induction false} OutsideHeapKept(states: seq<Image>, calls: seq<ProcessRuns.Call>, base: Runs, sp: Space, p: PageNo)
    requires states != [] && Consistent(states[0], base, sp) && Run(states, calls, base, sp) && !InHeap(p)
    ensures PageEntry(states[|calls|].ram, sp, p) == PageEntry(states[0].ram, sp, p)
    ensures !InLiveSlot(states[|calls|].slots, p) && !EverFreed(states, calls, p)
    decreases |calls|
  {
    RunKeeps(states, calls, base, sp);
    if i :| Live(states[|calls|].slots, i) && InAllocation(states[|calls|].slots[i], p) {
      AllocationInHeap(states[|calls|], BaseAfterAll(base, calls), sp, i, p);
    }
    if calls != [] {
      var n := |calls| - 1;
      RunPrefix(states, calls, base, sp);
      OutsideHeapKept(states[..n + 1], calls[..n], base, sp, p);
      RunKeeps(states[..n + 1], calls[..n], base, sp);
      FreedByLast(states, calls, p);
      if FreesPage(states[n], calls[n], p) {
        FreedInHeap(states[n], BaseAfterAll(base, calls[..n]), sp, calls[n], states[n + 1], p);
      }
    }
    RunPages(states, calls, base, sp, p);
  }

  /** The program's addresses from `a` on, `n` of them, lie outside the kernel heap. */
  predicate ClearOfHeap(a: Word, n: Word) {
    a + n <= HEAP_ADDRESS || HEAP_ADDRESS + HEAP_SIZE_BYTES <= a
  }

  lemma OutsideIsSpared(states: seq<Image>, calls: seq<ProcessRuns.Call>, base: Runs, sp: Space, elf: Word, ph: Phdr)
    requires states != [] && Consistent(states[0], base, sp) && Run(states, calls, base, sp) && ClearOfHeap(ph.vaddr, ph.memsz)
    ensures SegmentSpared(states, calls, elf, ph)
  {
    forall v: Word | ph.vaddr <= v < ph.vaddr + ph.memsz ensures AddressSpared(states, calls, elf, ph, v) {
      OutsideHeapKept(states, calls, base, sp, v / PAGE_SIZE);
    }
  }

  /** An ELF program mapped by process_map_memory, after any run of its process: accesses to a segment clear of
      the stack reach its bytes of the image, as its flags say, if and only if its addresses are spared, and always
      when it lies outside the heap. */
  lemma ProgramLastsIff(ram: Ram, prog: Program, stack: Word, i: nat,
                        states: seq<Image>, calls: seq<ProcessRuns.Call>, base: Runs, sp: Space)
    requires states != [] && Consistent(states[0], base, sp) && Run(states, calls, base, sp) && Linked(ram, sp) && Open(sp)
    requires prog.Elf? && Loaded(prog) && Separate(prog.memory, prog.phdrs) && i < |prog.phdrs|
    requires stack % PAGE_SIZE == 0 && stack + STACK_SIZE <= ADDRESS_SPACE - PAGE_SIZE
    requires var ph := prog.phdrs[i];
             && (ph.memsz >= 1 ==> Congruent(ph))
             && (ph.vaddr + ph.memsz <= STACK_VIRTUAL_END || STACK_VIRTUAL_START <= ph.vaddr)
    requires states[0].ram == AfterStack(AfterProgram(ram, sp, prog, |prog.phdrs|), sp, stack)
    ensures Translates(states[|calls|].ram, sp, prog.memory, prog.phdrs[i]) <==> SegmentSpared(states, calls, prog.memory, prog.phdrs[i])
    ensures ClearOfHeap(prog.phdrs[i].vaddr, prog.phdrs[i].memsz) ==> Translates(states[|calls|].ram, sp, prog.memory, prog.phdrs[i])
  {
    ProgramTranslates(ram, sp, prog, stack, i);
    SegmentKeptIff(states, calls, base, sp, prog.memory, prog.phdrs[i]);
    if ClearOfHeap(prog.phdrs[i].vaddr, prog.phdrs[i].memsz) {
      OutsideIsSpared(states, calls, base, sp, prog.memory, prog.phdrs[i]);
    }
  }

  /** The stack lies outside the heap, and so the program reaches its memory after every run. */
  lemma StackLasts(program: Ram, stack: Word, v: Word, write: bool,
                   states: seq<Image>, calls: seq<ProcessRuns.Call>, base: Runs, sp: Space)
    requires states != [] && Consistent(states[0], base, sp) && Run(states, calls, base, sp) && Linked(program, sp) && Open(sp)
    requires stack % PAGE_SIZE == 0 && stack + STACK_SIZE <= ADDRESS_SPACE - PAGE_SIZE
    requires states[0].ram == AfterStack(program, sp, stack) && STACK_VIRTUAL_END <= v < STACK_VIRTUAL_START
    ensures Access(states[|calls|].ram, sp, v, write) == Some(stack + (v - STACK_VIRTUAL_END))
  {
    StackTranslates(program, sp, stack, v, write);
    OutsideHeapKept(states, calls, base, sp, v / PAGE_SIZE);
    RunAccess(states, calls, base, sp, v, write);
  }
}
