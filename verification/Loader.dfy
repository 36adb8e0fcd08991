/** Mapping a loaded program: ELF segments or a flat binary, and the stack. */
module Loader {
  import opened Memory
  import opened Heaps
  import opened Kheap
  import opened Paging
  import opened Status
  import opened Wrappers

  const PROGRAM_VIRTUAL_ADDRESS := 0x40_0000
  const STACK_SIZE := 16384
  const STACK_VIRTUAL_START := 0x3F_F000
  const STACK_VIRTUAL_END := STACK_VIRTUAL_START - STACK_SIZE

  const USER_PAGE := PRESENT + ACCESS_FROM_ALL
  const PF_W := 2

  /** The fields of a program header that mapping reads. */
  datatype Phdr = Phdr(offset: Word, vaddr: Word, memsz: Word, flags: Word)

  /** p_flags & PF_W */
  predicate Writeable(ph: Phdr) {
    HasFlag(ph.flags, PF_W)
  }

  function PageFlags(ph: Phdr): nat {
    if Writeable(ph) then USER_PAGE + WRITEABLE else USER_PAGE
  }

  /** elf_phdr_phys_address */
  function PhysAddress(elf: Word, ph: Phdr): Word {
    Wrap(elf + ph.offset)
  }

  function PhysEnd(elf: Word, ph: Phdr): Word {
    AlignAddress(Wrap(PhysAddress(elf, ph) + ph.memsz))
  }

  predicate SegmentOk(elf: Word, ph: Phdr) {
    PageBase(PhysAddress(elf, ph)) <= PhysEnd(elf, ph)
  }

  lemma SegmentArguments(elf: Word, ph: Phdr)
    ensures MapArgumentsOk(PageBase(ph.vaddr), PageBase(PhysAddress(elf, ph)), PhysEnd(elf, ph)) <==> SegmentOk(elf, ph)
  {
    AlignedUp(Wrap(PhysAddress(elf, ph) + ph.memsz));
  }

  lemma AlignedUp(a: Word)
    ensures AlignAddress(a) % PAGE_SIZE == 0
  {
  }

  /** Memory after one segment is mapped. */
  ghost function AfterSegment(ram: Ram, sp: Space, elf: Word, ph: Phdr): Ram
    requires WellFormed(sp) && SegmentOk(elf, ph)
  {
    SegmentArguments(elf, ph);
    AfterMapTo(ram, sp, PageBase(ph.vaddr), PageBase(PhysAddress(elf, ph)), PhysEnd(elf, ph), PageFlags(ph))
  }

  ghost function AfterSegments(ram: Ram, sp: Space, elf: Word, phdrs: seq<Phdr>): Ram
    requires WellFormed(sp) && forall i :: 0 <= i < |phdrs| ==> SegmentOk(elf, phdrs[i])
  {
    if phdrs == [] then ram
    else AfterSegment(AfterSegments(ram, sp, elf, phdrs[..|phdrs| - 1]), sp, elf, phdrs[|phdrs| - 1])
  }

  lemma {:induction false} AfterSegmentsKeeps(ram: Ram, sp: Space, elf: Word, phdrs: seq<Phdr>)
    requires WellFormed(sp) && forall i :: 0 <= i < |phdrs| ==> SegmentOk(elf, phdrs[i])
    ensures OnlyTablesChanged(ram, sp, AfterSegments(ram, sp, elf, phdrs))
    ensures Linked(ram, sp) ==> Linked(AfterSegments(ram, sp, elf, phdrs), sp)
  {
    if phdrs != [] {
      var ph := phdrs[|phdrs| - 1];
      AfterSegmentsKeeps(ram, sp, elf, phdrs[..|phdrs| - 1]);
      SegmentArguments(elf, ph);
      AfterMapToKeeps(AfterSegments(ram, sp, elf, phdrs[..|phdrs| - 1]), sp,
                      PageBase(ph.vaddr), PageBase(PhysAddress(elf, ph)), PhysEnd(elf, ph), PageFlags(ph));
    }
  }

  /** process_map_elf: maps the segments in order and stops at the first that is refused. */
  method MapElf(k: Kernel, chunk: Word, elf: Word, phdrs: seq<Phdr>, ghost sp: Space) returns (res: int, ghost mapped: nat)
    requires WellFormed(sp) && Linked(k.ram, sp) && PointsTo(chunk, sp.chunk)
    modifies k`ram
    ensures Linked(k.ram, sp)
    ensures mapped <= |phdrs| && forall i :: 0 <= i < mapped ==> SegmentOk(elf, phdrs[i])
    ensures res == 0 <==> mapped == |phdrs|
    ensures res != 0 ==> res == -EINVARG && !SegmentOk(elf, phdrs[mapped])
    ensures k.ram == AfterSegments(old(k.ram), sp, elf, phdrs[..mapped])
  {
    res, mapped := 0, 0;
    for i := 0 to |phdrs|
      invariant res == 0 && mapped == i && Linked(k.ram, sp) && MappedSoFar(old(k.ram), sp, elf, phdrs, i, k.ram)
    {
      res := MapSegment(k, chunk, elf, phdrs[i], sp);
      if res < 0 {
        break;
      }
      MappedOneMore(old(k.ram), sp, elf, phdrs, i);
      mapped := i + 1;
    }
    assert phdrs[..|phdrs|] == phdrs;
  }

  /** The first `i` segments are mapped. */
  ghost predicate MappedSoFar(ram0: Ram, sp: Space, elf: Word, phdrs: seq<Phdr>, i: nat, ram: Ram)
    requires WellFormed(sp) && i <= |phdrs|
  {
    var mapped := (forall j :: 0 <= j < i ==> SegmentOk(elf, phdrs[j])) && ram == AfterSegments(ram0, sp, elf, phdrs[..i]);
    mapped
  }

  lemma MappedOneMore(ram0: Ram, sp: Space, elf: Word, phdrs: seq<Phdr>, i: nat)
    requires WellFormed(sp) && i < |phdrs| && forall j :: 0 <= j <= i ==> SegmentOk(elf, phdrs[j])
    ensures AfterSegments(ram0, sp, elf, phdrs[..i + 1]) == AfterSegment(AfterSegments(ram0, sp, elf, phdrs[..i]), sp, elf, phdrs[i])
  {
    assert phdrs[..i + 1][..i] == phdrs[..i];
  }

  /** One segment: its mapping, or an error that changes nothing. */
  method MapSegment(k: Kernel, chunk: Word, elf: Word, ph: Phdr, ghost sp: Space) returns (res: int)
    requires WellFormed(sp) && Linked(k.ram, sp) && PointsTo(chunk, sp.chunk)
    modifies k`ram
    ensures Linked(k.ram, sp) && res == if SegmentOk(elf, ph) then 0 else -EINVARG
    ensures k.ram == if SegmentOk(elf, ph) then AfterSegment(old(k.ram), sp, elf, ph) else old(k.ram)
  {
    var phys := PhysAddress(elf, ph);
    SegmentArguments(elf, ph);
    if SegmentOk(elf, ph) {
      AfterMapToKeeps(k.ram, sp, PageBase(ph.vaddr), PageBase(phys), PhysEnd(elf, ph), PageFlags(ph));
    }
    res := PagingMapTo(k, chunk, PageBase(ph.vaddr), PageBase(phys), PhysEnd(elf, ph), PageFlags(ph), sp);
  }

  // ---------------------------------------------------------------------------
  // Where the addresses of a segment go.
  // ---------------------------------------------------------------------------

  /** The segment ends before the top of the address space, in the file image and in the program. */
  predicate NoWrap(elf: Word, ph: Phdr) {
    && elf % PAGE_SIZE == 0
    && elf + ph.offset + ph.memsz <= ADDRESS_SPACE - PAGE_SIZE
    && ph.vaddr + ph.memsz <= ADDRESS_SPACE
  }

  /** The pages that mapping the segment writes. */
  function Pages(elf: Word, ph: Phdr): int {
    (PhysEnd(elf, ph) - PageBase(PhysAddress(elf, ph))) / PAGE_SIZE
  }

  ghost predicate CoversPage(elf: Word, ph: Phdr, p: PageNo) {
    Dist(ph.vaddr / PAGE_SIZE, p) < Pages(elf, ph)
  }

  /** No two segments write the same page. */
  ghost predicate PageDisjoint(elf: Word, phdrs: seq<Phdr>) {
    forall i, j, p: PageNo :: 0 <= i < j < |phdrs| && CoversPage(elf, phdrs[i], p) ==> !CoversPage(elf, phdrs[j], p)
  }

  /** p_vaddr and p_offset lie at the same place in their pages. */
  predicate Congruent(ph: Phdr) {
    ph.vaddr % PAGE_SIZE == ph.offset % PAGE_SIZE
  }

  lemma SegmentNumbers(elf: Word, ph: Phdr)
    requires NoWrap(elf, ph)
    ensures PhysAddress(elf, ph) == elf + ph.offset && SegmentOk(elf, ph)
    ensures PageBase(elf + ph.offset) == elf + ph.offset - ph.offset % PAGE_SIZE
    ensures Pages(elf, ph) == (ph.offset % PAGE_SIZE + ph.memsz + PAGE_SIZE - 1) / PAGE_SIZE
  {
    WrapSmall(elf + ph.offset);
    WrapSmall(elf + ph.offset + ph.memsz);
    var phys, end := elf + ph.offset, elf + ph.offset + ph.memsz;
    assert phys % PAGE_SIZE == ph.offset % PAGE_SIZE;
    if end % PAGE_SIZE != 0 {
      WrapSmall(end + PAGE_SIZE - end % PAGE_SIZE);
    }
    RoundUp(PageBase(phys), ph.offset % PAGE_SIZE + ph.memsz);
  }

  lemma RoundUp(base: Word, n: nat)
    requires base % PAGE_SIZE == 0 && base + n <= ADDRESS_SPACE - PAGE_SIZE
    ensures AlignAddress(base + n) == base + (n + PAGE_SIZE - 1) / PAGE_SIZE * PAGE_SIZE
  {
    assert (base + n) % PAGE_SIZE == n % PAGE_SIZE;
    if n % PAGE_SIZE != 0 {
      WrapSmall(base + n + PAGE_SIZE - n % PAGE_SIZE);
    }
  }

  /** The word a segment gives to a page it covers. */
  function SegmentEntry(elf: Word, ph: Phdr, p: PageNo): int
    requires NoWrap(elf, ph)
  {
    PageBase(elf + ph.offset) + Dist(ph.vaddr / PAGE_SIZE, p) * PAGE_SIZE + PageFlags(ph)
  }

  lemma AfterSegmentEffect(ram: Ram, sp: Space, elf: Word, ph: Phdr)
    requires WellFormed(sp) && NoWrap(elf, ph) && SegmentOk(elf, ph)
    ensures var ram' := AfterSegment(ram, sp, elf, ph);
            forall p: PageNo :: PageEntry(ram', sp, p) ==
              if CoversPage(elf, ph, p) then SegmentEntry(elf, ph, p) else PageEntry(ram, sp, p)
  {
    SegmentNumbers(elf, ph);
    SegmentArguments(elf, ph);
    AfterMapToEffect(ram, sp, PageBase(ph.vaddr), PageBase(PhysAddress(elf, ph)), PhysEnd(elf, ph), PageFlags(ph));
  }

  /** What mapping needs of a list of segments: none wraps and no two share a page. */
  ghost predicate Separate(elf: Word, phdrs: seq<Phdr>) {
    && PageDisjoint(elf, phdrs)
    && forall i :: 0 <= i < |phdrs| ==> NoWrap(elf, phdrs[i]) && SegmentOk(elf, phdrs[i])
  }

  /** Later segments do not disturb the pages of earlier ones. */
  lemma {:induction false} CoveredPage(ram: Ram, sp: Space, elf: Word, phdrs: seq<Phdr>, i: nat, p: PageNo)
    requires WellFormed(sp) && Separate(elf, phdrs) && i < |phdrs| && CoversPage(elf, phdrs[i], p)
    ensures PageEntry(AfterSegments(ram, sp, elf, phdrs), sp, p) == SegmentEntry(elf, phdrs[i], p)
    decreases |phdrs|
  {
    var n := |phdrs| - 1;
    AfterSegmentEffect(AfterSegments(ram, sp, elf, phdrs[..n]), sp, elf, phdrs[n]);
    if i < n {
      CoveredPage(ram, sp, elf, phdrs[..n], i, p);
    }
  }

  /** Pages that no segment covers keep their word. */
  lemma {:induction false} UncoveredPage(ram: Ram, sp: Space, elf: Word, phdrs: seq<Phdr>, p: PageNo)
    requires WellFormed(sp) && Separate(elf, phdrs) && forall i :: 0 <= i < |phdrs| ==> !CoversPage(elf, phdrs[i], p)
    ensures PageEntry(AfterSegments(ram, sp, elf, phdrs), sp, p) == PageEntry(ram, sp, p)
    decreases |phdrs|
  {
    if phdrs != [] {
      var n := |phdrs| - 1;
      AfterSegmentEffect(AfterSegments(ram, sp, elf, phdrs[..n]), sp, elf, phdrs[n]);
      UncoveredPage(ram, sp, elf, phdrs[..n], p);
    }
  }

  /** A congruent segment covers the page of each of its addresses and sends the address to the
      byte of the file image at the same distance from the segment's start. */
  lemma AddressInSegment(elf: Word, ph: Phdr, v: Word)
    requires NoWrap(elf, ph) && Congruent(ph) && ph.vaddr <= v < ph.vaddr + ph.memsz
    ensures CoversPage(elf, ph, v / PAGE_SIZE)
    ensures 0 <= SegmentEntry(elf, ph, v / PAGE_SIZE) < ADDRESS_SPACE
    ensures PageBase(SegmentEntry(elf, ph, v / PAGE_SIZE)) + v % PAGE_SIZE == elf + ph.offset + (v - ph.vaddr)
    ensures SegmentEntry(elf, ph, v / PAGE_SIZE) % PAGE_SIZE == PageFlags(ph)
  {
    SegmentNumbers(elf, ph);
    var d := v / PAGE_SIZE - ph.vaddr / PAGE_SIZE;
    assert d * PAGE_SIZE + v % PAGE_SIZE == v - ph.vaddr + ph.vaddr % PAGE_SIZE;
    AlignedSum(PageBase(elf + ph.offset), d);
    FrameOfEntry(PageBase(elf + ph.offset) + d * PAGE_SIZE, PageFlags(ph));
  }

  /** The first address of a segment that is not congruent goes astray. */
  lemma FirstAddressAstray(elf: Word, ph: Phdr)
    requires NoWrap(elf, ph) && !Congruent(ph) && ph.memsz >= 1
    ensures CoversPage(elf, ph, ph.vaddr / PAGE_SIZE)
    ensures 0 <= SegmentEntry(elf, ph, ph.vaddr / PAGE_SIZE) < ADDRESS_SPACE
    ensures PageBase(SegmentEntry(elf, ph, ph.vaddr / PAGE_SIZE)) + ph.vaddr % PAGE_SIZE != elf + ph.offset
  {
    SegmentNumbers(elf, ph);
    FrameOfEntry(PageBase(elf + ph.offset), PageFlags(ph));
  }

  /** A program's access to an address of the segment goes to its byte of the file image; a write does so
      exactly when bit 1 of the segment's flags is set, and else faults. */
  ghost predicate ByteReached(ram: Ram, sp: Space, elf: Word, ph: Phdr, v: Word, write: bool)
    requires WellFormed(sp)
  {
    var a := Access(ram, sp, v, write);
    if write && !HasFlag(ph.flags, 2) then a.None? else a.Some? && a.value == elf + ph.offset + (v - ph.vaddr)
  }

  /** So does every access to the segment. */
  ghost predicate Translates(ram: Ram, sp: Space, elf: Word, ph: Phdr)
    requires WellFormed(sp)
  {
    forall v: Word, write: bool :: ph.vaddr <= v < ph.vaddr + ph.memsz ==> ByteReached(ram, sp, elf, ph, v, write)
  }

  lemma PageFlagsGrant(ph: Phdr)
    ensures PageFlags(ph) < PAGE_SIZE && Grants(PageFlags(ph), false) && (Grants(PageFlags(ph), true) <==> HasFlag(ph.flags, 2))
  {
  }

  /** The word that a segment gives to a page grants what the segment's flags say. */
  lemma SegmentAccess(ram: Ram, sp: Space, elf: Word, ph: Phdr, v: Word, write: bool)
    requires WellFormed(sp) && Linked(ram, sp) && Open(sp) && NoWrap(elf, ph)
    requires PageEntry(ram, sp, v / PAGE_SIZE) == SegmentEntry(elf, ph, v / PAGE_SIZE)
    ensures Access(ram, sp, v, write) == if write && !HasFlag(ph.flags, 2) then None
                                         else Some(PageBase(PageEntry(ram, sp, v / PAGE_SIZE)) + v % PAGE_SIZE)
  {
    var n := Dist(ph.vaddr / PAGE_SIZE, v / PAGE_SIZE);
    PageFlagsGrant(ph);
    AlignedSum(PageBase(elf + ph.offset), n);
    FlagsOfWord(PageEntry(ram, sp, v / PAGE_SIZE), PageBase(elf + ph.offset) + n * PAGE_SIZE, PageFlags(ph));
    AccessByPage(ram, sp, v, write);
  }

  lemma FlagsOfWord(entry: Word, frame: int, flags: nat)
    requires frame % PAGE_SIZE == 0 && flags < PAGE_SIZE && entry == frame + flags
    ensures forall write :: Grants(entry, write) <==> Grants(flags, write)
  {
    FlagsOfSum(frame, flags);
  }

  lemma SegmentTranslates(ram: Ram, sp: Space, elf: Word, phdrs: seq<Phdr>, i: nat)
    requires WellFormed(sp) && Linked(ram, sp) && Open(sp) && Separate(elf, phdrs) && i < |phdrs|
    requires phdrs[i].memsz >= 1 ==> Congruent(phdrs[i])
    ensures Translates(AfterSegments(ram, sp, elf, phdrs), sp, elf, phdrs[i])
  {
    var ram', ph := AfterSegments(ram, sp, elf, phdrs), phdrs[i];
    AfterSegmentsKeeps(ram, sp, elf, phdrs);
    forall v: Word, write: bool | ph.vaddr <= v < ph.vaddr + ph.memsz ensures ByteReached(ram', sp, elf, ph, v, write) {
      AddressInSegment(elf, ph, v);
      CoveredPage(ram, sp, elf, phdrs, i, v / PAGE_SIZE);
      SegmentAccess(ram', sp, elf, ph, v, write);
    }
  }

  lemma SegmentAstray(ram: Ram, sp: Space, elf: Word, phdrs: seq<Phdr>, i: nat)
    requires WellFormed(sp) && Linked(ram, sp) && Open(sp) && Separate(elf, phdrs) && i < |phdrs|
    requires phdrs[i].memsz >= 1 && !Congruent(phdrs[i])
    ensures !Translates(AfterSegments(ram, sp, elf, phdrs), sp, elf, phdrs[i])
  {
    var ram', ph := AfterSegments(ram, sp, elf, phdrs), phdrs[i];
    AfterSegmentsKeeps(ram, sp, elf, phdrs);
    FirstAddressAstray(elf, ph);
    CoveredPage(ram, sp, elf, phdrs, i, ph.vaddr / PAGE_SIZE);
    SegmentAccess(ram', sp, elf, ph, ph.vaddr, false);
    assert !ByteReached(ram', sp, elf, ph, ph.vaddr, false);
  }

  /** After process_map_elf on page-disjoint segments that do not wrap, every access of the program to every
      segment reaches its byte of the image, to write exactly when PF_W is set, if and only if every
      non-empty segment is congruent modulo the page size. */
  lemma ElfTranslatesIff(ram: Ram, sp: Space, elf: Word, phdrs: seq<Phdr>)
    requires WellFormed(sp) && Linked(ram, sp) && Open(sp) && Separate(elf, phdrs)
    ensures (forall i :: 0 <= i < |phdrs| ==> Translates(AfterSegments(ram, sp, elf, phdrs), sp, elf, phdrs[i])) <==>
            (forall i :: 0 <= i < |phdrs| && phdrs[i].memsz >= 1 ==> Congruent(phdrs[i]))
  {
    forall i | 0 <= i < |phdrs| && (phdrs[i].memsz >= 1 ==> Congruent(phdrs[i]))
      ensures Translates(AfterSegments(ram, sp, elf, phdrs), sp, elf, phdrs[i])
    {
      SegmentTranslates(ram, sp, elf, phdrs, i);
    }
    forall i | 0 <= i < |phdrs| && phdrs[i].memsz >= 1 && !Congruent(phdrs[i])
      ensures !Translates(AfterSegments(ram, sp, elf, phdrs), sp, elf, phdrs[i])
    {
      SegmentAstray(ram, sp, elf, phdrs, i);
    }
  }

  // ---------------------------------------------------------------------------
  // process_map_memory: the program, then the stack.
  // ---------------------------------------------------------------------------

  /** A loaded program. The record of an ELF program keeps the pointer to its elf_file in the
      place of the flat binary's pointer, and size 0. */
  datatype Program =
    | Elf(file: Word, memory: Word, phdrs: seq<Phdr>)
    | Bin(ptr: Word, size: Word)

  function BinaryPtr(prog: Program): Word {
    if prog.Elf? then prog.file else prog.ptr
  }

  function BinarySize(prog: Program): Word {
    if prog.Elf? then 0 else prog.size
  }

  /** The program's memory is page-aligned, as heap memory is, and its end does not wrap. */
  predicate Loaded(prog: Program) {
    BinaryPtr(prog) % PAGE_SIZE == 0 && BinaryPtr(prog) + BinarySize(prog) <= ADDRESS_SPACE - PAGE_SIZE
  }

  function RoundedEnd(base: Word, n: nat): Word
    requires base % PAGE_SIZE == 0 && base + n <= ADDRESS_SPACE - PAGE_SIZE
    ensures MapArgumentsOk(base, base, RoundedEnd(base, n))
  {
    AlignedSum(base, (n + PAGE_SIZE - 1) / PAGE_SIZE);
    base + (n + PAGE_SIZE - 1) / PAGE_SIZE * PAGE_SIZE
  }

  ghost function AfterBinary(ram: Ram, sp: Space, prog: Program): Ram
    requires WellFormed(sp) && Loaded(prog)
  {
    AfterMapTo(ram, sp, PROGRAM_VIRTUAL_ADDRESS, BinaryPtr(prog), RoundedEnd(BinaryPtr(prog), BinarySize(prog)), USER_PAGE + WRITEABLE)
  }

  ghost function AfterStack(ram: Ram, sp: Space, stack: Word): Ram
    requires WellFormed(sp) && stack % PAGE_SIZE == 0 && stack + STACK_SIZE <= ADDRESS_SPACE - PAGE_SIZE
  {
    AfterMapTo(ram, sp, STACK_VIRTUAL_END, stack, RoundedEnd(stack, STACK_SIZE), USER_PAGE + WRITEABLE)
  }

  /** process_map_binary */
  method MapBinary(k: Kernel, chunk: Word, prog: Program, ghost sp: Space) returns (res: int)
    requires WellFormed(sp) && Linked(k.ram, sp) && PointsTo(chunk, sp.chunk) && Loaded(prog)
    modifies k`ram
    ensures res == 0 && Linked(k.ram, sp) && k.ram == AfterBinary(old(k.ram), sp, prog)
  {
    var ptr, size := BinaryPtr(prog), BinarySize(prog);
    RoundUp(ptr, size);
    WrapSmall(ptr + size);
    var end := AlignAddress(Wrap(ptr + size));
    assert end == RoundedEnd(ptr, size);
    AfterMapToKeeps(k.ram, sp, PROGRAM_VIRTUAL_ADDRESS, ptr, end, USER_PAGE + WRITEABLE);
    res := PagingMapTo(k, chunk, PROGRAM_VIRTUAL_ADDRESS, ptr, end, USER_PAGE + WRITEABLE, sp);
  }

  /** For an ELF program the flat mapping that always comes first maps no page. */
  lemma ElfBinaryMapsNothing(ram: Ram, sp: Space, prog: Program)
    requires WellFormed(sp) && Loaded(prog) && prog.Elf?
    ensures AfterBinary(ram, sp, prog) == ram
  {
  }

  /** The pages of the program after process_map_memory's switch; only `mapped` segments when one
      was refused. */
  ghost function AfterProgram(ram: Ram, sp: Space, prog: Program, mapped: nat): Ram
    requires WellFormed(sp) && Loaded(prog)
    requires prog.Elf? ==> mapped <= |prog.phdrs| && forall i :: 0 <= i < mapped ==> SegmentOk(prog.memory, prog.phdrs[i])
  {
    match prog
    case Elf(_, memory, phdrs) => AfterSegments(ram, sp, memory, phdrs[..mapped])
    case Bin(_, _) => AfterBinary(AfterBinary(ram, sp, prog), sp, prog)
  }

  /** process_map_memory: the flat mapping, the program again by its type, and the stack unless
      a segment was refused. */
  method MapMemory(k: Kernel, chunk: Word, prog: Program, stack: Word, ghost sp: Space) returns (res: int, ghost mapped: nat)
    requires WellFormed(sp) && Linked(k.ram, sp) && PointsTo(chunk, sp.chunk) && Loaded(prog)
    requires stack % PAGE_SIZE == 0 && stack + STACK_SIZE <= ADDRESS_SPACE - PAGE_SIZE
    modifies k`ram
    ensures prog.Elf? ==> mapped <= |prog.phdrs| && forall i :: 0 <= i < mapped ==> SegmentOk(prog.memory, prog.phdrs[i])
    ensures res == 0 <==> (prog.Elf? ==> mapped == |prog.phdrs|)
    ensures res != 0 ==> res == -EINVARG && !SegmentOk(prog.memory, prog.phdrs[mapped])
    ensures var program := AfterProgram(old(k.ram), sp, prog, mapped);
            k.ram == if res == 0 then AfterStack(program, sp, stack) else program
  {
    res := MapBinary(k, chunk, prog, sp);
    mapped := 0;
    match prog {
      case Elf(_, memory, phdrs) =>
        ElfBinaryMapsNothing(old(k.ram), sp, prog);
        res, mapped := MapElf(k, chunk, memory, phdrs, sp);
      case Bin(_, _) =>
        res := MapBinary(k, chunk, prog, sp);
    }
    if res < 0 {
      return;
    }
    res := MapStack(k, chunk, stack, sp);
  }

  method MapStack(k: Kernel, chunk: Word, stack: Word, ghost sp: Space) returns (res: int)
    requires WellFormed(sp) && Linked(k.ram, sp) && PointsTo(chunk, sp.chunk)
    requires stack % PAGE_SIZE == 0 && stack + STACK_SIZE <= ADDRESS_SPACE - PAGE_SIZE
    modifies k`ram
    ensures res == 0 && k.ram == AfterStack(old(k.ram), sp, stack)
  {
    RoundUp(stack, STACK_SIZE);
    WrapSmall(stack + STACK_SIZE);
    assert AlignAddress(Wrap(stack + STACK_SIZE)) == RoundedEnd(stack, STACK_SIZE);
    res := PagingMapTo(k, chunk, STACK_VIRTUAL_END, stack, AlignAddress(Wrap(stack + STACK_SIZE)), USER_PAGE + WRITEABLE, sp);
  }

  /** An access to an address that has been mapped to `phys` goes there, for the user and to write as well. */
  lemma MappedAccess(ram: Ram, sp: Space, v: Word, write: bool, phys: Word)
    requires WellFormed(sp) && Linked(ram, sp) && Open(sp) && Translate(ram, sp, v) == phys
    requires PageEntry(ram, sp, v / PAGE_SIZE) % PAGE_SIZE == USER_PAGE + WRITEABLE
    ensures Access(ram, sp, v, write) == Some(phys)
  {
    var e := PageEntry(ram, sp, v / PAGE_SIZE);
    FlagsOfWord(e, PageBase(e), USER_PAGE + WRITEABLE);
    AccessByPage(ram, sp, v, write);
  }

  /** The user's accesses to the four pages of the stack, to read and to write, reach the stack's memory. */
  lemma StackTranslates(ram: Ram, sp: Space, stack: Word, v: Word, write: bool)
    requires WellFormed(sp) && Linked(ram, sp) && Open(sp) && stack % PAGE_SIZE == 0 && stack + STACK_SIZE <= ADDRESS_SPACE - PAGE_SIZE
    ensures var ram' := AfterStack(ram, sp, stack);
            && Linked(ram', sp)
            && if 0x3F_B000 <= v < 0x3F_F000 then Access(ram', sp, v, write) == Some(stack + (v - 0x3F_B000))
               else PageEntry(ram', sp, v / PAGE_SIZE) == PageEntry(ram, sp, v / PAGE_SIZE) && Access(ram', sp, v, write) == Access(ram, sp, v, write)
  {
    var ram' := AfterStack(ram, sp, stack);
    AfterMapToKeeps(ram, sp, STACK_VIRTUAL_END, stack, RoundedEnd(stack, STACK_SIZE), USER_PAGE + WRITEABLE);
    StackEntries(ram, sp, stack, v);
    if STACK_VIRTUAL_END <= v < STACK_VIRTUAL_START {
      MappedAccess(ram', sp, v, write, stack + (v - STACK_VIRTUAL_END));
    } else {
      SameAccess(ram, ram', sp, v, write);
    }
  }

  lemma StackEntries(ram: Ram, sp: Space, stack: Word, v: Word)
    requires WellFormed(sp) && stack % PAGE_SIZE == 0 && stack + STACK_SIZE <= ADDRESS_SPACE - PAGE_SIZE
    ensures var ram' := AfterStack(ram, sp, stack);
            if STACK_VIRTUAL_END <= v < STACK_VIRTUAL_START
            then Translate(ram', sp, v) == stack + (v - STACK_VIRTUAL_END) && PageEntry(ram', sp, v / PAGE_SIZE) % PAGE_SIZE == USER_PAGE + WRITEABLE
            else PageEntry(ram', sp, v / PAGE_SIZE) == PageEntry(ram, sp, v / PAGE_SIZE)
  {
    StackEnd(stack);
    MapToTranslates(ram, sp, STACK_VIRTUAL_END, stack, stack + STACK_SIZE, USER_PAGE + WRITEABLE, v);
    StackDistance(v);
  }

  lemma StackEnd(stack: Word)
    requires stack % PAGE_SIZE == 0 && stack + STACK_SIZE <= ADDRESS_SPACE - PAGE_SIZE
    ensures RoundedEnd(stack, STACK_SIZE) == stack + STACK_SIZE && MapArgumentsOk(STACK_VIRTUAL_END, stack, stack + STACK_SIZE)
  {
  }

  lemma StackDistance(v: Word)
    ensures STACK_VIRTUAL_END <= v < STACK_VIRTUAL_START <==> Wrap(v - STACK_VIRTUAL_END) < STACK_SIZE
    ensures STACK_VIRTUAL_END <= v ==> Wrap(v - STACK_VIRTUAL_END) == v - STACK_VIRTUAL_END
  {
  }

  /** A whole ELF process: when its segments are separate, congruent and end below or start above
      the stack, every address of every segment reaches its byte of the image and the stack
      reaches its own memory. */
  lemma ProgramTranslates(ram: Ram, sp: Space, prog: Program, stack: Word, i: nat)
    requires WellFormed(sp) && Linked(ram, sp) && Open(sp)
    requires prog.Elf? && Loaded(prog) && Separate(prog.memory, prog.phdrs) && i < |prog.phdrs|
    requires stack % PAGE_SIZE == 0 && stack + STACK_SIZE <= ADDRESS_SPACE - PAGE_SIZE
    requires var ph := prog.phdrs[i];
             && (ph.memsz >= 1 ==> Congruent(ph))
             && (ph.vaddr + ph.memsz <= STACK_VIRTUAL_END || STACK_VIRTUAL_START <= ph.vaddr)
    ensures Translates(AfterStack(AfterProgram(ram, sp, prog, |prog.phdrs|), sp, stack), sp, prog.memory, prog.phdrs[i])
  {
    var ph, program := prog.phdrs[i], AfterProgram(ram, sp, prog, |prog.phdrs|);
    assert prog.phdrs[..|prog.phdrs|] == prog.phdrs;
    AfterSegmentsKeeps(ram, sp, prog.memory, prog.phdrs);
    SegmentTranslates(ram, sp, prog.memory, prog.phdrs, i);
    forall v: Word, write: bool | ph.vaddr <= v < ph.vaddr + ph.memsz
      ensures ByteReached(AfterStack(program, sp, stack), sp, prog.memory, ph, v, write)
    {
      assert ByteReached(program, sp, prog.memory, ph, v, write);
      StackTranslates(program, sp, stack, v, write);
    }
  }

  /** A whole flat-binary process: its bytes appear from the program address on, to read and to write. */
  lemma BinaryTranslates(ram: Ram, sp: Space, prog: Program, stack: Word, v: Word, write: bool)
    requires WellFormed(sp) && Linked(ram, sp) && Open(sp)
    requires prog.Bin? && Loaded(prog) && 0x40_0000 <= v < 0x40_0000 + prog.size
    requires stack % PAGE_SIZE == 0 && stack + STACK_SIZE <= ADDRESS_SPACE - PAGE_SIZE
    ensures Access(AfterStack(AfterProgram(ram, sp, prog, 0), sp, stack), sp, v, write) == Some(prog.ptr + (v - 0x40_0000))
  {
    BinaryAccess(ram, sp, prog, v, write);
    StackTranslates(AfterProgram(ram, sp, prog, 0), sp, stack, v, write);
  }

  lemma BinaryAccess(ram: Ram, sp: Space, prog: Program, v: Word, write: bool)
    requires WellFormed(sp) && Linked(ram, sp) && Open(sp) && prog.Bin? && Loaded(prog)
    requires PROGRAM_VIRTUAL_ADDRESS <= v < PROGRAM_VIRTUAL_ADDRESS + prog.size
    ensures var ram' := AfterProgram(ram, sp, prog, 0);
            Linked(ram', sp) && Access(ram', sp, v, write) == Some(prog.ptr + (v - PROGRAM_VIRTUAL_ADDRESS))
  {
    var once := AfterBinary(ram, sp, prog);
    BinaryEntries(ram, sp, prog, v);
    BinaryEntries(once, sp, prog, v);
    MappedAccess(AfterBinary(once, sp, prog), sp, v, write, prog.ptr + (v - PROGRAM_VIRTUAL_ADDRESS));
  }

  lemma BinaryEntries(ram: Ram, sp: Space, prog: Program, v: Word)
    requires WellFormed(sp) && prog.Bin? && Loaded(prog) && PROGRAM_VIRTUAL_ADDRESS <= v < PROGRAM_VIRTUAL_ADDRESS + prog.size
    ensures var ram' := AfterBinary(ram, sp, prog);
            && (Linked(ram, sp) ==> Linked(ram', sp)) && Translate(ram', sp, v) == prog.ptr + (v - PROGRAM_VIRTUAL_ADDRESS)
            && PageEntry(ram', sp, v / PAGE_SIZE) % PAGE_SIZE == USER_PAGE + WRITEABLE
  {
    var end := RoundedEnd(prog.ptr, prog.size);
    AfterMapToKeeps(ram, sp, PROGRAM_VIRTUAL_ADDRESS, prog.ptr, end, USER_PAGE + WRITEABLE);
    WrapSmall(v - PROGRAM_VIRTUAL_ADDRESS);
    MapToTranslates(ram, sp, PROGRAM_VIRTUAL_ADDRESS, prog.ptr, end, USER_PAGE + WRITEABLE, v);
  }
}
