/** Two-level page tables kept in one-block heap runs. */
module Paging {
  import opened Memory
  import opened Heaps
  import opened Kheap
  import opened Status
  import opened Wrappers

  const WRITEABLE := 2
  const PRESENT := 1
  const ACCESS_FROM_ALL := 4

  /** The bytes one directory entry covers. */
  const TABLE_SPAN := 0x40_0000

  /** A page number: a virtual address divided by the page size. */
  type PageNo = p: int | 0 <= p < TOTAL_FRAMES

  // ---------------------------------------------------------------------------
  // An address space: the heap blocks of its chunk, directory and 1024 tables.
  // ---------------------------------------------------------------------------

  /** `low` holds the flag bits that every word of the directory carries. */
  datatype Space = Space(chunk: nat, dir: nat, tables: seq<nat>, low: nat)

  ghost function Blocks(sp: Space): set<nat> {
    (set b | b in sp.tables) + {sp.dir, sp.chunk}
  }

  ghost predicate WellFormed(sp: Space) {
    var Space(chunk, dir, tables, low) := sp;
    var wellFormed :=
      && |tables| == WORDS_PER_PAGE && low < PAGE_SIZE && dir != chunk
      && dir < HEAP_BLOCKS && chunk < HEAP_BLOCKS
      && (forall i :: 0 <= i < WORDS_PER_PAGE ==>
            tables[i] < HEAP_BLOCKS && tables[i] != dir && tables[i] != chunk)
      && (forall i, j :: 0 <= i < j < WORDS_PER_PAGE ==> tables[i] != tables[j]);
    wellFormed
  }

  /** The chunk points to the directory and the directory to the tables. */
  ghost predicate Linked(ram: Ram, sp: Space)
    requires WellFormed(sp)
  {
    && ReadWord(ram[HEAP_FRAME + sp.chunk], 0) == AddressOf(sp.dir)
    && forall i :: 0 <= i < WORDS_PER_PAGE ==> ReadWord(ram[HEAP_FRAME + sp.dir], i) == AddressOf(sp.tables[i]) + sp.low
  }

  /** Every block of the space is a live run of its own. */
  ghost predicate Owns(runs: Runs, sp: Space) {
    forall b :: b in Blocks(sp) ==> b in runs && runs[b] == 1
  }

  /** The word that decides where page `p` of the space goes. */
  function PageEntry(ram: Ram, sp: Space, p: PageNo): Word
    requires WellFormed(sp)
  {
    ReadWord(ram[HEAP_FRAME + sp.tables[p / 1024]], p % 1024)
  }

  /** Memory after the word of page `p` is overwritten. */
  function SetEntry(ram: Ram, sp: Space, p: PageNo, val: Word): Ram
    requires WellFormed(sp)
  {
    var f := HEAP_FRAME + sp.tables[p / 1024];
    ram[f := WriteWord(ram[f], p % 1024, val)]
  }

  lemma SetEntryEffect(ram: Ram, sp: Space, p: PageNo, val: Word)
    requires WellFormed(sp)
    ensures var ram' := SetEntry(ram, sp, p, val);
            forall q: PageNo :: PageEntry(ram', sp, q) == if q == p then val else PageEntry(ram, sp, q)
    ensures var ram' := SetEntry(ram, sp, p, val);
            forall f :: 0 <= f < TOTAL_FRAMES && f != HEAP_FRAME + sp.tables[p / 1024] ==> ram'[f] == ram[f]
    ensures Linked(ram, sp) ==> Linked(SetEntry(ram, sp, p, val), sp)
  {
    var ram' := SetEntry(ram, sp, p, val);
    forall q: PageNo ensures PageEntry(ram', sp, q) == if q == p then val else PageEntry(ram, sp, q) {
      if q / 1024 != p / 1024 {
        assert sp.tables[q / 1024] != sp.tables[p / 1024];
      }
    }
  }

  // ---------------------------------------------------------------------------
  // Mapping a range of pages.
  // ---------------------------------------------------------------------------

  /** How many pages after page `from` page `q` comes, going round at the top of the address space. */
  function Dist(from: PageNo, q: PageNo): nat {
    if q >= from then q - from else q - from + TOTAL_FRAMES
  }

  function PageAfter(from: PageNo, n: nat): PageNo {
    (from + n) % TOTAL_FRAMES
  }

  /** Memory after `n` pages from `page` on are made to point to `phys` and the pages after it. */
  ghost function MapPages(ram: Ram, sp: Space, page: PageNo, phys: Word, n: nat, flags: nat): Ram
    requires WellFormed(sp) && phys % PAGE_SIZE == 0 && phys + n * PAGE_SIZE <= ADDRESS_SPACE && flags < PAGE_SIZE
  {
    if n == 0 then ram
    else SetEntry(MapPages(ram, sp, page, phys, n - 1, flags), sp, PageAfter(page, n - 1),
                  phys + (n - 1) * PAGE_SIZE + flags)
  }

  /** The word of page `q` after mapping `n` pages from `page` to `phys`. */
  ghost function MappedEntry(page: PageNo, phys: Word, n: nat, flags: nat, q: PageNo, before: Word): Word
    requires phys % PAGE_SIZE == 0 && phys + n * PAGE_SIZE <= ADDRESS_SPACE && flags < PAGE_SIZE
  {
    if Dist(page, q) < n then phys + Dist(page, q) * PAGE_SIZE + flags else before
  }

  /** Mapping touches nothing in memory but the tables of this space, and keeps its structure. */
  lemma {:induction false} MapPagesKeeps(ram: Ram, sp: Space, page: PageNo, phys: Word, n: nat, flags: nat)
    requires WellFormed(sp) && phys % PAGE_SIZE == 0 && phys + n * PAGE_SIZE <= ADDRESS_SPACE && flags < PAGE_SIZE
    ensures var ram' := MapPages(ram, sp, page, phys, n, flags);
            OnlyTablesChanged(ram, sp, ram') && (Linked(ram, sp) ==> Linked(ram', sp))
  {
    if n > 0 {
      MapPagesKeeps(ram, sp, page, phys, n - 1, flags);
      SetEntryEffect(MapPages(ram, sp, page, phys, n - 1, flags), sp, PageAfter(page, n - 1),
                     phys + (n - 1) * PAGE_SIZE + flags);
    }
  }

  /** Mapping changes the words of exactly the pages in the range. */
  lemma {:induction false} MapPagesEffect(ram: Ram, sp: Space, page: PageNo, phys: Word, n: nat, flags: nat)
    requires WellFormed(sp) && phys % PAGE_SIZE == 0 && phys + n * PAGE_SIZE <= ADDRESS_SPACE && flags < PAGE_SIZE
    ensures var ram' := MapPages(ram, sp, page, phys, n, flags);
            forall q: PageNo :: PageEntry(ram', sp, q) == MappedEntry(page, phys, n, flags, q, PageEntry(ram, sp, q))
  {
    if n > 0 {
      MapPagesEffect(ram, sp, page, phys, n - 1, flags);
      var before, last := MapPages(ram, sp, page, phys, n - 1, flags), PageAfter(page, n - 1);
      var val := phys + (n - 1) * PAGE_SIZE + flags;
      SetEntryEffect(before, sp, last, val);
      var ram' := SetEntry(before, sp, last, val);
      forall q: PageNo
        ensures PageEntry(ram', sp, q) == MappedEntry(page, phys, n, flags, q, PageEntry(ram, sp, q))
      {
        MappedOneMore(page, phys, n, flags, q, PageEntry(ram, sp, q));
        assert PageEntry(before, sp, q) == MappedEntry(page, phys, n - 1, flags, q, PageEntry(ram, sp, q));
      }
    }
  }

  lemma MappedOneMore(page: PageNo, phys: Word, n: nat, flags: nat, q: PageNo, before: Word)
    requires n > 0 && phys % PAGE_SIZE == 0 && phys + n * PAGE_SIZE <= ADDRESS_SPACE && flags < PAGE_SIZE
    ensures MappedEntry(page, phys, n, flags, q, before) ==
            if q == PageAfter(page, n - 1) then phys + (n - 1) * PAGE_SIZE + flags
            else MappedEntry(page, phys, n - 1, flags, q, before)
  {
    DistOfPageAfter(page, n - 1, q);
  }

  lemma DistOfPageAfter(from: PageNo, n: nat, q: PageNo)
    requires n < TOTAL_FRAMES
    ensures q == PageAfter(from, n) <==> Dist(from, q) == n
  {
  }

  ghost predicate OnlyTablesChanged(ram: Ram, sp: Space, ram': Ram) {
    forall f :: 0 <= f < TOTAL_FRAMES && f - HEAP_FRAME !in sp.tables ==> ram'[f] == ram[f]
  }

  // ---------------------------------------------------------------------------
  // The operations, on addresses and raw memory.
  // ---------------------------------------------------------------------------

  datatype Indexes = Misaligned | At(dir: nat, table: nat)

  /** paging_get_indexes: page number split into directory index and table index. */
  function GetIndexes(virt: Word): (r: Indexes)
    ensures r.Misaligned? <==> virt % PAGE_SIZE != 0
    ensures r.At? ==> r.dir == virt / PAGE_SIZE / 1024 < 1024 && r.table == virt / PAGE_SIZE % 1024
  {
    if virt % PAGE_SIZE != 0 then Misaligned
    else At(virt / TABLE_SPAN, virt % TABLE_SPAN / PAGE_SIZE)
  }

  /** paging_get: a misaligned address leaves both indexes at 0, so the word of page 0 is read. */
  function PagingGet(ram: Ram, directory: Word, virt: Word): Word
    requires directory % PAGE_SIZE == 0
  {
    var at := if GetIndexes(virt).At? then GetIndexes(virt) else At(0, 0);
    LoadIndex(ram, PageBase(LoadIndex(ram, directory, at.dir)), at.table)
  }

  function GetPhysicalAddress(ram: Ram, directory: Word, virt: Word): Word
    requires directory % PAGE_SIZE == 0
  {
    var base := PageBase(virt);
    Wrap(PageBase(PagingGet(ram, directory, base)) + (virt - base))
  }

  lemma AddressOfFrame(b: nat)
    requires b < HEAP_BLOCKS
    ensures AddressOf(b) % PAGE_SIZE == 0 && AddressOf(b) / PAGE_SIZE == HEAP_FRAME + b
  {
  }

  /** Masking a directory word gives the address of the table, since heap blocks are page-aligned. */
  lemma MaskGivesTable(ram: Ram, sp: Space, i: nat)
    requires WellFormed(sp) && Linked(ram, sp) && i < WORDS_PER_PAGE
    ensures AddressOf(sp.dir) % PAGE_SIZE == 0
    ensures PageBase(LoadIndex(ram, AddressOf(sp.dir), i)) == AddressOf(sp.tables[i])
  {
    AddressOfFrame(sp.dir);
    AddressOfFrame(sp.tables[i]);
  }

  /** Reading through directory and table gives the page's word. */
  lemma PagingGetIsPageEntry(ram: Ram, sp: Space, virt: Word)
    requires WellFormed(sp) && Linked(ram, sp)
    ensures AddressOf(sp.dir) % PAGE_SIZE == 0
    ensures PagingGet(ram, AddressOf(sp.dir), virt) ==
            PageEntry(ram, sp, if virt % PAGE_SIZE == 0 then virt / PAGE_SIZE else 0)
  {
    var p := if virt % PAGE_SIZE == 0 then virt / PAGE_SIZE else 0;
    MaskGivesTable(ram, sp, p / 1024);
    AddressOfFrame(sp.tables[p / 1024]);
  }

  /** paging_align_address: up to the next page boundary, on 32 bits. */
  function AlignAddress(a: Word): Word {
    if a % PAGE_SIZE != 0 then Wrap(a + PAGE_SIZE - a % PAGE_SIZE) else a
  }

  /** Where an address goes: the frame of its page's word, and its own offset in the page. */
  function Translate(ram: Ram, sp: Space, v: Word): Word
    requires WellFormed(sp)
  {
    PageBase(PageEntry(ram, sp, v / PAGE_SIZE)) + v % PAGE_SIZE
  }

  lemma GetPhysicalAddressTranslates(ram: Ram, sp: Space, v: Word)
    requires WellFormed(sp) && Linked(ram, sp)
    ensures AddressOf(sp.dir) % PAGE_SIZE == 0
    ensures GetPhysicalAddress(ram, AddressOf(sp.dir), v) == Translate(ram, sp, v)
  {
    PagingGetIsPageEntry(ram, sp, PageBase(v));
  }

  // ---------------------------------------------------------------------------
  // What the processor lets a program reach.
  // ---------------------------------------------------------------------------

  /** The word of the directory that page `p` is reached by. */
  function DirEntry(ram: Ram, sp: Space, p: PageNo): Word
    requires WellFormed(sp)
  {
    ReadWord(ram[HEAP_FRAME + sp.dir], p / 1024)
  }

  /** Present and for the user, and writeable if it is to be written: bits 0, 2 and 1 of a word. */
  predicate Grants(entry: Word, write: bool) {
    HasFlag(entry, 1) && HasFlag(entry, 4) && (write ==> HasFlag(entry, 2))
  }

  /** Where a user program's access to an address goes; none if it faults. Both levels have to grant it: Intel
      Software Developer's Manual, volume 3A, section 4.6. */
  function Access(ram: Ram, sp: Space, v: Word, write: bool): Option<Word>
    requires WellFormed(sp)
  {
    if Grants(DirEntry(ram, sp, v / PAGE_SIZE), write) && Grants(PageEntry(ram, sp, v / PAGE_SIZE), write)
    then Some(Translate(ram, sp, v)) else None
  }

  /** The directory of the space grants everything, so that the tables decide. */
  ghost predicate Open(sp: Space) {
    sp.low < PAGE_SIZE && HasFlag(sp.low, 1) && HasFlag(sp.low, 2) && HasFlag(sp.low, 4)
  }

  lemma DirectoryFlags(ram: Ram, sp: Space, p: PageNo)
    requires WellFormed(sp) && Linked(ram, sp)
    ensures HasFlag(DirEntry(ram, sp, p), 1) == HasFlag(sp.low, 1)
    ensures HasFlag(DirEntry(ram, sp, p), 2) == HasFlag(sp.low, 2)
    ensures HasFlag(DirEntry(ram, sp, p), 4) == HasFlag(sp.low, 4)
  {
    AddressOfFrame(sp.tables[p / 1024]);
    FlagsOfSum(AddressOf(sp.tables[p / 1024]), sp.low);
  }

  /** The words of directory and table decide. */
  lemma SameAccess(ram: Ram, ram': Ram, sp: Space, v: Word, write: bool)
    requires WellFormed(sp) && Linked(ram, sp) && Linked(ram', sp)
    requires PageEntry(ram', sp, v / PAGE_SIZE) == PageEntry(ram, sp, v / PAGE_SIZE)
    ensures DirEntry(ram', sp, v / PAGE_SIZE) == DirEntry(ram, sp, v / PAGE_SIZE)
    ensures Access(ram', sp, v, write) == Access(ram, sp, v, write)
  {
  }

  /** In an open space the word of the page decides. */
  lemma AccessByPage(ram: Ram, sp: Space, v: Word, write: bool)
    requires WellFormed(sp) && Linked(ram, sp) && Open(sp)
    ensures Access(ram, sp, v, write)
            == if Grants(PageEntry(ram, sp, v / PAGE_SIZE), write) then Some(Translate(ram, sp, v)) else None
  {
    DirectoryFlags(ram, sp, v / PAGE_SIZE);
  }

  /** A page whose word is a frame and flags. */
  lemma AccessOfEntry(ram: Ram, sp: Space, v: Word, write: bool, frame: Word, flags: nat)
    requires WellFormed(sp) && Linked(ram, sp) && Open(sp)
    requires frame % PAGE_SIZE == 0 && flags < PAGE_SIZE && PageEntry(ram, sp, v / PAGE_SIZE) == frame + flags
    ensures Access(ram, sp, v, write) == if Grants(flags, write) then Some(frame + v % PAGE_SIZE) else None
  {
    AccessByPage(ram, sp, v, write);
    FlagsOfSum(frame, flags);
    FrameOfEntry(frame, flags);
  }

  method PagingSet(k: Kernel, directory: Word, virt: Word, val: Word, ghost sp: Space) returns (res: int)
    requires WellFormed(sp) && Linked(k.ram, sp) && directory == AddressOf(sp.dir)
    modifies k`ram
    ensures virt % PAGE_SIZE != 0 ==> res == -EINVARG && k.ram == old(k.ram)
    ensures virt % PAGE_SIZE == 0 ==> res == 0 && k.ram == SetEntry(old(k.ram), sp, virt / PAGE_SIZE, val)
  {
    if virt % PAGE_SIZE != 0 {
      return -EINVARG;
    }
    var at := GetIndexes(virt);
    MaskGivesTable(k.ram, sp, at.dir);
    var entry := LoadIndex(k.ram, directory, at.dir);
    var table := PageBase(entry);
    AddressOfFrame(sp.tables[at.dir]);
    k.ram := StoreIndex(k.ram, table, at.table, val);
    res := 0;
  }

  method PagingMap(k: Kernel, chunk: Word, virt: Word, phys: Word, flags: nat, ghost sp: Space) returns (res: int)
    requires WellFormed(sp) && Linked(k.ram, sp) && PointsTo(chunk, sp.chunk) && flags < PAGE_SIZE
    modifies k`ram
    ensures virt % PAGE_SIZE != 0 || phys % PAGE_SIZE != 0 ==> res == -EINVARG && k.ram == old(k.ram)
    ensures virt % PAGE_SIZE == 0 && phys % PAGE_SIZE == 0 ==>
              res == 0 && k.ram == SetEntry(old(k.ram), sp, virt / PAGE_SIZE, phys + flags)
  {
    if virt % PAGE_SIZE != 0 || phys % PAGE_SIZE != 0 {
      return -EINVARG;
    }
    AddressOfFrame(sp.chunk);
    res := PagingSet(k, LoadIndex(k.ram, chunk, 0), virt, phys + flags, sp);
  }

  /** paging_map_range: maps `count` pages one by one; misaligned addresses are refused at the first page.
      The physical range does not wrap, as paging_map_to sees to. */
  method PagingMapRange(k: Kernel, chunk: Word, virt: Word, phys: Word, count: nat, flags: nat, ghost sp: Space)
    returns (res: int)
    requires WellFormed(sp) && Linked(k.ram, sp) && PointsTo(chunk, sp.chunk) && flags < PAGE_SIZE
    requires phys + count * PAGE_SIZE <= ADDRESS_SPACE
    modifies k`ram
    ensures res == if count > 0 && (virt % PAGE_SIZE != 0 || phys % PAGE_SIZE != 0) then -EINVARG else 0
    ensures virt % PAGE_SIZE != 0 || phys % PAGE_SIZE != 0 ==> k.ram == old(k.ram)
    ensures virt % PAGE_SIZE == 0 && phys % PAGE_SIZE == 0 ==> k.ram == MapPages(old(k.ram), sp, virt / PAGE_SIZE, phys, count, flags)
  {
    var v: Word, p: Word := virt, phys;
    ghost var aligned := virt % PAGE_SIZE == 0 && phys % PAGE_SIZE == 0;
    res := 0;
    for i := 0 to count
      invariant res == 0 && Linked(k.ram, sp)
      invariant if aligned then RangeSoFar(old(k.ram), sp, virt, phys, i, count, flags, v, p, k.ram)
                else i == 0 && v == virt && p == phys && k.ram == old(k.ram)
    {
      if aligned {
        RangeNext(old(k.ram), sp, virt, phys, i, count, flags, v, p, k.ram);
      }
      res := PagingMap(k, chunk, v, p, flags, sp);
      if res < 0 {
        break;
      }
      v := Wrap(v + PAGE_SIZE);
      p := Wrap(p + PAGE_SIZE);
    }
  }

  /** The first `i` pages of an aligned range are mapped. */
  ghost predicate RangeSoFar(ram0: Ram, sp: Space, virt: Word, phys: Word, i: nat, count: nat, flags: nat, v: Word, p: Word, ram: Ram)
    requires WellFormed(sp) && flags < PAGE_SIZE && phys % PAGE_SIZE == 0 && phys + count * PAGE_SIZE <= ADDRESS_SPACE
  {
    var soFar := i <= count && AtPages(v, virt / PAGE_SIZE, p, phys, i, count) && ram == MapPages(ram0, sp, virt / PAGE_SIZE, phys, i, flags);
    soFar
  }

  lemma RangeNext(ram0: Ram, sp: Space, virt: Word, phys: Word, i: nat, count: nat, flags: nat, v: Word, p: Word, ram: Ram)
    requires WellFormed(sp) && flags < PAGE_SIZE && phys % PAGE_SIZE == 0 && phys + count * PAGE_SIZE <= ADDRESS_SPACE
    requires RangeSoFar(ram0, sp, virt, phys, i, count, flags, v, p, ram) && i < count && Linked(ram0, sp)
    ensures v % PAGE_SIZE == 0 && p % PAGE_SIZE == 0 && p + flags < ADDRESS_SPACE
    ensures var ram' := SetEntry(ram, sp, v / PAGE_SIZE, p + flags);
            Linked(ram', sp) && RangeSoFar(ram0, sp, virt, phys, i + 1, count, flags, Wrap(v + PAGE_SIZE), Wrap(p + PAGE_SIZE), ram')
  {
    NextPages(v, virt / PAGE_SIZE, p, phys, i, count);
    FrameOfEntry(p, flags);
    MapOneMore(ram0, sp, virt / PAGE_SIZE, phys, i, flags);
  }

  lemma MapOneMore(ram: Ram, sp: Space, page: PageNo, phys: Word, n: nat, flags: nat)
    requires WellFormed(sp) && phys % PAGE_SIZE == 0 && phys + (n + 1) * PAGE_SIZE <= ADDRESS_SPACE && flags < PAGE_SIZE
    ensures var ram' := SetEntry(MapPages(ram, sp, page, phys, n, flags), sp, PageAfter(page, n), phys + n * PAGE_SIZE + flags);
            ram' == MapPages(ram, sp, page, phys, n + 1, flags) && (Linked(ram, sp) ==> Linked(ram', sp))
  {
    MapPagesKeeps(ram, sp, page, phys, n + 1, flags);
  }

  lemma NextPage(v: Word, from: PageNo, i: nat)
    requires v % PAGE_SIZE == 0 && v / PAGE_SIZE == PageAfter(from, i)
    ensures Wrap(v + PAGE_SIZE) % PAGE_SIZE == 0 && Wrap(v + PAGE_SIZE) / PAGE_SIZE == PageAfter(from, i + 1)
  {
  }

  /** Where the loop stands when `i` of `count` pages are mapped. */
  predicate AtPages(v: Word, from: PageNo, p: Word, phys: Word, i: nat, count: nat) {
    var at := v % PAGE_SIZE == 0 && v / PAGE_SIZE == PageAfter(from, i) && (i < count ==> p == phys + i * PAGE_SIZE);
    at
  }

  lemma NextPages(v: Word, from: PageNo, p: Word, phys: Word, i: nat, count: nat)
    requires AtPages(v, from, p, phys, i, count) && i < count
    requires phys % PAGE_SIZE == 0 && phys + count * PAGE_SIZE <= ADDRESS_SPACE
    ensures p % PAGE_SIZE == 0 && v % PAGE_SIZE == 0 && v / PAGE_SIZE == PageAfter(from, i) && p == phys + i * PAGE_SIZE
    ensures AtPages(Wrap(v + PAGE_SIZE), from, Wrap(p + PAGE_SIZE), phys, i + 1, count)
  {
    NextPage(v, from, i);
    AlignedSum(phys, i);
    if i + 1 < count {
      WrapSmall(p + PAGE_SIZE);
    }
  }

  predicate MapArgumentsOk(virt: Word, phys: Word, physEnd: Word) {
    virt % PAGE_SIZE == 0 && phys % PAGE_SIZE == 0 && physEnd % PAGE_SIZE == 0 && phys <= physEnd
  }

  lemma AlignedSum(a: int, n: int)
    requires a % PAGE_SIZE == 0
    ensures (a + n * PAGE_SIZE) % PAGE_SIZE == 0
  {
  }

  lemma AlignedDifference(a: int, b: int)
    requires a % PAGE_SIZE == 0 && b % PAGE_SIZE == 0
    ensures b - a == (b - a) / PAGE_SIZE * PAGE_SIZE
  {
  }

  /** Memory after a successful paging_map_to. */
  ghost function AfterMapTo(ram: Ram, sp: Space, virt: Word, phys: Word, physEnd: Word, flags: nat): Ram
    requires WellFormed(sp) && MapArgumentsOk(virt, phys, physEnd) && flags < PAGE_SIZE
  {
    AlignedDifference(phys, physEnd);
    MapPages(ram, sp, virt / PAGE_SIZE, phys, (physEnd - phys) / PAGE_SIZE, flags)
  }

  lemma AfterMapToKeeps(ram: Ram, sp: Space, virt: Word, phys: Word, physEnd: Word, flags: nat)
    requires WellFormed(sp) && MapArgumentsOk(virt, phys, physEnd) && flags < PAGE_SIZE
    ensures var ram' := AfterMapTo(ram, sp, virt, phys, physEnd, flags);
            OnlyTablesChanged(ram, sp, ram') && (Linked(ram, sp) ==> Linked(ram', sp))
  {
    AlignedDifference(phys, physEnd);
    MapPagesKeeps(ram, sp, virt / PAGE_SIZE, phys, (physEnd - phys) / PAGE_SIZE, flags);
  }

  lemma AfterMapToEffect(ram: Ram, sp: Space, virt: Word, phys: Word, physEnd: Word, flags: nat)
    requires WellFormed(sp) && MapArgumentsOk(virt, phys, physEnd) && flags < PAGE_SIZE
    ensures var ram', n := AfterMapTo(ram, sp, virt, phys, physEnd, flags), (physEnd - phys) / PAGE_SIZE;
            forall q: PageNo :: PageEntry(ram', sp, q) ==
              var d := Dist(virt / PAGE_SIZE, q); if d < n then phys + d * PAGE_SIZE + flags else PageEntry(ram, sp, q)
  {
    AlignedDifference(phys, physEnd);
    MapPagesEffect(ram, sp, virt / PAGE_SIZE, phys, (physEnd - phys) / PAGE_SIZE, flags);
  }

  /** Maps [virt, virt + (physEnd - phys)) to [phys, physEnd); misaligned or reversed bounds
      are refused and change nothing. */
  method PagingMapTo(k: Kernel, chunk: Word, virt: Word, phys: Word, physEnd: Word, flags: nat, ghost sp: Space)
    returns (res: int)
    requires WellFormed(sp) && Linked(k.ram, sp) && PointsTo(chunk, sp.chunk) && flags < PAGE_SIZE
    modifies k`ram
    ensures res == 0 <==> MapArgumentsOk(virt, phys, physEnd)
    ensures res != 0 ==> res == -EINVARG && k.ram == old(k.ram)
    ensures res == 0 ==> k.ram == AfterMapTo(old(k.ram), sp, virt, phys, physEnd, flags)
  {
    if virt % PAGE_SIZE != 0 || phys % PAGE_SIZE != 0 || physEnd % PAGE_SIZE != 0 {
      return -EINVARG;
    }
    if physEnd < phys {
      return -EINVARG;
    }
    res := PagingMapRange(k, chunk, virt, phys, (physEnd - phys) / PAGE_SIZE, flags, sp);
  }

  lemma DistanceInPages(virt: Word, v: Word)
    requires virt % PAGE_SIZE == 0
    ensures Wrap(v - virt) == Dist(virt / PAGE_SIZE, v / PAGE_SIZE) * PAGE_SIZE + v % PAGE_SIZE
  {
    var d := Dist(virt / PAGE_SIZE, v / PAGE_SIZE) * PAGE_SIZE + v % PAGE_SIZE;
    assert 0 <= d < ADDRESS_SPACE;
    assert v - virt == d || v - virt == d - ADDRESS_SPACE;
  }

  lemma FrameOfEntry(frame: Word, flags: nat)
    requires frame % PAGE_SIZE == 0 && flags < PAGE_SIZE
    ensures frame + flags < ADDRESS_SPACE && PageBase(frame + flags) == frame && (frame + flags) % PAGE_SIZE == flags
  {
  }

  /** After a successful mapping every address of the range goes to the address at the same
      distance from `phys`, with the given flags; every other page keeps its word. The range
      may go round at the top of the address space. */
  lemma MapToTranslates(ram: Ram, sp: Space, virt: Word, phys: Word, physEnd: Word, flags: nat, v: Word)
    requires WellFormed(sp) && MapArgumentsOk(virt, phys, physEnd) && flags < PAGE_SIZE
    ensures var ram' := AfterMapTo(ram, sp, virt, phys, physEnd, flags);
            if Wrap(v - virt) < physEnd - phys
            then Translate(ram', sp, v) == phys + Wrap(v - virt) && PageEntry(ram', sp, v / PAGE_SIZE) % PAGE_SIZE == flags
            else PageEntry(ram', sp, v / PAGE_SIZE) == PageEntry(ram, sp, v / PAGE_SIZE)
  {
    var n := (physEnd - phys) / PAGE_SIZE;
    MapPagesEffect(ram, sp, virt / PAGE_SIZE, phys, n, flags);
    var d := Dist(virt / PAGE_SIZE, v / PAGE_SIZE);
    DistanceInPages(virt, v);
    assert physEnd - phys == n * PAGE_SIZE by { AlignedDifference(phys, physEnd); }
    assert d < n <==> Wrap(v - virt) < physEnd - phys;
    if d < n {
      AlignedSum(phys, d);
      FrameOfEntry(phys + d * PAGE_SIZE, flags);
    }
  }

  // ---------------------------------------------------------------------------
  // Creating and freeing address spaces.
  // ---------------------------------------------------------------------------

  /** `x | PAGING_IS_WRITEABLE` for a flag byte. */
  function OrWriteable(flags: nat): nat {
    if flags / 2 % 2 == 1 then flags else flags + 2
  }

  ghost function OneBlockRuns(bs: set<nat>): Runs {
    map b | b in bs :: 1
  }

  /** The `i`-th table of an identity map. */
  ghost predicate IdentityTable(p: Page, i: nat, flags: nat)
    requires i < WORDS_PER_PAGE
  {
    forall b :: 0 <= b < WORDS_PER_PAGE ==> ReadWord(p, b) == (i * 1024 + b) * PAGE_SIZE + flags
  }

  /** A new space: 1026 fresh one-block runs, linked, every page mapped to itself; no other
      page of memory changed. */
  ghost predicate Created(runs: Runs, ram: Ram, sp: Space, flags: nat, runs': Runs, ram': Ram) {
    && WellFormed(sp) && sp.low == OrWriteable(flags) && Linked(ram', sp)
    && (forall b :: b in Blocks(sp) ==> b !in runs)
    && runs' == runs + OneBlockRuns(Blocks(sp))
    && (forall i :: 0 <= i < WORDS_PER_PAGE ==> IdentityTable(ram'[HEAP_FRAME + sp.tables[i]], i, flags))
    && (forall f :: 0 <= f < TOTAL_FRAMES && f - HEAP_FRAME !in Blocks(sp) ==> ram'[f] == ram[f])
  }

  /** Fills one table so that it maps its 4 MB to themselves. */
  method FillTable(k: Kernel, table: Word, i: nat, offset: Word, flags: nat)
    requires table % PAGE_SIZE == 0 && i < WORDS_PER_PAGE && offset == i * TABLE_SPAN && flags < 256
    modifies k`ram
    ensures k.ram == old(k.ram)[table / PAGE_SIZE := k.ram[table / PAGE_SIZE]]
    ensures IdentityTable(k.ram[table / PAGE_SIZE], i, flags)
  {
    var f := table / PAGE_SIZE;
    for b := 0 to WORDS_PER_PAGE
      invariant k.ram == old(k.ram)[f := k.ram[f]]
      invariant forall c :: 0 <= c < b ==> ReadWord(k.ram[f], c) == (i * 1024 + c) * PAGE_SIZE + flags
    {
      k.ram := StoreIndex(k.ram, table, b, offset + b * PAGE_SIZE + flags);
    }
  }

  ghost function Used(dir: nat, tables: seq<nat>): set<nat> {
    (set b | b in tables) + {dir}
  }

  ghost predicate DistinctBlocks(dir: nat, tables: seq<nat>) {
    var distinct :=
      && dir < HEAP_BLOCKS
      && (forall i :: 0 <= i < |tables| ==> tables[i] < HEAP_BLOCKS && tables[i] != dir)
      && (forall i, j :: 0 <= i < j < |tables| ==> tables[i] != tables[j]);
    distinct
  }

  /** The one-block runs taken so far. */
  ghost predicate Taken(runs: Runs, used: set<nat>, runs': Runs) {
    var taken := (forall b :: b in used ==> b !in runs) && runs' == runs + OneBlockRuns(used);
    taken
  }

  /** The tables filled and entered in the directory so far. */
  ghost predicate Filled(ram: Ram, dir: nat, tables: seq<nat>, flags: nat, ram': Ram)
    requires DistinctBlocks(dir, tables) && |tables| <= WORDS_PER_PAGE && flags < 256
  {
    var filled :=
      && (forall i :: 0 <= i < |tables| ==> IdentityTable(ram'[HEAP_FRAME + tables[i]], i, flags))
      && (forall i :: 0 <= i < |tables| ==>
            ReadWord(ram'[HEAP_FRAME + dir], i) == AddressOf(tables[i]) + OrWriteable(flags))
      && (forall f :: 0 <= f < TOTAL_FRAMES && f - HEAP_FRAME !in Used(dir, tables) ==> ram'[f] == ram[f]);
    filled
  }

  lemma TakeOneMore(runs: Runs, used: set<nat>, runs': Runs, t: nat)
    requires Taken(runs, used, runs') && t !in runs'
    ensures t !in used && Taken(runs, used + {t}, runs'[t := 1])
  {
    assert OneBlockRuns(used + {t}) == OneBlockRuns(used)[t := 1];
  }

  /** What lies in no run now lay in none before. */
  lemma UncoveredBefore(before: Runs, used: set<nat>, runs: Runs, b: nat)
    requires Taken(before, used, runs) && Uncovered(runs, b)
    ensures Uncovered(before, b) && b !in used
  {
    assert forall s: nat :: Covers(before, s, b) ==> Covers(runs, s, b);
    assert b in used ==> Covers(runs, b, b);
  }

  /** Taking runs twice is taking them all. */
  lemma TakenBoth(runs: Runs, used: set<nat>, runs': Runs, more: set<nat>, runs'': Runs)
    requires Taken(runs, used, runs') && Taken(runs', more, runs'')
    ensures used !! more && Taken(runs, used + more, runs'')
  {
    forall b | b in more ensures b !in used && b !in runs {
      AddedKeys(runs, used);
    }
    OneBlockBoth(runs, used, more);
  }

  lemma OneBlockBoth(runs: Runs, used: set<nat>, more: set<nat>)
    ensures runs + OneBlockRuns(used) + OneBlockRuns(more) == runs + OneBlockRuns(used + more)
  {
  }

  lemma TakeTable(runs: Runs, dir: nat, tables: seq<nat>, runs': Runs, t: nat)
    requires Taken(runs, Used(dir, tables), runs') && t !in runs'
    ensures t !in Used(dir, tables) && Taken(runs, Used(dir, tables + [t]), runs'[t := 1])
  {
    TakeOneMore(runs, Used(dir, tables), runs', t);
    assert Used(dir, tables + [t]) == Used(dir, tables) + {t};
  }

  lemma UsedGrows(dir: nat, tables: seq<nat>, t: nat)
    requires DistinctBlocks(dir, tables) && t < HEAP_BLOCKS && t !in Used(dir, tables)
    ensures DistinctBlocks(dir, tables + [t]) && Used(dir, tables + [t]) == Used(dir, tables) + {t}
    ensures t != dir && forall i :: 0 <= i < |tables| ==> tables[i] != t
  {
    forall i | 0 <= i < |tables| ensures tables[i] != t {
      assert tables[i] in Used(dir, tables);
    }
    assert dir in Used(dir, tables);
  }

  /** One more table: filled, then entered in the directory. */
  lemma FillOneMore(ram: Ram, dir: nat, tables: seq<nat>, flags: nat, ram': Ram, t: nat, filled: Ram)
    requires |tables| < WORDS_PER_PAGE && flags < 256
    requires DistinctBlocks(dir, tables) && t < HEAP_BLOCKS && t !in Used(dir, tables)
    requires Filled(ram, dir, tables, flags, ram')
    requires filled == ram'[HEAP_FRAME + t := filled[HEAP_FRAME + t]]
    requires IdentityTable(filled[HEAP_FRAME + t], |tables|, flags)
    ensures DistinctBlocks(dir, tables + [t])
    ensures var entered := filled[HEAP_FRAME + dir :=
                             WriteWord(filled[HEAP_FRAME + dir], |tables|, AddressOf(t) + OrWriteable(flags))];
            Filled(ram, dir, tables + [t], flags, entered)
  {
    UsedGrows(dir, tables, t);
    var entered := filled[HEAP_FRAME + dir := WriteWord(filled[HEAP_FRAME + dir], |tables|, AddressOf(t) + OrWriteable(flags))];
    forall i | 0 <= i <= |tables|
      ensures IdentityTable(entered[HEAP_FRAME + (tables + [t])[i]], i, flags)
      ensures ReadWord(entered[HEAP_FRAME + dir], i) == AddressOf((tables + [t])[i]) + OrWriteable(flags)
    {
    }
    OthersStay(ram, dir, tables, flags, ram', t, entered);
  }

  lemma OthersStay(ram: Ram, dir: nat, tables: seq<nat>, flags: nat, ram': Ram, t: nat, entered: Ram)
    requires DistinctBlocks(dir, tables) && |tables| <= WORDS_PER_PAGE && flags < 256 && t < HEAP_BLOCKS
    requires Filled(ram, dir, tables, flags, ram') && Used(dir, tables + [t]) == Used(dir, tables) + {t}
    requires entered == ram'[HEAP_FRAME + t := entered[HEAP_FRAME + t]][HEAP_FRAME + dir := entered[HEAP_FRAME + dir]]
    ensures forall f :: 0 <= f < TOTAL_FRAMES && f - HEAP_FRAME !in Used(dir, tables + [t]) ==> entered[f] == ram[f]
  {
    assert dir in Used(dir, tables);
  }

  /** The finished structure: all tables filled, and the chunk pointing to the directory. */
  lemma FilledIsCreated(runs: Runs, ram: Ram, sp: Space, flags: nat, built: Ram, runs': Runs, ram': Ram)
    requires |sp.tables| == WORDS_PER_PAGE && flags < 256 && sp.low == OrWriteable(flags)
    requires DistinctBlocks(sp.dir, sp.tables) && sp.chunk < HEAP_BLOCKS && sp.chunk !in Used(sp.dir, sp.tables)
    requires Taken(runs, Used(sp.dir, sp.tables) + {sp.chunk}, runs')
    requires Filled(ram, sp.dir, sp.tables, flags, built)
    requires ram' == built[HEAP_FRAME + sp.chunk := ram'[HEAP_FRAME + sp.chunk]]
    requires ReadWord(ram'[HEAP_FRAME + sp.chunk], 0) == AddressOf(sp.dir)
    ensures Created(runs, ram, sp, flags, runs', ram')
  {
    assert Blocks(sp) == Used(sp.dir, sp.tables) + {sp.chunk};
    forall i | 0 <= i < WORDS_PER_PAGE ensures sp.tables[i] != sp.chunk {
      assert sp.tables[i] in Used(sp.dir, sp.tables);
    }
    assert sp.dir in Used(sp.dir, sp.tables);
  }

  /** Allocates a zeroed block for at most a page. */
  method NewBlock(k: Kernel, size: Word) returns (ptr: Word, ghost b: nat)
    requires k.Valid() && 1 <= size <= PAGE_SIZE && k.FreeCount() >= 1
    modifies k`ram, k.heap`runs, k.heap.entries
    ensures k.Valid() && k.FreeCount() == old(k.FreeCount()) - 1
    ensures PointsTo(ptr, b) && ptr % PAGE_SIZE == 0 && ptr / PAGE_SIZE == HEAP_FRAME + b
    ensures b !in old(k.Runs()) && k.Runs() == old(k.Runs())[b := 1]
    ensures k.ram == old(k.ram)[HEAP_FRAME + b := k.ram[HEAP_FRAME + b]]
  {
    OnePage(k.Table(), size);
    ptr, b := k.Kzalloc(size);
    ClearedOutside(old(k.ram), k.ram, b, size);
    AddressOfFrame(b);
  }

  /** A new table that maps its 4 MB to themselves. */
  method NewTable(k: Kernel, i: nat, offset: Word, flags: nat) returns (entry: Word, ghost t: nat)
    requires k.Valid() && flags < 256 && k.FreeCount() >= 1 && i < WORDS_PER_PAGE && IsOffset(i, offset)
    modifies k`ram, k.heap`runs, k.heap.entries
    ensures k.Valid() && k.FreeCount() == old(k.FreeCount()) - 1
    ensures PointsTo(entry, t) && t !in old(k.Runs()) && k.Runs() == old(k.Runs())[t := 1]
    ensures k.ram == old(k.ram)[HEAP_FRAME + t := k.ram[HEAP_FRAME + t]] && IdentityTable(k.ram[HEAP_FRAME + t], i, flags)
  {
    entry, t := NewBlock(k, PAGE_SIZE);
    FillTable(k, entry, i, offset, flags);
  }

  /** One turn of the loop of paging_new_4gb: allocates a table, fills it, enters it in the directory. */
  method AddTable(k: Kernel, directory: Word, i: nat, offset: Word, flags: nat,
                  ghost dir: nat, ghost tables: seq<nat>, ghost runs: Runs, ghost ram: Ram)
    returns (ghost t: nat)
    requires k.Valid() && flags < 256 && k.FreeCount() >= 1
    requires i == |tables| < WORDS_PER_PAGE && IsOffset(i, offset)
    requires directory % PAGE_SIZE == 0 && directory / PAGE_SIZE == HEAP_FRAME + dir
    requires DistinctBlocks(dir, tables) && Taken(runs, Used(dir, tables), k.Runs())
    requires Filled(ram, dir, tables, flags, k.ram)
    modifies k`ram, k.heap`runs, k.heap.entries
    ensures k.Valid() && k.FreeCount() == old(k.FreeCount()) - 1
    ensures DistinctBlocks(dir, tables + [t]) && Taken(runs, Used(dir, tables + [t]), k.Runs())
    ensures Filled(ram, dir, tables + [t], flags, k.ram)
  {
    ghost var before, held := k.ram, k.Runs();
    var entry: Word;
    entry, t := NewTable(k, i, offset, flags);
    TakeTable(runs, dir, tables, held, t);
    FillOneMore(ram, dir, tables, flags, before, t, k.ram);
    k.ram := StoreIndex(k.ram, directory, i, entry + OrWriteable(flags));
  }

  /** Before the first table. */
  lemma NoTableYet(runs: Runs, ram: Ram, dir: nat, flags: nat, ram': Ram)
    requires dir !in runs && dir < HEAP_BLOCKS && flags < 256 && ram' == ram[HEAP_FRAME + dir := ram'[HEAP_FRAME + dir]]
    ensures DistinctBlocks(dir, []) && Taken(runs, Used(dir, []), runs[dir := 1]) && Filled(ram, dir, [], flags, ram')
  {
    TakeOneMore(runs, {}, runs, dir);
    assert Used(dir, []) == {} + {dir};
  }

  /** The offset of table `i`; behind the last table it has wrapped. */
  predicate IsOffset(i: nat, offset: Word) {
    i < WORDS_PER_PAGE ==> offset == i * TABLE_SPAN
  }

  lemma NextOffset(i: nat, offset: Word)
    requires IsOffset(i, offset) && i < WORDS_PER_PAGE
    ensures IsOffset(i + 1, Wrap(offset + TABLE_SPAN))
  {
  }

  /** The directory of paging_new_4gb with its 1024 tables. */
  method NewDirectory(k: Kernel, flags: nat) returns (directory: Word, ghost dir: nat, ghost tables: seq<nat>)
    requires k.Valid() && flags < 256 && k.FreeCount() >= 1025
    modifies k`ram, k.heap`runs, k.heap.entries
    ensures k.Valid() && k.FreeCount() == old(k.FreeCount()) - 1025
    ensures |tables| == WORDS_PER_PAGE && PointsTo(directory, dir)
    ensures DistinctBlocks(dir, tables) && Taken(old(k.Runs()), Used(dir, tables), k.Runs())
    ensures Filled(old(k.ram), dir, tables, flags, k.ram)
  {
    ghost var runs, ram := k.Runs(), k.ram;
    directory, dir := NewBlock(k, PAGE_SIZE);
    tables := [];
    NoTableYet(runs, ram, dir, flags, k.ram);
    var offset: Word := 0;
    for i := 0 to WORDS_PER_PAGE
      invariant k.Valid() && k.FreeCount() == old(k.FreeCount()) - 1 - i
      invariant |tables| == i && IsOffset(i, offset)
      invariant DistinctBlocks(dir, tables) && Taken(runs, Used(dir, tables), k.Runs())
      invariant Filled(ram, dir, tables, flags, k.ram)
    {
      ghost var t := AddTable(k, directory, i, offset, flags, dir, tables, runs, ram);
      tables := tables + [t];
      NextOffset(i, offset);
      offset := Wrap(offset + TABLE_SPAN);
    }
  }

  /** The chunk of paging_new_4gb, which points to the directory. */
  method NewChunk(k: Kernel, directory: Word) returns (chunk: Word, ghost c: nat)
    requires k.Valid() && k.FreeCount() >= 1
    modifies k`ram, k.heap`runs, k.heap.entries
    ensures k.Valid() && k.FreeCount() == old(k.FreeCount()) - 1
    ensures PointsTo(chunk, c) && c !in old(k.Runs()) && k.Runs() == old(k.Runs())[c := 1]
    ensures k.ram == old(k.ram)[HEAP_FRAME + c := k.ram[HEAP_FRAME + c]] && ReadWord(k.ram[HEAP_FRAME + c], 0) == directory
  {
    chunk, c := NewBlock(k, 4);
    k.ram := StoreIndex(k.ram, chunk, 0, directory);
  }

  /** paging_new_4gb: an address space in which every page maps to itself. The code does not
      check its allocations, so 1026 blocks must be free. */
  method PagingNew4gb(k: Kernel, flags: nat) returns (chunk: Word, ghost sp: Space)
    requires k.Valid() && flags < 256 && k.FreeCount() >= 1026
    modifies k`ram, k.heap`runs, k.heap.entries
    ensures k.Valid() && k.FreeCount() == old(k.FreeCount()) - 1026
    ensures Created(old(k.Runs()), old(k.ram), sp, flags, k.Runs(), k.ram)
    ensures PointsTo(chunk, sp.chunk)
  {
    var directory, dir, tables := NewDirectory(k, flags);
    ghost var built, held := k.ram, k.Runs();
    ghost var c: nat;
    chunk, c := NewChunk(k, directory);
    TakeOneMore(old(k.Runs()), Used(dir, tables), held, c);
    sp := Space(c, dir, tables, OrWriteable(flags));
    FilledIsCreated(old(k.Runs()), old(k.ram), sp, flags, built, k.Runs(), k.ram);
  }

  /** In a new space every address translates to itself, with the given flags. */
  lemma NewSpaceIsIdentity(runs: Runs, ram: Ram, sp: Space, flags: nat, runs': Runs, ram': Ram, v: Word)
    requires Created(runs, ram, sp, flags, runs', ram') && flags < 256
    ensures PageEntry(ram', sp, v / PAGE_SIZE) == PageBase(v) + flags && Translate(ram', sp, v) == v
  {
    var p := v / PAGE_SIZE;
    assert IdentityTable(ram'[HEAP_FRAME + sp.tables[p / 1024]], p / 1024, flags);
    assert p / 1024 * 1024 + p % 1024 == p;
    FrameOfEntry(PageBase(v), flags);
  }

  lemma OrIsWriteable(flags: nat)
    requires flags < 256
    ensures OrWriteable(flags) < 256 && HasFlag(OrWriteable(flags), 2)
    ensures HasFlag(OrWriteable(flags), 1) == HasFlag(flags, 1) && HasFlag(OrWriteable(flags), 4) == HasFlag(flags, 4)
  {
    if flags / 2 % 2 == 0 {
      var q := flags / 4;
      assert flags == 4 * q + flags % 4 && flags % 4 < 2 && (flags + 2) / 4 == q && (flags + 2) / 2 == 2 * q + 1;
    }
  }

  /** Every word of a new directory is writeable, and present and for the user as the flags say. */
  lemma NewDirectoryFlags(runs: Runs, ram: Ram, sp: Space, flags: nat, runs': Runs, ram': Ram, p: PageNo)
    requires Created(runs, ram, sp, flags, runs', ram') && flags < 256
    ensures HasFlag(DirEntry(ram', sp, p), 2)
    ensures HasFlag(DirEntry(ram', sp, p), 1) == HasFlag(flags, 1) && HasFlag(DirEntry(ram', sp, p), 4) == HasFlag(flags, 4)
    ensures HasFlag(flags, 1) && HasFlag(flags, 4) ==> Open(sp)
  {
    DirectoryFlags(ram', sp, p);
    OrIsWriteable(flags);
  }

  /** What a program may reach in a new space: every address, itself, as the flags say. */
  lemma NewSpaceAccess(runs: Runs, ram: Ram, sp: Space, flags: nat, runs': Runs, ram': Ram, v: Word, write: bool)
    requires Created(runs, ram, sp, flags, runs', ram') && flags < 256
    ensures Access(ram', sp, v, write) == if Grants(flags, write) then Some(v) else None
  {
    NewDirectoryFlags(runs, ram, sp, flags, runs', ram', v / PAGE_SIZE);
    assert Translate(ram', sp, v) == v && Grants(PageEntry(ram', sp, v / PAGE_SIZE), write) == Grants(flags, write) by {
      NewSpaceIsIdentity(runs, ram, sp, flags, runs', ram', v);
      FlagsOfSum(PageBase(v), flags);
    }
  }

  lemma CreatedIsOwned(runs: Runs, ram: Ram, sp: Space, flags: nat, runs': Runs, ram': Ram)
    requires Created(runs, ram, sp, flags, runs', ram')
    ensures WellFormed(sp) && Linked(ram', sp) && Owns(runs', sp)
  {
  }

  ghost function TableSet(sp: Space, n: nat): set<nat>
    requires n <= |sp.tables|
  {
    set b | b in sp.tables[..n]
  }

  /** kfree of one block more. */
  method GiveBack(k: Kernel, ptr: Word, ghost b: nat, ghost runs: Runs, ghost freed: set<nat>)
    requires k.Valid() && PointsTo(ptr, b) && k.Runs() == runs - freed
    requires b in runs && b !in freed && runs[b] == 1
    modifies k.heap`runs, k.heap.entries
    ensures k.Valid() && k.Runs() == runs - (freed + {b}) && k.FreeCount() == old(k.FreeCount()) + 1
  {
    IsNoNull(ptr, b);
    k.Kfree(ptr, b);
    RemoveOneMore(runs, freed, b);
  }

  lemma IsNoNull(ptr: Word, b: nat)
    requires PointsTo(ptr, b)
    ensures ptr != 0
  {
  }

  /** One turn of the loop of paging_free_4gb. */
  method FreeTable(k: Kernel, directory: Word, i: nat, ghost sp: Space, ghost runs: Runs)
    requires k.Valid() && WellFormed(sp) && Linked(k.ram, sp) && Owns(runs, sp) && PointsTo(directory, sp.dir)
    requires i < WORDS_PER_PAGE && k.Runs() == runs - TableSet(sp, i)
    modifies k.heap`runs, k.heap.entries
    ensures k.Valid() && k.Runs() == runs - TableSet(sp, i + 1) && k.FreeCount() == old(k.FreeCount()) + 1
  {
    AddressOfFrame(sp.dir);
    BlocksSplit(sp);
    TableSetGrows(sp, i);
    MaskGivesTable(k.ram, sp, i);
    var entry := LoadIndex(k.ram, directory, i);
    GiveBack(k, PageBase(entry), sp.tables[i], runs, TableSet(sp, i));
  }

  /** The first `n` tables of the space have been given back. */
  ghost predicate TablesGone(k: Kernel, sp: Space, runs: Runs, count: nat, n: nat)
    requires n <= |sp.tables|
    reads k, k.heap, k.heap.entries
  {
    var gone := k.Valid() && k.Runs() == runs - TableSet(sp, n) && k.FreeCount() == count + n;
    gone
  }

  /** paging_free_4gb: gives back the tables, the directory and the chunk. */
  method PagingFree4gb(k: Kernel, chunk: Word, ghost sp: Space)
    requires k.Valid() && WellFormed(sp) && Linked(k.ram, sp) && Owns(k.Runs(), sp) && PointsTo(chunk, sp.chunk)
    modifies k.heap`runs, k.heap.entries
    ensures k.Valid() && k.Runs() == old(k.Runs()) - Blocks(sp)
    ensures k.FreeCount() == old(k.FreeCount()) + 1026
  {
    ghost var runs, count := k.Runs(), k.FreeCount();
    AddressOfFrame(sp.chunk);
    var directory := LoadIndex(k.ram, chunk, 0);
    BlocksSplit(sp);
    for i := 0 to WORDS_PER_PAGE
      invariant TablesGone(k, sp, runs, count, i)
    {
      FreeTable(k, directory, i, sp, runs);
    }
    GiveBack(k, directory, sp.dir, runs, TableSet(sp, WORDS_PER_PAGE));
    GiveBack(k, chunk, sp.chunk, runs, TableSet(sp, WORDS_PER_PAGE) + {sp.dir});
  }

  lemma RemoveOneMore(runs: Runs, bs: set<nat>, b: nat)
    ensures runs - bs - {b} == runs - (bs + {b})
  {
  }

  lemma BlocksSplit(sp: Space)
    requires WellFormed(sp)
    ensures TableSet(sp, 0) == {}
    ensures Blocks(sp) == TableSet(sp, WORDS_PER_PAGE) + {sp.dir} + {sp.chunk}
    ensures sp.dir !in TableSet(sp, WORDS_PER_PAGE) && sp.chunk !in TableSet(sp, WORDS_PER_PAGE)
    ensures forall i :: 0 <= i < WORDS_PER_PAGE ==> sp.tables[i] in Blocks(sp)
  {
    assert sp.tables[..WORDS_PER_PAGE] == sp.tables;
  }

  lemma TableSetGrows(sp: Space, i: nat)
    requires WellFormed(sp) && i < WORDS_PER_PAGE
    ensures TableSet(sp, i + 1) == TableSet(sp, i) + {sp.tables[i]}
    ensures sp.tables[i] !in TableSet(sp, i)
  {
    assert sp.tables[..i + 1] == sp.tables[..i] + [sp.tables[i]];
    forall j | 0 <= j < i ensures sp.tables[j] != sp.tables[i] {
    }
  }

  lemma {:induction false} TableSetSize(sp: Space, n: nat)
    requires WellFormed(sp) && n <= WORDS_PER_PAGE
    ensures |TableSet(sp, n)| == n
  {
    if n > 0 {
      TableSetSize(sp, n - 1);
      TableSetGrows(sp, n - 1);
    }
  }

  /** Freeing a space gives back exactly what creating it took: 1026 blocks, no more and no less. */
  lemma NewThenFree(runs: Runs, ram: Ram, sp: Space, flags: nat, runs': Runs, ram': Ram)
    requires Created(runs, ram, sp, flags, runs', ram')
    ensures |Blocks(sp)| == 1026 && |runs'| == |runs| + 1026
    ensures runs' - Blocks(sp) == runs
  {
    TableSetSize(sp, WORDS_PER_PAGE);
    BlocksSplit(sp);
    AddThenRemove(runs, Blocks(sp));
  }

  lemma AddThenRemove(runs: Runs, bs: set<nat>)
    requires forall b :: b in bs ==> b !in runs
    ensures runs + OneBlockRuns(bs) - bs == runs && |runs + OneBlockRuns(bs)| == |runs| + |bs|
  {
    AddedKeys(runs, bs);
    assert |(runs + OneBlockRuns(bs)).Keys| == |runs.Keys + bs|;
  }

  lemma AddedKeys(runs: Runs, bs: set<nat>)
    ensures (runs + OneBlockRuns(bs)).Keys == runs.Keys + bs
  {
  }

  /** No page of the space changed. */
  ghost predicate Untouched(ram: Ram, sp: Space, ram': Ram) {
    forall b :: b in Blocks(sp) && b < HEAP_BLOCKS ==> ram'[HEAP_FRAME + b] == ram[HEAP_FRAME + b]
  }

  lemma UntouchedKeeps(ram: Ram, sp: Space, ram': Ram)
    requires WellFormed(sp) && Untouched(ram, sp, ram')
    ensures Linked(ram, sp) ==> Linked(ram', sp)
    ensures forall p: PageNo :: PageEntry(ram', sp, p) == PageEntry(ram, sp, p)
  {
    BlocksSplit(sp);
    forall p: PageNo ensures PageEntry(ram', sp, p) == PageEntry(ram, sp, p) {
      assert sp.tables[p / 1024] in Blocks(sp);
    }
  }

  /** Allocating elsewhere changes no page of a space: a fresh run overlaps no live one. */
  lemma AllocatedElsewhere(runs: Runs, ram: Ram, runs': Runs, ram': Ram, block: nat, size: Word, sp: Space)
    requires Allocated(runs, ram, runs', ram', block, size) && 1 <= size
    requires Owns(runs, sp) && DisjointRuns(runs', HEAP_BLOCKS)
    ensures Owns(runs', sp) && Untouched(ram, sp, ram')
  {
    ClearedOutside(ram, ram', block, size);
    forall b | b in Blocks(sp) && b < HEAP_BLOCKS ensures ram'[HEAP_FRAME + b] == ram[HEAP_FRAME + b] {
      assert b in runs' && block in runs';
    }
  }
}
