/** The arguments as the program finds them: what it reads through its own page tables. */
module ProgramArguments {
  import opened Memory
  import opened Heaps
  import opened Kheap
  import opened Paging
  import opened Strings
  import opened CopyStrings
  import opened Processes
  import opened ProcessRuns
  import opened ProcessPages
  import opened Arguments
  import opened Wrappers

  /** The byte a program reads at `v`; none if the access faults. */
  function ByteRead(ram: Ram, sp: Space, v: Word): Option<Byte>
    requires WellFormed(sp)
  {
    match Access(ram, sp, v, false)
    case None => None
    case Some(a) => Some(LoadByte(ram, a))
  }

  /** From `v` on a program reads the bytes `s`. */
  ghost predicate Reads(ram: Ram, sp: Space, v: nat, s: seq<Byte>)
    requires WellFormed(sp)
  {
    var all := v + |s| <= ADDRESS_SPACE && forall j :: 0 <= j < |s| ==> ByteRead(ram, sp, v + j) == Some(s[j]);
    all
  }

  /** Block `b` of the heap is mapped to itself, for the program to read and to write. */
  ghost predicate Mapped(ram: Ram, sp: Space, b: nat) {
    var mapped :=
      && WellFormed(sp) && Linked(ram, sp) && Open(sp) && b < HEAP_BLOCKS
      && PageEntry(ram, sp, HEAP_FRAME + b) == (HEAP_FRAME + b) * PAGE_SIZE + USER_FLAGS;
    mapped
  }

  /** A block outside `base` lies in a live slot, so its page is mapped. */
  lemma OwnBlockIsMapped(im: Image, base: Runs, sp: Space, s: nat, b: nat)
    requires Consistent(im, base, sp) && Open(sp) && OwnBlock(im.runs, base, s, b)
    ensures Mapped(im.ram, sp, b)
  {
    var i :| Live(im.slots, i) && BlockAt(im.slots[i].ptr) == s;
    assert SlotIsRun(im.runs, base, im.slots[i]);
    assert InAllocation(im.slots[i], HEAP_FRAME + b);
  }

  lemma MappedAccess(ram: Ram, sp: Space, b: nat, v: Word, write: bool)
    requires Mapped(ram, sp, b) && v / PAGE_SIZE == HEAP_FRAME + b
    ensures Access(ram, sp, v, write) == Some(v)
  {
    AccessOfWord(ram, ram, sp, v, write, true, false);
  }

  /** Bytes of a mapped block, read from address `v` on. */
  lemma BlockReads(ram: Ram, sp: Space, b: nat, v: Word, s: seq<Byte>)
    requires Mapped(ram, sp, b) && v / PAGE_SIZE == HEAP_FRAME + b && InFrame(ram[HEAP_FRAME + b], v % PAGE_SIZE, s)
    ensures Reads(ram, sp, v, s)
  {
    PageEnds(v, |s|);
    forall j | 0 <= j < |s| ensures ByteRead(ram, sp, v + j) == Some(s[j]) {
      SamePage(v, j);
      MappedAccess(ram, sp, b, v + j, false);
    }
  }

  lemma PageEnds(v: Word, n: nat)
    requires v % PAGE_SIZE + n <= PAGE_SIZE
    ensures v + n <= ADDRESS_SPACE
  {
  }

  /** The bytes `s` stand in the page from `o` on. */
  ghost predicate InFrame(p: Page, o: nat, s: seq<Byte>) {
    var stands := o + |s| <= PAGE_SIZE && forall j :: 0 <= j < |s| ==> p[o + j] == s[j];
    stands
  }

  lemma SamePage(v: Word, j: nat)
    requires v % PAGE_SIZE + j < PAGE_SIZE
    ensures v + j < ADDRESS_SPACE && (v + j) / PAGE_SIZE == v / PAGE_SIZE && (v + j) % PAGE_SIZE == v % PAGE_SIZE + j
  {
  }

  /** The bytes of a word of a page. */
  lemma WordBytes(p: Page, i: nat)
    requires i < WORDS_PER_PAGE
    ensures InFrame(p, 4 * i, ToBytes(ReadWord(p, i), 4))
  {
    NumberRoundTrip(p[4 * i..4 * i + 4]);
  }

  /** Where slot `i` of the vector lies. */
  lemma SlotAddress(argv: Word, vector: nat, i: nat)
    requires PointsTo(argv, vector) && vector + i / 1024 < HEAP_BLOCKS
    ensures var v := argv + 4 * i;
            v < ADDRESS_SPACE && v / PAGE_SIZE == HEAP_FRAME + vector + i / 1024 && v % PAGE_SIZE == 4 * (i % 1024)
  {
    AddressOfFrame(vector);
    InPage(argv + i / 1024 * PAGE_SIZE, 4 * (i % 1024));
  }

  /** At `v` a program reads a pointer, and where it points `s` and a NUL. */
  ghost predicate PointerTo(ram: Ram, sp: Space, v: nat, s: seq<Byte>)
    requires WellFormed(sp)
  {
    exists arg: Word :: Reads(ram, sp, v, ToBytes(arg, 4)) && Reads(ram, sp, arg, s + [0])
  }

  lemma SlotIsSeen(ram: Ram, sp: Space, argv: Word, vector: nat, i: nat, arg: Word)
    requires PointsTo(argv, vector) && Mapped(ram, sp, vector + i / 1024)
    requires ReadWord(ram[HEAP_FRAME + vector + i / 1024], i % 1024) == arg
    ensures Reads(ram, sp, argv + 4 * i, ToBytes(arg, 4))
  {
    SlotAddress(argv, vector, i);
    WordBytes(ram[HEAP_FRAME + vector + i / 1024], i % 1024);
    BlockReads(ram, sp, vector + i / 1024, argv + 4 * i, ToBytes(arg, 4));
  }

  lemma StringIsSeen(ram: Ram, sp: Space, b: nat, s: seq<Byte>)
    requires Mapped(ram, sp, b) && Holds(ram[HEAP_FRAME + b], s)
    ensures Reads(ram, sp, AddressOf(b), s + [0])
  {
    AddressOfFrame(b);
    HeldBytes(ram[HEAP_FRAME + b], s);
    BlockReads(ram, sp, b, AddressOf(b), s + [0]);
  }

  lemma ArgumentIsSeen(im: Image, base: Runs, sp: Space, argv: Word, i: nat, s: seq<Byte>)
    requires Consistent(im, base, sp) && Open(sp) && ArgumentIs(im, base, argv, i, s)
    ensures PointerTo(im.ram, sp, argv + 4 * i, s)
  {
    var vector: nat, b: nat :|
      && PointsTo(argv, vector) && OwnBlock(im.runs, base, vector, vector + i / 1024)
      && OwnBlock(im.runs, base, b, b) && vector + i / 1024 < HEAP_BLOCKS && b < HEAP_BLOCKS
      && ReadWord(im.ram[HEAP_FRAME + vector + i / 1024], i % 1024) == AddressOf(b)
      && Holds(im.ram[HEAP_FRAME + b], s);
    OwnBlockIsMapped(im, base, sp, vector, vector + i / 1024);
    OwnBlockIsMapped(im, base, sp, b, b);
    SlotIsSeen(im.ram, sp, argv, vector, i, AddressOf(b));
    StringIsSeen(im.ram, sp, b, s);
  }

  /** A program that was given its arguments, and reads through its own tables, finds for every argument a pointer
      in argv, and where it points the word, cut to 511 characters, and a NUL. */
  lemma ArgumentsAreSeen(im: Image, base: Runs, sp: Space, argv: Word, argc: nat, words: seq<seq<Byte>>, i: nat)
    requires Consistent(im, base, sp) && Open(sp) && ArgumentsAre(im, base, argv, argc, words) && i < argc
    ensures i < |words| && PointerTo(im.ram, sp, argv + 4 * i, Cut(words[i], 511))
  {
    assert ArgumentIs(im, base, argv, i, Cut(words[i], 511));
    ArgumentIsSeen(im, base, sp, argv, i, Cut(words[i], 511));
  }

  lemma HeldBytes(p: Page, s: seq<Byte>)
    requires Holds(p, s)
    ensures InFrame(p, 0, s + [0])
  {
  }
}
