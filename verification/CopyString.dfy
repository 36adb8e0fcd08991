/** copy_string_from_task: the kernel reads a user string through the task's own page tables, by
    way of one page that it maps for the time of the copy. */
module CopyStrings {
  import opened Memory
  import opened Heaps
  import opened Kheap
  import opened Paging
  import opened Strings
  import opened Status
  import opened Wrappers

  /** The byte a program in this address space reads at `v`. */
  function UserByte(ram: Ram, sp: Space, v: Word): Byte
    requires WellFormed(sp)
  {
    LoadByte(ram, Translate(ram, sp, v))
  }

  /** The next `n` bytes it reads from `v` on. */
  ghost function UserBytes(ram: Ram, sp: Space, v: Word, n: nat): (s: seq<Byte>)
    requires WellFormed(sp)
    ensures |s| == n
  {
    seq<Byte>(n, i requires 0 <= i => UserByte(ram, sp, Wrap(v + i)))
  }

  lemma InPage(page: Word, i: nat)
    requires page % PAGE_SIZE == 0 && i < PAGE_SIZE
    ensures page + i < ADDRESS_SPACE && (page + i) / PAGE_SIZE == page / PAGE_SIZE && (page + i) % PAGE_SIZE == i
  {
  }

  /** `s` and a NUL fill the start of the page. */
  ghost predicate Holds(p: Page, s: seq<Byte>) {
    var holds := |s| < PAGE_SIZE && p[..|s|] == s && p[|s|] == 0;
    holds
  }

  /** The frame in which the `i`-th byte from `v` lies. */
  ghost function FrameRead(ram: Ram, sp: Space, v: Word, i: nat): nat
    requires WellFormed(sp)
  {
    Translate(ram, sp, Wrap(v + i)) / PAGE_SIZE
  }

  /** The user string stays clear of frame `tmp`: no byte of it is read from there. */
  ghost predicate ClearOf(ram: Ram, sp: Space, v: Word, n: nat, tmp: int)
    requires WellFormed(sp)
  {
    var clear := forall i: nat :: i < n ==> FrameRead(ram, sp, v, i) != tmp;
    clear
  }

  /** Writing a frame that holds no table changes no translation, and no byte outside the frame. */
  lemma SameTranslation(ram: Ram, ram': Ram, sp: Space, f: nat, v: Word)
    requires WellFormed(sp) && f < TOTAL_FRAMES && f - HEAP_FRAME !in Blocks(sp) && ram' == ram[f := ram'[f]]
    ensures Linked(ram, sp) ==> Linked(ram', sp)
    ensures PageEntry(ram', sp, v / PAGE_SIZE) == PageEntry(ram, sp, v / PAGE_SIZE)
    ensures Translate(ram', sp, v) == Translate(ram, sp, v)
    ensures Translate(ram, sp, v) / PAGE_SIZE != f ==> UserByte(ram', sp, v) == UserByte(ram, sp, v)
  {
    BlocksSplit(sp);
    assert Untouched(ram, sp, ram');
    UntouchedKeeps(ram, sp, ram');
  }

  /** A page mapped to itself. */
  lemma TranslateSelf(ram: Ram, sp: Space, page: Word, i: nat)
    requires WellFormed(sp) && page % PAGE_SIZE == 0 && i < PAGE_SIZE
    requires PageEntry(ram, sp, page / PAGE_SIZE) / PAGE_SIZE == page / PAGE_SIZE
    ensures page + i < ADDRESS_SPACE && Translate(ram, sp, page + i) == page + i
  {
    InPage(page, i);
    var e := PageEntry(ram, sp, page / PAGE_SIZE);
    assert PageBase(e) == e / PAGE_SIZE * PAGE_SIZE;
  }

  lemma StoreInPage(ram: Ram, page: Word, i: nat, b: Byte)
    requires page % PAGE_SIZE == 0 && i < PAGE_SIZE && page + i < ADDRESS_SPACE
    ensures var f := page / PAGE_SIZE; StoreByte(ram, page + i, b) == ram[f := WriteByte(ram[f], i, b)]
  {
    InPage(page, i);
  }

  /** A load through the loaded page directory. */
  method Load(k: Kernel, directory: Word, v: Word, ghost sp: Space) returns (c: Byte)
    requires WellFormed(sp) && Linked(k.ram, sp) && directory == AddressOf(sp.dir)
    ensures c == UserByte(k.ram, sp, v)
  {
    GetPhysicalAddressTranslates(k.ram, sp, v);
    c := LoadByte(k.ram, GetPhysicalAddress(k.ram, directory, v));
  }

  /** A store through the loaded page directory, to a page that is mapped to itself. */
  method Store(k: Kernel, directory: Word, page: Word, i: nat, c: Byte, ghost sp: Space)
    requires WellFormed(sp) && Linked(k.ram, sp) && directory == AddressOf(sp.dir)
    requires page % PAGE_SIZE == 0 && i < PAGE_SIZE
    requires PageEntry(k.ram, sp, page / PAGE_SIZE) / PAGE_SIZE == page / PAGE_SIZE
    modifies k`ram
    ensures var f := page / PAGE_SIZE; k.ram == old(k.ram)[f := WriteByte(old(k.ram)[f], i, c)]
  {
    TranslateSelf(k.ram, sp, page, i);
    GetPhysicalAddressTranslates(k.ram, sp, page + i);
    StoreInPage(k.ram, page, i, c);
    k.ram := StoreByte(k.ram, GetPhysicalAddress(k.ram, directory, page + i), c);
  }

  /** From place `n` on the page is as it was. */
  ghost predicate SameFrom(page0: Page, page: Page, n: nat) {
    var same := forall j :: n <= j < PAGE_SIZE ==> page[j] == page0[j];
    same
  }

  /** The first `i` bytes of the string have been copied, none of them NUL, and nothing behind them. */
  ghost predicate Copied(page0: Page, page: Page, source: seq<Byte>, i: nat) {
    var copied :=
      && i <= |source| && i < PAGE_SIZE && page[..i] == source[..i]
      && (forall j :: 0 <= j < i ==> source[j] != 0) && SameFrom(page0, page, i);
    copied
  }

  lemma CopiedMore(page0: Page, page: Page, source: seq<Byte>, i: nat)
    requires Copied(page0, page, source, i) && i < |source| && i + 1 < PAGE_SIZE && source[i] != 0
    ensures Copied(page0, WriteByte(page, i, source[i]), source, i + 1)
  {
  }

  lemma CopiedAll(page0: Page, page: Page, source: seq<Byte>, i: nat)
    requires Copied(page0, page, source, i) && (i == |source| || source[i] == 0)
    ensures var page' := WriteByte(page, i, 0);
            Holds(page', CString(source)) && SameFrom(page0, page', |CString(source)| + 1)
  {
    CStringPrefix(source, i);
  }

  // ---------------------------------------------------------------------------
  // A copy whose source is known for its first bytes only.
  // ---------------------------------------------------------------------------

  /** `s` is what a copy of at most `most` characters gives when the first bytes it reads are
      `source`: they decide it if they hold a NUL or are all that is read, and else its beginning. */
  ghost predicate Agrees(s: seq<Byte>, source: seq<Byte>, most: nat) {
    var u := CString(source);
    var agrees := NoNul(s) && |s| <= most && u <= s && (|u| < |source| || |source| == most ==> s == u);
    agrees
  }

  /** `s` has been copied to the page so far, and nothing behind it, and agrees with the known bytes. */
  ghost predicate Copying(page0: Page, page: Page, s: seq<Byte>, source: seq<Byte>) {
    var copying :=
      && |s| < PAGE_SIZE && page[..|s|] == s && NoNul(s) && SameFrom(page0, page, |s|)
      && forall j :: 0 <= j < |s| && j < |source| ==> s[j] == source[j];
    copying
  }

  lemma CopyingMore(page0: Page, page: Page, s: seq<Byte>, source: seq<Byte>, c: Byte)
    requires Copying(page0, page, s, source) && c != 0 && |s| + 1 < PAGE_SIZE && (|s| < |source| ==> c == source[|s|])
    ensures Copying(page0, WriteByte(page, |s|, c), s + [c], source)
  {
  }

  lemma CopyingEnds(page0: Page, page: Page, s: seq<Byte>, source: seq<Byte>, most: nat)
    requires Copying(page0, page, s, source) && |s| <= most && |source| <= most
    requires |s| < most && |s| < |source| ==> source[|s|] == 0
    ensures var page' := WriteByte(page, |s|, 0); Holds(page', s) && SameFrom(page0, page', |s| + 1) && Agrees(s, source, most)
  {
    if |s| < |source| {
      CStringPrefix(source, |s|);
      assert source[..|s|] == s;
    } else {
      CStringPrefix(source, |source|);
      assert s[..|source|] == source;
    }
  }

  /** While the copy runs, the source still reads as it did before. */
  lemma StillSource(ram: Ram, ram': Ram, sp: Space, f: nat, v: Word, n: nat, i: nat)
    requires WellFormed(sp) && f < TOTAL_FRAMES && f - HEAP_FRAME !in Blocks(sp) && ram' == ram[f := ram'[f]]
    requires ClearOf(ram, sp, v, n, f) && i < n
    ensures UserByte(ram', sp, Wrap(v + i)) == UserBytes(ram, sp, v, n)[i]
  {
    assert FrameRead(ram, sp, v, i) != f;
    SameTranslation(ram, ram', sp, f, Wrap(v + i));
  }

  lemma UpdateTwice(ram: Ram, f: nat, p: Page, q: Page)
    requires f < TOTAL_FRAMES
    ensures ram[f := p][f := q] == ram[f := q]
  {
  }

  /** How many bytes a copy of at most `most` characters reads of `bytes`: the string and its NUL, or as
      many as fit. */
  ghost function Extent(bytes: seq<Byte>): (n: nat)
    ensures n <= |bytes|
  {
    var len := |CString(bytes)|;
    if len < |bytes| then len + 1 else len
  }

  /** A copy that reads `seen` instead of the bytes it should read gives the right string if and only
      if the two are the same. */
  lemma RightIffSame(s: seq<Byte>, bytes: seq<Byte>, seen: seq<Byte>)
    requires |seen| == Extent(bytes) && Agrees(s, seen, |bytes|)
    ensures s == CString(bytes) <==> seen == bytes[..|seen|]
  {
    if seen == bytes[..|seen|] {
      SameGivesRight(s, bytes, seen);
    }
    if s == CString(bytes) {
      RightGivesSame(s, bytes, seen);
    }
  }

  lemma SameGivesRight(s: seq<Byte>, bytes: seq<Byte>, seen: seq<Byte>)
    requires |seen| == Extent(bytes) && Agrees(s, seen, |bytes|) && seen == bytes[..|seen|]
    ensures s == CString(bytes)
  {
    var o := CString(bytes);
    CStringHasNoNul(bytes);
    assert seen[..|o|] == o;
    CutAtNul(seen, |o|);
  }

  lemma RightGivesSame(s: seq<Byte>, bytes: seq<Byte>, seen: seq<Byte>)
    requires |seen| == Extent(bytes) && Agrees(s, seen, |bytes|) && s == CString(bytes)
    ensures seen == bytes[..|seen|]
  {
    var u := CString(seen);
    Shape(bytes);
    Shape(seen);
    assert |u| <= |s| <= |seen| <= |s| + 1;
    assert u == s;
    if |seen| == |s| + 1 {
      SameWithNul(s, seen, bytes);
    } else {
      assert seen[..|s|] == seen;
    }
  }

  lemma SameWithNul(s: seq<Byte>, a: seq<Byte>, b: seq<Byte>)
    requires |a| == |s| + 1 <= |b| && a[..|s|] == s == b[..|s|] && a[|s|] == b[|s|]
    ensures a == b[..|a|]
  {
    assert a == a[..|s|] + [a[|s|]] && b[..|a|] == b[..|s|] + [b[|s|]];
  }

  /** A byte sequence begins with its string, and then comes a NUL if anything. */
  lemma Shape(b: seq<Byte>)
    ensures b[..|CString(b)|] == CString(b) && (|CString(b)| < |b| ==> b[|CString(b)|] == 0)
  {
    CStringHasNoNul(b);
  }

  /** strncpy(tmp, virt, max) while the task's tables are loaded: the destination page is mapped
      to itself, the source is read through the tables. Only the destination page changes; it
      receives a string that agrees with the source as far as the source stays clear of it, and a
      NUL, and keeps its bytes behind the NUL. */
  method CopyThroughTask(k: Kernel, directory: Word, tmp: Word, virt: Word, max: nat, ghost sp: Space, ghost n: nat)
    returns (ghost page: Page, ghost s: seq<Byte>)
    requires WellFormed(sp) && Linked(k.ram, sp) && directory == AddressOf(sp.dir)
    requires tmp % PAGE_SIZE == 0 && 0 < max < PAGE_SIZE && n < max
    requires PageEntry(k.ram, sp, tmp / PAGE_SIZE) / PAGE_SIZE == tmp / PAGE_SIZE
    requires tmp / PAGE_SIZE - HEAP_FRAME !in Blocks(sp)
    requires ClearOf(k.ram, sp, virt, n, tmp / PAGE_SIZE)
    modifies k`ram
    ensures k.ram == old(k.ram)[tmp / PAGE_SIZE := page] && Linked(k.ram, sp)
    ensures Holds(page, s) && SameFrom(old(k.ram)[tmp / PAGE_SIZE], page, |s| + 1)
    ensures Agrees(s, UserBytes(old(k.ram), sp, virt, n), max - 1)
  {
    ghost var ram0, f, page0 := k.ram, tmp / PAGE_SIZE, k.ram[tmp / PAGE_SIZE];
    page, s := page0, [];
    ghost var source := UserBytes(ram0, sp, virt, n);
    var i := 0;
    while i < max - 1
      invariant |s| == i <= max - 1 && k.ram == ram0[f := page] && Copying(page0, page, s, source)
    {
      SameTranslation(ram0, k.ram, sp, f, tmp);
      if i < n {
        StillSource(ram0, k.ram, sp, f, virt, n, i);
      }
      var c := Load(k, directory, Wrap(virt + i), sp);
      if c == 0 {
        break;
      }
      Store(k, directory, tmp, i, c, sp);
      UpdateTwice(ram0, f, page, WriteByte(page, i, c));
      CopyingMore(page0, page, s, source, c);
      page, s := WriteByte(page, i, c), s + [c];
      i := i + 1;
    }
    SameTranslation(ram0, k.ram, sp, f, tmp);
    Store(k, directory, tmp, i, 0, sp);
    UpdateTwice(ram0, f, page, WriteByte(page, i, 0));
    CopyingEnds(page0, page, s, source, max - 1);
    page := WriteByte(page, i, 0);
    SameTranslation(ram0, k.ram, sp, f, tmp);
  }

  // ---------------------------------------------------------------------------
  // Copying to the kernel buffer, where every address is physical.
  // ---------------------------------------------------------------------------

  /** Memory after the bytes of `s` are stored from address `a` on. */
  ghost function PutBytes(ram: Ram, a: Word, s: seq<Byte>): Ram
    requires a + |s| <= ADDRESS_SPACE
  {
    if s == [] then ram
    else StoreByte(PutBytes(ram, a, s[..|s| - 1]), a + |s| - 1, s[|s| - 1])
  }

  /** Frame `f` holds none of the `n` bytes from `a` on. */
  predicate FrameClear(a: Word, n: nat, f: int) {
    (f + 1) * PAGE_SIZE <= a || a + n <= f * PAGE_SIZE
  }

  lemma ClearOfFewer(a: Word, n: nat, m: nat, f: int)
    requires FrameClear(a, n, f) && m <= n
    ensures FrameClear(a, m, f)
  {
  }

  /** Frames that the stored bytes do not reach keep their content. */
  lemma {:induction false} PutBytesOutside(ram: Ram, a: Word, s: seq<Byte>, f: nat)
    requires a + |s| <= ADDRESS_SPACE && f < TOTAL_FRAMES
    requires FrameClear(a, |s|, f)
    ensures PutBytes(ram, a, s)[f] == ram[f]
  {
    if s != [] {
      PutBytesOutside(ram, a, s[..|s| - 1], f);
    }
  }

  /** Storing bytes puts them where they belong and leaves all others. */
  lemma {:induction false} PutBytesAt(ram: Ram, a: Word, s: seq<Byte>, at: Word)
    requires a + |s| <= ADDRESS_SPACE
    ensures LoadByte(PutBytes(ram, a, s), at) == if a <= at < a + |s| then s[at - a] else LoadByte(ram, at)
  {
    if s != [] {
      PutBytesAt(ram, a, s[..|s| - 1], at);
    }
  }

  /** strncpy(dst, tmp, max) in the kernel's own address space. */
  method CopyPhysical(k: Kernel, dst: Word, tmp: Word, max: nat)
    requires tmp % PAGE_SIZE == 0 && 0 < max < PAGE_SIZE && dst + max <= ADDRESS_SPACE
    requires FrameClear(dst, max, tmp / PAGE_SIZE)
    modifies k`ram
    ensures k.ram == PutBytes(old(k.ram), dst, CString(old(k.ram)[tmp / PAGE_SIZE][..max - 1]) + [0])
  {
    ghost var ram0, source := k.ram, k.ram[tmp / PAGE_SIZE][..max - 1];
    var i := 0;
    while i < max - 1
      invariant 0 <= i <= max - 1 && PartCopied(ram0, dst, source, i, k.ram)
    {
      SourceStays(ram0, dst, source, tmp, i, k.ram);
      var c := LoadByte(k.ram, tmp + i);
      if c == 0 {
        break;
      }
      CopyMore(ram0, dst, source, i, k.ram);
      k.ram := StoreByte(k.ram, dst + i, c);
      i := i + 1;
    }
    CopyEnds(ram0, dst, source, i, k.ram);
    k.ram := StoreByte(k.ram, dst + i, 0);
  }

  /** The first `i` bytes of the string are at `dst`. */
  ghost predicate PartCopied(ram0: Ram, dst: Word, source: seq<Byte>, i: int, ram: Ram) {
    var part := 0 <= i <= |source| && dst + |source| < ADDRESS_SPACE && NoNul(source[..i]) && ram == PutBytes(ram0, dst, source[..i]);
    part
  }

  lemma CopyMore(ram0: Ram, dst: Word, source: seq<Byte>, i: nat, ram: Ram)
    requires PartCopied(ram0, dst, source, i, ram) && i < |source| && source[i] != 0
    ensures PartCopied(ram0, dst, source, i + 1, StoreByte(ram, dst + i, source[i]))
  {
    assert source[..i + 1] == source[..i] + [source[i]];
    PutByteMore(ram0, dst, source[..i], source[i]);
  }

  lemma CopyEnds(ram0: Ram, dst: Word, source: seq<Byte>, i: nat, ram: Ram)
    requires PartCopied(ram0, dst, source, i, ram) && (i == |source| || source[i] == 0)
    ensures dst + i < ADDRESS_SPACE && StoreByte(ram, dst + i, 0) == PutBytes(ram0, dst, CString(source) + [0])
  {
    PutByteMore(ram0, dst, source[..i], 0);
    CutAtNul(source, i);
  }

  lemma PutByteMore(ram: Ram, a: Word, s: seq<Byte>, b: Byte)
    requires a + |s| < ADDRESS_SPACE
    ensures StoreByte(PutBytes(ram, a, s), a + |s|, b) == PutBytes(ram, a, s + [b])
  {
    assert (s + [b])[..|s|] == s;
  }

  /** The page in front of or behind the copy is not disturbed by it. */
  lemma SourceStays(ram0: Ram, dst: Word, source: seq<Byte>, tmp: Word, i: nat, ram: Ram)
    requires tmp % PAGE_SIZE == 0 && i < |source| < PAGE_SIZE && PartCopied(ram0, dst, source, i, ram)
    requires source == ram0[tmp / PAGE_SIZE][..|source|] && FrameClear(dst, |source|, tmp / PAGE_SIZE)
    ensures tmp + i < ADDRESS_SPACE && LoadByte(ram, tmp + i) == source[i]
  {
    InPage(tmp, i);
    PutBytesOutside(ram0, dst, source[..i], tmp / PAGE_SIZE);
  }

  lemma CutAtNul(s: seq<Byte>, i: nat)
    requires i <= |s| && NoNul(s[..i]) && (i == |s| || s[i] == 0)
    ensures CString(s) == s[..i]
  {
    assert forall j :: 0 <= j < i ==> s[j] == s[..i][j];
    CStringPrefix(s, i);
  }

  // ---------------------------------------------------------------------------
  // The whole operation.
  // ---------------------------------------------------------------------------

  /** Memory while page `p` of the space is mapped to `val`, block `t` holding `page`. */
  function Remapped(ram: Ram, sp: Space, t: nat, page: Page, val: Word): Ram
    requires WellFormed(sp) && t < HEAP_BLOCKS
  {
    SetEntry(ram[HEAP_FRAME + t := page], sp, HEAP_FRAME + t, val)
  }

  /** Writing the old word back undoes the temporary mapping byte for byte, whatever was written
      to the page meanwhile. */
  lemma RemapUndone(ram: Ram, sp: Space, t: nat, page: Page, val: Word, page': Page)
    requires WellFormed(sp) && t < HEAP_BLOCKS && t !in Blocks(sp)
    ensures var old_entry := PageEntry(ram[HEAP_FRAME + t := page], sp, HEAP_FRAME + t);
            SetEntry(Remapped(ram, sp, t, page, val)[HEAP_FRAME + t := page'], sp, HEAP_FRAME + t, old_entry)
            == ram[HEAP_FRAME + t := page']
  {
    var p := HEAP_FRAME + t;
    var f := HEAP_FRAME + sp.tables[p / 1024];
    BlocksSplit(sp);
    assert f != p;
    WriteBackRestores(ram[f], p % 1024, val);
  }

  /** The byte at `a` belongs to the word of page `p`. */
  predicate InWord(sp: Space, p: PageNo, a: Word)
    requires WellFormed(sp)
  {
    a / PAGE_SIZE == HEAP_FRAME + sp.tables[p / 1024] && 4 * (p % 1024) <= a % PAGE_SIZE < 4 * (p % 1024) + 4
  }

  /** The word that maps the temporary page to itself, for the user. */
  function NewWord(t: nat): Word
    requires t < HEAP_BLOCKS
  {
    AddressOfFrame(t);
    FrameOfEntry(AddressOf(t), USER_PAGE_FLAGS);
    AddressOf(t) + USER_PAGE_FLAGS
  }

  const USER_PAGE_FLAGS := WRITEABLE + PRESENT + ACCESS_FROM_ALL

  lemma BorrowedEntry(ram: Ram, sp: Space, t: nat, page: Page)
    requires WellFormed(sp) && Linked(ram, sp) && t < HEAP_BLOCKS && t !in Blocks(sp)
    ensures var ram' := Remapped(ram, sp, t, page, NewWord(t));
            Linked(ram', sp) && AddressOf(t) % PAGE_SIZE == 0 && PageEntry(ram', sp, HEAP_FRAME + t) == AddressOf(t) + USER_PAGE_FLAGS
  {
    var ram1 := ram[HEAP_FRAME + t := page];
    AddressOfFrame(t);
    SameTranslation(ram, ram1, sp, HEAP_FRAME + t, AddressOf(t));
    SetEntryEffect(ram1, sp, HEAP_FRAME + t, NewWord(t));
  }

  /** While it is mapped, the temporary page is reached through the tables, to read and to write. */
  lemma BorrowedPageIsReached(ram: Ram, sp: Space, t: nat, page: Page, a: Word, write: bool)
    requires WellFormed(sp) && Linked(ram, sp) && Open(sp) && t < HEAP_BLOCKS && t !in Blocks(sp)
    requires AddressOf(t) <= a < AddressOf(t) + PAGE_SIZE
    ensures Access(Remapped(ram, sp, t, page, NewWord(t)), sp, a, write) == Some(a)
  {
    BorrowedEntry(ram, sp, t, page);
    ReachedThere(Remapped(ram, sp, t, page, NewWord(t)), sp, t, a, write);
  }

  lemma ReachedThere(ram: Ram, sp: Space, t: nat, a: Word, write: bool)
    requires WellFormed(sp) && Linked(ram, sp) && Open(sp) && t < HEAP_BLOCKS && AddressOf(t) % PAGE_SIZE == 0
    requires PageEntry(ram, sp, HEAP_FRAME + t) == AddressOf(t) + USER_PAGE_FLAGS && AddressOf(t) <= a < AddressOf(t) + PAGE_SIZE
    ensures Access(ram, sp, a, write) == Some(a)
  {
    AddressOfFrame(t);
    InPage(AddressOf(t), a - AddressOf(t));
    AccessOfEntry(ram, sp, a, write, AddressOf(t), USER_PAGE_FLAGS);
  }

  /** No byte of the user string is read through the temporary page or from its frame. */
  ghost predicate ClearOfPage(ram: Ram, sp: Space, v: Word, n: nat, t: nat)
    requires WellFormed(sp) && t < HEAP_BLOCKS
  {
    var clear := forall i: nat :: i < n ==> FrameRead(ram, sp, v, i) != HEAP_FRAME + t && Wrap(v + i) / PAGE_SIZE != HEAP_FRAME + t;
    clear
  }

  /** Which byte of the edited word lies at `a`. */
  function PlaceInWord(t: nat, a: Word): int {
    a % PAGE_SIZE - 4 * ((HEAP_FRAME + t) % 1024)
  }

  /** What is read at `v` while the word stands changed. */
  ghost function SeenByte(ram: Ram, sp: Space, t: nat, v: Word): Byte
    requires WellFormed(sp) && t < HEAP_BLOCKS
  {
    var a := Translate(ram, sp, v);
    if InWord(sp, HEAP_FRAME + t, a) then ToBytes(NewWord(t), 4)[PlaceInWord(t, a)] else LoadByte(ram, a)
  }

  ghost function SeenBytes(ram: Ram, sp: Space, t: nat, v: Word, n: nat): (s: seq<Byte>)
    requires WellFormed(sp) && t < HEAP_BLOCKS
    ensures |s| == n
  {
    seq<Byte>(n, i requires 0 <= i => SeenByte(ram, sp, t, Wrap(v + i)))
  }

  /** What a caller can check: a byte of the string that lies in the edited word is the same in the old
      and in the new word. */
  ghost predicate WordAgrees(ram: Ram, sp: Space, t: nat, v: Word)
    requires WellFormed(sp) && t < HEAP_BLOCKS
  {
    var a := Translate(ram, sp, v);
    InWord(sp, HEAP_FRAME + t, a) ==>
      ToBytes(NewWord(t), 4)[PlaceInWord(t, a)] == ToBytes(PageEntry(ram, sp, HEAP_FRAME + t), 4)[PlaceInWord(t, a)]
  }

  ghost predicate ByteAgrees(ram: Ram, sp: Space, t: nat, v: Word, i: nat)
    requires WellFormed(sp) && t < HEAP_BLOCKS
  {
    WordAgrees(ram, sp, t, Wrap(v + i))
  }

  ghost predicate WordsAgree(ram: Ram, sp: Space, t: nat, v: Word, n: nat)
    requires WellFormed(sp) && t < HEAP_BLOCKS
  {
    var agree := forall i: nat :: i < n ==> ByteAgrees(ram, sp, t, v, i);
    agree
  }

  /** A byte is seen as it is if and only if it agrees. */
  lemma SeenIffAgrees(ram: Ram, sp: Space, t: nat, v: Word)
    requires WellFormed(sp) && t < HEAP_BLOCKS
    ensures SeenByte(ram, sp, t, v) == UserByte(ram, sp, v) <==> WordAgrees(ram, sp, t, v)
  {
    var a := Translate(ram, sp, v);
    if InWord(sp, HEAP_FRAME + t, a) {
      ByteInWord(ram, sp, t, a);
    }
  }

  /** A byte in the word of the temporary page. */
  lemma ByteInWord(ram: Ram, sp: Space, t: nat, a: Word)
    requires WellFormed(sp) && t < HEAP_BLOCKS && InWord(sp, HEAP_FRAME + t, a)
    ensures LoadByte(ram, a) == ToBytes(PageEntry(ram, sp, HEAP_FRAME + t), 4)[PlaceInWord(t, a)]
  {
    ByteOfOldWord(ram[a / PAGE_SIZE], (HEAP_FRAME + t) % 1024, a % PAGE_SIZE);
  }

  lemma ByteOfOldWord(p: Page, i: nat, j: nat)
    requires i < WORDS_PER_PAGE && 4 * i <= j < 4 * i + 4
    ensures p[j] == ToBytes(ReadWord(p, i), 4)[j - 4 * i]
  {
    NumberRoundTrip(p[4 * i..4 * i + 4]);
  }

  lemma AllSeenIffAgree(ram: Ram, sp: Space, t: nat, v: Word, n: nat)
    requires WellFormed(sp) && t < HEAP_BLOCKS
    ensures SeenBytes(ram, sp, t, v, n) == UserBytes(ram, sp, v, n) <==> WordsAgree(ram, sp, t, v, n)
  {
    forall i: nat | i < n ensures SeenBytes(ram, sp, t, v, n)[i] == UserBytes(ram, sp, v, n)[i] <==> ByteAgrees(ram, sp, t, v, i) {
      SeenIffAgrees(ram, sp, t, Wrap(v + i));
    }
    SameIffEverywhere(SeenBytes(ram, sp, t, v, n), UserBytes(ram, sp, v, n));
  }

  lemma SameIffEverywhere(a: seq<Byte>, b: seq<Byte>)
    requires |a| == |b|
    ensures a == b <==> forall i: nat :: i < |a| ==> a[i] == b[i]
  {
  }

  /** Writing the word of another page leaves what is read at `v` alone, unless it is read from
      the word itself. */
  lemma SetEntryElsewhere(ram: Ram, sp: Space, p: PageNo, val: Word, v: Word)
    requires WellFormed(sp) && v / PAGE_SIZE != p && !InWord(sp, p, Translate(ram, sp, v))
    ensures var ram' := SetEntry(ram, sp, p, val);
            Translate(ram', sp, v) == Translate(ram, sp, v) && UserByte(ram', sp, v) == UserByte(ram, sp, v)
  {
    SetEntryEffect(ram, sp, p, val);
    assert PageEntry(SetEntry(ram, sp, p, val), sp, v / PAGE_SIZE) == PageEntry(ram, sp, v / PAGE_SIZE);
    WriteWordBytes(ram[HEAP_FRAME + sp.tables[p / 1024]], p % 1024, val);
  }

  /** With the temporary mapping in place, a string clear of the temporary page reads as the bytes seen. */
  lemma StringSeen(ram: Ram, sp: Space, t: nat, page: Page, v: Word, n: nat)
    requires WellFormed(sp) && t < HEAP_BLOCKS && t !in Blocks(sp) && ClearOfPage(ram, sp, v, n, t)
    ensures var ram' := Remapped(ram, sp, t, page, NewWord(t));
            ClearOf(ram', sp, v, n, HEAP_FRAME + t) && UserBytes(ram', sp, v, n) == SeenBytes(ram, sp, t, v, n)
  {
    var ram' := Remapped(ram, sp, t, page, NewWord(t));
    forall i: nat | i < n
      ensures FrameRead(ram', sp, v, i) != HEAP_FRAME + t
      ensures UserBytes(ram', sp, v, n)[i] == SeenBytes(ram, sp, t, v, n)[i]
    {
      assert FrameRead(ram, sp, v, i) != HEAP_FRAME + t;
      ByteIsSeen(ram, sp, t, page, Wrap(v + i));
    }
  }

  lemma ByteIsSeen(ram: Ram, sp: Space, t: nat, page: Page, v: Word)
    requires WellFormed(sp) && t < HEAP_BLOCKS && t !in Blocks(sp) && v / PAGE_SIZE != HEAP_FRAME + t
    requires Translate(ram, sp, v) / PAGE_SIZE != HEAP_FRAME + t
    ensures var ram' := Remapped(ram, sp, t, page, NewWord(t));
            Translate(ram', sp, v) == Translate(ram, sp, v) && UserByte(ram', sp, v) == SeenByte(ram, sp, t, v)
  {
    if InWord(sp, HEAP_FRAME + t, Translate(ram, sp, v)) {
      EditedWordIsSeen(ram, sp, t, page, NewWord(t), v);
    } else {
      ByteSeen(ram, sp, t, page, NewWord(t), v);
    }
  }

  lemma ByteSeen(ram: Ram, sp: Space, t: nat, page: Page, val: Word, v: Word)
    requires WellFormed(sp) && t < HEAP_BLOCKS && t !in Blocks(sp) && v / PAGE_SIZE != HEAP_FRAME + t
    requires Translate(ram, sp, v) / PAGE_SIZE != HEAP_FRAME + t && !InWord(sp, HEAP_FRAME + t, Translate(ram, sp, v))
    ensures var ram' := Remapped(ram, sp, t, page, val);
            Translate(ram', sp, v) == Translate(ram, sp, v) && UserByte(ram', sp, v) == UserByte(ram, sp, v)
  {
    SameTranslation(ram, ram[HEAP_FRAME + t := page], sp, HEAP_FRAME + t, v);
    SetEntryElsewhere(ram[HEAP_FRAME + t := page], sp, HEAP_FRAME + t, val, v);
  }

  /** Bytes of a string that runs through the edited word are read as bytes of the new word, whatever
      they were. */
  lemma EditedWordIsSeen(ram: Ram, sp: Space, t: nat, page: Page, val: Word, v: Word)
    requires WellFormed(sp) && t < HEAP_BLOCKS && t !in Blocks(sp) && v / PAGE_SIZE != HEAP_FRAME + t
    requires InWord(sp, HEAP_FRAME + t, Translate(ram, sp, v))
    ensures var ram' := Remapped(ram, sp, t, page, val);
            && Translate(ram', sp, v) == Translate(ram, sp, v)
            && UserByte(ram', sp, v) == ToBytes(val, 4)[PlaceInWord(t, Translate(ram, sp, v))]
  {
    var p, f := HEAP_FRAME + t, HEAP_FRAME + sp.tables[(HEAP_FRAME + t) / 1024];
    var ram1 := ram[p := page];
    SameTranslation(ram, ram1, sp, p, v);
    SetEntryEffect(ram1, sp, p, val);
    assert PageEntry(SetEntry(ram1, sp, p, val), sp, v / PAGE_SIZE) == PageEntry(ram1, sp, v / PAGE_SIZE);
    ByteOfWord(ram1[f], p % 1024, val, Translate(ram, sp, v) % PAGE_SIZE);
  }

  lemma ByteOfWord(p: Page, i: nat, w: Word, j: nat)
    requires i < WORDS_PER_PAGE && 4 * i <= j < 4 * i + 4
    ensures WriteWord(p, i, w)[j] == ToBytes(w, 4)[j - 4 * i]
  {
  }

  /** Reading the string back from the page that holds it. */
  lemma HeldString(page: Page, s: seq<Byte>, n: nat)
    requires Holds(page, s) && |s| <= n < PAGE_SIZE && NoNul(s)
    ensures CString(page[..n]) == s
  {
    var prefix := page[..n];
    assert forall j :: 0 <= j < |s| ==> prefix[j] == page[..|s|][j];
    CStringPrefix(prefix, |s|);
    assert prefix[..|s|] == page[..|s|];
  }

  /** The bytes of a borrowed page lie inside the heap. */
  lemma PageInHeap(tmp: Word, t: nat)
    requires PointsTo(tmp, t)
    ensures tmp % PAGE_SIZE == 0 && tmp / PAGE_SIZE == HEAP_FRAME + t
    ensures HEAP_ADDRESS <= tmp && tmp + PAGE_SIZE <= HEAP_ADDRESS + HEAP_SIZE_BYTES
  {
    AddressOfFrame(t);
  }

  /** The task's directory, and the word it has for the temporary page. */
  method CurrentEntry(k: Kernel, chunk: Word, tmp: Word, ghost sp: Space, ghost t: nat) returns (directory: Word, old_entry: Word)
    requires WellFormed(sp) && Linked(k.ram, sp) && PointsTo(chunk, sp.chunk) && PointsTo(tmp, t)
    ensures directory == AddressOf(sp.dir) && old_entry == PageEntry(k.ram, sp, HEAP_FRAME + t)
  {
    AddressOfFrame(sp.chunk);
    PageInHeap(tmp, t);
    directory := LoadIndex(k.ram, chunk, 0);
    PagingGetIsPageEntry(k.ram, sp, tmp);
    old_entry := PagingGet(k.ram, directory, tmp);
  }

  /** Maps the temporary page to itself, for the user, and returns the word it replaced. */
  method MapTemporary(k: Kernel, chunk: Word, tmp: Word, ghost sp: Space, ghost t: nat, ghost ram0: Ram)
    returns (directory: Word, old_entry: Word)
    requires WellFormed(sp) && Linked(k.ram, sp) && PointsTo(chunk, sp.chunk)
    requires PointsTo(tmp, t) && t !in Blocks(sp) && k.ram == ram0[HEAP_FRAME + t := k.ram[HEAP_FRAME + t]]
    modifies k`ram
    ensures directory == AddressOf(sp.dir) && Linked(k.ram, sp)
    ensures k.ram == Remapped(ram0, sp, t, old(k.ram)[HEAP_FRAME + t], NewWord(t))
    ensures old_entry == PageEntry(old(k.ram), sp, HEAP_FRAME + t)
    ensures PageEntry(k.ram, sp, HEAP_FRAME + t) / PAGE_SIZE == HEAP_FRAME + t
  {
    directory, old_entry := CurrentEntry(k, chunk, tmp, sp, t);
    PageInHeap(tmp, t);
    SetEntryEffect(k.ram, sp, HEAP_FRAME + t, tmp + USER_PAGE_FLAGS);
    FrameOfEntry(tmp, USER_PAGE_FLAGS);
    var res := PagingMap(k, chunk, tmp, tmp, USER_PAGE_FLAGS, sp);
  }

  /** The part of copy_string_from_task that uses the task's tables: maps the temporary page into
      them, copies the user string to it, and puts the old word back. */
  method BorrowPage(k: Kernel, chunk: Word, tmp: Word, virt: Word, max: nat, ghost sp: Space, ghost t: nat, ghost ram0: Ram, ghost n: nat)
    returns (ghost page: Page, ghost s: seq<Byte>)
    requires WellFormed(sp) && Linked(k.ram, sp) && PointsTo(chunk, sp.chunk)
    requires PointsTo(tmp, t) && t !in Blocks(sp) && k.ram == ram0[HEAP_FRAME + t := k.ram[HEAP_FRAME + t]]
    requires 0 < max < PAGE_SIZE && n < max && ClearOfPage(ram0, sp, virt, n, t)
    modifies k`ram
    ensures k.ram == ram0[HEAP_FRAME + t := page]
    ensures Holds(page, s) && Agrees(s, SeenBytes(ram0, sp, t, virt, n), max - 1)
  {
    ghost var cleared := k.ram[HEAP_FRAME + t];
    PageInHeap(tmp, t);
    var directory, old_entry := MapTemporary(k, chunk, tmp, sp, t, ram0);
    StringSeen(ram0, sp, t, cleared, virt, n);
    page, s := CopyThroughTask(k, directory, tmp, virt, max, sp, n);
    RemapUndone(ram0, sp, t, cleared, NewWord(t), page);
    var res := PagingSet(k, directory, tmp, old_entry, sp);
  }

  /** The kernel buffer receives the string that the borrowed page holds. */
  method CopyOut(k: Kernel, tmp: Word, phys: Word, max: nat, ghost t: nat, ghost s: seq<Byte>)
    requires PointsTo(tmp, t) && 0 < max < PAGE_SIZE && |s| < max && NoNul(s) && Holds(k.ram[HEAP_FRAME + t], s)
    requires phys + max <= ADDRESS_SPACE && FrameClear(phys, max, HEAP_FRAME + t)
    modifies k`ram
    ensures k.ram == PutBytes(old(k.ram), phys, s + [0])
  {
    PageInHeap(tmp, t);
    HeldString(k.ram[HEAP_FRAME + t], s, max - 1);
    CopyPhysical(k, phys, tmp, max);
  }

  /** The space is linked as before and every page goes where it went. */
  ghost predicate MappingsKept(ram: Ram, sp: Space, ram': Ram)
    requires WellFormed(sp)
  {
    var kept := (Linked(ram, sp) ==> Linked(ram', sp)) && forall p: PageNo :: PageEntry(ram', sp, p) == PageEntry(ram, sp, p);
    kept
  }

  /** A kernel buffer that lies outside the task's tables and not in free blocks of the heap: outside
      the heap, or in a live run. */
  ghost predicate BufferOk(runs: Runs, sp: Space, phys: Word, max: nat) {
    var ok := phys + max <= ADDRESS_SPACE &&
      forall f: nat :: f < TOTAL_FRAMES && !FrameClear(phys, max, f) ==>
        && f - HEAP_FRAME !in Blocks(sp)
        && (HEAP_FRAME <= f < HEAP_FRAME + HEAP_BLOCKS ==> !Uncovered(runs, f - HEAP_FRAME));
    ok
  }

  lemma BufferClear(runs: Runs, sp: Space, phys: Word, max: nat, b: nat)
    requires BufferOk(runs, sp, phys, max) && b < HEAP_BLOCKS && (b in Blocks(sp) || Uncovered(runs, b))
    ensures FrameClear(phys, max, HEAP_FRAME + b)
  {
    assert HEAP_FRAME + b - HEAP_FRAME == b;
  }

  /** A page outside the tables and the bytes of such a buffer hold no word of the address space. */
  lemma CopyKeepsMappings(ram: Ram, runs: Runs, sp: Space, t: nat, page: Page, phys: Word, max: nat, s: seq<Byte>)
    requires WellFormed(sp) && t < HEAP_BLOCKS && t !in Blocks(sp) && BufferOk(runs, sp, phys, max) && |s| <= max
    ensures MappingsKept(ram, sp, PutBytes(ram[HEAP_FRAME + t := page], phys, s))
  {
    forall b | b in Blocks(sp) && b < HEAP_BLOCKS
      ensures PutBytes(ram[HEAP_FRAME + t := page], phys, s)[HEAP_FRAME + b] == ram[HEAP_FRAME + b]
    {
      BufferClear(runs, sp, phys, max, b);
      BlockKept(ram, t, page, phys, max, s, b);
    }
    UntouchedKeeps(ram, sp, PutBytes(ram[HEAP_FRAME + t := page], phys, s));
  }

  lemma BlockKept(ram: Ram, t: nat, page: Page, phys: Word, max: nat, s: seq<Byte>, b: nat)
    requires t < HEAP_BLOCKS && b < HEAP_BLOCKS && t != b && |s| <= max && phys + max <= ADDRESS_SPACE
    requires FrameClear(phys, max, HEAP_FRAME + b)
    ensures PutBytes(ram[HEAP_FRAME + t := page], phys, s)[HEAP_FRAME + b] == ram[HEAP_FRAME + b]
  {
    ClearOfFewer(phys, max, |s|, HEAP_FRAME + b);
    PutBytesOutside(ram[HEAP_FRAME + t := page], phys, s, HEAP_FRAME + b);
  }

  /** For a string clear of the temporary page, the right string arrives if and only if its bytes in the
      edited word agree. */
  ghost predicate RightIffAgrees(ram: Ram, sp: Space, t: nat, v: Word, most: nat, s: seq<Byte>)
    requires WellFormed(sp) && t < HEAP_BLOCKS
  {
    var bytes := UserBytes(ram, sp, v, most);
    var right := ClearOfPage(ram, sp, v, Extent(bytes), t) ==>
      (s == CString(bytes) <==> WordsAgree(ram, sp, t, v, Extent(bytes)));
    right
  }

  lemma SeenDecides(ram: Ram, sp: Space, t: nat, v: Word, most: nat, s: seq<Byte>)
    requires WellFormed(sp) && t < HEAP_BLOCKS
    requires var n := Extent(UserBytes(ram, sp, v, most));
             ClearOfPage(ram, sp, v, n, t) ==> Agrees(s, SeenBytes(ram, sp, t, v, n), most)
    ensures RightIffAgrees(ram, sp, t, v, most, s)
  {
    var bytes := UserBytes(ram, sp, v, most);
    var n := Extent(bytes);
    if ClearOfPage(ram, sp, v, n, t) {
      RightIffSame(s, bytes, SeenBytes(ram, sp, t, v, n));
      AllSeenIffAgree(ram, sp, t, v, n);
      assert UserBytes(ram, sp, v, n) == bytes[..n];
    }
  }

  /** From the task to the temporary page, and from there to the kernel buffer. */
  method CopyByPage(k: Kernel, chunk: Word, tmp: Word, virt: Word, phys: Word, max: nat,
                    ghost sp: Space, ghost t: nat, ghost ram0: Ram, ghost runs: Runs)
    returns (ghost page: Page, ghost s: seq<Byte>)
    requires WellFormed(sp) && Linked(k.ram, sp) && PointsTo(chunk, sp.chunk)
    requires PointsTo(tmp, t) && t !in Blocks(sp) && k.ram == ram0[HEAP_FRAME + t := k.ram[HEAP_FRAME + t]]
    requires 0 < max < PAGE_SIZE && Uncovered(runs, t) && BufferOk(runs, sp, phys, max)
    modifies k`ram
    ensures |s| < max && NoNul(s) && k.ram == PutBytes(ram0[HEAP_FRAME + t := page], phys, s + [0])
    ensures RightIffAgrees(ram0, sp, t, virt, max - 1, s)
    ensures MappingsKept(ram0, sp, k.ram)
  {
    ghost var n := Extent(UserBytes(ram0, sp, virt, max - 1));
    page, s := BorrowPage(k, chunk, tmp, virt, max, sp, t, ram0, if ClearOfPage(ram0, sp, virt, n, t) then n else 0);
    SeenDecides(ram0, sp, t, virt, max - 1, s);
    BufferClear(runs, sp, phys, max, t);
    CopyOut(k, tmp, phys, max, t, s);
    CopyKeepsMappings(ram0, runs, sp, t, page, phys, max, s + [0]);
  }

  /** kzalloc of the temporary page, which is no part of the task's tables. */
  method TakePage(k: Kernel, max: nat, ghost sp: Space) returns (tmp: Word, ghost t: nat)
    requires k.Valid() && 0 < max < PAGE_SIZE && WellFormed(sp) && Linked(k.ram, sp) && Owns(k.Runs(), sp)
    modifies k`ram, k.heap`runs, k.heap.entries
    ensures k.Valid() && (tmp == 0 <==> !Fits(old(k.Table()), 1))
    ensures tmp == 0 ==> k.Runs() == old(k.Runs()) && k.Table() == old(k.Table()) && k.ram == old(k.ram)
    ensures tmp != 0 ==>
              && PointsTo(tmp, t) && IsStartBlock(old(k.Table()), 1, t) && t !in Blocks(sp)
              && Uncovered(old(k.Runs()), t) && t !in old(k.Runs()) && k.Runs() == old(k.Runs())[t := 1]
              && k.ram == old(k.ram)[HEAP_FRAME + t := k.ram[HEAP_FRAME + t]] && Linked(k.ram, sp)
  {
    OnePage(k.Table(), max);
    tmp, t := k.Kzalloc(max);
    if tmp == 0 {
      return;
    }
    AllocatedElsewhere(old(k.Runs()), old(k.ram), k.Runs(), k.ram, t, max, sp);
    UntouchedKeeps(old(k.ram), sp, k.ram);
    ClearedOutside(old(k.ram), k.ram, t, max);
    FreshIsUncovered(old(k.Runs()), t, k.Runs());
  }

  /** kfree of the temporary page leaves the heap as it was before the page was taken. */
  method ReturnPage(k: Kernel, tmp: Word, ghost t: nat, ghost runs: Runs, ghost table: seq<Entry>)
    requires k.Valid() && PointsTo(tmp, t) && t !in runs && k.Runs() == runs[t := 1]
    requires |table| == HEAP_BLOCKS && Encodes(table, runs)
    modifies k.heap`runs, k.heap.entries
    ensures k.Valid() && k.Runs() == runs && k.Table() == table
  {
    k.Kfree(tmp, t);
    TakeAndGiveBack(runs, t, 1);
  }

  /** copy_string_from_task: copies a user string of at most max - 1 characters to a kernel buffer.
      The heap and the task's mappings are left as they were found, and so is every byte of memory but
      the buffer's and those of the one page that was borrowed from the heap. The buffer receives the
      string that the task sees, if and only if its bytes in the one word that is edited agree. */
  method CopyStringFromTask(k: Kernel, chunk: Word, virt: Word, phys: Word, max: nat, ghost sp: Space)
    returns (res: int, ghost t: nat, ghost page: Page, ghost s: seq<Byte>)
    requires k.Valid() && WellFormed(sp) && Linked(k.ram, sp) && Owns(k.Runs(), sp) && PointsTo(chunk, sp.chunk)
    requires 0 < max && BufferOk(k.Runs(), sp, phys, max)
    modifies k`ram, k.heap`runs, k.heap.entries
    ensures k.Valid() && k.Runs() == old(k.Runs()) && k.Table() == old(k.Table())
    ensures res == if max >= PAGE_SIZE then -EINVARG else if !Fits(old(k.Table()), 1) then -ENOMEM else 0
    ensures res != 0 ==> k.ram == old(k.ram)
    ensures res == 0 ==>
              && IsStartBlock(old(k.Table()), 1, t) && t < HEAP_BLOCKS && t !in k.Runs()
              && |s| < max && NoNul(s) && k.ram == PutBytes(old(k.ram)[HEAP_FRAME + t := page], phys, s + [0])
              && RightIffAgrees(old(k.ram), sp, t, virt, max - 1, s)
    ensures MappingsKept(old(k.ram), sp, k.ram)
  {
    t, page, s := 0, ZERO_PAGE, [];
    if max >= PAGE_SIZE {
      return -EINVARG, t, page, s;
    }
    var tmp;
    tmp, t := TakePage(k, max, sp);
    if tmp == 0 {
      return -ENOMEM, t, page, s;
    }
    page, s := CopyByPage(k, chunk, tmp, virt, phys, max, sp, t, old(k.ram), old(k.Runs()));
    ReturnPage(k, tmp, t, old(k.Runs()), old(k.Table()));
    res := 0;
  }

  // ---------------------------------------------------------------------------
  // An input for which a wrong string arrives.
  // ---------------------------------------------------------------------------

  const TASK_FLAGS := PRESENT + ACCESS_FROM_ALL

  /** Where the word of page `p` lies. */
  function WordAddress(sp: Space, p: PageNo): Word
    requires WellFormed(sp)
  {
    AddressOf(sp.tables[p / 1024]) + 4 * (p % 1024)
  }

  lemma WordAddressIsInWord(sp: Space, p: PageNo)
    requires WellFormed(sp)
    ensures var a := WordAddress(sp, p);
            InWord(sp, p, a) && a % PAGE_SIZE == 4 * (p % 1024) && a / PAGE_SIZE == HEAP_FRAME + sp.tables[p / 1024]
  {
    AddressOfFrame(sp.tables[p / 1024]);
    InPage(AddressOf(sp.tables[p / 1024]), 4 * (p % 1024));
  }

  /** In the space of a new task, that word says "present, for the user" in its first byte; while a page
      is borrowed it says "writeable" too. */
  lemma FirstByteDiffers(runs: Runs, ram0: Ram, sp: Space, runs': Runs, ram: Ram, t: nat)
    requires Created(runs, ram0, sp, TASK_FLAGS, runs', ram) && t < HEAP_BLOCKS && t !in Blocks(sp)
    ensures var v := WordAddress(sp, HEAP_FRAME + t);
            UserByte(ram, sp, v) == TASK_FLAGS && ClearOfPage(ram, sp, v, 1, t) && !WordsAgree(ram, sp, t, v, 1)
  {
    var p := HEAP_FRAME + t;
    var v := WordAddress(sp, p);
    WordAddressIsInWord(sp, p);
    NewSpaceIsIdentity(runs, ram0, sp, TASK_FLAGS, runs', ram, v);
    EntryOfHeapPage(runs, ram0, sp, runs', ram, t);
    ReadsFlags(ram, sp, v, t);
    assert v / PAGE_SIZE != HEAP_FRAME + t by {
      BlocksSplit(sp);
    }
    NotThere(ram, sp, v, t);
    OtherFlags(ram, sp, v, t);
  }

  lemma ReadsFlags(ram: Ram, sp: Space, v: Word, t: nat)
    requires WellFormed(sp) && t < HEAP_BLOCKS && AddressOf(t) % 0x1000 == 0
    requires Translate(ram, sp, v) == v && InWord(sp, HEAP_FRAME + t, v) && PlaceInWord(t, v) == 0
    requires PageEntry(ram, sp, HEAP_FRAME + t) == AddressOf(t) + TASK_FLAGS
    ensures UserByte(ram, sp, v) == TASK_FLAGS
  {
    var p := HEAP_FRAME + t;
    FirstByteIsLow(ram[HEAP_FRAME + sp.tables[p / 1024]], p % 1024);
    LowByte(AddressOf(t), TASK_FLAGS);
  }

  lemma EntryOfHeapPage(runs: Runs, ram0: Ram, sp: Space, runs': Runs, ram: Ram, t: nat)
    requires Created(runs, ram0, sp, TASK_FLAGS, runs', ram) && t < HEAP_BLOCKS
    ensures AddressOf(t) % 0x1000 == 0 && PageEntry(ram, sp, HEAP_FRAME + t) == AddressOf(t) + TASK_FLAGS
  {
    AddressOfFrame(t);
    NewSpaceIsIdentity(runs, ram0, sp, TASK_FLAGS, runs', ram, AddressOf(t));
  }

  /** An address that translates to itself and does not lie in the page is clear of it. */
  lemma NotThere(ram: Ram, sp: Space, v: Word, t: nat)
    requires WellFormed(sp) && t < HEAP_BLOCKS && Translate(ram, sp, v) == v && v / PAGE_SIZE != HEAP_FRAME + t
    ensures ClearOfPage(ram, sp, v, 1, t)
  {
    WrapSmall(v + 0);
    assert forall i: nat :: i < 1 ==> FrameRead(ram, sp, v, i) == v / PAGE_SIZE && Wrap(v + i) == v;
  }

  lemma OtherFlags(ram: Ram, sp: Space, v: Word, t: nat)
    requires WellFormed(sp) && t < HEAP_BLOCKS && AddressOf(t) % 0x1000 == 0
    requires Translate(ram, sp, v) == v && InWord(sp, HEAP_FRAME + t, v) && PlaceInWord(t, v) == 0
    requires PageEntry(ram, sp, HEAP_FRAME + t) == AddressOf(t) + TASK_FLAGS
    ensures !WordsAgree(ram, sp, t, v, 1)
  {
    LowByte(AddressOf(t), TASK_FLAGS);
    LowByte(AddressOf(t), USER_PAGE_FLAGS);
    WrapSmall(v + 0);
    assert !ByteAgrees(ram, sp, t, v, 0);
  }

  lemma FirstByteIsLow(page: Page, i: nat)
    requires i < WORDS_PER_PAGE
    ensures page[4 * i] == ReadWord(page, i) % 0x100
  {
    assert page[4 * i..4 * i + 4][0] == page[4 * i];
  }

  lemma LowByte(address: nat, flags: nat)
    requires address % 0x1000 == 0 && flags < 0x100
    ensures (address + flags) % 0x100 == flags && ToBytes(address + flags, 4)[0] == flags
  {
    Remainder(address / 0x1000, flags);
    FirstOfBytes(address + flags);
  }

  lemma Remainder(q: nat, flags: nat)
    requires flags < 0x100
    ensures (0x1000 * q + flags) % 0x100 == flags
  {
    LowRemainder(16 * q, flags);
  }

  lemma LowRemainder(q: nat, flags: nat)
    requires flags < 0x100
    ensures (0x100 * q + flags) % 0x100 == flags
  {
  }

  lemma FirstOfBytes(x: nat)
    ensures ToBytes(x, 4)[0] == x % 0x100
  {
  }

  lemma OneCharacter(bytes: seq<Byte>)
    requires |bytes| == 1 && bytes[0] != 0
    ensures CString(bytes) == bytes && Extent(bytes) == 1
  {
  }

  /** `s` and a NUL arrived at address 0 by way of block `t`, when the task passed the address of the word
      that maps that block's page, and `s` is not what is there. */
  ghost predicate WrongArrived(ram: Ram, sp: Space, t: nat, page: Page, s: seq<Byte>, ram': Ram)
    requires WellFormed(sp) && t < HEAP_BLOCKS
  {
    var virt := WordAddress(sp, HEAP_FRAME + t);
    var wrong :=
      && |s| <= 1 && ram' == PutBytes(ram[HEAP_FRAME + t := page], 0, s + [0])
      && UserByte(ram, sp, virt) == TASK_FLAGS && s != CString(UserBytes(ram, sp, virt, 1));
    wrong
  }

  /** A new task passes the address of the word that maps the first free page of the heap, and asks for
      one character: the kernel receives another character than the one that is there. */
  method CopyOfEditedWord(k: Kernel)
    returns (res: int, ghost sp: Space, ghost runs: Runs, ghost before: Ram, ghost t: nat, ghost page: Page, ghost s: seq<Byte>)
    requires k.Valid() && k.FreeCount() >= 1027
    modifies k`ram, k.heap`runs, k.heap.entries
    ensures res == 0 && Created(old(k.Runs()), old(k.ram), sp, TASK_FLAGS, runs, before)
    ensures t < HEAP_BLOCKS && t !in runs && k.Runs() == runs && WrongArrived(before, sp, t, page, s, k.ram)
  {
    ghost var runs0, ram0 := k.Runs(), k.ram;
    var chunk, space := PagingNew4gb(k, TASK_FLAGS);
    sp, runs, before := space, k.Runs(), k.ram;
    res, t, page, s := CopyOneByte(k, chunk, sp, runs0, ram0);
  }

  /** At `v` lies the word that maps block `b`'s page, and it does not agree while that page is borrowed. */
  ghost predicate WordDiffers(ram: Ram, sp: Space, b: nat, v: Word)
    requires WellFormed(sp) && b < HEAP_BLOCKS
  {
    var differs :=
      && v == WordAddress(sp, HEAP_FRAME + b) && UserByte(ram, sp, v) == TASK_FLAGS
      && ClearOfPage(ram, sp, v, 1, b) && !WordsAgree(ram, sp, b, v, 1);
    differs
  }

  /** The copy: a string of at most one character from that address to address 0. */
  method CopyOneByte(k: Kernel, chunk: Word, ghost sp: Space, ghost runs: Runs, ghost ram0: Ram)
    returns (res: int, ghost t: nat, ghost page: Page, ghost s: seq<Byte>)
    requires k.Valid() && k.FreeCount() >= 1 && Created(runs, ram0, sp, TASK_FLAGS, k.Runs(), k.ram) && PointsTo(chunk, sp.chunk)
    modifies k`ram, k.heap`runs, k.heap.entries
    ensures res == 0 && t < HEAP_BLOCKS && t !in k.Runs() && k.Runs() == old(k.Runs()) && WrongArrived(old(k.ram), sp, t, page, s, k.ram)
  {
    OnePage(k.Table(), 1);
    var v, b := FirstFreeWord(k, chunk, sp, runs, ram0);
    LowMemoryIsOk(k.Runs(), sp, 2);
    res, t, page, s := CopyStringFromTask(k, chunk, v, 0, 2, sp);
    StartBlockIsUnique(old(k.Table()), 1, b, t);
    WrongCharacter(old(k.ram), sp, t, v, page, s, k.ram);
  }

  /** The address of the word that maps the first free page of the heap. */
  method FirstFreeWord(k: Kernel, chunk: Word, ghost sp: Space, ghost runs: Runs, ghost ram0: Ram) returns (v: Word, b: nat)
    requires k.Valid() && Fits(k.Table(), 1) && Created(runs, ram0, sp, TASK_FLAGS, k.Runs(), k.ram) && PointsTo(chunk, sp.chunk)
    ensures Owns(k.Runs(), sp) && IsStartBlock(k.Table(), 1, b) && b < HEAP_BLOCKS && WordDiffers(k.ram, sp, b, v)
  {
    var start := k.heap.GetStartBlock(1);
    FirstFreeDiffers(runs, ram0, sp, k.Table(), k.Runs(), k.ram, start);
    b := start;
    v := EditedWord(k, chunk, start, sp);
  }

  lemma WrongCharacter(ram: Ram, sp: Space, t: nat, v: Word, page: Page, s: seq<Byte>, ram': Ram)
    requires WellFormed(sp) && t < HEAP_BLOCKS && WordDiffers(ram, sp, t, v) && RightIffAgrees(ram, sp, t, v, 1, s)
    requires |s| <= 1 && ram' == PutBytes(ram[HEAP_FRAME + t := page], 0, s + [0])
    ensures WrongArrived(ram, sp, t, page, s, ram')
  {
    NotTheCharacter(ram, sp, t, v, s);
  }

  lemma NotTheCharacter(ram: Ram, sp: Space, t: nat, v: Word, s: seq<Byte>)
    requires WellFormed(sp) && t < HEAP_BLOCKS && RightIffAgrees(ram, sp, t, v, 1, s)
    requires UserByte(ram, sp, v) == TASK_FLAGS && ClearOfPage(ram, sp, v, 1, t) && !WordsAgree(ram, sp, t, v, 1)
    ensures s != CString(UserBytes(ram, sp, v, 1))
  {
    WrapSmall(v + 0);
    assert UserBytes(ram, sp, v, 1)[0] == TASK_FLAGS;
    OneCharacter(UserBytes(ram, sp, v, 1));
  }

  /** The first free block is none of the space's, and the word of its page does not agree. */
  lemma FirstFreeDiffers(runs0: Runs, ram0: Ram, sp: Space, e: seq<Entry>, runs: Runs, ram: Ram, b: int)
    requires Created(runs0, ram0, sp, TASK_FLAGS, runs, ram) && Encodes(e, runs) && |e| == HEAP_BLOCKS && Fits(e, 1) && IsStartBlock(e, 1, b)
    ensures Owns(runs, sp) && 0 <= b < HEAP_BLOCKS && b !in Blocks(sp)
    ensures var v := WordAddress(sp, HEAP_FRAME + b);
            UserByte(ram, sp, v) == TASK_FLAGS && ClearOfPage(ram, sp, v, 1, b) && !WordsAgree(ram, sp, b, v, 1)
  {
    CreatedIsOwned(runs0, ram0, sp, TASK_FLAGS, runs, ram);
    FirstFreeIsNoTable(e, runs, sp, b);
    FirstByteDiffers(runs0, ram0, sp, runs, ram, b);
  }

  lemma FirstFreeIsNoTable(e: seq<Entry>, runs: Runs, sp: Space, b: int)
    requires Encodes(e, runs) && |e| == HEAP_BLOCKS && Fits(e, 1) && IsStartBlock(e, 1, b) && Owns(runs, sp)
    ensures 0 <= b < HEAP_BLOCKS && b !in Blocks(sp)
  {
    FreeRunIsOutside(e, runs, b, 1);
    assert b in Blocks(sp) ==> Covers(runs, b, b);
  }

  /** A task finds the word's address through the directory. */
  method EditedWord(k: Kernel, chunk: Word, b: nat, ghost sp: Space) returns (v: Word)
    requires WellFormed(sp) && Linked(k.ram, sp) && PointsTo(chunk, sp.chunk) && b < HEAP_BLOCKS
    ensures v == WordAddress(sp, HEAP_FRAME + b)
  {
    AddressOfFrame(sp.chunk);
    var directory := LoadIndex(k.ram, chunk, 0);
    MaskGivesTable(k.ram, sp, (HEAP_FRAME + b) / 1024);
    v := PageBase(LoadIndex(k.ram, directory, (HEAP_FRAME + b) / 1024)) + 4 * ((HEAP_FRAME + b) % 1024);
  }

  /** The first bytes of memory lie outside the heap. */
  lemma LowMemoryIsOk(runs: Runs, sp: Space, max: nat)
    requires WellFormed(sp) && max <= PAGE_SIZE
    ensures BufferOk(runs, sp, 0, max)
  {
    forall f: nat | f < TOTAL_FRAMES && !FrameClear(0, max, f) ensures f == 0 {
    }
  }
}
