/** process_inject_arguments: an argument list copied into a process's own memory as argc and argv. */
module Arguments {
  import opened Memory
  import opened Heaps
  import opened Kheap
  import opened Paging
  import opened Strings
  import opened CopyStrings
  import opened Processes
  import opened ProcessRuns
  import opened Strtok
  import opened Commands
  import opened Status

  const MAX_ARGUMENT := ARGUMENT_SIZE - 1

  /** command_count_arguments */
  method CountArguments(root: CommandArgument?, ghost nodes: seq<CommandArgument>) returns (count: nat)
    requires IsList(root, nodes)
    ensures count == |nodes|
  {
    var cur := root;
    count := 0;
    while cur != null
      invariant count <= |nodes| && cur == if count < |nodes| then nodes[count] else null
      decreases |nodes| - count
    {
      assert LinkOk(nodes, count);
      count := count + 1;
      cur := cur.next;
    }
  }

  // ---------------------------------------------------------------------------
  // What other writes leave alone.
  // ---------------------------------------------------------------------------

  /** Writing a page that holds no table keeps a process's memory consistent. */
  lemma WriteKeeps(im: Image, base: Runs, sp: Space, b: nat, page: Page)
    requires Consistent(im, base, sp) && b < HEAP_BLOCKS && b !in Blocks(sp)
    ensures Consistent(im.(ram := im.ram[HEAP_FRAME + b := page]), base, sp)
  {
    UntouchedKeeps(im.ram, sp, im.ram[HEAP_FRAME + b := page]);
  }

  /** A further allocation leaves the pages of earlier ones alone. */
  lemma MallocKeepsBlock(im: Image, base: Runs, sp: Space, size: Word, im': Image, ptr: Word, i: nat, block: nat,
                         cleared: Ram, s: nat, b: nat)
    requires Consistent(im, base, sp) && 1 <= size <= MAX_SIZE && ptr != 0
    requires MallocStep(im, sp, size, im', ptr, i, block, cleared)
    requires OwnBlock(im.runs, base, s, b)
    ensures OwnBlock(im'.runs, base, s, b) && im'.ram[HEAP_FRAME + b] == im.ram[HEAP_FRAME + b]
    ensures !(block <= b < block + BlocksFor(size))
  {
    OwnBlockIsNoTable(im, base, sp, s, b);
    MallocKeeps(im, base, sp, size, im', ptr, i, block, cleared);
    assert s in im'.runs && block in im'.runs && s != block;
    ClearedOutside(im.ram, cleared, block, size);
    MallocElsewhere(im, base, sp, size, im', ptr, i, block, cleared, b);
  }

  // ---------------------------------------------------------------------------
  // What the process leaves alone: the pages of the runs outside it.
  // ---------------------------------------------------------------------------

  lemma ConfinedBoth(base: Runs, sp: Space, ram0: Ram, ram1: Ram, ram2: Ram)
    requires OnlyOwnChanged(base, ram0, sp, ram1) && OnlyOwnChanged(base, ram1, sp, ram2)
    ensures OnlyOwnChanged(base, ram0, sp, ram2)
  {
  }

  lemma OutsideBase(im: Image, base: Runs, sp: Space, s: nat, b: nat)
    requires Consistent(im, base, sp) && OwnBlock(im.runs, base, s, b)
    ensures Uncovered(base, b)
  {
    OwnIsOutside(im.runs, base, im.slots, s, b);
  }

  lemma OwnIsOutside(runs: Runs, base: Runs, slots: seq<Allocation>, s: nat, b: nat)
    requires SlotsAreRuns(runs, base, slots) && DisjointRuns(runs, HEAP_BLOCKS) && OwnBlock(runs, base, s, b)
    ensures Uncovered(base, b)
  {
    forall t: nat ensures !Covers(base, t, b) {
      assert t in base ==> t in runs && runs[t] == base[t];
    }
  }

  /** A write to a block outside those runs. */
  lemma WriteConfined(base: Runs, sp: Space, ram: Ram, b: nat, page: Page)
    requires Uncovered(base, b) && b < HEAP_BLOCKS
    ensures OnlyOwnChanged(base, ram, sp, ram[HEAP_FRAME + b := page])
  {
  }

  /** An allocation, whether it succeeds or not. */
  lemma MallocConfined(im: Image, base: Runs, sp: Space, size: Word, im': Image, ptr: Word, i: nat, block: nat, cleared: Ram)
    requires Consistent(im, base, sp) && 1 <= size <= MAX_SIZE && MallocStep(im, sp, size, im', ptr, i, block, cleared)
    ensures OnlyOwnChanged(base, im.ram, sp, im'.ram)
  {
    if ptr != 0 {
      FreshRunConfined(im, base, sp, cleared, block, size);
      EndOfRun(ptr, block, size);
      MappedToSelfEffect(cleared, sp, ptr, block, size, USER_FLAGS);
    } else if im'.ram != im.ram {
      FreshRunConfined(im, base, sp, im'.ram, block, size);
    }
  }

  lemma FreshRunConfined(im: Image, base: Runs, sp: Space, cleared: Ram, block: nat, size: Word)
    requires Consistent(im, base, sp) && 1 <= size && FreshRun(im, cleared, block, size)
    ensures OnlyOwnChanged(base, im.ram, sp, cleared)
  {
    ClearedOutside(im.ram, cleared, block, size);
    forall b: nat | block <= b < block + BlocksFor(size) ensures Uncovered(base, b) {
      FreshIsOutsideBase(im.runs, base, im.slots, block, BlocksFor(size), b);
    }
    assert forall f :: 0 <= f < TOTAL_FRAMES && cleared[f] != im.ram[f] ==> MayChange(base, sp, f);
  }

  lemma FreshIsOutsideBase(runs: Runs, base: Runs, slots: seq<Allocation>, block: nat, n: nat, b: nat)
    requires SlotsAreRuns(runs, base, slots) && block !in runs && DisjointRuns(runs[block := n], HEAP_BLOCKS) && block <= b < block + n
    ensures Uncovered(base, b)
  {
    var runs' := runs[block := n];
    forall t: nat ensures !Covers(base, t, b) {
      assert t in base ==> t in runs' && runs'[t] == base[t] && t != block;
      assert block in runs' && runs'[block] == n;
    }
  }

  // ---------------------------------------------------------------------------
  // The vector under construction.
  // ---------------------------------------------------------------------------

  /** What the process is to see: the argument cut to what fits. */
  ghost function Text(node: CommandArgument): seq<Byte> {
    Cut(CString(node.argument), MAX_ARGUMENT)
  }

  /** Pages of argv's run. */
  function VectorBlocks(argc: nat): nat {
    (4 * argc + PAGE_SIZE - 1) / PAGE_SIZE
  }

  /** The first |blocks| slots of argv hold pointers to allocations of the process that hold the
      arguments. */
  ghost predicate Filled(im: Image, base: Runs, vector: nat, argc: nat, blocks: seq<nat>, nodes: seq<CommandArgument>) {
    var filled :=
      && |blocks| <= argc == |nodes| && vector + VectorBlocks(argc) <= HEAP_BLOCKS
      && vector in im.runs && im.runs[vector] == VectorBlocks(argc) && vector !in base
      && forall j: nat :: j < |blocks| ==> SlotFilled(im, base, vector, argc, blocks, nodes, j);
    filled
  }

  ghost predicate SlotFilled(im: Image, base: Runs, vector: nat, argc: nat, blocks: seq<nat>, nodes: seq<CommandArgument>, j: nat)
    requires j < |blocks| <= argc == |nodes| && vector + VectorBlocks(argc) <= HEAP_BLOCKS
  {
    var filled :=
      && blocks[j] < HEAP_BLOCKS && OwnBlock(im.runs, base, blocks[j], blocks[j])
      && !(vector <= blocks[j] < vector + VectorBlocks(argc))
      && VectorIndexOk(argc, j)
      && ReadWord(im.ram[HEAP_FRAME + vector + j / 1024], j % 1024) == AddressOf(blocks[j])
      && Holds(im.ram[HEAP_FRAME + blocks[j]], Text(nodes[j]));
    filled
  }

  /** argv[j] lies inside the run: nothing is written past its argc slots. */
  predicate VectorIndexOk(argc: nat, j: nat) {
    j / 1024 < VectorBlocks(argc)
  }

  /** Byte `k` of frame `f` lies in argv's run, behind its `argc` slots. */
  predicate BehindVector(vector: nat, argc: nat, f: int, k: int) {
    && vector <= f - HEAP_FRAME < vector + VectorBlocks(argc)
    && 4 * argc <= (f - HEAP_FRAME - vector) * PAGE_SIZE + k
  }

  /** The bytes behind the `argc` slots of argv are untouched. */
  ghost predicate TailKept(ram: Ram, ram': Ram, vector: nat, argc: nat) {
    var kept := forall f, k :: 0 <= f < TOTAL_FRAMES && 0 <= k < PAGE_SIZE && BehindVector(vector, argc, f, k) ==> ram'[f][k] == ram[f][k];
    kept
  }

  lemma VectorIndex(argc: nat, j: nat)
    requires j < argc
    ensures VectorIndexOk(argc, j)
  {
  }

  lemma {:induction false} CStringOfPrefix(s: seq<Byte>, n: nat)
    requires n <= |s|
    ensures CString(s[..n]) == Cut(CString(s), n)
  {
    if n > 0 && s[0] != 0 {
      CStringOfPrefix(s[1..], n - 1);
      assert s[..n][1..] == s[1..][..n - 1];
    }
  }

  /** strncpy to a page of physical memory; the bytes behind the string and its NUL stay. */
  method StrncpyToPage(k: Kernel, dest: Word, src: seq<Byte>, count: nat) returns (ghost page: Page)
    requires dest % PAGE_SIZE == 0 && 0 < count <= |src| && count < PAGE_SIZE
    modifies k`ram
    ensures k.ram == old(k.ram)[dest / PAGE_SIZE := page]
    ensures var s := Cut(CString(src), count - 1); Holds(page, s) && SameFrom(old(k.ram)[dest / PAGE_SIZE], page, |s| + 1)
  {
    ghost var ram0, f, source := k.ram, dest / PAGE_SIZE, src[..count - 1];
    ghost var page0 := k.ram[f];
    page := page0;
    var i := 0;
    while i < count - 1
      invariant 0 <= i <= count - 1 && k.ram == ram0[f := page] && Copied(page0, page, source, i)
    {
      if src[i] == 0 {
        break;
      }
      InPage(dest, i);
      StoreInPage(k.ram, dest, i, src[i]);
      k.ram := StoreByte(k.ram, dest + i, src[i]);
      UpdateTwice(ram0, f, page, WriteByte(page, i, src[i]));
      CopiedMore(page0, page, source, i);
      page := WriteByte(page, i, src[i]);
      i := i + 1;
    }
    InPage(dest, i);
    StoreInPage(k.ram, dest, i, 0);
    k.ram := StoreByte(k.ram, dest + i, 0);
    UpdateTwice(ram0, f, page, WriteByte(page, i, 0));
    CopiedAll(page0, page, source, i);
    page := WriteByte(page, i, 0);
    CStringOfPrefix(src, count - 1);
  }

  /** A further one-page allocation keeps the vector; its block is none of the vector's. */
  lemma MallocKeepsFilled(im: Image, base: Runs, sp: Space, vector: nat, argc: nat, blocks: seq<nat>, nodes: seq<CommandArgument>,
                          im': Image, ptr: Word, i: nat, t: nat, cleared: Ram)
    requires Consistent(im, base, sp) && Filled(im, base, vector, argc, blocks, nodes) && ptr != 0
    requires MallocStep(im, sp, ARGUMENT_SIZE, im', ptr, i, t, cleared)
    ensures Consistent(im', base, sp) && Filled(im', base, vector, argc, blocks, nodes)
    ensures t < HEAP_BLOCKS && OwnBlock(im'.runs, base, t, t) && !(vector <= t < vector + VectorBlocks(argc)) && t !in blocks
  {
    MallocKeeps(im, base, sp, ARGUMENT_SIZE, im', ptr, i, t, cleared);
    assert BlocksFor(ARGUMENT_SIZE) == 1;
    if Covers(im.runs, vector, t) {
      MallocKeepsBlock(im, base, sp, ARGUMENT_SIZE, im', ptr, i, t, cleared, vector, t);
    }
    forall j: nat | j < |blocks| ensures blocks[j] != t && SlotFilled(im', base, vector, argc, blocks, nodes, j) {
      MallocKeepsSlot(im, base, sp, vector, argc, blocks, nodes, im', ptr, i, t, cleared, j);
    }
    assert t in base ==> t in im.runs;
  }

  lemma MallocKeepsSlot(im: Image, base: Runs, sp: Space, vector: nat, argc: nat, blocks: seq<nat>, nodes: seq<CommandArgument>,
                        im': Image, ptr: Word, i: nat, t: nat, cleared: Ram, j: nat)
    requires Consistent(im, base, sp) && Filled(im, base, vector, argc, blocks, nodes) && ptr != 0 && j < |blocks|
    requires MallocStep(im, sp, ARGUMENT_SIZE, im', ptr, i, t, cleared)
    ensures blocks[j] != t && SlotFilled(im', base, vector, argc, blocks, nodes, j)
  {
    SlotOwned(im, base, vector, argc, blocks, nodes, j);
    StringKeepsBlock(im, base, sp, im', ptr, i, t, cleared, blocks[j], blocks[j]);
    StringKeepsBlock(im, base, sp, im', ptr, i, t, cleared, vector, vector + j / 1024);
    SlotSurvives(im, im', base, vector, argc, blocks, nodes, j);
  }

  lemma StringKeepsBlock(im: Image, base: Runs, sp: Space, im': Image, ptr: Word, i: nat, t: nat, cleared: Ram, s: nat, b: nat)
    requires Consistent(im, base, sp) && ptr != 0 && MallocStep(im, sp, ARGUMENT_SIZE, im', ptr, i, t, cleared)
    requires OwnBlock(im.runs, base, s, b)
    ensures b < HEAP_BLOCKS && b != t && OwnBlock(im'.runs, base, s, b) && im'.ram[HEAP_FRAME + b] == im.ram[HEAP_FRAME + b]
  {
    OwnBlockIsNoTable(im, base, sp, s, b);
    MallocKeepsBlock(im, base, sp, ARGUMENT_SIZE, im', ptr, i, t, cleared, s, b);
    assert BlocksFor(ARGUMENT_SIZE) == 1;
  }

  /** A slot depends on its own word and on the page it points to. */
  lemma SlotSurvives(im: Image, im': Image, base: Runs, vector: nat, argc: nat, blocks: seq<nat>, nodes: seq<CommandArgument>, j: nat)
    requires Filled(im, base, vector, argc, blocks, nodes) && j < |blocks|
    requires OwnBlock(im'.runs, base, blocks[j], blocks[j])
    requires blocks[j] < HEAP_BLOCKS ==> im'.ram[HEAP_FRAME + blocks[j]] == im.ram[HEAP_FRAME + blocks[j]]
    requires vector + j / 1024 < HEAP_BLOCKS ==> im'.ram[HEAP_FRAME + vector + j / 1024] == im.ram[HEAP_FRAME + vector + j / 1024]
    ensures SlotFilled(im', base, vector, argc, blocks, nodes, j)
  {
    assert SlotFilled(im, base, vector, argc, blocks, nodes, j);
  }

  lemma SlotOwned(im: Image, base: Runs, vector: nat, argc: nat, blocks: seq<nat>, nodes: seq<CommandArgument>, j: nat)
    requires Filled(im, base, vector, argc, blocks, nodes) && j < |blocks|
    ensures OwnBlock(im.runs, base, vector, vector + j / 1024) && OwnBlock(im.runs, base, blocks[j], blocks[j])
  {
    assert SlotFilled(im, base, vector, argc, blocks, nodes, j);
  }

  lemma MallocKeepsTail(im: Image, base: Runs, sp: Space, vector: nat, argc: nat, blocks: seq<nat>, nodes: seq<CommandArgument>,
                        im': Image, ptr: Word, i: nat, t: nat, cleared: Ram)
    requires Consistent(im, base, sp) && Filled(im, base, vector, argc, blocks, nodes) && ptr != 0
    requires MallocStep(im, sp, ARGUMENT_SIZE, im', ptr, i, t, cleared)
    ensures TailKept(im.ram, im'.ram, vector, argc)
  {
    forall f, k | 0 <= f < TOTAL_FRAMES && 0 <= k < PAGE_SIZE && BehindVector(vector, argc, f, k) ensures im'.ram[f] == im.ram[f] {
      MallocKeepsBlock(im, base, sp, ARGUMENT_SIZE, im', ptr, i, t, cleared, vector, f - HEAP_FRAME);
    }
  }

  lemma TailKeptTrans(ram0: Ram, ram1: Ram, ram2: Ram, vector: nat, argc: nat)
    requires TailKept(ram0, ram1, vector, argc) && TailKept(ram1, ram2, vector, argc)
    ensures TailKept(ram0, ram2, vector, argc)
  {
  }

  /** Writing the page of a new allocation keeps the vector. */
  lemma WriteKeepsFilled(im: Image, base: Runs, vector: nat, argc: nat, blocks: seq<nat>, nodes: seq<CommandArgument>, t: nat, page: Page)
    requires Filled(im, base, vector, argc, blocks, nodes)
    requires t < HEAP_BLOCKS && t !in blocks && !(vector <= t < vector + VectorBlocks(argc))
    ensures Filled(im.(ram := im.ram[HEAP_FRAME + t := page]), base, vector, argc, blocks, nodes)
  {
    var im' := im.(ram := im.ram[HEAP_FRAME + t := page]);
    forall j: nat | j < |blocks| ensures SlotFilled(im', base, vector, argc, blocks, nodes, j) {
      assert SlotFilled(im, base, vector, argc, blocks, nodes, j);
    }
  }

  /** Memory after argv[n] is set. */
  function WithSlot(ram: Ram, vector: nat, n: nat, t: nat): Ram
    requires vector + n / 1024 < HEAP_BLOCKS && t < HEAP_BLOCKS
  {
    var f := HEAP_FRAME + vector + n / 1024;
    ram[f := WriteWord(ram[f], n % 1024, AddressOf(t))]
  }

  /** Setting the next slot to an allocation that holds the next argument extends the vector. */
  lemma SlotAdded(im: Image, base: Runs, vector: nat, argc: nat, blocks: seq<nat>, nodes: seq<CommandArgument>, t: nat)
    requires Filled(im, base, vector, argc, blocks, nodes) && |blocks| < argc && vector + |blocks| / 1024 < HEAP_BLOCKS
    requires t < HEAP_BLOCKS && OwnBlock(im.runs, base, t, t) && !(vector <= t < vector + VectorBlocks(argc))
    requires Holds(im.ram[HEAP_FRAME + t], Text(nodes[|blocks|]))
    ensures Filled(im.(ram := WithSlot(im.ram, vector, |blocks|, t)), base, vector, argc, blocks + [t], nodes)
    ensures TailKept(im.ram, WithSlot(im.ram, vector, |blocks|, t), vector, argc)
  {
    var n := |blocks|;
    var im' := im.(ram := WithSlot(im.ram, vector, n, t));
    VectorIndex(argc, n);
    WriteWordBytes(im.ram[HEAP_FRAME + vector + n / 1024], n % 1024, AddressOf(t));
    forall j: nat | j < n + 1 ensures SlotFilled(im', base, vector, argc, blocks + [t], nodes, j) {
      if j < n {
        SlotStays(im, base, vector, argc, blocks, nodes, t, j);
      }
    }
  }

  lemma SlotStays(im: Image, base: Runs, vector: nat, argc: nat, blocks: seq<nat>, nodes: seq<CommandArgument>, t: nat, j: nat)
    requires Filled(im, base, vector, argc, blocks, nodes) && |blocks| < argc && vector + |blocks| / 1024 < HEAP_BLOCKS
    requires t < HEAP_BLOCKS && j < |blocks|
    ensures SlotFilled(im.(ram := WithSlot(im.ram, vector, |blocks|, t)), base, vector, argc, blocks + [t], nodes, j)
  {
    var n := |blocks|;
    VectorIndex(argc, n);
    assert SlotFilled(im, base, vector, argc, blocks, nodes, j);
    assert j / 1024 == n / 1024 ==> j % 1024 != n % 1024;
  }

  /** argv[n] = ptr, for an argv of any number of pages. */
  method SetSlot(k: Kernel, argv: Word, n: nat, ptr: Word, ghost vector: nat, ghost t: nat)
    requires PointsTo(argv, vector) && PointsTo(ptr, t) && vector + n / 1024 < HEAP_BLOCKS
    modifies k`ram
    ensures k.ram == WithSlot(old(k.ram), vector, n, t)
  {
    AddressOfFrame(vector);
    AddressOfFrame(vector + n / 1024);
    k.ram := StoreIndex(k.ram, argv + n / 1024 * PAGE_SIZE, n % 1024, ptr);
  }

  /** One turn of the loop of process_inject_arguments: an allocation for the string, the copy, and
      the slot of argv. */
  method AddArgument(p: Process, argv: Word, n: nat, cur: CommandArgument,
                     ghost base: Runs, ghost vector: nat, ghost blocks: seq<nat>, ghost nodes: seq<CommandArgument>)
    returns (ok: bool, ghost t: nat)
    requires p.Valid() && Consistent(p.Now(), base, p.sp) && Filled(p.Now(), base, vector, |nodes|, blocks, nodes)
    requires PointsTo(argv, vector) && n == |blocks| < |nodes| && cur == nodes[n] && |cur.argument| == ARGUMENT_SIZE
    modifies p.k`ram, p.k.heap`runs, p.k.heap.entries, p.slots
    ensures p.Valid() && Consistent(p.Now(), base, p.sp)
    ensures ok <==> old(p.k.FreeCount()) > 0 && old(p.FreeSlots()) > 0
    ensures var n := if ok then 1 else 0; p.k.FreeCount() == old(p.k.FreeCount()) - n && p.FreeSlots() == old(p.FreeSlots()) - n
    ensures ok ==> Filled(p.Now(), base, vector, |nodes|, blocks + [t], nodes) && TailKept(old(p.k.ram), p.k.ram, vector, |nodes|)
    ensures OnlyOwnChanged(base, old(p.k.ram), p.sp, p.k.ram)
  {
    var argument_str;
    argument_str, t := NewString(p, base, vector, blocks, nodes);
    if argument_str == 0 {
      return false, t;
    }
    ghost var ram0, ram1 := old(p.k.ram), p.k.ram;
    VectorIndex(|nodes|, n);
    FillArgument(p, argv, n, cur, argument_str, base, vector, blocks, nodes, t);
    TailKeptTrans(ram0, ram1, p.k.ram, vector, |nodes|);
    ConfinedBoth(base, p.sp, ram0, ram1, p.k.ram);
    ok := true;
  }

  /** process_malloc for one string. */
  method NewString(p: Process, ghost base: Runs, ghost vector: nat, ghost blocks: seq<nat>, ghost nodes: seq<CommandArgument>)
    returns (argument_str: Word, ghost t: nat)
    requires p.Valid() && Consistent(p.Now(), base, p.sp) && Filled(p.Now(), base, vector, |nodes|, blocks, nodes)
    modifies p.k`ram, p.k.heap`runs, p.k.heap.entries, p.slots
    ensures p.Valid() && Consistent(p.Now(), base, p.sp)
    ensures argument_str != 0 <==> old(p.k.FreeCount()) > 0 && old(p.FreeSlots()) > 0
    ensures var n := if argument_str != 0 then 1 else 0; p.k.FreeCount() == old(p.k.FreeCount()) - n && p.FreeSlots() == old(p.FreeSlots()) - n
    ensures argument_str != 0 ==>
              && PointsTo(argument_str, t) && OwnBlock(p.k.Runs(), base, t, t) && t !in blocks
              && !(vector <= t < vector + VectorBlocks(|nodes|))
              && Filled(p.Now(), base, vector, |nodes|, blocks, nodes) && TailKept(old(p.k.ram), p.k.ram, vector, |nodes|)
    ensures OnlyOwnChanged(base, old(p.k.ram), p.sp, p.k.ram)
  {
    OnePage(p.k.Table(), ARGUMENT_SIZE);
    ghost var before, i: nat, b: nat, cleared := p.Now(), 0, 0, p.k.ram;
    argument_str, i, b, cleared := p.Malloc(ARGUMENT_SIZE);
    t := b;
    MallocConfined(before, base, p.sp, ARGUMENT_SIZE, p.Now(), argument_str, i, t, cleared);
    if argument_str == 0 {
      MallocKeeps(before, base, p.sp, ARGUMENT_SIZE, p.Now(), argument_str, i, t, cleared);
    } else {
      MallocKeepsFilled(before, base, p.sp, vector, |nodes|, blocks, nodes, p.Now(), argument_str, i, t, cleared);
      MallocKeepsTail(before, base, p.sp, vector, |nodes|, blocks, nodes, p.Now(), argument_str, i, t, cleared);
    }
  }

  /** Setting the slot keeps the process's memory consistent. */
  lemma SlotKeeps(im: Image, base: Runs, sp: Space, vector: nat, argc: nat, n: nat, t: nat)
    requires Consistent(im, base, sp) && OwnBlock(im.runs, base, vector, vector + n / 1024) && t < HEAP_BLOCKS
    requires vector + n / 1024 < HEAP_BLOCKS
    ensures Consistent(im.(ram := WithSlot(im.ram, vector, n, t)), base, sp)
  {
    OwnBlockIsNoTable(im, base, sp, vector, vector + n / 1024);
    WriteKeeps(im, base, sp, vector + n / 1024, WithSlot(im.ram, vector, n, t)[HEAP_FRAME + vector + n / 1024]);
  }

  /** Memory after the page of the string is written and the slot is set. */
  lemma ArgumentFilled(im0: Image, base: Runs, sp: Space, vector: nat, blocks: seq<nat>, nodes: seq<CommandArgument>, t: nat, page: Page)
    requires Consistent(im0, base, sp) && Filled(im0, base, vector, |nodes|, blocks, nodes) && |blocks| < |nodes|
    requires t < HEAP_BLOCKS && OwnBlock(im0.runs, base, t, t) && t !in blocks
    requires !(vector <= t < vector + VectorBlocks(|nodes|)) && vector + |blocks| / 1024 < HEAP_BLOCKS
    requires Holds(page, Text(nodes[|blocks|]))
    ensures var im := im0.(ram := WithSlot(im0.ram[HEAP_FRAME + t := page], vector, |blocks|, t));
            && Consistent(im, base, sp) && Filled(im, base, vector, |nodes|, blocks + [t], nodes)
            && TailKept(im0.ram, im.ram, vector, |nodes|) && OnlyOwnChanged(base, im0.ram, sp, im.ram)
  {
    var n, im1 := |blocks|, im0.(ram := im0.ram[HEAP_FRAME + t := page]);
    OwnBlockIsNoTable(im0, base, sp, t, t);
    WriteKeeps(im0, base, sp, t, page);
    WriteKeepsFilled(im0, base, vector, |nodes|, blocks, nodes, t, page);
    SlotAdded(im1, base, vector, |nodes|, blocks, nodes, t);
    assert OwnBlock(im1.runs, base, vector, vector + n / 1024) by {
      VectorIndex(|nodes|, n);
    }
    SlotKeeps(im1, base, sp, vector, |nodes|, n, t);
    ArgumentConfined(im0, base, sp, vector, n, t, page);
    TailKeptOverPage(im0.ram, vector, |nodes|, t, page, WithSlot(im1.ram, vector, n, t));
  }

  lemma ArgumentConfined(im: Image, base: Runs, sp: Space, vector: nat, n: nat, t: nat, page: Page)
    requires Consistent(im, base, sp) && t < HEAP_BLOCKS && OwnBlock(im.runs, base, t, t)
    requires vector + n / 1024 < HEAP_BLOCKS && OwnBlock(im.runs, base, vector, vector + n / 1024)
    ensures OnlyOwnChanged(base, im.ram, sp, WithSlot(im.ram[HEAP_FRAME + t := page], vector, n, t))
  {
    OutsideBase(im, base, sp, t, t);
    OutsideBase(im, base, sp, vector, vector + n / 1024);
    var ram1 := im.ram[HEAP_FRAME + t := page];
    var ram2 := WithSlot(ram1, vector, n, t);
    WriteConfined(base, sp, im.ram, t, page);
    WriteConfined(base, sp, ram1, vector + n / 1024, ram2[HEAP_FRAME + vector + n / 1024]);
    ConfinedBoth(base, sp, im.ram, ram1, ram2);
  }

  lemma TailKeptOverPage(ram: Ram, vector: nat, argc: nat, t: nat, page: Page, ram': Ram)
    requires t < HEAP_BLOCKS && !(vector <= t < vector + VectorBlocks(argc))
    requires TailKept(ram[HEAP_FRAME + t := page], ram', vector, argc)
    ensures TailKept(ram, ram', vector, argc)
  {
  }

  method FillArgument(p: Process, argv: Word, n: nat, cur: CommandArgument, argument_str: Word,
                      ghost base: Runs, ghost vector: nat, ghost blocks: seq<nat>, ghost nodes: seq<CommandArgument>, ghost t: nat)
    requires p.Valid() && Consistent(p.Now(), base, p.sp) && Filled(p.Now(), base, vector, |nodes|, blocks, nodes)
    requires PointsTo(argv, vector) && n == |blocks| < |nodes| && cur == nodes[n] && |cur.argument| == ARGUMENT_SIZE
    requires PointsTo(argument_str, t) && OwnBlock(p.k.Runs(), base, t, t) && t !in blocks
    requires !(vector <= t < vector + VectorBlocks(|nodes|)) && n / 1024 < VectorBlocks(|nodes|)
    modifies p.k`ram
    ensures p.Valid() && Consistent(p.Now(), base, p.sp)
    ensures Filled(p.Now(), base, vector, |nodes|, blocks + [t], nodes) && TailKept(old(p.k.ram), p.k.ram, vector, |nodes|)
    ensures p.k.FreeCount() == old(p.k.FreeCount()) && p.FreeSlots() == old(p.FreeSlots())
    ensures OnlyOwnChanged(base, old(p.k.ram), p.sp, p.k.ram)
  {
    ghost var im0 := p.Now();
    AddressOfFrame(t);
    var page := StrncpyToPage(p.k, argument_str, cur.argument, ARGUMENT_SIZE);
    ArgumentFilled(im0, base, p.sp, vector, blocks, nodes, t, page);
    SetSlot(p.k, argv, n, argument_str, vector, t);
    assert p.Now() == im0.(ram := WithSlot(im0.ram[HEAP_FRAME + t := page], vector, n, t));
  }

  lemma ClearedBehind(ram: Ram, cleared: Ram, vector: nat, argc: nat)
    requires vector < HEAP_BLOCKS && Cleared(ram, cleared, AddressOf(vector), 4 * argc)
    ensures TailKept(ram, cleared, vector, argc)
  {
  }

  /** Taking the run for argv clears its slots and nothing behind them. */
  lemma FreshTailKept(im: Image, base: Runs, sp: Space, im': Image, ptr: Word, i: nat, vector: nat, cleared: Ram, argc: nat)
    requires 0 < argc && 4 * argc <= MAX_SIZE && ptr != 0 && Consistent(im, base, sp)
    requires MallocStep(im, sp, 4 * argc, im', ptr, i, vector, cleared)
    ensures TailKept(im.ram, im'.ram, vector, argc)
  {
    assert Cleared(im.ram, cleared, AddressOf(vector), 4 * argc);
    ClearedBehind(im.ram, cleared, vector, argc);
    forall f, k | 0 <= f < TOTAL_FRAMES && 0 <= k < PAGE_SIZE && BehindVector(vector, argc, f, k) ensures im'.ram[f][k] == im.ram[f][k] {
      FreshPage(im, base, sp, 4 * argc, im', ptr, i, vector, cleared, f - HEAP_FRAME);
    }
  }

  /** A fresh run for argv holds no slot yet. */
  lemma EmptyVector(im: Image, base: Runs, sp: Space, im': Image, ptr: Word, i: nat, vector: nat, cleared: Ram, nodes: seq<CommandArgument>)
    requires nodes != [] && 4 * |nodes| <= MAX_SIZE && ptr != 0 && Consistent(im, base, sp)
    requires MallocStep(im, sp, 4 * |nodes|, im', ptr, i, vector, cleared)
    ensures Filled(im', base, vector, |nodes|, [], nodes) && PointsTo(ptr, vector)
  {
    assert vector in base ==> vector in im.runs;
  }

  /** The loop of process_inject_arguments: makes strings as far as blocks and slots go, and succeeds
      exactly when they go for every argument. */
  method FillVector(p: Process, argv: Word, root: CommandArgument?, ghost nodes: seq<CommandArgument>, ghost base: Runs, ghost vector: nat)
    returns (ok: bool, ghost blocks: seq<nat>)
    requires p.Valid() && Consistent(p.Now(), base, p.sp) && Filled(p.Now(), base, vector, |nodes|, [], nodes)
    requires PointsTo(argv, vector) && IsList(root, nodes)
    requires forall i :: 0 <= i < |nodes| ==> |nodes[i].argument| == ARGUMENT_SIZE
    modifies p.k`ram, p.k.heap`runs, p.k.heap.entries, p.slots
    ensures p.Valid() && Consistent(p.Now(), base, p.sp)
    ensures var n := Affordable(|nodes|, old(p.k.FreeCount()), old(p.FreeSlots()));
            (ok <==> n == |nodes|) && p.k.FreeCount() == old(p.k.FreeCount()) - n && p.FreeSlots() == old(p.FreeSlots()) - n
    ensures ok ==> |blocks| == |nodes| && Filled(p.Now(), base, vector, |nodes|, blocks, nodes)
    ensures ok ==> TailKept(old(p.k.ram), p.k.ram, vector, |nodes|)
    ensures OnlyOwnChanged(base, old(p.k.ram), p.sp, p.k.ram)
  {
    blocks := [];
    ghost var ram, blocks0, slots0 := p.k.ram, p.k.FreeCount(), p.FreeSlots();
    var cur, n := root, 0;
    while cur != null
      invariant IsList(root, nodes) && n <= |nodes| && cur == if n < |nodes| then nodes[n] else null
      invariant Progress(p, base, vector, blocks, nodes, n, ram, blocks0, slots0)
      decreases |nodes| - n
    {
      ok, cur, blocks := AddNext(p, argv, n, root, cur, base, vector, blocks, nodes, ram, blocks0, slots0);
      if !ok {
        return;
      }
      n := n + 1;
    }
    ok := true;
  }

  /** `n` arguments are in place, and nothing has been written behind the vector since `ram`. */
  ghost predicate Filling(im: Image, base: Runs, sp: Space, vector: nat, blocks: seq<nat>, nodes: seq<CommandArgument>, n: nat, ram: Ram) {
    var filling :=
      && Consistent(im, base, sp) && |blocks| == n && Filled(im, base, vector, |nodes|, blocks, nodes)
      && TailKept(ram, im.ram, vector, |nodes|) && OnlyOwnChanged(base, ram, sp, im.ram);
    filling
  }

  /** The state of the loop: each argument in place has taken a block and a slot. */
  ghost predicate Progress(p: Process, base: Runs, vector: nat, blocks: seq<nat>, nodes: seq<CommandArgument>, n: nat, ram: Ram,
                           blocks0: nat, slots0: nat)
    reads p, p.k, p.k.heap, p.k.heap.entries, p.slots
  {
    var progress :=
      && p.Valid() && Filling(p.Now(), base, p.sp, vector, blocks, nodes, n, ram)
      && p.k.FreeCount() + n == blocks0 && p.FreeSlots() + n == slots0;
    progress
  }

  /** One turn of the loop, and the next node. */
  method AddNext(p: Process, argv: Word, n: nat, ghost root: CommandArgument?, cur: CommandArgument, ghost base: Runs, ghost vector: nat,
                 ghost blocks: seq<nat>, ghost nodes: seq<CommandArgument>, ghost ram: Ram, ghost blocks0: nat, ghost slots0: nat)
    returns (ok: bool, next: CommandArgument?, ghost more: seq<nat>)
    requires n < |nodes| && Progress(p, base, vector, blocks, nodes, n, ram, blocks0, slots0)
    requires PointsTo(argv, vector) && IsList(root, nodes) && cur == nodes[n] && |cur.argument| == ARGUMENT_SIZE
    modifies p.k`ram, p.k.heap`runs, p.k.heap.entries, p.slots
    ensures IsList(root, nodes) && next == if n + 1 < |nodes| then nodes[n + 1] else null
    ensures if ok then Progress(p, base, vector, more, nodes, n + 1, ram, blocks0, slots0)
            else Stopped(p, base, n, ram, blocks0, slots0)
  {
    ok, more := AddOne(p, argv, n, cur, base, vector, blocks, nodes, ram, blocks0, slots0);
    assert LinkOk(nodes, n);
    next := cur.next;
  }

  /** No block or no slot was left for argument `n`. */
  ghost predicate Stopped(p: Process, base: Runs, n: nat, ram: Ram, blocks0: nat, slots0: nat)
    reads p, p.k, p.k.heap, p.k.heap.entries, p.slots
  {
    var stopped :=
      && p.Valid() && Consistent(p.Now(), base, p.sp) && OnlyOwnChanged(base, ram, p.sp, p.k.ram) && (blocks0 == n || slots0 == n)
      && p.k.FreeCount() + n == blocks0 && p.FreeSlots() + n == slots0;
    stopped
  }

  method AddOne(p: Process, argv: Word, n: nat, cur: CommandArgument, ghost base: Runs, ghost vector: nat,
                ghost blocks: seq<nat>, ghost nodes: seq<CommandArgument>, ghost ram: Ram, ghost blocks0: nat, ghost slots0: nat)
    returns (ok: bool, ghost more: seq<nat>)
    requires n < |nodes| && Progress(p, base, vector, blocks, nodes, n, ram, blocks0, slots0)
    requires PointsTo(argv, vector) && cur == nodes[n] && |cur.argument| == ARGUMENT_SIZE
    modifies p.k`ram, p.k.heap`runs, p.k.heap.entries, p.slots
    ensures if ok then Progress(p, base, vector, more, nodes, n + 1, ram, blocks0, slots0)
            else Stopped(p, base, n, ram, blocks0, slots0)
  {
    ghost var ram1, t: nat := p.k.ram, 0;
    more := blocks;
    ok, t := AddArgument(p, argv, n, cur, base, vector, blocks, nodes);
    ConfinedBoth(base, p.sp, ram, ram1, p.k.ram);
    if ok {
      TailKeptTrans(ram, ram1, p.k.ram, vector, |nodes|);
      more := blocks + [t];
    }
  }

  /** A NULL for argv has changed no number of free blocks or slots; else argv's run and one slot are taken, and nothing is
      written to it but its slots. */
  ghost predicate VectorMade(p: Process, base: Runs, ram: Ram, blocks0: nat, slots0: nat, argc: nat, argv: Word, vector: nat,
                             nodes: seq<CommandArgument>)
    reads p, p.k, p.k.heap, p.k.heap.entries, p.slots
  {
    var made :=
      if argv == 0 then p.k.FreeCount() == blocks0 && p.FreeSlots() == slots0
      else
        && p.k.FreeCount() == blocks0 - VectorBlocks(argc) && p.FreeSlots() == slots0 - 1
        && PointsTo(argv, vector) && Filled(p.Now(), base, vector, argc, [], nodes) && TailKept(ram, p.k.ram, vector, argc);
    made
  }

  /** process_malloc for argv itself. */
  method NewVector(p: Process, ghost root: CommandArgument?, ghost nodes: seq<CommandArgument>, argc: nat, ghost base: Runs)
    returns (argv: Word, ghost vector: nat)
    requires IsList(root, nodes) && p.Valid() && Consistent(p.Now(), base, p.sp)
    requires 0 < argc == |nodes| && 4 * argc <= MAX_SIZE && CanServe(p.k.Table(), VectorBlocks(argc))
    modifies p.k`ram, p.k.heap`runs, p.k.heap.entries, p.slots
    ensures IsList(root, nodes) && p.Valid() && Consistent(p.Now(), base, p.sp)
    ensures argv != 0 <==> Fits(old(p.k.Table()), VectorBlocks(argc)) && old(p.FreeSlots()) > 0
    ensures VectorMade(p, base, old(p.k.ram), old(p.k.FreeCount()), old(p.FreeSlots()), argc, argv, vector, nodes)
    ensures OnlyOwnChanged(base, old(p.k.ram), p.sp, p.k.ram)
  {
    ghost var before := p.Now();
    assert BlocksFor(4 * argc) == VectorBlocks(argc);
    var ptr, i, b, cleared := p.Malloc(4 * argc);
    argv, vector := ptr, b;
    MallocKeeps(before, base, p.sp, 4 * argc, p.Now(), argv, i, vector, cleared);
    MallocConfined(before, base, p.sp, 4 * argc, p.Now(), argv, i, vector, cleared);
    if argv != 0 {
      EmptyVector(before, base, p.sp, p.Now(), argv, i, vector, cleared, nodes);
      FreshTailKept(before, base, p.sp, p.Now(), argv, i, vector, cleared, argc);
    }
  }

  /** What argc arguments take: a run for argv, and a block and a slot for each of the allocations. */
  ghost predicate RoomFor(e: seq<Entry>, freeSlots: nat, argc: nat) {
    Fits(e, VectorBlocks(argc)) && |FreeBlocks(e)| >= VectorBlocks(argc) + argc && freeSlots >= argc + 1
  }

  /** What an attempt with `argc` arguments leaves free: argv's run is taken when it fits, and then a block
      and a slot for each argument as far as they go. */
  ghost predicate LeftFree(e: seq<Entry>, freeSlots: nat, argc: nat, blocks: nat, slots: nat) {
    if argc > 0 && Fits(e, VectorBlocks(argc)) && freeSlots > 0 then
      var n := Affordable(argc, |FreeBlocks(e)| - VectorBlocks(argc), freeSlots - 1);
      blocks == |FreeBlocks(e)| - VectorBlocks(argc) - n && slots == freeSlots - 1 - n
    else
      blocks == |FreeBlocks(e)| && slots == freeSlots
  }

  /** With argv's run taken, the strings decide. */
  lemma StringsDecide(e: seq<Entry>, freeSlots: nat, argc: nat, blocks: nat, slots: nat)
    requires argc > 0 && Fits(e, VectorBlocks(argc)) && blocks == |FreeBlocks(e)| - VectorBlocks(argc) && slots == freeSlots - 1
    ensures var n := Affordable(argc, blocks, slots);
            (RoomFor(e, freeSlots, argc) <==> n == argc) && LeftFree(e, freeSlots, argc, blocks - n, slots - n)
  {
  }

  /** argv and its strings, without publishing them. */
  method BuildVector(p: Process, root: CommandArgument?, ghost nodes: seq<CommandArgument>, argc: nat, ghost base: Runs)
    returns (ok: bool, argv: Word, ghost vector: nat, ghost blocks: seq<nat>)
    requires p.Valid() && Consistent(p.Now(), base, p.sp)
    requires IsList(root, nodes) && forall i :: 0 <= i < |nodes| ==> |nodes[i].argument| == ARGUMENT_SIZE
    requires 0 < argc == |nodes| && 4 * argc <= MAX_SIZE && CanServe(p.k.Table(), VectorBlocks(argc))
    modifies p.k`ram, p.k.heap`runs, p.k.heap.entries, p.slots
    ensures p.Valid() && Consistent(p.Now(), base, p.sp)
    ensures ok <==> RoomFor(old(p.k.Table()), old(p.FreeSlots()), argc)
    ensures LeftFree(old(p.k.Table()), old(p.FreeSlots()), argc, p.k.FreeCount(), p.FreeSlots())
    ensures ok ==> |blocks| == argc && PointsTo(argv, vector) && Filled(p.Now(), base, vector, argc, blocks, nodes)
    ensures ok ==> TailKept(old(p.k.ram), p.k.ram, vector, argc)
    ensures OnlyOwnChanged(base, old(p.k.ram), p.sp, p.k.ram)
  {
    ok, blocks := false, [];
    argv, vector := NewVector(p, root, nodes, argc, base);
    if argv != 0 {
      ghost var ram1 := p.k.ram;
      StringsDecide(old(p.k.Table()), old(p.FreeSlots()), argc, p.k.FreeCount(), p.FreeSlots());
      ok, blocks := FillVector(p, argv, root, nodes, base, vector);
      ConfinedBoth(base, p.sp, old(p.k.ram), ram1, p.k.ram);
      if ok {
        TailKeptTrans(old(p.k.ram), ram1, p.k.ram, vector, argc);
      }
    }
  }

  /** process_inject_arguments: succeeds exactly when there are arguments and room for them. Then argc is
      the number of list nodes, and slot i of argv points to an allocation of the process that holds
      argument i, cut to 511 characters; nothing is written behind argv's slots. Otherwise the process
      keeps the argc and argv it had, and what was allocated before the failure stays allocated. Of the pages
      in runs outside the process only its own tables change. */
  method InjectArguments(p: Process, root: CommandArgument?, ghost nodes: seq<CommandArgument>, ghost base: Runs)
    returns (res: int, ghost vector: nat, ghost blocks: seq<nat>)
    requires p.Valid() && Consistent(p.Now(), base, p.sp)
    requires IsList(root, nodes) && forall i :: 0 <= i < |nodes| ==> |nodes[i].argument| == ARGUMENT_SIZE
    requires 4 * |nodes| <= MAX_SIZE && (nodes != [] ==> CanServe(p.k.Table(), VectorBlocks(|nodes|)))
    modifies p.k`ram, p.k.heap`runs, p.k.heap.entries, p.slots, p.arguments
    ensures p.Valid() && Consistent(p.Now(), base, p.sp)
    ensures res == if nodes == [] then -EIO else if !RoomFor(old(p.k.Table()), old(p.FreeSlots()), |nodes|) then -ENOMEM else 0
    ensures LeftFree(old(p.k.Table()), old(p.FreeSlots()), |nodes|, p.k.FreeCount(), p.FreeSlots())
    ensures res != 0 ==> unchanged(p.arguments)
    ensures res == 0 ==> p.arguments.argc == |nodes| == |blocks| > 0 && PointsTo(p.arguments.argv, vector)
    ensures res == 0 ==> Filled(p.Now(), base, vector, |nodes|, blocks, nodes) && TailKept(old(p.k.ram), p.k.ram, vector, |nodes|)
    ensures OnlyOwnChanged(base, old(p.k.ram), p.sp, p.k.ram)
  {
    vector, blocks := 0, [];
    var argc := CountArguments(root, nodes);
    if argc == 0 {
      return -EIO, vector, blocks;
    }
    var ok, argv;
    ok, argv, vector, blocks := BuildVector(p, root, nodes, argc, base);
    if !ok {
      return -ENOMEM, vector, blocks;
    }
    Publish(p, argc, argv);
    res := 0;
  }

  /** arguments->argc = argc, arguments->argv = argv */
  method Publish(p: Process, argc: nat, argv: Word)
    requires p.Valid()
    modifies p.arguments
    ensures p.arguments.argc == argc && p.arguments.argv == argv
    ensures p.Valid() && p.Now() == old(p.Now()) && p.k.Table() == old(p.k.Table()) && p.FreeSlots() == old(p.FreeSlots())
  {
    p.arguments.argc, p.arguments.argv := argc, argv;
  }

  // ---------------------------------------------------------------------------
  // From the command line to argv.
  // ---------------------------------------------------------------------------

  /** argv[i] points to an allocation of the process that holds `s`. */
  ghost predicate ArgumentIs(im: Image, base: Runs, argv: Word, i: nat, s: seq<Byte>) {
    exists vector: nat, b: nat ::
      && PointsTo(argv, vector) && OwnBlock(im.runs, base, vector, vector + i / 1024)
      && OwnBlock(im.runs, base, b, b) && vector + i / 1024 < HEAP_BLOCKS && b < HEAP_BLOCKS
      && ReadWord(im.ram[HEAP_FRAME + vector + i / 1024], i % 1024) == AddressOf(b)
      && Holds(im.ram[HEAP_FRAME + b], s)
  }

  /** The first `argc` arguments are the first words, cut to what fits. */
  ghost predicate ArgumentsAre(im: Image, base: Runs, argv: Word, argc: nat, words: seq<seq<Byte>>) {
    var theyAre := argc <= |words| &&
      forall i: nat :: i < argc ==> ArgumentIs(im, base, argv, i, Cut(words[i], MAX_ARGUMENT));
    theyAre
  }

  lemma FilledArguments(im: Image, base: Runs, argv: Word, vector: nat, blocks: seq<nat>,
                        nodes: seq<CommandArgument>, words: seq<seq<Byte>>)
    requires PointsTo(argv, vector) && |blocks| == |nodes| && Filled(im, base, vector, |nodes|, blocks, nodes)
    requires NewNodes(nodes, words)
    ensures ArgumentsAre(im, base, argv, |nodes|, words)
  {
    forall i: nat | i < |nodes| ensures ArgumentIs(im, base, argv, i, Cut(words[i], MAX_ARGUMENT)) {
      FilledArgument(im, base, argv, vector, blocks, nodes, i);
      assert HoldsWord(nodes[i], words[i]);
    }
  }

  lemma FilledArgument(im: Image, base: Runs, argv: Word, vector: nat, blocks: seq<nat>, nodes: seq<CommandArgument>, i: nat)
    requires PointsTo(argv, vector) && i < |blocks| == |nodes| && Filled(im, base, vector, |nodes|, blocks, nodes)
    ensures ArgumentIs(im, base, argv, i, Text(nodes[i]))
  {
    SlotOwned(im, base, vector, |nodes|, blocks, nodes, i);
    assert SlotFilled(im, base, vector, |nodes|, blocks, nodes, i);
  }

  lemma NodesHaveArguments(nodes: seq<CommandArgument>, words: seq<seq<Byte>>)
    requires NewNodes(nodes, words)
    ensures forall i :: 0 <= i < |nodes| ==> |nodes[i].argument| == ARGUMENT_SIZE
  {
    assert forall i :: 0 <= i < |nodes| ==> HoldsWord(nodes[i], words[i]);
  }

  lemma NodesFitOnePage(command: seq<Byte>)
    ensures 4 * |CommandWords(command)| <= PAGE_SIZE
  {
    FewWords(Cut(CString(command), COMMAND_SIZE - 1), [SPACE], 0);
  }

  lemma VectorIsOnePage(e: seq<Entry>, argc: nat)
    requires 0 < argc && 4 * argc <= PAGE_SIZE
    ensures 4 * argc <= MAX_SIZE && CanServe(e, VectorBlocks(argc))
  {
    OnePage(e, 4 * argc);
  }

  /** For a vector of one page the room is a matter of counting. */
  lemma RoomForOnePage(e: seq<Entry>, freeSlots: nat, argc: nat)
    requires 0 < argc && 4 * argc <= PAGE_SIZE
    ensures RoomFor(e, freeSlots, argc) <==> |FreeBlocks(e)| > argc && freeSlots > argc
  {
    OnePage(e, 4 * argc);
  }

  /** The process's memory is sound, and consistent with the runs `base` outside it. */
  ghost predicate Well(p: Process, base: Runs)
    reads p, p.k, p.k.heap, p.k.heap.entries, p.slots
  {
    var well := p.Valid() && Consistent(p.Now(), base, p.sp);
    well
  }

  /** Two processes on one kernel: `p` is well, and the tables of `q` are among the runs `base` outside it. */
  ghost predicate Beside(q: Process, p: Process, base: Runs)
    reads q, q.k, q.k.heap, q.k.heap.entries, q.slots, p, p.k, p.k.heap, p.k.heap.entries, p.slots
  {
    var beside := Well(p, base) && q.Valid() && q.k == p.k && q.slots != p.slots && Owns(base, q.sp) && Blocks(q.sp) !! Blocks(p.sp);
    beside
  }

  /** After `q` has allocated. */
  lemma AfterParse(q: Process, p: Process, im: Image, base: Runs, used: set<nat>)
    requires Consistent(im, base, p.sp) && p.slots.Length == MAX_ALLOCATIONS && PointsTo(p.chunk, p.sp.chunk) && p.slots[..] == im.slots
    requires q.Valid() && q.k == p.k && q.slots != p.slots && Owns(base, q.sp) && Blocks(q.sp) !! Blocks(p.sp)
    requires Grown(im.runs, im.ram, q.sp, used, p.k.Runs(), p.k.ram)
    ensures Beside(q, p, base + OneBlockRuns(used))
  {
    p.k.RunsAreDisjoint();
    GrownElsewhere(im, base, p.sp, q.sp, used, p.Now());
    StillOwns(im.runs, base, im.slots, used, p.k.Runs(), q.sp);
  }

  lemma StillOwns(runs: Runs, base: Runs, slots: seq<Allocation>, used: set<nat>, runs': Runs, sq: Space)
    requires SlotsAreRuns(runs, base, slots) && Taken(runs, used, runs') && Owns(base, sq)
    ensures Owns(base + OneBlockRuns(used), sq)
  {
  }

  /** peachos_parse_command as peachos_system_run calls it, seen from a process `p` that it leaves alone. */
  method ParseFor(q: Process, p: Process, command: seq<Byte>, ghost base: Runs)
    returns (root: CommandArgument?, ghost nodes: seq<CommandArgument>, ghost used: set<nat>)
    requires Beside(q, p, base) && (0 in command || COMMAND_SIZE - 1 <= |command|)
    modifies q.k`ram, q.k.heap`runs, q.k.heap.entries, q.slots
    ensures Beside(q, p, base + OneBlockRuns(used)) && IsList(root, nodes) && NewNodes(nodes, CommandWords(command))
    ensures |nodes| == |used| == Affordable(|CommandWords(command)|, old(p.k.FreeCount()), old(q.FreeSlots()))
    ensures p.k.FreeCount() == old(p.k.FreeCount()) - |nodes| && p.FreeSlots() == old(p.FreeSlots())
    ensures q.FreeSlots() == old(q.FreeSlots()) - |nodes|
    ensures Given(p) == old(Given(p)) && p.k.heap.entries == old(p.k.heap.entries) && p.slots == old(p.slots)
  {
    root, nodes, used := ParseBeside(q, p, command, base);
  }

  method ParseBeside(q: Process, p: Process, command: seq<Byte>, ghost base: Runs)
    returns (root: CommandArgument?, ghost nodes: seq<CommandArgument>, ghost used: set<nat>)
    requires Beside(q, p, base) && (0 in command || COMMAND_SIZE - 1 <= |command|)
    modifies q.k`ram, q.k.heap`runs, q.k.heap.entries, q.slots
    ensures Beside(q, p, base + OneBlockRuns(used)) && IsList(root, nodes) && NewNodes(nodes, CommandWords(command))
    ensures |nodes| == |used| == Affordable(|CommandWords(command)|, old(p.k.FreeCount()), old(q.FreeSlots()))
    ensures p.k.FreeCount() == old(p.k.FreeCount()) - |nodes| && p.FreeSlots() == old(p.FreeSlots())
    ensures q.FreeSlots() == old(q.FreeSlots()) - |nodes|
  {
    ghost var im := p.Now();
    root, nodes, used := ParseCommand(q, command, COMMAND_SIZE);
    AfterParse(q, p, im, base, used);
  }

  /** argc and argv of the process. */
  ghost function Given(p: Process): (int, Word)
    reads p, p.arguments
  {
    (p.arguments.argc, p.arguments.argv)
  }

  /** On success argc is `m` and argv[i] is word i, cut to 511 characters; on failure both are as before. */
  ghost predicate Delivered(p: Process, base: Runs, words: seq<seq<Byte>>, m: nat, res: int, before: (int, Word))
    reads p, p.k, p.k.heap, p.slots, p.arguments
  {
    var delivered :=
      if res != 0 then Given(p) == before
      else p.arguments.argc == m && ArgumentsAre(p.Now(), base, p.arguments.argv, m, words);
    delivered
  }

  /** What peachos_system_run returns, by the numbers of arguments and of free blocks and slots. */
  function RunResult(argc: nat, blocks: int, slots: int): int {
    if argc == 0 then -1 else if blocks > argc && slots > argc then 0 else -ENOMEM
  }

  /** What comes of running a command of `words` words, by the numbers of free blocks, of the caller's free slots and
      of the new process's: the list takes `m` blocks and `m` of the caller's slots, and the arguments as many
      blocks and slots again, and one of each for argv. */
  ghost predicate RunOutcome(words: nat, blocks: nat, callerSlots: nat, slots: nat, m: nat, callerLeft: nat, res: int) {
    var outcome :=
      && m == Affordable(words, blocks, callerSlots) && callerLeft == callerSlots - m
      && res == if m == 0 then -1 else if blocks > 2 * m && slots > m then 0 else -ENOMEM;
    outcome
  }

  /** peachos_system_run in process `q`, with process `p` loaded for the command. The list takes m blocks of
      the kernel heap and m slots of q, where m is the number of words on the command line, as far as there
      are blocks and slots. It succeeds exactly when m is not zero, more than 2m blocks and more than m slots of
      p are free; then argc is m and argv[i] is word i, cut to 511 characters. */
  method SystemRun(q: Process, p: Process, command: seq<Byte>, ghost base: Runs) returns (res: int, ghost used: set<nat>)
    requires Beside(q, p, base) && (0 in command || COMMAND_SIZE - 1 <= |command|)
    modifies p.k`ram, p.k.heap`runs, p.k.heap.entries, q.slots, p.slots, p.arguments
    ensures Beside(q, p, base + OneBlockRuns(used))
    ensures RunOutcome(|CommandWords(command)|, old(p.k.FreeCount()), old(q.FreeSlots()), old(p.FreeSlots()), |used|, q.FreeSlots(), res)
    ensures Delivered(p, base + OneBlockRuns(used), CommandWords(command), |used|, res, old(Given(p)))
  {
    var root;
    ghost var nodes;
    root, nodes, used := ParseFor(q, p, command, base);
    NodesFitOnePage(command);
    res := RunBeside(q, p, root, nodes, CommandWords(command), base + OneBlockRuns(used));
  }

  /** The other process's tables are as they were. */
  lemma StillBeside(q: Process, p: Process, base: Runs, ram: Ram)
    requires Well(p, base) && OnlyOwnChanged(base, ram, p.sp, p.k.ram) && WellFormed(q.sp) && Linked(ram, q.sp)
    requires q.slots.Length == MAX_ALLOCATIONS && PointsTo(q.chunk, q.sp.chunk)
    requires q.k == p.k && q.slots != p.slots && Owns(base, q.sp) && Blocks(q.sp) !! Blocks(p.sp)
    ensures Beside(q, p, base)
  {
    ConfinedUntouched(base, ram, p.sp, p.k.ram, q.sp);
    UntouchedKeeps(ram, q.sp, p.k.ram);
    BaseIsLive(p.Now(), base, p.sp, q.sp);
  }

  lemma ConfinedUntouched(base: Runs, ram: Ram, sp: Space, ram': Ram, sq: Space)
    requires OnlyOwnChanged(base, ram, sp, ram') && Owns(base, sq) && Blocks(sq) !! Blocks(sp)
    ensures Untouched(ram, sq, ram')
  {
    forall b | b in Blocks(sq) && b < HEAP_BLOCKS ensures ram'[HEAP_FRAME + b] == ram[HEAP_FRAME + b] {
      assert Covers(base, b, b);
      assert b in sp.tables ==> b in Blocks(sp);
      assert !MayChange(base, sp, HEAP_FRAME + b);
    }
  }

  lemma BaseIsLive(im: Image, base: Runs, sp: Space, sq: Space)
    requires Consistent(im, base, sp) && Owns(base, sq)
    ensures Owns(im.runs, sq)
  {
  }

  /** peachos_system_run, after the command is parsed; the parsing process keeps its slots and its memory. */
  method RunBeside(ghost q: Process, p: Process, root: CommandArgument?, ghost nodes: seq<CommandArgument>, ghost words: seq<seq<Byte>>,
                   ghost base: Runs)
    returns (res: int)
    requires Beside(q, p, base)
    requires IsList(root, nodes) && NewNodes(nodes, words) && 4 * |words| <= PAGE_SIZE
    modifies p.k`ram, p.k.heap`runs, p.k.heap.entries, p.slots, p.arguments
    ensures Beside(q, p, base) && q.FreeSlots() == old(q.FreeSlots())
    ensures res == RunResult(|nodes|, old(p.k.FreeCount()), old(p.FreeSlots()))
    ensures Delivered(p, base, words, |nodes|, res, old(Given(p)))
  {
    if root == null {
      return -1;
    }
    ghost var ram := p.k.ram;
    res := RunWith(p, root, nodes, words, base);
    StillBeside(q, p, base, ram);
  }

  /** peachos_system: the arguments go to process `p`. */
  method RunWith(p: Process, root: CommandArgument, ghost nodes: seq<CommandArgument>, ghost words: seq<seq<Byte>>, ghost base: Runs)
    returns (res: int)
    requires Well(p, base)
    requires IsList(root, nodes) && NewNodes(nodes, words) && 4 * |words| <= PAGE_SIZE
    modifies p.k`ram, p.k.heap`runs, p.k.heap.entries, p.slots, p.arguments
    ensures Well(p, base) && OnlyOwnChanged(base, old(p.k.ram), p.sp, p.k.ram)
    ensures res == RunResult(|nodes|, old(p.k.FreeCount()), old(p.FreeSlots()))
    ensures Delivered(p, base, words, |nodes|, res, old(Given(p)))
  {
    VectorIsOnePage(p.k.Table(), |nodes|);
    RoomForOnePage(p.k.Table(), p.FreeSlots(), |nodes|);
    NodesHaveArguments(nodes, words);
    ghost var vector, blocks;
    res, vector, blocks := InjectArguments(p, root, nodes, base);
    if res == 0 {
      FilledArguments(p.Now(), base, p.arguments.argv, vector, blocks, nodes, words);
    }
  }
}
