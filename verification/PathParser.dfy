/** The path parser: "d:/a/b" cut into a drive number and a linked list of components in kernel memory. */
module PathParser {
  import opened Memory
  import opened Heaps
  import opened Kheap
  import opened Paging
  import opened Strings
  import opened CopyStrings
  import opened Status

  const MAX_PATH := 108
  const SLASH: Byte := '/' as int
  const COLON: Byte := ':' as int
  const DIGIT_ZERO: Byte := '0' as int

  // ---------------------------------------------------------------------------
  // Paths as text.
  // ---------------------------------------------------------------------------

  predicate NoSlash(s: seq<Byte>) {
    forall i :: 0 <= i < |s| ==> s[i] != SLASH
  }

  /** Where the first piece of `s` ends. */
  function PieceEnd(s: seq<Byte>): (p: nat)
    ensures p <= |s| && NoSlash(s[..p]) && (p == |s| || s[p] == SLASH)
  {
    if s == [] || s[0] == SLASH then 0 else 1 + PieceEnd(s[1..])
  }

  /** The pieces between slashes. */
  function Split(s: seq<Byte>): (pieces: seq<seq<Byte>>)
    ensures pieces != []
    decreases |s|
  {
    var p := PieceEnd(s);
    if p == |s| then [s] else [s[..p]] + Split(s[p + 1..])
  }

  function Join(pieces: seq<seq<Byte>>): seq<Byte>
    requires pieces != []
  {
    if |pieces| == 1 then pieces[0] else pieces[0] + [SLASH] + Join(pieces[1..])
  }

  /** Splitting and joining are inverse to each other. */
  lemma {:induction false} JoinSplit(s: seq<Byte>)
    ensures Join(Split(s)) == s && forall i :: 0 <= i < |Split(s)| ==> NoSlash(Split(s)[i])
    decreases |s|
  {
    var p := PieceEnd(s);
    if p < |s| {
      JoinSplit(s[p + 1..]);
      assert Split(s)[1..] == Split(s[p + 1..]);
      assert s == s[..p] + [SLASH] + s[p + 1..];
    } else {
      assert s[..p] == s;
    }
  }

  lemma PieceEndIs(s: seq<Byte>, p: nat)
    requires p <= |s| && NoSlash(s[..p]) && (p == |s| || s[p] == SLASH)
    ensures PieceEnd(s) == p
  {
    var q := PieceEnd(s);
    assert forall i :: 0 <= i < p ==> s[i] == s[..p][i];
    assert forall i :: 0 <= i < q ==> s[i] == s[..q][i];
  }

  lemma {:induction false} SplitJoin(pieces: seq<seq<Byte>>)
    requires pieces != [] && forall i :: 0 <= i < |pieces| ==> NoSlash(pieces[i])
    ensures Split(Join(pieces)) == pieces
    decreases |pieces|
  {
    var s, p := Join(pieces), |pieces[0]|;
    assert NoSlash(pieces[0]);
    assert s[..p] == pieces[0];
    PieceEndIs(s, p);
    if |pieces| > 1 {
      SplitJoin(pieces[1..]);
      assert s[p + 1..] == Join(pieces[1..]);
    }
  }

  /** The pieces before the first empty one. */
  function BeforeEmpty(pieces: seq<seq<Byte>>): seq<seq<Byte>> {
    if pieces == [] || pieces[0] == [] then [] else [pieces[0]] + BeforeEmpty(pieces[1..])
  }

  lemma {:induction false} BeforeEmptyIsPrefix(pieces: seq<seq<Byte>>)
    ensures var c := BeforeEmpty(pieces);
            && c <= pieces && (forall i :: 0 <= i < |c| ==> c[i] != [])
            && (|c| < |pieces| ==> pieces[|c|] == [])
  {
    if pieces != [] && pieces[0] != [] {
      BeforeEmptyIsPrefix(pieces[1..]);
    }
  }

  function Components(s: seq<Byte>): seq<seq<Byte>> {
    BeforeEmpty(Split(s))
  }

  /** The parser's loop: one component, then what follows its slash. */
  lemma LastComponent(s: seq<Byte>)
    requires PieceEnd(s) == |s|
    ensures Components(s) == if s == [] then [] else [s]
  {
    assert Split(s) == [s] && [s][1..] == [];
    assert BeforeEmpty([s][1..]) == [];
  }

  lemma FirstComponent(s: seq<Byte>, p: nat)
    requires p == PieceEnd(s) < |s|
    ensures Components(s) == if p == 0 then [] else [s[..p]] + Components(s[p + 1..])
  {
    var pieces := Split(s);
    assert pieces == [s[..p]] + Split(s[p + 1..]);
    assert pieces[0] == s[..p] && pieces[1..] == Split(s[p + 1..]);
    assert BeforeEmpty(pieces) == if pieces[0] == [] then [] else [pieces[0]] + BeforeEmpty(pieces[1..]);
  }

  /** A drive digit, a colon and a slash. */
  predicate ValidFormat(s: seq<Byte>) {
    |s| >= 3 && DIGIT_ZERO <= s[0] < DIGIT_ZERO + 10 && s[1] == COLON && s[2] == SLASH
  }

  predicate Accepted(s: seq<Byte>) {
    |s| <= MAX_PATH && ValidFormat(s)
  }

  /** `s` is the digit of the drive, ":/" and `rest`. */
  predicate BeginsWith(s: seq<Byte>, drive: nat, rest: seq<Byte>)
    requires drive < 10
  {
    s == [48 + drive, 58, 47] + rest
  }

  /** Accepted are exactly the paths of at most 108 characters that are a digit, ":/" and anything more. */
  lemma AcceptedIff(s: seq<Byte>)
    ensures Accepted(s) <==> |s| <= 108 && exists drive: nat, rest: seq<Byte> :: drive < 10 && BeginsWith(s, drive, rest)
  {
    if Accepted(s) {
      assert BeginsWith(s, s[0] - 48, s[3..]);
    }
  }

  /** An accepted path is the text of its drive and of the pieces of the rest. */
  lemma AcceptedIsPathText(s: seq<Byte>)
    requires Accepted(s)
    ensures s == PathText(s[0] - 48, Split(s[3..])) && Components(s[3..]) <= Split(s[3..])
  {
    JoinSplit(s[3..]);
    BeforeEmptyIsPrefix(Split(s[3..]));
    assert s == [s[0], s[1], s[2]] + s[3..];
  }

  /** The path with the given drive and components. */
  function PathText(drive: nat, parts: seq<seq<Byte>>): seq<Byte>
    requires drive < 10
  {
    [DIGIT_ZERO + drive, COLON, SLASH] + if parts == [] then [] else Join(parts)
  }

  /** What is written as a drive and components is read as the same drive and components. */
  lemma ReadsBack(drive: nat, parts: seq<seq<Byte>>)
    requires drive < 10 && |PathText(drive, parts)| <= MAX_PATH
    requires forall i :: 0 <= i < |parts| ==> parts[i] != [] && NoSlash(parts[i])
    ensures var s := PathText(drive, parts); Accepted(s) && s[0] - DIGIT_ZERO == drive && Components(s[3..]) == parts
  {
    var s := PathText(drive, parts);
    if parts == [] {
      assert s[3..] == [] && PieceEnd([]) == 0;
    } else {
      assert s[3..] == Join(parts);
      SplitJoin(parts);
      BeforeEmptyIsPrefix(parts);
    }
  }

  // ---------------------------------------------------------------------------
  // Paths in memory.
  // ---------------------------------------------------------------------------

  /** The two blocks of a component: its characters, and the list node that points to them. */
  datatype Part = Part(str: nat, node: nat)

  function BlockPage(ram: Ram, b: nat): Page
    requires b < HEAP_BLOCKS
  {
    ram[HEAP_FRAME + b]
  }

  /** The pointer to list node `i`, NULL behind the end. */
  function Link(chain: seq<Part>, i: nat): Word {
    if i < |chain| && chain[i].node < HEAP_BLOCKS then AddressOf(chain[i].node) else 0
  }

  ghost predicate PartHeld(ram: Ram, chain: seq<Part>, names: seq<seq<Byte>>, i: nat)
    requires i < |chain| <= |names|
  {
    var p := chain[i];
    var held :=
      && p.str < HEAP_BLOCKS && p.node < HEAP_BLOCKS
      && ReadWord(BlockPage(ram, p.node), 0) == AddressOf(p.str)
      && ReadWord(BlockPage(ram, p.node), 1) == Link(chain, i + 1)
      && Holds(BlockPage(ram, p.str), names[i]);
    held
  }

  /** The list holds exactly the names. */
  ghost predicate ListHeld(ram: Ram, chain: seq<Part>, names: seq<seq<Byte>>) {
    var held := |chain| == |names| && forall i: nat :: i < |chain| ==> PartHeld(ram, chain, names, i);
    held
  }

  /** The structure pathparser_parse returns. */
  ghost predicate RootHeld(ram: Ram, root: nat, drive: nat, chain: seq<Part>) {
    var held := root < HEAP_BLOCKS && ReadWord(BlockPage(ram, root), 0) == drive && ReadWord(BlockPage(ram, root), 1) == Link(chain, 0);
    held
  }

  /** All blocks of a path: the root and two for each component. */
  ghost function PathBlocks(root: nat, chain: seq<Part>): set<nat> {
    if chain == [] then {root}
    else
      var p := chain[|chain| - 1];
      PathBlocks(root, chain[..|chain| - 1]) + {p.str} + {p.node}
  }

  /** The blocks of the parts are distinct from one another and from the root. */
  ghost predicate Distinct(root: nat, chain: seq<Part>) {
    if chain == [] then true
    else
      var p, blocks := chain[|chain| - 1], PathBlocks(root, chain[..|chain| - 1]);
      p.str != p.node && p.str !in blocks && p.node !in blocks && Distinct(root, chain[..|chain| - 1])
  }

  lemma PathBlocksGrow(root: nat, chain: seq<Part>, p: Part)
    ensures PathBlocks(root, chain + [p]) == PathBlocks(root, chain) + {p.str} + {p.node}
    ensures p.str != p.node && p.str !in PathBlocks(root, chain) && p.node !in PathBlocks(root, chain) && Distinct(root, chain)
            ==> Distinct(root, chain + [p])
  {
    assert (chain + [p])[..|chain|] == chain;
  }

  lemma {:induction false} PathBlocksCount(root: nat, chain: seq<Part>)
    requires Distinct(root, chain)
    ensures |PathBlocks(root, chain)| == 2 * |chain| + 1
  {
    if chain != [] {
      PathBlocksCount(root, chain[..|chain| - 1]);
    }
  }

  lemma {:induction false} PathBlocksContain(root: nat, chain: seq<Part>)
    ensures root in PathBlocks(root, chain)
    ensures forall i :: 0 <= i < |chain| ==> chain[i].str in PathBlocks(root, chain) && chain[i].node in PathBlocks(root, chain)
  {
    if chain != [] {
      PathBlocksContain(root, chain[..|chain| - 1]);
    }
  }

  lemma {:induction false} DistinctPrefix(root: nat, chain: seq<Part>, n: nat)
    requires Distinct(root, chain) && n <= |chain|
    ensures Distinct(root, chain[..n])
    decreases |chain|
  {
    if n < |chain| {
      var front := chain[..|chain| - 1];
      DistinctPrefix(root, front, n);
      assert front[..n] == chain[..n];
    } else {
      assert chain[..n] == chain;
    }
  }

  /** Pages that hold no part of the list may change. */
  lemma ListKept(ram: Ram, ram': Ram, root: nat, chain: seq<Part>, names: seq<seq<Byte>>, b: nat)
    requires ListHeld(ram, chain, names) && b < HEAP_BLOCKS && b !in PathBlocks(root, chain)
    requires ram' == ram[HEAP_FRAME + b := ram'[HEAP_FRAME + b]]
    ensures ListHeld(ram', chain, names)
  {
    PathBlocksContain(root, chain);
    forall i: nat | i < |chain| ensures PartHeld(ram', chain, names, i) {
      assert PartHeld(ram, chain, names, i);
    }
  }

  /** Only pages outside the runs changed. */
  ghost predicate LiveKept(runs: Runs, ram: Ram, ram': Ram) {
    var kept := forall f :: 0 <= f < TOTAL_FRAMES ==>
      ram'[f] == ram[f] || (0 <= f - HEAP_FRAME < HEAP_BLOCKS && Uncovered(runs, f - HEAP_FRAME));
    kept
  }

  /** The path built so far on top of what was there before. */
  ghost predicate Built(before: Runs, ram0: Ram, runs: Runs, ram: Ram, root: nat, chain: seq<Part>, names: seq<seq<Byte>>) {
    var built :=
      && Taken(before, PathBlocks(root, chain), runs) && Distinct(root, chain)
      && ListHeld(ram, chain, names) && LiveKept(before, ram0, ram);
    built
  }

  /** The path's own blocks lie in none of the runs that were there before. */
  lemma OwnBlockUncovered(before: Runs, used: set<nat>, runs: Runs, b: nat)
    requires Taken(before, used, runs) && DisjointRuns(runs, HEAP_BLOCKS) && b in used
    ensures Uncovered(before, b)
  {
    forall s: nat ensures !Covers(before, s, b) {
      assert s in before ==> s in runs && runs[s] == before[s];
      assert b in runs && runs[b] == 1;
    }
  }

  /** Writing a page outside all runs. */
  lemma WriteOutside(before: Runs, ram0: Ram, runs: Runs, ram: Ram, root: nat, chain: seq<Part>, names: seq<seq<Byte>>, b: nat, ram': Ram)
    requires Built(before, ram0, runs, ram, root, chain, names) && Uncovered(runs, b) && b < HEAP_BLOCKS
    requires ram' == ram[HEAP_FRAME + b := ram'[HEAP_FRAME + b]]
    ensures Built(before, ram0, runs, ram', root, chain, names) && b != root
  {
    UncoveredBefore(before, PathBlocks(root, chain), runs, b);
    PathBlocksContain(root, chain);
    ListKept(ram, ram', root, chain, names, b);
  }

  /** A new node behind the last one. */
  lemma ListGrows(ram: Ram, root: nat, chain: seq<Part>, names: seq<seq<Byte>>, p: Part, name: seq<Byte>)
    requires ListHeld(ram, chain, names) && Distinct(root, chain + [p]) && p.str < HEAP_BLOCKS && p.node < HEAP_BLOCKS
    requires ReadWord(BlockPage(ram, p.node), 0) == AddressOf(p.str) && ReadWord(BlockPage(ram, p.node), 1) == 0
    requires Holds(BlockPage(ram, p.str), name)
    ensures ListHeld(Linked(ram, chain, p), chain + [p], names + [name])
  {
    var n, ram', longer := |chain|, Linked(ram, chain, p), chain + [p];
    PathBlocksContain(root, chain);
    assert longer[..n] == chain;
    forall i: nat | i < |longer| ensures PartHeld(ram', longer, names + [name], i) {
      if i < n {
        assert PartHeld(ram, chain, names, i) && PartHeld(ram, chain, names, n - 1);
        DistinctNodes(root, chain, i);
        assert Link(longer, i + 1) == if i + 1 < n then Link(chain, i + 1) else AddressOf(p.node);
      }
    }
  }

  /** Memory after the last node's `next` is set, if there is a last node. */
  function Linked(ram: Ram, chain: seq<Part>, p: Part): Ram
    requires p.node < HEAP_BLOCKS
  {
    if chain == [] || chain[|chain| - 1].node >= HEAP_BLOCKS then ram
    else
      var f := HEAP_FRAME + chain[|chain| - 1].node;
      ram[f := WriteWord(ram[f], 1, AddressOf(p.node))]
  }

  /** The last node is no other block of the list. */
  lemma DistinctNodes(root: nat, chain: seq<Part>, i: nat)
    requires Distinct(root, chain) && i < |chain|
    ensures var last := chain[|chain| - 1].node; last != chain[i].str && (i < |chain| - 1 ==> last != chain[i].node) && last != root
  {
    PathBlocksContain(root, chain[..|chain| - 1]);
  }

  // ---------------------------------------------------------------------------
  // The operations.
  // ---------------------------------------------------------------------------

  /** A C string. */
  ghost predicate IsCString(path: seq<Byte>, s: seq<Byte>) {
    s + [0] <= path && NoNul(s)
  }

  /** kzalloc of at most a page, of which there is one. */
  method NewPage(k: Kernel, size: Word) returns (ptr: Word, ghost b: nat)
    requires k.Valid() && 1 <= size <= PAGE_SIZE && k.FreeCount() >= 1
    modifies k`ram, k.heap`runs, k.heap.entries
    ensures k.Valid() && k.FreeCount() == old(k.FreeCount()) - 1
    ensures PointsTo(ptr, b) && b !in old(k.Runs()) && k.Runs() == old(k.Runs())[b := 1] && Uncovered(old(k.Runs()), b)
    ensures k.ram == old(k.ram)[HEAP_FRAME + b := k.ram[HEAP_FRAME + b]]
    ensures forall j :: 0 <= j < size ==> BlockPage(k.ram, b)[j] == 0
  {
    OnePage(k.Table(), size);
    ptr, b := k.Kzalloc(size);
    ClearedOutside(old(k.ram), k.ram, b, size);
    FreshIsUncovered(old(k.Runs()), b, k.Runs());
  }

  /** The characters copied so far, in a page that is clear behind them, and nothing else written. */
  ghost predicate Partly(page0: Page, page: Page, s: seq<Byte>, pos: nat, i: nat) {
    var partly := pos + i <= |s| && i < MAX_PATH && page[..i] == s[pos..pos + i] && NoSlash(s[pos..pos + i])
      && (forall j :: i <= j < MAX_PATH ==> page0[j] == 0) && SameFrom(page0, page, i);
    partly
  }

  lemma PartlyMore(page0: Page, page: Page, s: seq<Byte>, pos: nat, i: nat)
    requires Partly(page0, page, s, pos, i) && pos + i < |s| && s[pos + i] != SLASH && i + 1 < MAX_PATH
    ensures Partly(page0, WriteByte(page, i, s[pos + i]), s, pos, i + 1)
  {
    assert s[pos..pos + i + 1] == s[pos..pos + i] + [s[pos + i]];
  }

  /** Where the rest of the path begins after the component at `pos`. */
  function Next(s: seq<Byte>, pos: nat): (r: nat)
    requires pos <= |s|
    ensures pos <= r <= |s|
  {
    var e := pos + PieceEnd(s[pos..]);
    if e < |s| then e + 1 else e
  }

  lemma PartlyDone(page0: Page, page: Page, s: seq<Byte>, pos: nat, i: nat)
    requires Partly(page0, page, s, pos, i) && (pos + i == |s| || s[pos + i] == SLASH)
    ensures PieceEnd(s[pos..]) == i && Holds(page, s[pos..][..i])
  {
    assert s[pos..][..i] == s[pos..pos + i];
    PieceEndIs(s[pos..], i);
  }

  /** The loop of pathparser_get_path_part: copies the component at `pos` into the cleared page; of an empty
      component nothing is copied, not even to NULL. The bytes from the component's end on stay as they were,
      and with them all that lies behind the part's 108 bytes. */
  method CopyPart(k: Kernel, path: seq<Byte>, pos: nat, dest: Word, ghost s: seq<Byte>, ghost b: nat) returns (i: nat)
    requires IsCString(path, s) && pos <= |s| && |s| - pos < MAX_PATH
    requires PieceEnd(s[pos..]) > 0 ==> PointsTo(dest, b) && forall j :: 0 <= j < MAX_PATH ==> BlockPage(k.ram, b)[j] == 0
    modifies k`ram
    ensures i == PieceEnd(s[pos..]) < MAX_PATH
    ensures if i == 0 then k.ram == old(k.ram)
            else
              && k.ram == old(k.ram)[HEAP_FRAME + b := k.ram[HEAP_FRAME + b]] && Holds(BlockPage(k.ram, b), s[pos..][..i])
              && SameFrom(old(BlockPage(k.ram, b)), BlockPage(k.ram, b), i)
  {
    ghost var empty, ram0 := PieceEnd(s[pos..]) == 0, k.ram;
    ghost var f: nat, page: Page := if empty then 0 else HEAP_FRAME + b, if empty then ZERO_PAGE else BlockPage(k.ram, b);
    ghost var page0 := page;
    i := 0;
    while path[pos + i] != SLASH && path[pos + i] != 0
      invariant pos + i <= |s| && Partly(page0, page, s, pos, i)
      invariant if empty then i == 0 && k.ram == ram0 else k.ram == ram0[f := page]
      decreases |s| - i
    {
      if i == 0 {
        FirstIsPart(s, pos);
      }
      AddressOfFrame(b);
      PartlyMore(page0, page, s, pos, i);
      StoreInPage(k.ram, dest, i, path[pos + i]);
      UpdateTwice(ram0, f, page, WriteByte(page, i, path[pos + i]));
      k.ram := StoreByte(k.ram, dest + i, path[pos + i]);
      page := WriteByte(page, i, path[pos + i]);
      i := i + 1;
    }
    PartlyDone(page0, page, s, pos, i);
  }

  lemma FirstIsPart(s: seq<Byte>, pos: nat)
    requires pos < |s| && s[pos] != SLASH
    ensures PieceEnd(s[pos..]) > 0
  {
  }

  /** At most the page of a block outside all runs has changed. */
  ghost predicate OneFreePage(runs: Runs, ram: Ram, ram': Ram, b: nat) {
    var one := ram' == ram || (b < HEAP_BLOCKS && Uncovered(runs, b) && ram' == ram[HEAP_FRAME + b := ram'[HEAP_FRAME + b]]);
    one
  }

  /** kzalloc of a page for a component, which may fail. */
  method TryPage(k: Kernel) returns (ptr: Word, ghost b: nat)
    requires k.Valid()
    modifies k`ram, k.heap`runs, k.heap.entries
    ensures k.Valid() && OneFreePage(old(k.Runs()), old(k.ram), k.ram, b)
    ensures ptr == 0 <==> old(k.FreeCount()) == 0
    ensures ptr == 0 ==> k.Runs() == old(k.Runs()) && k.FreeCount() == 0 && k.ram == old(k.ram)
    ensures ptr != 0 ==>
              && PointsTo(ptr, b) && b !in old(k.Runs()) && k.Runs() == old(k.Runs())[b := 1] && Uncovered(old(k.Runs()), b)
              && k.ram == old(k.ram)[HEAP_FRAME + b := k.ram[HEAP_FRAME + b]]
              && k.FreeCount() == old(k.FreeCount()) - 1 && forall j :: 0 <= j < MAX_PATH ==> BlockPage(k.ram, b)[j] == 0
  {
    OnePage(k.Table(), MAX_PATH);
    ptr, b := k.Kzalloc(MAX_PATH);
    if ptr != 0 {
      ClearedOutside(old(k.ram), k.ram, b, MAX_PATH);
      FreshIsUncovered(old(k.Runs()), b, k.Runs());
    }
  }

  /** pathparser_get_path_part: a new block with the component at `pos`; for an empty component
      NULL, and the block, if there was one, is given back. */
  method GetPathPart(k: Kernel, path: seq<Byte>, pos: nat, ghost s: seq<Byte>) returns (ptr: Word, next: nat, ghost b: nat)
    requires k.Valid() && IsCString(path, s) && pos <= |s| && |s| - pos < MAX_PATH
    requires PieceEnd(s[pos..]) > 0 ==> k.FreeCount() >= 1
    modifies k`ram, k.heap`runs, k.heap.entries
    ensures k.Valid() && next == Next(s, pos) && OneFreePage(old(k.Runs()), old(k.ram), k.ram, b)
    ensures var p := PieceEnd(s[pos..]);
            if p == 0 then ptr == 0 && k.Runs() == old(k.Runs()) && k.FreeCount() == old(k.FreeCount())
            else
              && PointsTo(ptr, b) && ptr != 0 && b !in old(k.Runs()) && Uncovered(old(k.Runs()), b)
              && k.ram == old(k.ram)[HEAP_FRAME + b := k.ram[HEAP_FRAME + b]]
              && k.Runs() == old(k.Runs())[b := 1] && k.FreeCount() == old(k.FreeCount()) - 1
              && Holds(BlockPage(k.ram, b), s[pos..][..p])
  {
    ptr, b := TryPage(k);
    var i := CopyPart(k, path, pos, ptr, s, b);
    next := pos + i;
    if path[next] == SLASH {
      next := next + 1;
    }
    if i == 0 {
      k.Kfree(ptr, b);
      if ptr != 0 {
        TakeAndGiveBack(old(k.Runs()), b, 1);
      }
      ptr := 0;
    }
  }

  /** The blocks of one more component. */
  lemma TakePart(before: Runs, runs: Runs, root: nat, chain: seq<Part>, p: Part)
    requires Taken(before, PathBlocks(root, chain), runs) && Distinct(root, chain)
    requires p.str !in runs && p.node !in runs[p.str := 1]
    ensures Taken(before, PathBlocks(root, chain + [p]), runs[p.str := 1][p.node := 1]) && Distinct(root, chain + [p])
  {
    var used := PathBlocks(root, chain);
    TakeOneMore(before, used, runs, p.str);
    TakeOneMore(before, used + {p.str}, runs[p.str := 1], p.node);
    PathBlocksGrow(root, chain, p);
  }

  /** Setting the last node's `next` writes one of the path's own pages. */
  lemma LinkedIsLive(before: Runs, ram0: Ram, runs: Runs, ram: Ram, root: nat, chain: seq<Part>, p: Part)
    requires Taken(before, PathBlocks(root, chain), runs) && DisjointRuns(runs, HEAP_BLOCKS)
    requires LiveKept(before, ram0, ram) && p.node < HEAP_BLOCKS
    ensures LiveKept(before, ram0, Linked(ram, chain, p))
  {
    if chain != [] && chain[|chain| - 1].node < HEAP_BLOCKS {
      var b := chain[|chain| - 1].node;
      PathBlocksContain(root, chain);
      OwnBlockUncovered(before, PathBlocks(root, chain), runs, b);
      LiveKeptMore(before, ram0, ram, b, Linked(ram, chain, p)[HEAP_FRAME + b]);
    }
  }

  lemma LiveKeptMore(runs: Runs, ram0: Ram, ram: Ram, b: nat, page: Page)
    requires LiveKept(runs, ram0, ram) && b < HEAP_BLOCKS && Uncovered(runs, b)
    ensures LiveKept(runs, ram0, ram[HEAP_FRAME + b := page])
  {
    assert HEAP_FRAME + b - HEAP_FRAME == b;
  }

  /** One more component is in place once its two blocks are taken and filled and the last node
      points to it. */
  lemma PartAdded(before: Runs, ram0: Ram, runs: Runs, ram: Ram, root: nat, chain: seq<Part>, names: seq<seq<Byte>>, p: Part, name: seq<Byte>)
    requires Built(before, ram0, runs, ram, root, chain, names) && DisjointRuns(runs, HEAP_BLOCKS)
    requires p.str !in runs && p.node !in runs[p.str := 1] && p.str < HEAP_BLOCKS && p.node < HEAP_BLOCKS
    requires ReadWord(BlockPage(ram, p.node), 0) == AddressOf(p.str) && ReadWord(BlockPage(ram, p.node), 1) == 0
    requires Holds(BlockPage(ram, p.str), name)
    ensures Built(before, ram0, runs[p.str := 1][p.node := 1], Linked(ram, chain, p), root, chain + [p], names + [name])
  {
    TakePart(before, runs, root, chain, p);
    ListGrows(ram, root, chain, names, p, name);
    LinkedIsLive(before, ram0, runs, ram, root, chain, p);
  }

  /** kzalloc of a list node, with its two fields. */
  method NewNode(k: Kernel, str: Word) returns (part: Word, ghost node: nat)
    requires k.Valid() && k.FreeCount() >= 1
    modifies k`ram, k.heap`runs, k.heap.entries
    ensures k.Valid() && k.FreeCount() == old(k.FreeCount()) - 1 && PointsTo(part, node)
    ensures node !in old(k.Runs()) && k.Runs() == old(k.Runs())[node := 1] && Uncovered(old(k.Runs()), node)
    ensures k.ram == old(k.ram)[HEAP_FRAME + node := BlockPage(k.ram, node)]
    ensures ReadWord(BlockPage(k.ram, node), 0) == str && ReadWord(BlockPage(k.ram, node), 1) == 0
  {
    part, node := NewPage(k, 8);
    AddressOfFrame(node);
    k.ram := StoreIndex(k.ram, part, 0, str);
    k.ram := StoreIndex(k.ram, part, 1, 0);
  }

  /** last_part->next = part, if there is a last part. */
  method SetNext(k: Kernel, last_part: Word, part: Word, ghost chain: seq<Part>, ghost p: Part, ghost root: nat)
    requires last_part == LastLink(chain) && PointsTo(part, p.node) && (chain != [] ==> last_part != 0)
    requires Distinct(root, chain) && root < HEAP_BLOCKS
    modifies k`ram
    ensures k.ram == Linked(old(k.ram), chain, p) && BlockPage(k.ram, root) == old(BlockPage(k.ram, root))
  {
    if last_part != 0 {
      AddressOfFrame(chain[|chain| - 1].node);
      DistinctNodes(root, chain, |chain| - 1);
      k.ram := StoreIndex(k.ram, last_part, 1, part);
    }
  }

  /** The pointer to the last node. */
  function LastLink(chain: seq<Part>): Word {
    if chain == [] then 0 else Link(chain, |chain| - 1)
  }

  /** The path so far stays as it is while a block is taken and filled. */
  lemma StillBuilt(before: Runs, ram0: Ram, runs: Runs, ram: Ram, root: nat, chain: seq<Part>, names: seq<seq<Byte>>,
                   b: nat, ram1: Ram, node: nat, ram2: Ram)
    requires Built(before, ram0, runs, ram, root, chain, names) && b < HEAP_BLOCKS && node < HEAP_BLOCKS
    requires Uncovered(runs, b) && b !in runs && Uncovered(runs[b := 1], node)
    requires ram1 == ram[HEAP_FRAME + b := ram1[HEAP_FRAME + b]]
    requires ram2 == ram1[HEAP_FRAME + node := ram2[HEAP_FRAME + node]]
    ensures Built(before, ram0, runs, ram2, root, chain, names) && b != node
    ensures root < HEAP_BLOCKS ==> BlockPage(ram2, root) == BlockPage(ram, root)
  {
    assert Uncovered(runs, node) by {
      assert forall s: nat :: Covers(runs, s, node) ==> Covers(runs[b := 1], s, node);
    }
    assert b == node ==> Covers(runs[b := 1], b, node);
    WriteOutside(before, ram0, runs, ram, root, chain, names, b, ram1);
    WriteOutside(before, ram0, runs, ram1, root, chain, names, node, ram2);
  }

  /** pathparser_parse_path_part: the component at `pos` as a new node behind `last_part`, or NULL if
      it is empty. */
  method ParsePathPart(k: Kernel, last_part: Word, path: seq<Byte>, pos: nat, ghost s: seq<Byte>,
                       ghost before: Runs, ghost ram0: Ram, ghost root: nat, ghost chain: seq<Part>, ghost names: seq<seq<Byte>>)
    returns (part: Word, next: nat, ghost p: Part)
    requires k.Valid() && IsCString(path, s) && pos <= |s| && |s| - pos < MAX_PATH
    requires PieceEnd(s[pos..]) > 0 ==> k.FreeCount() >= 2
    requires Built(before, ram0, k.Runs(), k.ram, root, chain, names) && root < HEAP_BLOCKS
    requires last_part == LastLink(chain) && (chain != [] ==> last_part != 0)
    modifies k`ram, k.heap`runs, k.heap.entries
    ensures k.Valid() && next == Next(s, pos)
    ensures BlockPage(k.ram, root) == old(BlockPage(k.ram, root))
    ensures var e := PieceEnd(s[pos..]);
            if e == 0 then
              part == 0 && k.FreeCount() == old(k.FreeCount()) && Built(before, ram0, k.Runs(), k.ram, root, chain, names)
            else
              && k.FreeCount() == old(k.FreeCount()) - 2 && PointsTo(part, p.node)
              && Built(before, ram0, k.Runs(), k.ram, root, chain + [p], names + [s[pos..][..e]])
  {
    ghost var runs, b: nat := k.Runs(), 0;
    var str;
    str, next, b := GetPathPart(k, path, pos, s);
    if str == 0 {
      if k.ram != old(k.ram) {
        WriteOutside(before, ram0, runs, old(k.ram), root, chain, names, b, k.ram);
      }
      return 0, next, Part(0, 0);
    }
    ghost var ram1, node: nat := k.ram, 0;
    part, node := NewNode(k, str);
    p := Part(b, node);
    StillBuilt(before, ram0, runs, old(k.ram), root, chain, names, b, ram1, node, k.ram);
    PartAdded(before, ram0, runs, k.ram, root, chain, names, p, s[pos..][..PieceEnd(s[pos..])]);
    SetNext(k, last_part, part, chain, p, root);
  }

  /** The components before `pos` have been read. */
  ghost predicate Progress(s: seq<Byte>, names: seq<seq<Byte>>, pos: nat) {
    var progress := 3 <= pos <= |s| && names + Components(s[pos..]) == Components(s[3..]);
    progress
  }

  lemma ProgressStep(s: seq<Byte>, names: seq<seq<Byte>>, pos: nat)
    requires Progress(s, names, pos)
    ensures var e := PieceEnd(s[pos..]);
            if e == 0 then names == Components(s[3..]) && Components(s[pos..]) == []
            else
              && Progress(s, names + [s[pos..][..e]], Next(s, pos))
              && |Components(s[pos..])| == 1 + |Components(s[Next(s, pos)..])|
  {
    NextComponent(s, pos);
    var e, rest := PieceEnd(s[pos..]), Components(s[Next(s, pos)..]);
    if e != 0 {
      assert names + ([s[pos..][..e]] + rest) == names + [s[pos..][..e]] + rest;
    }
  }

  lemma NextComponent(s: seq<Byte>, pos: nat)
    requires pos <= |s|
    ensures var e := PieceEnd(s[pos..]);
            Components(s[pos..]) == if e == 0 then [] else [s[pos..][..e]] + Components(s[Next(s, pos)..])
  {
    var rest, e := s[pos..], PieceEnd(s[pos..]);
    if e < |rest| {
      FirstComponent(rest, e);
      assert rest[e + 1..] == s[Next(s, pos)..];
    } else {
      LastComponent(rest);
      LastComponent([]);
      assert rest[..e] == rest && s[Next(s, pos)..] == [];
    }
  }

  lemma StartBuilt(before: Runs, ram0: Ram, root: nat, ram: Ram)
    requires root !in before && Uncovered(before, root) && root < HEAP_BLOCKS
    requires ram == ram0[HEAP_FRAME + root := ram[HEAP_FRAME + root]]
    ensures Built(before, ram0, before[root := 1], ram, root, [], [])
  {
    TakeOneMore(before, {}, before, root);
    assert PathBlocks(root, []) == {} + {root};
  }

  /** Writing the root's own page. */
  lemma WriteRoot(before: Runs, ram0: Ram, runs: Runs, ram: Ram, root: nat, chain: seq<Part>, names: seq<seq<Byte>>, page: Page)
    requires Built(before, ram0, runs, ram, root, chain, names) && DisjointRuns(runs, HEAP_BLOCKS) && root < HEAP_BLOCKS
    ensures Built(before, ram0, runs, ram[HEAP_FRAME + root := page], root, chain, names)
  {
    var ram' := ram[HEAP_FRAME + root := page];
    PathBlocksContain(root, chain);
    OwnBlockUncovered(before, PathBlocks(root, chain), runs, root);
    forall i: nat | i < |chain| ensures PartHeld(ram', chain, names, i) {
      assert PartHeld(ram, chain, names, i);
      RootIsApart(root, chain, i);
    }
  }

  lemma {:induction false} RootIsApart(root: nat, chain: seq<Part>, i: nat)
    requires Distinct(root, chain) && i < |chain|
    ensures chain[i].str != root && chain[i].node != root
  {
    var front := chain[..|chain| - 1];
    PathBlocksContain(root, front);
    if i < |front| {
      RootIsApart(root, front, i);
    }
  }

  /** The root for a drive. */
  method CreateRoot(k: Kernel, drive: nat) returns (path_root: Word, ghost root: nat)
    requires k.Valid() && k.FreeCount() >= 1 && drive < 10
    modifies k`ram, k.heap`runs, k.heap.entries
    ensures k.Valid() && k.FreeCount() == old(k.FreeCount()) - 1
    ensures PointsTo(path_root, root) && RootHeld(k.ram, root, drive, [])
    ensures Built(old(k.Runs()), old(k.ram), k.Runs(), k.ram, root, [], [])
  {
    path_root, root := NewPage(k, 8);
    AddressOfFrame(root);
    k.ram := StoreIndex(k.ram, path_root, 0, drive);
    k.ram := StoreIndex(k.ram, path_root, 1, 0);
    StartBuilt(old(k.Runs()), old(k.ram), root, k.ram);
  }

  /** pathparser_parse_path_part on the way through a path: either there is a component and the list
      has grown by it, or the list is complete. */
  method ParseNext(k: Kernel, last_part: Word, path: seq<Byte>, pos: nat, ghost s: seq<Byte>, ghost before: Runs, ghost ram0: Ram,
                   ghost root: nat, ghost chain: seq<Part>, ghost names: seq<seq<Byte>>)
    returns (part: Word, next: nat, ghost longer: seq<Part>, ghost more: seq<seq<Byte>>)
    requires k.Valid() && IsCString(path, s) && |s| <= MAX_PATH && Progress(s, names, pos)
    requires k.FreeCount() >= 2 * |Components(s[pos..])|
    requires root < HEAP_BLOCKS && Built(before, ram0, k.Runs(), k.ram, root, chain, names)
    requires last_part == LastLink(chain) && (chain != [] ==> last_part != 0)
    modifies k`ram, k.heap`runs, k.heap.entries
    ensures k.Valid() && Built(before, ram0, k.Runs(), k.ram, root, longer, more)
    ensures BlockPage(k.ram, root) == old(BlockPage(k.ram, root))
    ensures k.FreeCount() == old(k.FreeCount()) - 2 * (|longer| - |chain|)
    ensures part == 0 ==> longer == chain && more == Components(s[3..]) && Components(s[pos..]) == []
    ensures part != 0 ==>
              && chain <= longer && |longer| == |chain| + 1 && LastLink(longer) == part
              && pos < next && Progress(s, more, next) && |Components(s[next..])| == |Components(s[pos..])| - 1
  {
    ProgressStep(s, names, pos);
    ghost var e, name, p := PieceEnd(s[pos..]), s[pos..][..PieceEnd(s[pos..])], Part(0, 0);
    part, next, p := ParsePathPart(k, last_part, path, pos, s, before, ram0, root, chain, names);
    if part == 0 {
      longer, more := chain, names;
      return;
    }
    Grown(chain, p, part);
    longer, more := chain + [p], names + [name];
  }

  lemma Grown(chain: seq<Part>, p: Part, part: Word)
    requires PointsTo(part, p.node)
    ensures LastLink(chain + [p]) == part != 0 && chain <= chain + [p]
  {
    assert (chain + [p])[|chain|] == p;
  }

  /** The components after the first, each linked behind the one before. */
  method ParseRest(k: Kernel, first: Word, path: seq<Byte>, from: nat, ghost s: seq<Byte>, ghost before: Runs, ghost ram0: Ram,
                   ghost root: nat, ghost start: seq<Part>, ghost names0: seq<seq<Byte>>)
    returns (ghost chain: seq<Part>)
    requires k.Valid() && IsCString(path, s) && |s| <= MAX_PATH && Progress(s, names0, from)
    requires k.FreeCount() >= 2 * |Components(s[from..])|
    requires root < HEAP_BLOCKS && Built(before, ram0, k.Runs(), k.ram, root, start, names0)
    requires first == LastLink(start) != 0
    modifies k`ram, k.heap`runs, k.heap.entries
    ensures k.Valid() && k.FreeCount() == old(k.FreeCount()) - 2 * (|chain| - |start|)
    ensures start <= chain && Built(before, ram0, k.Runs(), k.ram, root, chain, Components(s[3..]))
    ensures BlockPage(k.ram, root) == old(BlockPage(k.ram, root))
  {
    ghost var names;
    var part, pos;
    part, pos, chain, names := ParseNext(k, first, path, from, s, before, ram0, root, start, names0);
    while part != 0
      invariant k.Valid() && Built(before, ram0, k.Runs(), k.ram, root, chain, names)
      invariant k.FreeCount() == old(k.FreeCount()) - 2 * (|chain| - |start|) && start <= chain
      invariant BlockPage(k.ram, root) == old(BlockPage(k.ram, root))
      invariant part == 0 ==> names == Components(s[3..])
      invariant part != 0 ==>
                  && LastLink(chain) == part && Progress(s, names, pos)
                  && k.FreeCount() >= 2 * |Components(s[pos..])|
      decreases if part == 0 then 0 else 1 + |s| - pos
    {
      part, pos, chain, names := ParseNext(k, part, path, pos, s, before, ram0, root, chain, names);
    }
  }

  /** The list of pathparser_parse, behind a root that is in place. */
  method ParseComponents(k: Kernel, path_root: Word, path: seq<Byte>, ghost s: seq<Byte>, ghost before: Runs, ghost ram0: Ram,
                         ghost root: nat, ghost drive: nat)
    returns (ghost chain: seq<Part>)
    requires k.Valid() && IsCString(path, s) && 3 <= |s| <= MAX_PATH
    requires k.FreeCount() >= 2 * |Components(s[3..])|
    requires PointsTo(path_root, root) && RootHeld(k.ram, root, drive, []) && Built(before, ram0, k.Runs(), k.ram, root, [], [])
    modifies k`ram, k.heap`runs, k.heap.entries
    ensures k.Valid() && k.FreeCount() == old(k.FreeCount()) - 2 * |chain|
    ensures RootHeld(k.ram, root, drive, chain)
    ensures Built(before, ram0, k.Runs(), k.ram, root, chain, Components(s[3..]))
  {
    ghost var names;
    var first, pos;
    first, pos, chain, names := ParseNext(k, 0, path, 3, s, before, ram0, root, [], []);
    if first == 0 {
      return;
    }
    AddressOfFrame(root);
    WriteRoot(before, ram0, k.Runs(), k.ram, root, chain, names, WriteWord(BlockPage(k.ram, root), 1, first));
    k.ram := StoreIndex(k.ram, path_root, 1, first);
    chain := ParseRest(k, first, path, pos, s, before, ram0, root, chain, names);
  }

  /** pathparser_parse: a path is accepted exactly if it is no longer than 108 characters and starts
      with a drive. Then the list holds the components before the first empty one, in one block for the
      root and two for each component, and no page that was in use has changed. The code does not check
      its allocations, so that many blocks must be free; that there may be none for the empty component at
      the end does no harm. */
  method Parse(k: Kernel, path: seq<Byte>) returns (path_root: Word, ghost root: nat, ghost chain: seq<Part>)
    requires k.Valid() && 0 in path
    requires var s := CString(path); Accepted(s) ==> k.FreeCount() >= 2 * |Components(s[3..])| + 1
    modifies k`ram, k.heap`runs, k.heap.entries
    ensures k.Valid() && (path_root != 0 <==> Accepted(CString(path)))
    ensures path_root == 0 ==> k.Runs() == old(k.Runs()) && k.Table() == old(k.Table()) && k.ram == old(k.ram)
    ensures path_root != 0 ==>
              var s := CString(path);
              && PointsTo(path_root, root) && RootHeld(k.ram, root, s[0] - DIGIT_ZERO, chain)
              && Built(old(k.Runs()), old(k.ram), k.Runs(), k.ram, root, chain, Components(s[3..]))
              && k.FreeCount() == old(k.FreeCount()) - 2 * |chain| - 1
  {
    Terminated(path);
    path_root, root, chain := 0, 0, [];
    ghost var s := CString(path);
    var len := Strlen(path);
    if len > MAX_PATH {
      return;
    }
    var drive := DriveByPath(path);
    if drive < 0 {
      return;
    }
    ghost var before, ram0 := k.Runs(), k.ram;
    path_root, root := CreateRoot(k, drive);
    chain := ParseComponents(k, path_root, path, s, before, ram0, root, drive);
  }

  /** pathparser_get_drive_by_path: the drive, or an error. */
  method DriveByPath(path: seq<Byte>) returns (drive: int)
    requires 0 in path
    ensures drive >= 0 <==> ValidFormat(CString(path))
    ensures drive >= 0 ==> drive == CString(path)[0] - DIGIT_ZERO < 10
  {
    Terminated(path);
    var len := Strnlen(path, MAX_PATH);
    if len >= 3 && DIGIT_ZERO <= path[0] < DIGIT_ZERO + 10 && path[1] == COLON && path[2] == SLASH {
      return path[0] - DIGIT_ZERO;
    }
    return -EBADPATH;
  }

  /** The path's blocks are live one-block runs. */
  ghost predicate OwnsPath(runs: Runs, root: nat, chain: seq<Part>) {
    forall b :: b in PathBlocks(root, chain) ==> b in runs && runs[b] == 1
  }

  /** The blocks of the first `i` parts, without the root. */
  ghost function Given(root: nat, chain: seq<Part>, i: nat): set<nat>
    requires i <= |chain|
  {
    PathBlocks(root, chain[..i]) - {root}
  }

  lemma GivenGrows(root: nat, chain: seq<Part>, i: nat)
    requires Distinct(root, chain) && i < |chain|
    ensures var p, given := chain[i], Given(root, chain, i);
            && p.str !in given && p.node !in given && p.str != p.node
            && p.str in PathBlocks(root, chain) && p.node in PathBlocks(root, chain)
            && Given(root, chain, i + 1) == given + {p.str} + {p.node}
  {
    DistinctPrefix(root, chain, i + 1);
    PathBlocksContain(root, chain);
    RootIsApart(root, chain, i);
    assert chain[..i + 1][..i] == chain[..i];
  }

  /** One turn of the loop of pathparser_free. */
  method FreePart(k: Kernel, part: Word, ghost i: nat, ghost root: nat, ghost chain: seq<Part>, ghost names: seq<seq<Byte>>, ghost runs: Runs)
    returns (next_part: Word)
    requires k.Valid() && i < |chain| && part == Link(chain, i) && k.Runs() == runs - Given(root, chain, i)
    requires ListHeld(k.ram, chain, names) && Distinct(root, chain) && OwnsPath(runs, root, chain)
    modifies k.heap`runs, k.heap.entries
    ensures k.Valid() && next_part == Link(chain, i + 1) && k.Runs() == runs - Given(root, chain, i + 1)
    ensures k.FreeCount() == old(k.FreeCount()) + 2
  {
    GivenGrows(root, chain, i);
    assert PartHeld(k.ram, chain, names, i);
    AddressOfFrame(chain[i].node);
    next_part := LoadIndex(k.ram, part, 1);
    GiveBack(k, LoadIndex(k.ram, part, 0), chain[i].str, runs, Given(root, chain, i));
    GiveBack(k, part, chain[i].node, runs, Given(root, chain, i) + {chain[i].str});
  }

  /** pathparser_free: gives back the two blocks of every component and the root. */
  method Free(k: Kernel, path_root: Word, ghost root: nat, ghost drive: nat, ghost chain: seq<Part>, ghost names: seq<seq<Byte>>)
    requires k.Valid() && PointsTo(path_root, root) && RootHeld(k.ram, root, drive, chain)
    requires ListHeld(k.ram, chain, names) && Distinct(root, chain) && OwnsPath(k.Runs(), root, chain)
    modifies k.heap`runs, k.heap.entries
    ensures k.Valid() && k.Runs() == old(k.Runs()) - PathBlocks(root, chain)
    ensures k.FreeCount() == old(k.FreeCount()) + 2 * |chain| + 1
  {
    ghost var runs, i: nat := k.Runs(), 0;
    AddressOfFrame(root);
    var part := LoadIndex(k.ram, path_root, 1);
    while part != 0
      invariant i <= |chain| && part == Link(chain, i)
      invariant k.Valid() && k.Runs() == runs - Given(root, chain, i)
      invariant k.FreeCount() == old(k.FreeCount()) + 2 * i
      decreases |chain| - i
    {
      part := FreePart(k, part, i, root, chain, names, runs);
      i := i + 1;
    }
    AllGiven(k.ram, root, chain, names, i);
    GiveBack(k, path_root, root, runs, Given(root, chain, i));
  }

  lemma AllGiven(ram: Ram, root: nat, chain: seq<Part>, names: seq<seq<Byte>>, i: nat)
    requires ListHeld(ram, chain, names) && i <= |chain| && Link(chain, i) == 0
    ensures i == |chain| && Given(root, chain, i) + {root} == PathBlocks(root, chain) && root in PathBlocks(root, chain)
  {
    if i < |chain| {
      assert PartHeld(ram, chain, names, i);
      IsNoNull(Link(chain, i), chain[i].node);
    }
    assert chain[..|chain|] == chain;
    PathBlocksContain(root, chain);
  }

  /** Freeing a parsed path leaves the heap with exactly the runs it had before the parse; a path
      of n components takes, and gives back, 2n + 1 blocks. */
  lemma ParseThenFree(before: Runs, ram0: Ram, runs: Runs, ram: Ram, root: nat, chain: seq<Part>, names: seq<seq<Byte>>)
    requires Built(before, ram0, runs, ram, root, chain, names)
    ensures OwnsPath(runs, root, chain) && Distinct(root, chain) && ListHeld(ram, chain, names)
    ensures runs - PathBlocks(root, chain) == before
    ensures |PathBlocks(root, chain)| == 2 * |names| + 1 && |runs| == |before| + 2 * |names| + 1
  {
    PathBlocksCount(root, chain);
    AddThenRemove(before, PathBlocks(root, chain));
  }
}
