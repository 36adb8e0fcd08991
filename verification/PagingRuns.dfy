/** Whole runs of the paging operations, interleaved with any other use of the heap. */
module PagingRuns {
  import opened Memory
  import opened Heaps
  import opened Kheap
  import opened Paging

  datatype State = State(ram: Ram, runs: Runs, spaces: set<Space>)

  datatype Call =
    | New(sp: Space, flags: nat)
    | MapTo(sp: Space, virt: Word, phys: Word, physEnd: Word, flags: nat)
    | Set(sp: Space, page: PageNo, val: Word)
    | Release(sp: Space)
    | OtherAlloc(block: nat, size: Word)  // any other kzalloc
    | OtherFree(block: nat)               // kfree of a run that belongs to no space
    | OtherWrite                          // the kernel writes memory outside all spaces

  /** Every live space is well formed, linked, made of live one-block runs, and shares no block
      with another space. */
  ghost predicate Inv(st: State) {
    && DisjointRuns(st.runs, HEAP_BLOCKS)
    && (forall sp :: sp in st.spaces ==> WellFormed(sp) && Linked(st.ram, sp) && Owns(st.runs, sp))
    && (forall sp, sq :: sp in st.spaces && sq in st.spaces && sp != sq ==> Blocks(sp) !! Blocks(sq))
  }

  ghost predicate BelongsTo(spaces: set<Space>, b: int) {
    exists sp :: sp in spaces && b in Blocks(sp)
  }

  /** What each call does, in the terms of the contracts of the paging and heap methods; that
      the runs stay disjoint is what the heap guarantees. */
  ghost predicate Step(st: State, call: Call, st': State) {
    && DisjointRuns(st'.runs, HEAP_BLOCKS)
    && match call
       case New(sp, flags) =>
         && Created(st.runs, st.ram, sp, flags, st'.runs, st'.ram)
         && st'.spaces == st.spaces + {sp}
       case MapTo(sp, virt, phys, physEnd, flags) =>
         && sp in st.spaces && WellFormed(sp) && MapArgumentsOk(virt, phys, physEnd) && flags < PAGE_SIZE
         && st' == st.(ram := AfterMapTo(st.ram, sp, virt, phys, physEnd, flags))
       case Set(sp, page, val) =>
         sp in st.spaces && WellFormed(sp) && st' == st.(ram := SetEntry(st.ram, sp, page, val))
       case Release(sp) =>
         sp in st.spaces && st' == st.(runs := st.runs - Blocks(sp), spaces := st.spaces - {sp})
       case OtherAlloc(block, size) =>
         && 1 <= size && Allocated(st.runs, st.ram, st'.runs, st'.ram, block, size)
         && st'.spaces == st.spaces
       case OtherFree(block) =>
         !BelongsTo(st.spaces, block) && st' == st.(runs := st.runs - {block})
       case OtherWrite =>
         && st'.runs == st.runs && st'.spaces == st.spaces
         && forall sp :: sp in st.spaces ==> Untouched(st.ram, sp, st'.ram)
  }

  /** The space a call works on, if any. */
  ghost predicate Targets(call: Call, sp: Space) {
    match call
    case MapTo(t, _, _, _, _) => t == sp
    case Set(t, _, _) => t == sp
    case Release(t) => t == sp
    case _ => false
  }

  lemma TablesElsewhere(ram: Ram, sp: Space, ram': Ram, sq: Space)
    requires WellFormed(sp) && OnlyTablesChanged(ram, sp, ram') && Blocks(sp) !! Blocks(sq)
    ensures Untouched(ram, sq, ram')
  {
    forall b | b in Blocks(sq) && b < HEAP_BLOCKS ensures ram'[HEAP_FRAME + b] == ram[HEAP_FRAME + b] {
      assert b in sp.tables ==> b in Blocks(sp);
    }
  }

  lemma SetKeeps(ram: Ram, sp: Space, page: PageNo, val: Word)
    requires WellFormed(sp)
    ensures OnlyTablesChanged(ram, sp, SetEntry(ram, sp, page, val))
    ensures Linked(ram, sp) ==> Linked(SetEntry(ram, sp, page, val), sp)
  {
    SetEntryEffect(ram, sp, page, val);
  }

  lemma CreatedElsewhere(st: State, sp: Space, flags: nat, st': State, sq: Space)
    requires Created(st.runs, st.ram, sp, flags, st'.runs, st'.ram) && Owns(st.runs, sq)
    ensures Blocks(sp) !! Blocks(sq)
    ensures Owns(st'.runs, sq) && Untouched(st.ram, sq, st'.ram)
  {
  }

  /** A call leaves every page of the spaces it does not work on, and their runs, alone. */
  lemma OthersUntouched(st: State, call: Call, st': State, sq: Space)
    requires Inv(st) && Step(st, call, st') && sq in st.spaces && !Targets(call, sq)
    ensures sq in st'.spaces && Owns(st'.runs, sq) && Untouched(st.ram, sq, st'.ram)
  {
    match call
    case New(sp, flags) =>
      CreatedElsewhere(st, sp, flags, st', sq);
    case MapTo(sp, virt, phys, physEnd, flags) =>
      AfterMapToKeeps(st.ram, sp, virt, phys, physEnd, flags);
      TablesElsewhere(st.ram, sp, st'.ram, sq);
    case Set(sp, page, val) =>
      SetKeeps(st.ram, sp, page, val);
      TablesElsewhere(st.ram, sp, st'.ram, sq);
    case Release(sp) =>
      assert Blocks(sp) !! Blocks(sq);
    case OtherAlloc(block, size) =>
      AllocatedElsewhere(st.runs, st.ram, st'.runs, st'.ram, block, size, sq);
    case OtherFree(block) =>
      assert block in Blocks(sq) ==> BelongsTo(st.spaces, block);
    case OtherWrite =>
  }

  /** Every call keeps the invariant. */
  lemma StepKeepsInv(st: State, call: Call, st': State)
    requires Inv(st) && Step(st, call, st')
    ensures Inv(st')
  {
    forall sq | sq in st'.spaces ensures WellFormed(sq) && Linked(st'.ram, sq) && Owns(st'.runs, sq) {
      if sq in st.spaces && !Targets(call, sq) {
        OthersUntouched(st, call, st', sq);
        UntouchedKeeps(st.ram, sq, st'.ram);
      } else {
        TargetKept(st, call, st', sq);
      }
    }
    SpacesStayApart(st, call, st');
  }

  lemma SpacesStayApart(st: State, call: Call, st': State)
    requires Inv(st) && Step(st, call, st')
    ensures forall sp, sq :: sp in st'.spaces && sq in st'.spaces && sp != sq ==> Blocks(sp) !! Blocks(sq)
  {
    forall sp, sq | sp in st'.spaces && sq in st'.spaces && sp != sq ensures Blocks(sp) !! Blocks(sq) {
      if call.New? && sp !in st.spaces {
        CreatedElsewhere(st, sp, call.flags, st', sq);
      } else if call.New? && sq !in st.spaces {
        CreatedElsewhere(st, sq, call.flags, st', sp);
      }
    }
  }

  lemma TargetKept(st: State, call: Call, st': State, sq: Space)
    requires Inv(st) && Step(st, call, st') && sq in st'.spaces && (sq !in st.spaces || Targets(call, sq))
    ensures WellFormed(sq) && Linked(st'.ram, sq) && Owns(st'.runs, sq)
  {
    match call
    case New(sp, flags) =>
    case MapTo(sp, virt, phys, physEnd, flags) =>
      AfterMapToKeeps(st.ram, sp, virt, phys, physEnd, flags);
    case Set(sp, page, val) =>
      SetKeeps(st.ram, sp, page, val);
    case _ =>
  }

  ghost predicate Trace(states: seq<State>, calls: seq<Call>) {
    && |states| == |calls| + 1
    && Inv(states[0])
    && forall i :: 0 <= i < |calls| ==> Step(states[i], calls[i], states[i + 1])
  }

  /** Over every run, the tables of the live spaces stay distinct one-block runs of their own,
      and a space that no call works on keeps its directory and the word of every page: mapping,
      creating and freeing elsewhere changes none of its translations. */
  lemma {:induction false} TraceIsolates(states: seq<State>, calls: seq<Call>, sp: Space)
    requires Trace(states, calls)
    requires sp in states[0].spaces && forall i :: 0 <= i < |calls| ==> !Targets(calls[i], sp)
    ensures Inv(states[|calls|]) && sp in states[|calls|].spaces
    ensures forall p: PageNo :: PageEntry(states[|calls|].ram, sp, p) == PageEntry(states[0].ram, sp, p)
    decreases |calls|
  {
    if calls != [] {
      var n := |calls| - 1;
      TraceIsolates(states[..n + 1], calls[..n], sp);
      assert Step(states[n], calls[n], states[n + 1]);
      OthersUntouched(states[n], calls[n], states[n + 1], sp);
      UntouchedKeeps(states[n].ram, sp, states[n + 1].ram);
      StepKeepsInv(states[n], calls[n], states[n + 1]);
    }
  }

  /** And so it keeps the words of its directory, and what a program may reach in it, and how. */
  lemma TraceKeepsAccess(states: seq<State>, calls: seq<Call>, sp: Space, v: Word, write: bool)
    requires Trace(states, calls)
    requires sp in states[0].spaces && forall i :: 0 <= i < |calls| ==> !Targets(calls[i], sp)
    ensures WellFormed(sp) && DirEntry(states[|calls|].ram, sp, v / PAGE_SIZE) == DirEntry(states[0].ram, sp, v / PAGE_SIZE)
    ensures Access(states[|calls|].ram, sp, v, write) == Access(states[0].ram, sp, v, write)
  {
    TraceIsolates(states, calls, sp);
    SameAccess(states[0].ram, states[|calls|].ram, sp, v, write);
  }

  /** Over every run, whatever is targeted, the invariant holds at the end. */
  lemma {:induction false} TraceKeepsInv(states: seq<State>, calls: seq<Call>)
    requires Trace(states, calls)
    ensures Inv(states[|calls|])
    decreases |calls|
  {
    if calls != [] {
      var n := |calls| - 1;
      TraceKeepsInv(states[..n + 1], calls[..n]);
      StepKeepsInv(states[n], calls[n], states[n + 1]);
    }
  }
}
