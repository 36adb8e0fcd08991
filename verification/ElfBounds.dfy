/** The program header walk of the ELF loader: the virtual and physical bounds of the loaded segments. */
module ElfBounds {
  import opened Memory
  import opened Status

  const PT_LOAD := 1

  /** The fields of a program header that the walk reads. */
  datatype Segment = Segment(kind: Word, offset: Word, vaddr: Word, filesz: Word)

  datatype Bounds = Bounds(virtualBase: Word, physicalBase: Word, virtualEnd: Word, physicalEnd: Word)

  /** The byte behind the segment's last, in the file's address space. */
  function EndOf(s: Segment): Word {
    Wrap(s.vaddr + s.filesz)
  }

  /** The bounds after one more segment. Zero stands for "not set yet". */
  function Widened(b: Bounds, elf: Word, s: Segment): Bounds {
    var based := if b.virtualBase >= s.vaddr || b.virtualBase == 0
                 then b.(virtualBase := s.vaddr, physicalBase := Wrap(elf + s.offset)) else b;
    if b.virtualEnd <= EndOf(s) || b.virtualEnd == 0
    then based.(virtualEnd := EndOf(s), physicalEnd := Wrap(elf + s.offset + s.filesz)) else based
  }

  function BoundsOf(elf: Word, segments: seq<Segment>): Bounds {
    if segments == [] then Bounds(0, 0, 0, 0)
    else Widened(BoundsOf(elf, segments[..|segments| - 1]), elf, segments[|segments| - 1])
  }

  /** Segment `i` is the last with the greatest end. */
  ghost predicate IsLastGreatest(segments: seq<Segment>, i: nat) {
    && i < |segments| && (forall j :: 0 <= j < |segments| ==> EndOf(segments[j]) <= EndOf(segments[i]))
    && forall j :: i < j < |segments| ==> EndOf(segments[j]) < EndOf(segments[i])
  }

  /** The end is the greatest end of a segment, and the physical end belongs to the same segment. */
  lemma {:induction false} EndIsGreatest(elf: Word, segments: seq<Segment>) returns (i: nat)
    requires segments != []
    ensures IsLastGreatest(segments, i)
    ensures var b := BoundsOf(elf, segments);
            && b.virtualEnd == EndOf(segments[i])
            && b.physicalEnd == Wrap(elf + segments[i].offset + segments[i].filesz)
  {
    var n := |segments| - 1;
    if n > 0 {
      var before := EndIsGreatest(elf, segments[..n]);
      i := if BoundsOf(elf, segments[..n]).virtualEnd <= EndOf(segments[n]) then n else before;
    } else {
      i := 0;
    }
  }

  /** Every address of a segment that does not wrap lies below the end; and when none wraps the end is where one
      of them ends. */
  lemma EndCoversAddresses(elf: Word, segments: seq<Segment>, j: nat, v: int) returns (i: nat)
    requires j < |segments| && segments[j].vaddr + segments[j].filesz < 0x1_0000_0000
    requires segments[j].vaddr <= v < segments[j].vaddr + segments[j].filesz
    ensures v < BoundsOf(elf, segments).virtualEnd && i < |segments|
    ensures (forall n :: 0 <= n < |segments| ==> segments[n].vaddr + segments[n].filesz < 0x1_0000_0000)
            ==> BoundsOf(elf, segments).virtualEnd == segments[i].vaddr + segments[i].filesz
  {
    i := EndIsGreatest(elf, segments);
    WrapSmall(segments[j].vaddr + segments[j].filesz);
    assert EndOf(segments[j]) <= EndOf(segments[i]);
    if segments[i].vaddr + segments[i].filesz < ADDRESS_SPACE {
      WrapSmall(segments[i].vaddr + segments[i].filesz);
    }
  }

  /** The base always belongs to one of the segments, virtually and physically, and only higher ones come after it. */
  lemma {:induction false} BaseIsOfSegment(elf: Word, segments: seq<Segment>) returns (i: nat)
    requires segments != []
    ensures i < |segments| && forall j :: i < j < |segments| ==> 0 < segments[i].vaddr < segments[j].vaddr
    ensures var b := BoundsOf(elf, segments);
            b.virtualBase == segments[i].vaddr && b.physicalBase == Wrap(elf + segments[i].offset)
  {
    var n := |segments| - 1;
    i := n;
    var b := BoundsOf(elf, segments[..n]);
    if n > 0 && !(b.virtualBase >= segments[n].vaddr || b.virtualBase == 0) {
      i := BaseIsOfSegment(elf, segments[..n]);
    }
  }

  predicate AllPositive(segments: seq<Segment>) {
    forall i :: 0 <= i < |segments| ==> segments[i].vaddr > 0
  }

  ghost predicate IsLeastBase(segments: seq<Segment>, base: Word) {
    forall i :: 0 <= i < |segments| ==> base <= segments[i].vaddr
  }

  /** It is the least virtual address if and only if no segment starts at address zero, or the last
      one does: a base of zero counts as not set, and the next segment replaces it. */
  lemma {:induction false} BaseIsLeastIff(elf: Word, segments: seq<Segment>)
    requires segments != []
    ensures IsLeastBase(segments, BoundsOf(elf, segments).virtualBase)
            <==> AllPositive(segments) || segments[|segments| - 1].vaddr == 0
  {
    var n := |segments| - 1;
    if n > 0 {
      BaseIsLeastIff(elf, segments[..n]);
      if segments[n].vaddr > 0 && AllPositive(segments) {
        assert AllPositive(segments[..n]);
      }
    }
    if segments[n].vaddr > 0 && !AllPositive(segments) {
      var z :| 0 <= z <= n && segments[z].vaddr == 0;
      assert BoundsOf(elf, segments).virtualBase > 0;
    }
  }

  lemma ZeroSegmentIsForgotten()
    ensures var segments := [Segment(PT_LOAD, 0, 0, 16), Segment(PT_LOAD, 4096, 0x40_0000, 16)];
            BoundsOf(0, segments).virtualBase == 0x40_0000
  {
    var s0, s1 := Segment(PT_LOAD, 0, 0, 16), Segment(PT_LOAD, 4096, 0x40_0000, 16);
    assert [s0, s1][..1] == [s0] && [s0][..0] == [];
    assert BoundsOf(0, [s0]) == Widened(Bounds(0, 0, 0, 0), 0, s0);
  }

  class ElfFile {
    const memory: Word
    var bounds: Bounds

    constructor (elf: Word)
      ensures memory == elf && bounds == BoundsOf(elf, [])
    {
      memory, bounds := elf, Bounds(0, 0, 0, 0);
    }

    /** elf_process_phdr_pt_load */
    method ProcessLoad(s: Segment)
      modifies this
      ensures bounds == Widened(old(bounds), memory, s)
    {
      var b := bounds;
      if b.virtualBase >= s.vaddr || b.virtualBase == 0 {
        bounds := bounds.(virtualBase := s.vaddr, physicalBase := Wrap(memory + s.offset));
      }
      var end := Wrap(s.vaddr + s.filesz);
      if b.virtualEnd <= end || b.virtualEnd == 0 {
        bounds := bounds.(virtualEnd := end, physicalEnd := Wrap(memory + s.offset + s.filesz));
      }
    }

    /** elf_process_pheaders: stops at the first segment that is not loadable; otherwise the bounds are
        those of all segments. */
    method ProcessHeaders(segments: seq<Segment>) returns (res: int, ghost done: nat)
      requires bounds == BoundsOf(memory, [])
      modifies this
      ensures done <= |segments| && forall i :: 0 <= i < done ==> segments[i].kind == PT_LOAD
      ensures res == 0 <==> done == |segments|
      ensures res != 0 ==> res == -EINVELFTYPE && segments[done].kind != PT_LOAD
      ensures bounds == BoundsOf(memory, segments[..done])
    {
      var i := 0;
      while i < |segments|
        invariant i <= |segments| && forall j :: 0 <= j < i ==> segments[j].kind == PT_LOAD
        invariant bounds == BoundsOf(memory, segments[..i])
      {
        if segments[i].kind != PT_LOAD {
          return -EINVELFTYPE, i;
        }
        assert segments[..i + 1][..i] == segments[..i];
        ProcessLoad(segments[i]);
        i := i + 1;
      }
      return 0, i;
    }
  }
}
