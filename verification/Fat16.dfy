/** Reading files of a FAT16 volume: a chain of clusters, walked again from its start for every
    cluster-sized piece. */
module Fat16 {
  import opened Memory
  import opened Streamers
  import opened Status
  import opened Wrappers
  import opened FatArithmetic

  const FAT_ENTRY_SIZE := 2
  const INT_LIMIT := 0x8000_0000

  /** The numbers of the volume that reading needs: reserved sectors before the file allocation
      table, sectors per cluster, and the sector after the root directory. */
  datatype Volume = Volume(reserved: nat, sectorsPerCluster: nat, dataSector: nat)

  function ClusterSize(vol: Volume): nat {
    vol.sectorsPerCluster * SECTOR_SIZE
  }

  /** fat16_cluster_to_sector, as a byte position */
  function ClusterPos(vol: Volume, cluster: int): int {
    (vol.dataSector + (cluster - 2) * vol.sectorsPerCluster) * SECTOR_SIZE
  }

  /** Where fat16_get_fat_entry looks for the entry of a cluster, in unsigned 32-bit arithmetic. */
  function FatEntryPos(vol: Volume, cluster: nat): Word {
    Wrap(vol.reserved * SECTOR_SIZE * cluster * FAT_ENTRY_SIZE)
  }

  /** Where the FAT keeps it: the Microsoft FAT specification adds the table's position. */
  function SpecifiedEntryPos(vol: Volume, cluster: nat): nat {
    vol.reserved * SECTOR_SIZE + cluster * FAT_ENTRY_SIZE
  }

  /** For every 16-bit cluster but 0, and every 16-bit number of reserved sectors, the code looks in the
      wrong place, also where its product wraps: the property that the positions agree holds for no
      volume. Agreement would make the cluster 256 * k, and would leave only the finitely many `k`, `m`
      and `u` of NoCoincidence. */
  lemma EntryPositionIsNeverTheSpecified(vol: Volume, cluster: nat)
    requires vol.reserved < 0x1_0000 && 0 < cluster < 0x1_0000
    ensures FatEntryPos(vol, cluster) != SpecifiedEntryPos(vol, cluster)
  {
    if FatEntryPos(vol, cluster) == SpecifiedEntryPos(vol, cluster) {
      var r := vol.reserved;
      WrappedBy(r * SECTOR_SIZE * cluster * FAT_ENTRY_SIZE);
      var q := r * SECTOR_SIZE * cluster * FAT_ENTRY_SIZE / ADDRESS_SPACE;
      assert r * SECTOR_SIZE * cluster * FAT_ENTRY_SIZE == 1024 * (r * cluster);
      NoAgreement(r, cluster, q);
    }
  }

  lemma WrappedBy(x: nat)
    ensures x == ADDRESS_SPACE * (x / ADDRESS_SPACE) + Wrap(x)
  {
  }

  /** Where the product does not wrap, the code looks too far. */
  lemma EntryPositionIsPast(vol: Volume, cluster: nat)
    requires vol.reserved >= 1 && cluster >= 2
    requires vol.reserved * SECTOR_SIZE * cluster * FAT_ENTRY_SIZE < ADDRESS_SPACE
    ensures FatEntryPos(vol, cluster) > SpecifiedEntryPos(vol, cluster)
  {
    var t := vol.reserved * SECTOR_SIZE;
    Product(t, 512, cluster);
    Product(cluster, 2, t);
    assert t * cluster == cluster * t;
    WrapSmall(t * cluster * FAT_ENTRY_SIZE);
  }

  lemma Product(a: nat, b: nat, c: nat)
    requires a >= b
    ensures a * c >= b * c
  {
  }

  /** The little-endian 16-bit number at a position of the disk. */
  function DiskHalf(disk: Disk, pos: nat): nat {
    DiskByte(disk, pos) + 0x100 * DiskByte(disk, pos + 1)
  }

  lemma HalfIsTwoBytes(disk: Disk, pos: nat)
    ensures DiskHalf(disk, pos) == FromBytes(DiskBytes(disk, pos, 2))
  {
    var s := DiskBytes(disk, pos, 2);
    assert s[0] == DiskByte(disk, pos) && s[1] == DiskByte(disk, pos + 1);
    assert FromBytes(s[1..]) == s[1] by {
      assert s[1..][1..] == [];
    }
  }

  /** The link of a cluster: the 16-bit number the code reads for it. */
  function Link(disk: Disk, vol: Volume, cluster: nat): nat {
    DiskHalf(disk, FatEntryPos(vol, cluster))
  }

  /** The entries that end or break the walk. */
  predicate Stops(entry: nat) {
    entry == 0xFF8 || entry == 0xFFF || entry == 0xFF7 || entry == 0xFF0 || entry == 0xFF6 || entry == 0
  }

  /** The `n`-th cluster of the chain from `start`, if the walk gets that far. */
  function Chain(disk: Disk, vol: Volume, start: nat, n: nat): Option<nat> {
    if n == 0 then Some(start)
    else
      match Chain(disk, vol, start, n - 1)
      case None => None
      case Some(c) => if Stops(Link(disk, vol, c)) then None else Some(Link(disk, vol, c))
  }

  /** The walk goes to the number that two bytes of the disk hold, unless it is one of six. */
  lemma ChainGoesOn(disk: Disk, vol: Volume, start: nat, n: nat)
    requires Chain(disk, vol, start, n).Some?
    ensures var c := Chain(disk, vol, start, n).value;
            var entry := FromBytes(DiskBytes(disk, Wrap(vol.reserved * 512 * c * 2), 2));
            Chain(disk, vol, start, n + 1) == if entry in {0, 0xFF0, 0xFF6, 0xFF7, 0xFF8, 0xFFF} then None else Some(entry)
  {
    HalfIsTwoBytes(disk, FatEntryPos(vol, Chain(disk, vol, start, n).value));
  }

  /** The marks with which a FAT16 volume ends a chain or marks a bad cluster. */
  predicate SpecifiedMark(entry: nat) {
    0xFFF7 <= entry <= 0xFFFF
  }

  /** None of them ends the walk: the code goes on with the mark as the next cluster. */
  lemma MarkIsFollowed(disk: Disk, vol: Volume, start: nat, n: nat)
    requires Chain(disk, vol, start, n).Some? && SpecifiedMark(Link(disk, vol, Chain(disk, vol, start, n).value))
    ensures Chain(disk, vol, start, n + 1) == Some(Link(disk, vol, Chain(disk, vol, start, n).value))
  {
  }

  /** The entries on which a walk is specified to stop: a free cluster, a bad one, or the end of a chain. */
  predicate SpecifiedStop(entry: nat) {
    entry == 0 || SpecifiedMark(entry)
  }

  /** The chain as it is specified, over the same links. */
  function SpecifiedChain(disk: Disk, vol: Volume, start: nat, n: nat): Option<nat> {
    if n == 0 then Some(start)
    else
      match SpecifiedChain(disk, vol, start, n - 1)
      case None => None
      case Some(c) => if SpecifiedStop(Link(disk, vol, c)) then None else Some(Link(disk, vol, c))
  }

  /** The code takes the entry for what it is: no mark that it follows, and no ordinary cluster that it
      takes for the mark of a smaller FAT. */
  predicate TakenRight(entry: nat) {
    entry < 0xFFF7 && entry != 0xFF0 && entry != 0xFF6 && entry != 0xFF7 && entry != 0xFF8 && entry != 0xFFF
  }

  /** For 16-bit entries the code stops where it should exactly on those. */
  lemma StopsAgreeIff(entry: nat)
    requires entry < 0x1_0000
    ensures (Stops(entry) <==> SpecifiedStop(entry)) <==> TakenRight(entry)
  {
  }

  /** The `n`-th cluster of the chain, when there is one, has a link that the code takes for what it is. */
  predicate LinkTakenRight(disk: Disk, vol: Volume, start: nat, n: nat) {
    var c := SpecifiedChain(disk, vol, start, n);
    c.Some? ==> TakenRight(Link(disk, vol, c.value))
  }

  predicate WalksAgree(disk: Disk, vol: Volume, start: nat, n: nat) {
    Chain(disk, vol, start, n) == SpecifiedChain(disk, vol, start, n)
  }

  lemma OneStepAgreesIff(disk: Disk, vol: Volume, start: nat, n: nat)
    requires WalksAgree(disk, vol, start, n)
    ensures WalksAgree(disk, vol, start, n + 1) <==> LinkTakenRight(disk, vol, start, n)
  {
    var c := Chain(disk, vol, start, n);
    if c.Some? {
      StopsAgreeIff(Link(disk, vol, c.value));
    }
  }

  /** So the walk is as specified, as far as `n` steps, if and only if every link on the way is such an entry. */
  lemma {:induction false} WalkAgreesIff(disk: Disk, vol: Volume, start: nat, n: nat)
    ensures (forall k: nat :: k <= n ==> WalksAgree(disk, vol, start, k)) <==> (forall k: nat :: k < n ==> LinkTakenRight(disk, vol, start, k))
  {
    if n > 0 {
      WalkAgreesIff(disk, vol, start, n - 1);
      if WalksAgree(disk, vol, start, n - 1) {
        OneStepAgreesIff(disk, vol, start, n - 1);
      }
    }
  }

  lemma {:induction false} ChainStaysBroken(disk: Disk, vol: Volume, start: nat, n: nat, m: nat)
    requires n <= m && Chain(disk, vol, start, n).None?
    ensures Chain(disk, vol, start, m).None?
  {
    if n < m {
      ChainStaysBroken(disk, vol, start, n, m - 1);
    }
  }

  /** The walk to cluster number `q` of the chain reads the entries of the clusters before it; their
      positions are ones a signed int can hold. */
  ghost predicate WalkFits(disk: Disk, vol: Volume, start: nat, q: nat) {
    var fits := forall i: nat :: i < q && Chain(disk, vol, start, i).Some? ==> EntryFits(vol, Chain(disk, vol, start, i).value);
    fits
  }

  predicate EntryFits(vol: Volume, c: nat) {
    FatEntryPos(vol, c) + FAT_ENTRY_SIZE < INT_LIMIT
  }

  /** So are the positions of `n` bytes from `o` bytes into a cluster. */
  predicate PieceFits(vol: Volume, c: nat, o: nat, n: nat) {
    0 <= ClusterPos(vol, c) && ClusterPos(vol, c) + o + n < INT_LIMIT
  }

  /** And those of every piece that a read of `total` bytes gets to, and of the walks to them. */
  ghost predicate ReadFits(disk: Disk, vol: Volume, start: nat, q: nat, o: nat, total: nat)
    requires ClusterSize(vol) > 0
    decreases total
  {
    var size := ClusterSize(vol);
    var fits :=
      && WalkFits(disk, vol, start, q)
      && (Chain(disk, vol, start, q).Some? ==>
            && PieceFits(vol, Chain(disk, vol, start, q).value, o, if total > size then size else total)
            && (total > size ==> ReadFits(disk, vol, start, q + 1, o, total - size)));
    fits
  }

  /** What fits, fits for the first piece, and then for the rest if the chain has got that far. */
  lemma FitsInPieces(disk: Disk, vol: Volume, start: nat, q: nat, o: nat, total: nat)
    requires ClusterSize(vol) > 0 && ReadFits(disk, vol, start, q, o, total)
    ensures ReadFits(disk, vol, start, q, o, if total > ClusterSize(vol) then ClusterSize(vol) else total)
    ensures total > ClusterSize(vol) && Chain(disk, vol, start, q).Some? ==> ReadFits(disk, vol, start, q + 1, o, total - ClusterSize(vol))
  {
  }

  method ReadHalf(stream: DiskStream, pos: nat) returns (res: int)
    modifies stream
    ensures res == DiskHalf(stream.disk, pos)
  {
    var result := new Byte[2];
    var r := stream.Seek(pos);
    r := stream.Read(result, 0, 2);
    ghost var bytes := DiskBytes(stream.disk, pos, 2);
    assert result[..] == bytes;
    assert result[0] == bytes[0] && result[1] == bytes[1];
    var low: int, high: int := result[0], result[1];
    res := low + 0x100 * high;
  }

  /** fat16_get_fat_entry: the two bytes at the position the code computes, lowest first. */
  method GetFatEntry(fat: DiskStream, vol: Volume, cluster: nat) returns (res: int)
    requires EntryFits(vol, cluster)
    modifies fat
    ensures res == Link(fat.disk, vol, cluster) == FromBytes(DiskBytes(fat.disk, Wrap(vol.reserved * 512 * cluster * 2), 2))
  {
    HalfIsTwoBytes(fat.disk, FatEntryPos(vol, cluster));
    res := ReadHalf(fat, FatEntryPos(vol, cluster));
  }

  /** fat16_get_cluster_for_offset */
  method GetClusterForOffset(fat: DiskStream, vol: Volume, start: nat, offset: nat) returns (res: int)
    requires ClusterSize(vol) > 0 && WalkFits(fat.disk, vol, start, ClusterOf(vol, offset))
    modifies fat
    ensures match Chain(fat.disk, vol, start, ClusterOf(vol, offset))
            case None => res == -EIO
            case Some(c) => res == c
  {
    var cluster_to_use := start;
    DivisionFindsPlace(vol, offset);
    var clusters_ahead := offset / ClusterSize(vol);
    for i := 0 to clusters_ahead
      invariant Chain(fat.disk, vol, start, i) == Some(cluster_to_use)
    {
      assert EntryFits(vol, Chain(fat.disk, vol, start, i).value);
      var entry := GetFatEntry(fat, vol, cluster_to_use);
      if Stops(entry) {
        ChainStaysBroken(fat.disk, vol, start, i + 1, clusters_ahead);
        return -EIO;
      }
      cluster_to_use := entry;
    }
    res := cluster_to_use;
  }

  // ---------------------------------------------------------------------------
  // Reading piece by piece.
  // ---------------------------------------------------------------------------

  /** The walk gets to the cluster of every piece of a read of `total` bytes whose first piece
      lies in cluster number `q` of the chain. */
  ghost predicate Reaches(disk: Disk, vol: Volume, start: nat, q: nat, total: nat)
    requires ClusterSize(vol) > 0
    decreases total
  {
    && Chain(disk, vol, start, q).Some?
    && (total > ClusterSize(vol) ==> Reaches(disk, vol, start, q + 1, total - ClusterSize(vol)))
  }

  /** What such a read delivers when it starts `o` bytes into the cluster: pieces of up to a whole
      cluster size, each from the same place in the next cluster of the chain. */
  ghost function PieceBytes(disk: Disk, vol: Volume, start: nat, q: nat, o: nat, total: nat): (s: seq<Byte>)
    requires ClusterSize(vol) > 0 && Reaches(disk, vol, start, q, total)
    ensures |s| == total
    decreases total
  {
    var size, pos := ClusterSize(vol), ClusterPos(vol, Chain(disk, vol, start, q).value) + o;
    if total > size then DiskBytes(disk, pos, size) + PieceBytes(disk, vol, start, q + 1, o, total - size)
    else DiskBytes(disk, pos, total)
  }

  /** The number of the cluster, counted along the chain, that a file offset lies in ... */
  function ClusterOf(vol: Volume, offset: nat): nat
    requires ClusterSize(vol) > 0
    decreases offset
  {
    if offset < ClusterSize(vol) then 0 else 1 + ClusterOf(vol, offset - ClusterSize(vol))
  }

  /** ... and the place in it. */
  function PlaceIn(vol: Volume, offset: nat): (o: nat)
    requires ClusterSize(vol) > 0
    ensures o < ClusterSize(vol)
    decreases offset
  {
    if offset < ClusterSize(vol) then offset else PlaceIn(vol, offset - ClusterSize(vol))
  }

  /** The code's division and remainder compute them. */
  lemma {:induction false} DivisionFindsPlace(vol: Volume, offset: nat)
    requires ClusterSize(vol) > 0
    ensures offset / ClusterSize(vol) == ClusterOf(vol, offset) && offset % ClusterSize(vol) == PlaceIn(vol, offset)
    decreases offset
  {
    WholeAndRest(vol, offset);
    DivisionIsUnique(offset, ClusterSize(vol), ClusterOf(vol, offset), PlaceIn(vol, offset));
  }

  lemma {:induction false} WholeAndRest(vol: Volume, offset: nat)
    requires ClusterSize(vol) > 0
    ensures offset == ClusterSize(vol) * ClusterOf(vol, offset) + PlaceIn(vol, offset)
    decreases offset
  {
    if offset >= ClusterSize(vol) {
      WholeAndRest(vol, offset - ClusterSize(vol));
    }
  }

  lemma NextCluster(vol: Volume, offset: nat)
    requires ClusterSize(vol) > 0
    ensures ClusterOf(vol, offset + ClusterSize(vol)) == ClusterOf(vol, offset) + 1
    ensures PlaceIn(vol, offset + ClusterSize(vol)) == PlaceIn(vol, offset)
  {
  }

  lemma DivisionIsUnique(x: nat, c: nat, q: nat, r: nat)
    requires c > 0 && r < c && x == c * q + r
    ensures x / c == q && x % c == r
  {
    var d := x / c - q;
    assert c * d + (x % c - r) == 0;
    assert d >= 1 ==> c * d >= c;
    assert d <= -1 ==> c * -d >= c;
  }

  /** Reads `n` bytes from `o` bytes into a cluster. */
  method ReadPiece(stream: DiskStream, vol: Volume, cluster: nat, o: nat, n: nat, out: array<Byte>, at: nat) returns (res: int)
    requires ClusterPos(vol, cluster) >= 0 && at + n <= out.Length
    modifies stream, out
    ensures res == 0
    ensures out[..] == Spliced(old(out[..]), at, DiskBytes(stream.disk, ClusterPos(vol, cluster) + o, n))
  {
    res := stream.Seek(ClusterPos(vol, cluster) + o);
    res := stream.Read(out, at, n);
  }

  /** A first whole piece and the rest make the whole read. */
  lemma PiecesJoin(disk: Disk, vol: Volume, start: nat, q: nat, o: nat, total: nat, buf: seq<Byte>, at: nat)
    requires 0 < ClusterSize(vol) < total && at + total <= |buf|
    requires Chain(disk, vol, start, q).Some? && Reaches(disk, vol, start, q + 1, total - ClusterSize(vol))
    ensures Reaches(disk, vol, start, q, total)
    ensures Spliced(Spliced(buf, at, FirstPiece(disk, vol, start, q, o, ClusterSize(vol))),
                    at + ClusterSize(vol), PieceBytes(disk, vol, start, q + 1, o, total - ClusterSize(vol)))
            == Spliced(buf, at, PieceBytes(disk, vol, start, q, o, total))
  {
    SplicedTwice(buf, at, FirstPiece(disk, vol, start, q, o, ClusterSize(vol)),
                 PieceBytes(disk, vol, start, q + 1, o, total - ClusterSize(vol)));
  }

  ghost function FirstPiece(disk: Disk, vol: Volume, start: nat, q: nat, o: nat, n: nat): (s: seq<Byte>)
    requires ClusterSize(vol) > 0 && Chain(disk, vol, start, q).Some?
    ensures |s| == n
  {
    DiskBytes(disk, ClusterPos(vol, Chain(disk, vol, start, q).value) + o, n)
  }

  /** Nothing outside the part that was to be read into changed. */
  ghost predicate OnlyChanged(buf: seq<Byte>, buf': seq<Byte>, at: nat, total: nat) {
    var only := |buf'| == |buf| && forall i :: 0 <= i < |buf| && !(at <= i < at + total) ==> buf'[i] == buf[i];
    only
  }

  lemma SplicedOnly(buf: seq<Byte>, at: nat, s: seq<Byte>, total: nat)
    requires at + total <= |buf| && |s| <= total
    ensures OnlyChanged(buf, Spliced(buf, at, s), at, total)
  {
  }

  lemma OnlyChangedTwice(buf: seq<Byte>, buf': seq<Byte>, buf'': seq<Byte>, at: nat, a: nat, total: nat)
    requires a <= total && OnlyChanged(buf, buf', at, a) && OnlyChanged(buf', buf'', at + a, total - a)
    ensures OnlyChanged(buf, buf'', at, total)
  {
  }

  /** A read of `total` bytes into `buf` at `at`, from the given place of the chain: it fails if the
      chain is too short, otherwise delivers its pieces, and writes nothing elsewhere. */
  ghost predicate ReadDone(disk: Disk, vol: Volume, start: nat, q: nat, o: nat, total: nat,
                           buf: seq<Byte>, at: nat, buf': seq<Byte>, res: int)
    requires ClusterSize(vol) > 0
  {
    var done :=
      && at + total <= |buf| && OnlyChanged(buf, buf', at, total)
      && res == (if Reaches(disk, vol, start, q, total) then 0 else -EIO)
      && (res == 0 ==> buf' == Spliced(buf, at, PieceBytes(disk, vol, start, q, o, total)));
    done
  }

  /** Reading the first piece, of at most a cluster size. */
  lemma FirstPieceDone(disk: Disk, vol: Volume, start: nat, q: nat, o: nat, n: nat, buf: seq<Byte>, at: nat)
    requires ClusterSize(vol) > 0 && n <= ClusterSize(vol) && at + n <= |buf| && Chain(disk, vol, start, q).Some?
    ensures ReadDone(disk, vol, start, q, o, n, buf, at, Spliced(buf, at, FirstPiece(disk, vol, start, q, o, n)), 0)
  {
    SplicedOnly(buf, at, FirstPiece(disk, vol, start, q, o, n), n);
  }

  /** Reading a whole piece and then the rest is reading it all. */
  lemma ReadsJoin(disk: Disk, vol: Volume, start: nat, q: nat, o: nat, total: nat,
                  buf: seq<Byte>, at: nat, buf': seq<Byte>, buf'': seq<Byte>, res: int)
    requires 0 < ClusterSize(vol) < total && at + total <= |buf|
    requires ReadDone(disk, vol, start, q, o, ClusterSize(vol), buf, at, buf', 0)
    requires ReadDone(disk, vol, start, q + 1, o, total - ClusterSize(vol), buf', at + ClusterSize(vol), buf'', res)
    ensures ReadDone(disk, vol, start, q, o, total, buf, at, buf'', res)
  {
    OnlyChangedTwice(buf, buf', buf'', at, ClusterSize(vol), total);
    if res == 0 {
      PiecesJoin(disk, vol, start, q, o, total, buf, at);
    }
  }

  /** Finds the cluster of `offset` by a walk from the start, and reads from it. */
  method ReadFirstPiece(stream: DiskStream, fat: DiskStream, vol: Volume, cluster: nat, offset: nat, n: nat, out: array<Byte>, at: nat)
    returns (res: int)
    requires stream != fat && stream.disk == fat.disk && at + n <= out.Length && 0 < ClusterSize(vol) && n <= ClusterSize(vol)
    requires ReadFits(fat.disk, vol, cluster, ClusterOf(vol, offset), PlaceIn(vol, offset), n)
    modifies stream, fat, out
    ensures ReadDone(fat.disk, vol, cluster, ClusterOf(vol, offset), PlaceIn(vol, offset), n, old(out[..]), at, out[..], res)
  {
    var cluster_to_use := GetClusterForOffset(fat, vol, cluster, offset);
    if cluster_to_use < 0 {
      return cluster_to_use;
    }
    DivisionFindsPlace(vol, offset);
    var offset_from_cluster := offset % ClusterSize(vol);
    res := ReadPiece(stream, vol, cluster_to_use, offset_from_cluster, n, out, at);
    FirstPieceDone(fat.disk, vol, cluster, ClusterOf(vol, offset), PlaceIn(vol, offset), n, old(out[..]), at);
  }

  /** fat_16_read_internal_from_stream: reads up to one cluster size, then goes on with the rest
      by recursion, walking the chain again from its start. */
  method ReadInternal(stream: DiskStream, fat: DiskStream, vol: Volume, cluster: nat, offset: nat, total: nat,
                      out: array<Byte>, at: nat) returns (res: int)
    requires stream != fat && stream.disk == fat.disk && at + total <= out.Length && ClusterSize(vol) > 0
    requires ReadFits(fat.disk, vol, cluster, ClusterOf(vol, offset), PlaceIn(vol, offset), total)
    modifies stream, fat, out
    ensures ReadDone(fat.disk, vol, cluster, ClusterOf(vol, offset), PlaceIn(vol, offset), total, old(out[..]), at, out[..], res)
    decreases total, 0
  {
    var size_of_cluster_bytes := ClusterSize(vol);
    ghost var q, o := ClusterOf(vol, offset), PlaceIn(vol, offset);
    var total_to_read := if total > size_of_cluster_bytes then size_of_cluster_bytes else total;
    FitsInPieces(fat.disk, vol, cluster, q, o, total);
    res := ReadFirstPiece(stream, fat, vol, cluster, offset, total_to_read, out, at);
    ghost var between := out[..];
    if res == 0 {
      if total - total_to_read > 0 {
        res := ReadRest(stream, fat, vol, cluster, offset, total_to_read, total, out, at, q, o);
        ReadsJoin(fat.disk, vol, cluster, q, o, total, old(out[..]), at, between, out[..], res);
      }
    } else {
      NoFirstPiece(fat.disk, vol, cluster, q, o, total_to_read, total, old(out[..]), at, between, res);
    }
  }

  /** The recursive call, in the terms of the place where the first piece was. */
  method ReadRest(stream: DiskStream, fat: DiskStream, vol: Volume, cluster: nat, offset: nat, size: nat, total: nat,
                  out: array<Byte>, at: nat, ghost q: nat, ghost o: nat) returns (res: int)
    requires stream != fat && stream.disk == fat.disk && at + total <= out.Length && 0 < ClusterSize(vol) == size < total
    requires q == ClusterOf(vol, offset) && o == PlaceIn(vol, offset) && ReadFits(fat.disk, vol, cluster, q + 1, o, total - size)
    modifies stream, fat, out
    ensures ReadDone(fat.disk, vol, cluster, q + 1, o, total - size, old(out[..]), at + size, out[..], res)
    decreases total - size, 1
  {
    NextCluster(vol, offset);
    res := ReadInternal(stream, fat, vol, cluster, offset + size, total - size, out, at + size);
  }

  lemma NoFirstPiece(disk: Disk, vol: Volume, start: nat, q: nat, o: nat, n: nat, total: nat,
                     buf: seq<Byte>, at: nat, buf': seq<Byte>, res: int)
    requires ClusterSize(vol) > 0 && n <= total && n <= ClusterSize(vol) && at + total <= |buf|
    requires ReadDone(disk, vol, start, q, o, n, buf, at, buf', res) && res != 0
    ensures ReadDone(disk, vol, start, q, o, total, buf, at, buf', res)
  {
  }

  // ---------------------------------------------------------------------------
  // Against the file as a whole.
  // ---------------------------------------------------------------------------

  /** The chain has the cluster that holds byte `x` of the file. */
  predicate HasByte(disk: Disk, vol: Volume, start: nat, x: nat)
    requires ClusterSize(vol) > 0
  {
    Chain(disk, vol, start, ClusterOf(vol, x)).Some?
  }

  /** Where byte `x` of the file is on the disk: the file is the data of the clusters of the
      chain, one after the other. */
  function FilePos(disk: Disk, vol: Volume, start: nat, x: nat): int
    requires ClusterSize(vol) > 0 && HasByte(disk, vol, start, x)
  {
    ClusterPos(vol, Chain(disk, vol, start, ClusterOf(vol, x)).value) + PlaceIn(vol, x)
  }

  /** The chain is long enough for a file of `size` bytes. */
  ghost predicate HasBytes(disk: Disk, vol: Volume, start: nat, size: nat)
    requires ClusterSize(vol) > 0
  {
    var all := forall x: nat :: x < size ==> HasByte(disk, vol, start, x);
    all
  }

  ghost function FileBytes(disk: Disk, vol: Volume, start: nat, offset: nat, n: nat): (s: seq<Byte>)
    requires ClusterSize(vol) > 0 && HasBytes(disk, vol, start, offset + n)
    ensures |s| == n
  {
    seq<Byte>(n, i requires 0 <= i < n => DiskByte(disk, FilePos(disk, vol, start, offset + i)))
  }

  /** Where a read from the given place takes its `j`-th byte from, if the walk gets there. */
  ghost function ReadPos(disk: Disk, vol: Volume, start: nat, q: nat, o: nat, j: nat): Option<int>
    requires ClusterSize(vol) > 0
    decreases j
  {
    if j >= ClusterSize(vol) then ReadPos(disk, vol, start, q + 1, o, j - ClusterSize(vol))
    else
      match Chain(disk, vol, start, q)
      case None => None
      case Some(c) => Some(ClusterPos(vol, c) + o + j)
  }

  /** A read delivers the bytes at its read positions. */
  lemma {:induction false} PieceBytesAt(disk: Disk, vol: Volume, start: nat, q: nat, o: nat, total: nat, j: nat)
    requires ClusterSize(vol) > 0 && Reaches(disk, vol, start, q, total) && j < total
    ensures var p := ReadPos(disk, vol, start, q, o, j);
            p.Some? && PieceBytes(disk, vol, start, q, o, total)[j] == DiskByte(disk, p.value)
    decreases total
  {
    var size := ClusterSize(vol);
    if j >= size {
      PieceBytesAt(disk, vol, start, q + 1, o, total - size, j - size);
    }
  }

  /** The `j`-th byte of a read is byte `offset + j` of the file. */
  ghost predicate InPlace(disk: Disk, vol: Volume, start: nat, offset: nat, j: nat)
    requires ClusterSize(vol) > 0 && HasByte(disk, vol, start, offset + j)
  {
    ReadPos(disk, vol, start, ClusterOf(vol, offset), PlaceIn(vol, offset), j) == Some(FilePos(disk, vol, start, offset + j))
  }

  /** The cluster after number `q` of the chain is the one after it on the disk. */
  ghost predicate NextInChain(disk: Disk, vol: Volume, start: nat, q: nat) {
    var next := Chain(disk, vol, start, q).Some? && Chain(disk, vol, start, q + 1) == Some(Chain(disk, vol, start, q).value + 1);
    next
  }

  /** What the caller can check: the read starts at a cluster boundary, or no piece of it runs past
      the end of its cluster, or the next cluster of the chain then also comes next on the disk. */
  ghost predicate Aligned(disk: Disk, vol: Volume, start: nat, q: nat, o: nat, total: nat)
    requires ClusterSize(vol) > 0
    decreases total
  {
    var size := ClusterSize(vol);
    || o == 0
    || ((o + total > size ==> NextInChain(disk, vol, start, q))
        && (total > size ==> Aligned(disk, vol, start, q + 1, o, total - size)))
  }

  lemma {:induction false} OffsetInCluster(vol: Volume, offset: nat, j: nat)
    requires ClusterSize(vol) > 0 && j < ClusterSize(vol)
    ensures var o := PlaceIn(vol, offset);
            if o + j < ClusterSize(vol)
            then ClusterOf(vol, offset + j) == ClusterOf(vol, offset) && PlaceIn(vol, offset + j) == o + j
            else ClusterOf(vol, offset + j) == ClusterOf(vol, offset) + 1 && PlaceIn(vol, offset + j) == o + j - ClusterSize(vol)
    decreases offset
  {
    if offset >= ClusterSize(vol) {
      OffsetInCluster(vol, offset - ClusterSize(vol), j);
    }
  }

  /** Cluster positions step by the cluster size, so only the next cluster comes next. */
  lemma NextPosition(vol: Volume, c: nat, d: nat)
    requires ClusterSize(vol) > 0
    ensures ClusterPos(vol, d) == ClusterPos(vol, c) + ClusterSize(vol) <==> d == c + 1
  {
    var s := vol.sectorsPerCluster;
    assert ClusterPos(vol, d) - ClusterPos(vol, c) - ClusterSize(vol) == (d - c - 1) * s * SECTOR_SIZE by {
      assert (d - 2) * s - (c - 2) * s - s == (d - c - 1) * s;
    }
    assert d != c + 1 ==> (d - c - 1) * s != 0;
  }

  /** A byte of the first piece is in place unless the piece has run past its cluster into one that
      is not the next of the chain. */
  lemma FirstPieceInPlace(disk: Disk, vol: Volume, start: nat, offset: nat, j: nat)
    requires ClusterSize(vol) > 0 && j < ClusterSize(vol)
    requires HasByte(disk, vol, start, offset) && HasByte(disk, vol, start, offset + j)
    ensures var q, o := ClusterOf(vol, offset), PlaceIn(vol, offset);
            InPlace(disk, vol, start, offset, j) <==>
            (o + j >= ClusterSize(vol) ==> NextInChain(disk, vol, start, q))
  {
    OffsetInCluster(vol, offset, j);
    var q := ClusterOf(vol, offset);
    if PlaceIn(vol, offset) + j >= ClusterSize(vol) {
      NextPosition(vol, Chain(disk, vol, start, q).value, Chain(disk, vol, start, q + 1).value);
    }
  }

  /** Bytes after the first piece are in place when they are for the read of the rest. */
  lemma LaterPieceInPlace(disk: Disk, vol: Volume, start: nat, offset: nat, j: nat)
    requires ClusterSize(vol) > 0 && j >= ClusterSize(vol) && HasByte(disk, vol, start, offset + j)
    ensures offset + ClusterSize(vol) + (j - ClusterSize(vol)) == offset + j
    ensures InPlace(disk, vol, start, offset, j) <==> InPlace(disk, vol, start, offset + ClusterSize(vol), j - ClusterSize(vol))
  {
    NextCluster(vol, offset);
  }

  lemma {:induction false} AlignedIsInPlace(disk: Disk, vol: Volume, start: nat, offset: nat, total: nat, j: nat)
    requires ClusterSize(vol) > 0 && HasBytes(disk, vol, start, offset + total) && j < total
    requires Aligned(disk, vol, start, ClusterOf(vol, offset), PlaceIn(vol, offset), total)
    ensures HasByte(disk, vol, start, offset + j) && InPlace(disk, vol, start, offset, j)
    decreases total
  {
    var size := ClusterSize(vol);
    assert HasByte(disk, vol, start, offset) && HasByte(disk, vol, start, offset + j);
    if j < size {
      FirstPieceInPlace(disk, vol, start, offset, j);
    } else {
      NextCluster(vol, offset);
      AlignedIsInPlace(disk, vol, start, offset + size, total - size, j - size);
      LaterPieceInPlace(disk, vol, start, offset, j);
    }
  }

  /** A read that is not aligned has a byte from the wrong place; the lemma finds it. */
  lemma {:induction false} MisalignedGoesAstray(disk: Disk, vol: Volume, start: nat, offset: nat, total: nat) returns (j: nat)
    requires ClusterSize(vol) > 0 && HasBytes(disk, vol, start, offset + total)
    requires !Aligned(disk, vol, start, ClusterOf(vol, offset), PlaceIn(vol, offset), total)
    ensures j < total && HasByte(disk, vol, start, offset + j) && !InPlace(disk, vol, start, offset, j)
    decreases total
  {
    var size, q, o := ClusterSize(vol), ClusterOf(vol, offset), PlaceIn(vol, offset);
    if o + total > size && !NextInChain(disk, vol, start, q) {
      j := size - o;
      assert HasByte(disk, vol, start, offset) && HasByte(disk, vol, start, offset + j);
      FirstPieceInPlace(disk, vol, start, offset, j);
    } else {
      NextCluster(vol, offset);
      j := MisalignedGoesAstray(disk, vol, start, offset + size, total - size);
      j := j + size;
      LaterPieceInPlace(disk, vol, start, offset, j);
    }
  }

  /** Every byte of a read comes from its place in the file if and only if the read is aligned
      in the above sense. */
  lemma InPlaceIffAligned(disk: Disk, vol: Volume, start: nat, offset: nat, total: nat)
    requires ClusterSize(vol) > 0 && HasBytes(disk, vol, start, offset + total)
    ensures (forall j: nat :: j < total ==> HasByte(disk, vol, start, offset + j) && InPlace(disk, vol, start, offset, j)) <==>
            Aligned(disk, vol, start, ClusterOf(vol, offset), PlaceIn(vol, offset), total)
  {
    if Aligned(disk, vol, start, ClusterOf(vol, offset), PlaceIn(vol, offset), total) {
      forall j: nat | j < total ensures HasByte(disk, vol, start, offset + j) && InPlace(disk, vol, start, offset, j) {
        AlignedIsInPlace(disk, vol, start, offset, total, j);
      }
    } else {
      var j := MisalignedGoesAstray(disk, vol, start, offset, total);
    }
  }

  /** A volume whose file is cluster 2 and then cluster 4, the latter full of ones. */
  const EXAMPLE_VOLUME := Volume(1, 1, 10)

  function ExampleDisk(): Disk {
    (sector: int) =>
      if sector == 4 then seq(SECTOR_SIZE, i => if i == 0 then 4 else 0)
      else seq(SECTOR_SIZE, _ => if sector == 12 then 1 else 0)
  }

  lemma ExampleChain()
    ensures var d := ExampleDisk();
            && Chain(d, EXAMPLE_VOLUME, 2, 0) == Some(2) && Chain(d, EXAMPLE_VOLUME, 2, 1) == Some(4)
            && forall n: nat :: n >= 2 ==> Chain(d, EXAMPLE_VOLUME, 2, n).None?
  {
    var d := ExampleDisk();
    assert FatEntryPos(EXAMPLE_VOLUME, 2) == 2048 && FatEntryPos(EXAMPLE_VOLUME, 4) == 4096;
    assert DiskByte(d, 2048) == 4 && DiskByte(d, 2049) == 0 && DiskByte(d, 4096) == 0 && DiskByte(d, 4097) == 0;
    assert Chain(d, EXAMPLE_VOLUME, 2, 1) == Some(4);
    assert Chain(d, EXAMPLE_VOLUME, 2, 2).None?;
    forall n: nat | n >= 2 ensures Chain(d, EXAMPLE_VOLUME, 2, n).None? {
      ChainStaysBroken(d, EXAMPLE_VOLUME, 2, 2, n);
    }
  }

  /** Reading 512 bytes of that file from offset 1: the last byte should be a one from cluster 4, but
      the read runs on into cluster 3 and delivers a zero. */
  lemma ExampleGoesAstray()
    ensures var d := ExampleDisk();
            && ReadFits(d, EXAMPLE_VOLUME, 2, 0, 1, 512) && HasBytes(d, EXAMPLE_VOLUME, 2, 513) && Reaches(d, EXAMPLE_VOLUME, 2, 0, 512)
            && FileBytes(d, EXAMPLE_VOLUME, 2, 1, 512)[511] == 1
            && PieceBytes(d, EXAMPLE_VOLUME, 2, 0, 1, 512)[511] == 0
  {
    var d := ExampleDisk();
    ExampleChain();
    assert forall x: nat :: x < 513 ==> HasByte(d, EXAMPLE_VOLUME, 2, x);
    assert ClusterOf(EXAMPLE_VOLUME, 512) == 1 && PlaceIn(EXAMPLE_VOLUME, 512) == 0;
    assert FilePos(d, EXAMPLE_VOLUME, 2, 512) == 12 * SECTOR_SIZE;
    PieceBytesAt(d, EXAMPLE_VOLUME, 2, 0, 1, 512, 511);
  }

  lemma {:induction false} FileReaches(disk: Disk, vol: Volume, start: nat, offset: nat, total: nat)
    requires ClusterSize(vol) > 0 && HasBytes(disk, vol, start, offset + total) && total > 0
    ensures Reaches(disk, vol, start, ClusterOf(vol, offset), total)
    decreases total
  {
    assert HasByte(disk, vol, start, offset);
    if total > ClusterSize(vol) {
      NextCluster(vol, offset);
      FileReaches(disk, vol, start, offset + ClusterSize(vol), total - ClusterSize(vol));
    }
  }

  /** An aligned read of bytes the file has delivers exactly that slice of the file. */
  lemma AlignedReadIsSlice(disk: Disk, vol: Volume, start: nat, offset: nat, total: nat)
    requires ClusterSize(vol) > 0 && HasBytes(disk, vol, start, offset + total) && total > 0
    requires Aligned(disk, vol, start, ClusterOf(vol, offset), PlaceIn(vol, offset), total)
    ensures Reaches(disk, vol, start, ClusterOf(vol, offset), total)
    ensures PieceBytes(disk, vol, start, ClusterOf(vol, offset), PlaceIn(vol, offset), total)
            == FileBytes(disk, vol, start, offset, total)
  {
    FileReaches(disk, vol, start, offset, total);
    var q, o := ClusterOf(vol, offset), PlaceIn(vol, offset);
    forall j: nat | j < total
      ensures PieceBytes(disk, vol, start, q, o, total)[j] == FileBytes(disk, vol, start, offset, total)[j]
    {
      AlignedIsInPlace(disk, vol, start, offset, total, j);
      PieceBytesAt(disk, vol, start, q, o, total, j);
    }
  }

  // ---------------------------------------------------------------------------
  // fat16_read.
  // ---------------------------------------------------------------------------

  class FileDescriptor {
    const firstCluster: nat
    var pos: nat

    constructor (c: nat)
      ensures firstCluster == c && pos == 0
    {
      firstCluster, pos := c, 0;
    }
  }

  /** n * size, counted up item by item. */
  function Bytes(size: nat, n: nat): nat {
    if n == 0 then 0 else size + Bytes(size, n - 1)
  }

  lemma {:induction false} BytesIsProduct(size: nat, n: nat)
    ensures Bytes(size, n) == n * size
  {
    if n > 0 {
      BytesIsProduct(size, n - 1);
    }
  }

  /** Every one of `n` items of `size` bytes from `offset` on is reached. */
  ghost predicate ItemsReached(disk: Disk, vol: Volume, start: nat, offset: nat, size: nat, n: nat)
    requires ClusterSize(vol) > 0
    decreases n
  {
    n > 0 ==>
      && Reaches(disk, vol, start, ClusterOf(vol, offset), size)
      && ItemsReached(disk, vol, start, offset + size, size, n - 1)
  }

  /** Every position that reading the items computes is one a signed int can hold. */
  ghost predicate ItemsFit(disk: Disk, vol: Volume, start: nat, offset: nat, size: nat, n: nat)
    requires ClusterSize(vol) > 0
    decreases n
  {
    var fit := n > 0 ==>
      && ReadFits(disk, vol, start, ClusterOf(vol, offset), PlaceIn(vol, offset), size)
      && (Reaches(disk, vol, start, ClusterOf(vol, offset), size) ==> ItemsFit(disk, vol, start, offset + size, size, n - 1));
    fit
  }

  /** The items one after the other. */
  ghost function Items(disk: Disk, vol: Volume, start: nat, offset: nat, size: nat, n: nat): (s: seq<Byte>)
    requires ClusterSize(vol) > 0 && ItemsReached(disk, vol, start, offset, size, n)
    ensures |s| == Bytes(size, n)
    decreases n
  {
    if n == 0 then []
    else PieceBytes(disk, vol, start, ClusterOf(vol, offset), PlaceIn(vol, offset), size)
         + Items(disk, vol, start, offset + size, size, n - 1)
  }

  /** `done` is the items read so far when `n` are left, read from `offset` on. */
  ghost predicate SoFar(disk: Disk, vol: Volume, start: nat, done: seq<Byte>, offset: nat, size: nat, n: nat, pos: nat, nmemb: nat)
    requires ClusterSize(vol) > 0
  {
    var soFar :=
      && |done| + Bytes(size, n) == Bytes(size, nmemb)
      && (ItemsReached(disk, vol, start, pos, size, nmemb) <==> ItemsReached(disk, vol, start, offset, size, n))
      && (ItemsReached(disk, vol, start, offset, size, n) ==>
            done + Items(disk, vol, start, offset, size, n) == Items(disk, vol, start, pos, size, nmemb));
    soFar
  }

  lemma OneMoreItem(disk: Disk, vol: Volume, start: nat, done: seq<Byte>, offset: nat, size: nat, n: nat, pos: nat, nmemb: nat)
    requires ClusterSize(vol) > 0 && n > 0 && SoFar(disk, vol, start, done, offset, size, n, pos, nmemb)
    requires Reaches(disk, vol, start, ClusterOf(vol, offset), size)
    ensures SoFar(disk, vol, start, done + PieceBytes(disk, vol, start, ClusterOf(vol, offset), PlaceIn(vol, offset), size),
                  offset + size, size, n - 1, pos, nmemb)
  {
    var piece := PieceBytes(disk, vol, start, ClusterOf(vol, offset), PlaceIn(vol, offset), size);
    if ItemsReached(disk, vol, start, offset, size, n) {
      var rest := Items(disk, vol, start, offset + size, size, n - 1);
      assert done + (piece + rest) == done + piece + rest;
    }
  }

  /** fat16_read: reads `nmemb` items one by one and returns their number. It does not move the
      file position. */
  method Fat16Read(stream: DiskStream, fat: DiskStream, vol: Volume, desc: FileDescriptor, size: nat, nmemb: nat, out: array<Byte>)
    returns (res: int)
    requires stream != fat && stream.disk == fat.disk && Bytes(size, nmemb) <= out.Length && ClusterSize(vol) > 0
    requires ItemsFit(fat.disk, vol, desc.firstCluster, desc.pos, size, nmemb)
    modifies stream, fat, out
    ensures res == if ItemsReached(fat.disk, vol, desc.firstCluster, desc.pos, size, nmemb) then nmemb else -EIO
    ensures res >= 0 ==>
              out[..] == Spliced(old(out[..]), 0, Items(fat.disk, vol, desc.firstCluster, desc.pos, size, nmemb))
  {
    var offset: nat, at: nat := desc.pos, 0;
    ghost var done: seq<Byte> := [];
    for i := 0 to nmemb
      invariant |done| == at && at + Bytes(size, nmemb - i) <= out.Length
      invariant ReadSoFar(fat.disk, vol, desc.firstCluster, done, offset, size, nmemb - i, desc.pos, nmemb, old(out[..]), out[..])
    {
      res, done := ReadItem(stream, fat, vol, desc.firstCluster, offset, size, out, at, nmemb - i, desc.pos, nmemb, done, old(out[..]));
      if res < 0 {
        return;
      }
      at := at + size;
      offset := offset + size;
    }
    res := nmemb;
    assert done + [] == done;
  }

  /** The items read so far are in the buffer, and the others fit. */
  ghost predicate ReadSoFar(disk: Disk, vol: Volume, start: nat, done: seq<Byte>, offset: nat, size: nat, n: nat, pos: nat, nmemb: nat,
                            buf: seq<Byte>, buf': seq<Byte>)
    requires ClusterSize(vol) > 0
  {
    var readSoFar :=
      && SoFar(disk, vol, start, done, offset, size, n, pos, nmemb) && ItemsFit(disk, vol, start, offset, size, n)
      && |done| <= |buf| && buf' == Spliced(buf, 0, done);
    readSoFar
  }

  /** One turn of the loop of fat16_read. */
  method ReadItem(stream: DiskStream, fat: DiskStream, vol: Volume, cluster: nat, offset: nat, size: nat, out: array<Byte>, at: nat,
                  ghost n: nat, ghost pos: nat, ghost nmemb: nat, ghost done: seq<Byte>, ghost buf: seq<Byte>)
    returns (res: int, ghost more: seq<Byte>)
    requires stream != fat && stream.disk == fat.disk && at + size <= out.Length && ClusterSize(vol) > 0 && n > 0
    requires ReadSoFar(fat.disk, vol, cluster, done, offset, size, n, pos, nmemb, buf, out[..]) && |done| == at
    modifies stream, fat, out
    ensures res == 0 || (res == -EIO && !ItemsReached(fat.disk, vol, cluster, pos, size, nmemb))
    ensures res == 0 ==>
              |more| == at + size && ReadSoFar(fat.disk, vol, cluster, more, offset + size, size, n - 1, pos, nmemb, buf, out[..])
  {
    more := done;
    res := ReadInternal(stream, fat, vol, cluster, offset, size, out, at);
    if res == 0 {
      OneMoreItem(fat.disk, vol, cluster, done, offset, size, n, pos, nmemb);
      ghost var piece := PieceBytes(fat.disk, vol, cluster, ClusterOf(vol, offset), PlaceIn(vol, offset), size);
      SplicedTwice(buf, 0, done, piece);
      more := done + piece;
    }
  }

  /** Every item is aligned on its own. */
  ghost predicate ItemsAligned(disk: Disk, vol: Volume, start: nat, offset: nat, size: nat, n: nat)
    requires ClusterSize(vol) > 0
    decreases n
  {
    n > 0 ==>
      && Aligned(disk, vol, start, ClusterOf(vol, offset), PlaceIn(vol, offset), size)
      && ItemsAligned(disk, vol, start, offset + size, size, n - 1)
  }

  /** Every byte of every item comes from its place in the file. */
  ghost predicate ItemsInPlace(disk: Disk, vol: Volume, start: nat, offset: nat, size: nat, n: nat)
    requires ClusterSize(vol) > 0
    decreases n
  {
    n > 0 ==>
      && (forall j: nat :: j < size ==> HasByte(disk, vol, start, offset + j) && InPlace(disk, vol, start, offset, j))
      && ItemsInPlace(disk, vol, start, offset + size, size, n - 1)
  }

  /** fat16_read delivers every byte from its place if and only if every item is aligned. */
  lemma {:induction false} ItemsInPlaceIffAligned(disk: Disk, vol: Volume, start: nat, offset: nat, size: nat, n: nat)
    requires ClusterSize(vol) > 0 && HasBytes(disk, vol, start, offset + Bytes(size, n))
    ensures ItemsInPlace(disk, vol, start, offset, size, n) <==> ItemsAligned(disk, vol, start, offset, size, n)
    decreases n
  {
    if n > 0 {
      InPlaceIffAligned(disk, vol, start, offset, size);
      ItemsInPlaceIffAligned(disk, vol, start, offset + size, size, n - 1);
    }
  }

  /** With every item aligned, fat16_read delivers the file's bytes from the position on. */
  lemma {:induction false} ItemsAreSlice(disk: Disk, vol: Volume, start: nat, offset: nat, size: nat, n: nat)
    requires ClusterSize(vol) > 0 && HasBytes(disk, vol, start, offset + Bytes(size, n)) && size > 0
    requires ItemsAligned(disk, vol, start, offset, size, n)
    ensures ItemsReached(disk, vol, start, offset, size, n)
    ensures Items(disk, vol, start, offset, size, n) == FileBytes(disk, vol, start, offset, Bytes(size, n))
    decreases n
  {
    if n > 0 {
      FileBytesConcat(disk, vol, start, offset, size, Bytes(size, n - 1));
      AlignedReadIsSlice(disk, vol, start, offset, size);
      ItemsAreSlice(disk, vol, start, offset + size, size, n - 1);
    }
  }

  lemma FileBytesConcat(disk: Disk, vol: Volume, start: nat, offset: nat, a: nat, b: nat)
    requires ClusterSize(vol) > 0 && HasBytes(disk, vol, start, offset + a + b)
    ensures HasBytes(disk, vol, start, offset + a) && HasBytes(disk, vol, start, offset + (a + b))
    ensures FileBytes(disk, vol, start, offset, a) + FileBytes(disk, vol, start, offset + a, b)
            == FileBytes(disk, vol, start, offset, a + b)
  {
  }
}
