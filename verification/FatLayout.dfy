/** Where the parts of a FAT16 volume lie: reserved sectors, the tables, the root directory, and behind it the
    clusters, numbered from 2. A file is the data of its chain's clusters, one after the other. */
module FatLayout {
  import opened Memory
  import opened Streamers
  import opened Wrappers
  import opened Fat16

  const DIRECTORY_ITEM_SIZE := 32

  /** The fields of the volume's header that say where its parts lie. */
  datatype Header = Header(reserved: nat, fatCopies: nat, sectorsPerFat: nat, rootEntries: nat, sectorsPerCluster: nat)

  /** fat16_get_root_directory: the sectors where the root directory begins and where it ends. */
  function RootSector(h: Header): nat {
    h.fatCopies * h.sectorsPerFat + h.reserved
  }

  function RootEnd(h: Header): nat {
    RootSector(h) + h.rootEntries * DIRECTORY_ITEM_SIZE / SECTOR_SIZE
  }

  function VolumeOf(h: Header): Volume {
    Volume(h.reserved, h.sectorsPerCluster, RootEnd(h))
  }

  /** Behind the reserved sectors and the tables, the root directory takes as many sectors as its entries need. */
  function SpecifiedDataSector(h: Header): nat {
    h.reserved + h.fatCopies * h.sectorsPerFat + (h.rootEntries * 32 + 511) / 512
  }

  /** The code rounds the size of the root directory down: the clusters begin where they should if and only if
      the entries fill whole sectors. */
  lemma DataSectorIsSpecifiedIff(h: Header)
    ensures VolumeOf(h).dataSector == SpecifiedDataSector(h) <==> h.rootEntries % 16 == 0
  {
    var q, r := h.rootEntries / 16, h.rootEntries % 16;
    assert h.rootEntries * 32 == 512 * q + 32 * r;
  }

  /** The header in the repository's boot sector: the clusters begin at sector 716. */
  lemma BootVolume()
    ensures var vol := VolumeOf(Header(200, 2, 256, 64, 128));
            vol.dataSector == 716 && ClusterPos(vol, 2) == 716 * 512 && ClusterPos(vol, 3) == (716 + 128) * 512
  {
  }

  // ---------------------------------------------------------------------------
  // The clusters: what is behind the root directory, cut into pieces of one size.
  // ---------------------------------------------------------------------------

  /** Piece `n` when the disk is cut into pieces of `size` bytes from `pos` on. */
  ghost function PieceFrom(disk: Disk, pos: int, size: nat, n: nat): (s: seq<Byte>)
    ensures |s| == size
    decreases n
  {
    if n == 0 then DiskBytes(disk, pos, size) else PieceFrom(disk, pos + size, size, n - 1)
  }

  lemma {:induction false} PieceIsThere(disk: Disk, pos: int, size: nat, n: nat)
    ensures PieceFrom(disk, pos, size, n) == DiskBytes(disk, pos + Bytes(size, n), size)
    decreases n
  {
    if n > 0 {
      PieceIsThere(disk, pos + size, size, n - 1);
    }
  }

  /** The data of a cluster: the first piece behind the root directory is cluster 2. */
  ghost function ClusterData(disk: Disk, vol: Volume, cluster: nat): (s: seq<Byte>)
    requires cluster >= 2
    ensures |s| == vol.sectorsPerCluster * 512
  {
    PieceFrom(disk, vol.dataSector * 512, vol.sectorsPerCluster * 512, cluster - 2)
  }

  /** The code takes a cluster's bytes from where that piece is. */
  lemma ClusterIsPiece(disk: Disk, vol: Volume, cluster: nat)
    requires cluster >= 2
    ensures DiskBytes(disk, ClusterPos(vol, cluster), ClusterSize(vol)) == ClusterData(disk, vol, cluster)
  {
    PieceIsThere(disk, vol.dataSector * 512, vol.sectorsPerCluster * 512, cluster - 2);
    PiecePosition(vol, cluster);
  }

  lemma PiecePosition(vol: Volume, cluster: nat)
    requires cluster >= 2
    ensures ClusterPos(vol, cluster) == vol.dataSector * 512 + Bytes(vol.sectorsPerCluster * 512, cluster - 2)
  {
    var n := cluster - 2;
    BytesIsProduct(vol.sectorsPerCluster * 512, n);
    assert n * (vol.sectorsPerCluster * 512) == n * vol.sectorsPerCluster * 512;
  }

  /** Cluster 2 begins where the root directory ends, and each further one where the one before ends. */
  lemma ClustersFollow(vol: Volume, cluster: nat)
    requires cluster >= 2
    ensures ClusterPos(vol, 2) == vol.dataSector * 512
    ensures ClusterPos(vol, cluster + 1) == ClusterPos(vol, cluster) + vol.sectorsPerCluster * 512
  {
    PiecePosition(vol, cluster);
    PiecePosition(vol, cluster + 1);
  }

  // ---------------------------------------------------------------------------
  // Files.
  // ---------------------------------------------------------------------------

  /** The chain has at least `m` clusters, and none of them is numbered below 2. */
  ghost predicate HasClusters(disk: Disk, vol: Volume, start: nat, m: nat) {
    var all := forall k: nat :: k < m ==> Chain(disk, vol, start, k).Some? && Chain(disk, vol, start, k).value >= 2;
    all
  }

  /** The data of the first `m` clusters of the chain, one after the other. */
  ghost function Content(disk: Disk, vol: Volume, start: nat, m: nat): (s: seq<Byte>)
    requires HasClusters(disk, vol, start, m)
    ensures |s| == Bytes(ClusterSize(vol), m)
  {
    if m == 0 then []
    else Content(disk, vol, start, m - 1) + ClusterData(disk, vol, Chain(disk, vol, start, m - 1).value)
  }

  /** Which cluster of the chain a place is in, and where. */
  lemma {:induction false} PlaceInCluster(vol: Volume, x: nat, q: nat)
    requires ClusterSize(vol) > 0 && Bytes(ClusterSize(vol), q) <= x < Bytes(ClusterSize(vol), q + 1)
    ensures ClusterOf(vol, x) == q && PlaceIn(vol, x) == x - Bytes(ClusterSize(vol), q)
    decreases q
  {
    if q > 0 {
      PlaceInCluster(vol, x - ClusterSize(vol), q - 1);
    }
  }

  /** Byte `x` of the content is on the disk where the code looks for byte `x` of the file. */
  lemma {:induction false} ContentAt(disk: Disk, vol: Volume, start: nat, m: nat, x: nat)
    requires ClusterSize(vol) > 0 && HasClusters(disk, vol, start, m) && x < Bytes(ClusterSize(vol), m)
    ensures HasByte(disk, vol, start, x) && Content(disk, vol, start, m)[x] == DiskByte(disk, FilePos(disk, vol, start, x))
    decreases m
  {
    var before := Bytes(ClusterSize(vol), m - 1);
    if x < before {
      ContentAt(disk, vol, start, m - 1, x);
    } else {
      var c := Chain(disk, vol, start, m - 1).value;
      PlaceInCluster(vol, x, m - 1);
      ClusterIsPiece(disk, vol, c);
      assert ClusterData(disk, vol, c)[x - before] == DiskByte(disk, ClusterPos(vol, c) + (x - before));
    }
  }

  /** The bytes of the file, as reading counts them, are those of its clusters' data. */
  lemma FileBytesAreContent(disk: Disk, vol: Volume, start: nat, m: nat, offset: nat, n: nat)
    requires ClusterSize(vol) > 0 && HasClusters(disk, vol, start, m) && offset + n <= Bytes(ClusterSize(vol), m)
    ensures HasBytes(disk, vol, start, offset + n)
    ensures FileBytes(disk, vol, start, offset, n) == Content(disk, vol, start, m)[offset..offset + n]
  {
    forall x: nat | x < offset + n
      ensures HasByte(disk, vol, start, x) && Content(disk, vol, start, m)[x] == DiskByte(disk, FilePos(disk, vol, start, x))
    {
      ContentAt(disk, vol, start, m, x);
    }
  }

  /** An aligned read delivers exactly that slice of the clusters' data, one after the other. */
  lemma AlignedReadIsContent(disk: Disk, vol: Volume, start: nat, m: nat, offset: nat, total: nat)
    requires ClusterSize(vol) > 0 && HasClusters(disk, vol, start, m) && offset + total <= Bytes(ClusterSize(vol), m) && total > 0
    requires Aligned(disk, vol, start, ClusterOf(vol, offset), PlaceIn(vol, offset), total)
    ensures Reaches(disk, vol, start, ClusterOf(vol, offset), total)
    ensures PieceBytes(disk, vol, start, ClusterOf(vol, offset), PlaceIn(vol, offset), total)
            == Content(disk, vol, start, m)[offset..offset + total]
  {
    FileBytesAreContent(disk, vol, start, m, offset, total);
    AlignedReadIsSlice(disk, vol, start, offset, total);
  }

  /** fat16_read of aligned items returns their number and delivers that slice. */
  method ReadAligned(stream: DiskStream, fat: DiskStream, vol: Volume, desc: FileDescriptor, size: nat, nmemb: nat, out: array<Byte>, ghost m: nat)
    returns (res: int)
    requires stream != fat && stream.disk == fat.disk && Bytes(size, nmemb) <= out.Length && ClusterSize(vol) > 0 && size > 0
    requires ItemsFit(fat.disk, vol, desc.firstCluster, desc.pos, size, nmemb) && ItemsAligned(fat.disk, vol, desc.firstCluster, desc.pos, size, nmemb)
    requires HasClusters(fat.disk, vol, desc.firstCluster, m) && desc.pos + Bytes(size, nmemb) <= Bytes(ClusterSize(vol), m)
    modifies stream, fat, out
    ensures res == nmemb
    ensures out[..Bytes(size, nmemb)] == Content(fat.disk, vol, desc.firstCluster, m)[desc.pos..desc.pos + Bytes(size, nmemb)]
    ensures out[Bytes(size, nmemb)..] == old(out[Bytes(size, nmemb)..])
  {
    FileBytesAreContent(fat.disk, vol, desc.firstCluster, m, desc.pos, Bytes(size, nmemb));
    ItemsAreSlice(fat.disk, vol, desc.firstCluster, desc.pos, size, nmemb);
    res := Fat16Read(stream, fat, vol, desc, size, nmemb, out);
  }
}
