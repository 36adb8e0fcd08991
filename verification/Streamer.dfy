/** Byte-wise reading from a disk that is read one 512-byte sector at a time. */
module Streamers {
  import opened Memory

  const SECTOR_SIZE := 512

  type Sector = s: seq<Byte> | |s| == SECTOR_SIZE witness seq(SECTOR_SIZE, _ => 0)

  /** What reading each sector of the disk gives; every read succeeds. */
  type Disk = int -> Sector

  /** The byte at a position of the disk, taken as one flat array. Only positions that are not negative
      are ever read. */
  function DiskByte(disk: Disk, pos: int): Byte {
    disk(pos / SECTOR_SIZE)[pos % SECTOR_SIZE]
  }

  ghost function DiskBytes(disk: Disk, pos: int, n: nat): (s: seq<Byte>)
    ensures |s| == n
  {
    seq<Byte>(n, i requires 0 <= i => DiskByte(disk, pos + i))
  }

  /** Sector `n` is bytes 512 n to 512 n + 511. */
  lemma SectorIsThere(disk: Disk, n: int)
    ensures DiskBytes(disk, 512 * n, 512) == disk(n)
  {
    forall i | 0 <= i < 512 ensures DiskBytes(disk, 512 * n, 512)[i] == disk(n)[i] {
      assert (512 * n + i) / 512 == n && (512 * n + i) % 512 == i;
    }
  }

  lemma DiskBytesConcat(disk: Disk, pos: int, a: nat, b: nat)
    ensures DiskBytes(disk, pos, a) + DiskBytes(disk, pos + a, b) == DiskBytes(disk, pos, a + b)
  {
  }

  /** A buffer after `s` is stored in it from index `at` on. */
  ghost function Spliced(buf: seq<Byte>, at: nat, s: seq<Byte>): (r: seq<Byte>)
    requires at + |s| <= |buf|
    ensures |r| == |buf|
  {
    buf[..at] + s + buf[at + |s|..]
  }

  lemma SplicedTwice(buf: seq<Byte>, at: nat, s: seq<Byte>, t: seq<Byte>)
    requires at + |s| + |t| <= |buf|
    ensures Spliced(Spliced(buf, at, s), at + |s|, t) == Spliced(buf, at, s + t)
  {
  }

  /** Reading `a` bytes and then the rest of `total` is reading `total` bytes. */
  lemma ReadsJoin(disk: Disk, pos: nat, a: nat, total: nat, buf: seq<Byte>, at: nat)
    requires a <= total && at + total <= |buf|
    ensures Spliced(Spliced(buf, at, DiskBytes(disk, pos, a)), at + a, DiskBytes(disk, pos + a, total - a))
            == Spliced(buf, at, DiskBytes(disk, pos, total))
  {
    DiskBytesConcat(disk, pos, a, total - a);
    SplicedTwice(buf, at, DiskBytes(disk, pos, a), DiskBytes(disk, pos + a, total - a));
  }

  lemma SameSector(pos: nat, i: nat)
    requires pos % SECTOR_SIZE + i < SECTOR_SIZE
    ensures (pos + i) / SECTOR_SIZE == pos / SECTOR_SIZE && (pos + i) % SECTOR_SIZE == pos % SECTOR_SIZE + i
  {
  }

  /** Flat bytes that do not cross a sector boundary are a piece of one sector. */
  lemma SectorBytes(disk: Disk, pos: nat, n: nat)
    requires pos % SECTOR_SIZE + n <= SECTOR_SIZE
    ensures DiskBytes(disk, pos, n) == disk(pos / SECTOR_SIZE)[pos % SECTOR_SIZE..pos % SECTOR_SIZE + n]
  {
    var sector, offset := pos / SECTOR_SIZE, pos % SECTOR_SIZE;
    var piece := disk(sector)[offset..offset + n];
    forall i | 0 <= i < n ensures DiskBytes(disk, pos, n)[i] == piece[i] {
      SameSector(pos, i);
      assert DiskBytes(disk, pos, n)[i] == DiskByte(disk, pos + i) == disk(sector)[offset + i];
    }
  }

  /** The loop of diskstreamer_read. */
  method CopyFromBuffer(buf: Sector, offset: nat, n: nat, out: array<Byte>, at: nat)
    requires offset + n <= SECTOR_SIZE && at + n <= out.Length
    modifies out
    ensures out[..] == Spliced(old(out[..]), at, buf[offset..offset + n])
  {
    for i := 0 to n
      invariant out[..] == Spliced(old(out[..]), at, buf[offset..offset + i])
    {
      out[at + i] := buf[offset + i];
      assert buf[offset..offset + i + 1] == buf[offset..offset + i] + [buf[offset + i]];
    }
  }

  class DiskStream {
    const disk: Disk
    var pos: int

    /** diskstreamer_new, for the one disk there is. */
    constructor (d: Disk)
      ensures disk == d && pos == 0
    {
      disk, pos := d, 0;
    }

    method Seek(p: int) returns (res: int)
      modifies this
      ensures res == 0 && pos == p
    {
      pos := p;
      res := 0;
    }

    /** The part of diskstreamer_read that stays in one sector. */
    method ReadInSector(out: array<Byte>, at: nat, n: nat)
      requires pos >= 0 && at + n <= out.Length && pos % SECTOR_SIZE + n <= SECTOR_SIZE
      modifies this, out
      ensures pos == old(pos) + n
      ensures out[..] == Spliced(old(out[..]), at, DiskBytes(disk, old(pos), n))
    {
      SectorBytes(disk, pos, n);
      var buf := disk(pos / SECTOR_SIZE);
      CopyFromBuffer(buf, pos % SECTOR_SIZE, n, out, at);
      pos := pos + n;
    }

    /** diskstreamer_read: copies what is left of the current sector, then goes on with the next
        sector by recursion; a read that ends on a sector boundary goes on with a read of nothing. */
    method Read(out: array<Byte>, at: nat, total: nat) returns (res: int)
      requires pos >= 0 && at + total <= out.Length
      modifies this, out
      ensures res == 0 && pos == old(pos) + total
      ensures out[..] == Spliced(old(out[..]), at, DiskBytes(disk, old(pos), total))
      decreases total
    {
      var offset, total_to_read := pos % SECTOR_SIZE, total;
      var overflow := offset + total_to_read >= SECTOR_SIZE;
      if overflow {
        total_to_read := SECTOR_SIZE - offset;
      }
      ReadInSector(out, at, total_to_read);
      res := 0;
      if overflow {
        res := Read(out, at + total_to_read, total - total_to_read);
        ReadsJoin(disk, old(pos), total_to_read, total, old(out[..]), at);
      }
    }
  }
}
