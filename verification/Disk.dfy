/** src/disk/streamer.c: a byte stream over 512-byte disk sectors. */
module Disk {

  const SECTOR_SIZE := 512

  type Byte = b: int | 0 <= b < 256
  type Sector = s: seq<Byte> | |s| == SECTOR_SIZE witness seq(512, _ => 0)

  /** The disk: what disk_read_block fetches for a sector number. */
  type Sectors = nat -> Sector

  ghost function DiskByte(disk: Sectors, i: nat): Byte {
    disk(i / SECTOR_SIZE)[i % SECTOR_SIZE]
  }

  /** n disk bytes from position pos on. */
  ghost function DiskBytes(disk: Sectors, pos: nat, n: nat): (r: seq<Byte>)
    ensures |r| == n
  {
    seq<Byte>(n, i requires 0 <= i < n => DiskByte(disk, pos + i))
  }

  /** What lies inside one sector are that sector's bytes, in its order. */
  lemma SectorBytes(disk: Sectors, n: nat, o: nat, t: nat)
    requires o + t <= 512
    ensures DiskBytes(disk, 512 * n + o, t) == disk(n)[o..o + t]
    ensures t > 0 ==> DiskByte(disk, 512 * n + o) == disk(n)[o]
  {
    hide DiskByte;
    var bytes, sector := DiskBytes(disk, 512 * n + o, t), disk(n);
    forall i: nat | i < t ensures bytes[i] == sector[o + i] {
      ByteOfSector(disk, n, o + i);
    }
    if t > 0 { ByteOfSector(disk, n, o); }
  }

  lemma ByteOfSector(disk: Sectors, n: nat, o: nat)
    requires o < 512
    ensures DiskByte(disk, 512 * n + o) == disk(n)[o]
  {
  }

  /** Reading a and then b bytes is reading a + b bytes. */
  lemma ReadsCompose(disk: Sectors, pos: nat, a: nat, b: nat)
    ensures DiskBytes(disk, pos, a) + DiskBytes(disk, pos + a, b) == DiskBytes(disk, pos, a + b)
  {
  }

  /** The buffer is as before outside n bytes from index at on. */
  predicate Outside(before: seq<Byte>, after: seq<Byte>, at: nat, n: nat) {
    at + n <= |before| == |after| && after[..at] == before[..at] && after[at + n..] == before[at + n..]
  }

  /** The buffer holds data from index at on and is as before elsewhere. */
  predicate Filled(before: seq<Byte>, after: seq<Byte>, at: nat, data: seq<Byte>) {
    Outside(before, after, at, |data|) && after[at..at + |data|] == data
  }

  lemma FilledMeans(before: seq<Byte>, after: seq<Byte>, at: nat, data: seq<Byte>)
    requires Filled(before, after, at, data)
    ensures at + |data| <= |after| && after[at..at + |data|] == data
  {
  }

  lemma SectorRead(disk: Sectors, pos: nat, total: nat)
    ensures var (n, o) := (pos / 512, pos % 512);
      o + total <= 512 ==> DiskBytes(disk, pos, total) == disk(n)[o..o + total]
  {
    if pos % 512 + total <= 512 { SectorBytes(disk, pos / 512, pos % 512, total); }
  }

  lemma OutsideTwice(a: seq<Byte>, b: seq<Byte>, c: seq<Byte>, at: nat, m: nat, n: nat)
    requires Outside(a, b, at, m) && Outside(b, c, at + m, n) && at + m + n <= |a|
    ensures Outside(a, c, at, m + n)
  {
    assert c[..at] == c[..at + m][..at] && b[..at] == b[..at + m][..at];
    assert a[at + m + n..] == a[at + m..][n..] && b[at + m + n..] == b[at + m..][n..];
  }

  lemma FilledTwice(a: seq<Byte>, b: seq<Byte>, c: seq<Byte>, at: nat, x: seq<Byte>, y: seq<Byte>)
    requires Filled(a, b, at, x) && Filled(b, c, at + |x|, y) && at + |x| + |y| <= |a|
    ensures Filled(a, c, at, x + y)
  {
    OutsideTwice(a, b, c, at, |x|, |y|);
    assert c[at..at + |x|] == c[..at + |x|][at..] && b[at..at + |x|] == b[..at + |x|][at..];
    assert c[at..at + |x| + |y|] == c[at..at + |x|] + c[at + |x|..at + |x| + |y|];
  }

  class DiskStream {
    const disk: Sectors
    var pos: nat

    constructor (disk: Sectors)
      ensures this.disk == disk && pos == 0
    {
      this.disk := disk;
      pos := 0;
    }

    /** diskstreamer_seek */
    method Seek(pos: nat)
      modifies this
      ensures this.pos == pos
    {
      this.pos := pos;
    }

    /** diskstreamer_read into out from index at on: exactly the next total disk bytes, for
        any number of sector crossings, and those of one sector if they lie in it; the recursion
        ends because what is left of total falls each time a sector is exhausted. */
    method Read(out: array<Byte>, at: nat, total: nat)
      requires at + total <= out.Length
      modifies this, out
      ensures pos == old(pos) + total
      ensures Filled(old(out[..]), out[..], at, DiskBytes(disk, old(pos), total))
      ensures var (n, o) := (old(pos) / 512, old(pos) % 512);
        o + total <= 512 ==> out[at..at + total] == disk(n)[o..o + total]
      decreases total
    {
      hide DiskBytes, Filled, Outside;
      ghost var before, start := out[..], pos;
      SectorRead(disk, start, total);
      var offset := pos % SECTOR_SIZE;
      var totalToRead := total;
      var overflow := offset + totalToRead >= SECTOR_SIZE;
      if overflow {
        totalToRead := totalToRead - (offset + totalToRead - SECTOR_SIZE);
      }
      CopySector(out, at, totalToRead);
      pos := pos + totalToRead;
      if overflow {
        ghost var middle, rest := out[..], total - totalToRead;
        ReadsCompose(disk, start, totalToRead, rest);
        Read(out, at + totalToRead, total - totalToRead);
        FilledTwice(before, middle, out[..], at, DiskBytes(disk, start, totalToRead), DiskBytes(disk,
          start + totalToRead, rest));
      }
      FilledMeans(before, out[..], at, DiskBytes(disk, start, total));
    }

    /** The copying loop: n bytes of the sector under the cursor, none beyond its end. */
    method CopySector(out: array<Byte>, at: nat, n: nat)
      requires at + n <= out.Length && pos % SECTOR_SIZE + n <= SECTOR_SIZE
      modifies out
      ensures Filled(old(out[..]), out[..], at, DiskBytes(disk, pos, n))
    {
      var buf, offset := disk(pos / SECTOR_SIZE), pos % SECTOR_SIZE;
      ghost var before := out[..];
      for i := 0 to n
        invariant forall j :: 0 <= j < out.Length ==>
          out[j] == if at <= j < at + i then DiskByte(disk, pos + (j - at)) else before[j]
      {
        SameSector(pos, i, offset);
        out[at + i] := buf[offset + i];
      }
    }

    lemma SameSector(pos: nat, i: nat, offset: nat)
      requires offset == pos % SECTOR_SIZE && offset + i < SECTOR_SIZE
      ensures (pos + i) / SECTOR_SIZE == pos / SECTOR_SIZE && (pos + i) % SECTOR_SIZE == offset + i
    {
    }

    /** Two reads in a row leave the buffer as one read of the sum does. */
    method ReadTwice(out: array<Byte>, at: nat, a: nat, b: nat)
      requires at + a + b <= out.Length
      modifies this, out
      ensures pos == old(pos) + a + b
      ensures Filled(old(out[..]), out[..], at, DiskBytes(disk, old(pos), a + b))
    {
      hide DiskBytes, Filled;
      ghost var before, start := out[..], pos;
      ReadsCompose(disk, pos, a, b);
      Read(out, at, a);
      ghost var middle := out[..];
      Read(out, at + a, b);
      FilledTwice(before, middle, out[..], at, DiskBytes(disk, start, a), DiskBytes(disk, start + a, b));
    }
  }
}
