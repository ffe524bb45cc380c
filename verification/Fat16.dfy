/** src/fs/fat/fat16.c: following a file's cluster chain and reading through it. */
module Fat16 {
  import opened Machine
  import opened Disk

  const FAT_ENTRY_SIZE := 2

  /** The geometry the reader takes from the boot sector and the root directory. */
  datatype Geometry = Geometry(reservedSectors: nat, sectorsPerCluster: nat, endingSector: nat)

  function ClusterBytes(g: Geometry): nat {
    g.sectorsPerCluster * SECTOR_SIZE
  }

  /** fat16_get_fat_entry's seek position, with fat16.c:385 adding the entry's offset. */
  function EntryPosition(g: Geometry, cluster: nat): nat {
    g.reservedSectors * SECTOR_SIZE + cluster * FAT_ENTRY_SIZE
  }

  /** The same line as written, multiplying. */
  function EntryPositionAsWritten(g: Geometry, cluster: nat): nat {
    (g.reservedSectors * SECTOR_SIZE) * (cluster * FAT_ENTRY_SIZE)
  }

  /** Multiplying finds the entry only where both positions are zero. */
  lemma EntryPositionAsWrittenIff(g: Geometry, cluster: nat)
    ensures EntryPositionAsWritten(g, cluster) == EntryPosition(g, cluster) <==> g.reservedSectors == 0 && cluster == 0
  {
    var f, x := g.reservedSectors * SECTOR_SIZE, cluster * FAT_ENTRY_SIZE;
    if g.reservedSectors > 0 && cluster > 0 {
      ProductAtLeast(f, x, 2);
      ProductAtLeast(x, f, 512);
    }
  }

  lemma ProductAtLeast(a: nat, b: nat, c: nat)
    requires b >= c
    ensures a * b >= a * c && a * b == b * a
  {
    assert a * b == a * c + a * (b - c);
  }

  /** The FAT word for a cluster, little-endian on disk. */
  ghost function Entry(disk: Sectors, g: Geometry, cluster: nat): (e: nat)
    ensures e < 0x1_0000
  {
    var p := EntryPosition(g, cluster);
    DiskByte(disk, p) + 256 * DiskByte(disk, p + 1)
  }

  /** The FAT on the disk is this list of 16-bit words: behind the reserved sectors, two bytes
      each, the low one first. */
  ghost predicate HoldsFat(disk: Sectors, g: Geometry, fat: seq<nat>) {
    forall c: nat :: c < |fat| ==> HoldsWord(disk, 512 * g.reservedSectors + 2 * c, fat[c])
  }

  ghost predicate HoldsWord(disk: Sectors, pos: nat, word: nat) {
    word < 0x1_0000 && DiskByte(disk, pos) == word % 256 && DiskByte(disk, pos + 1) == word / 256
  }

  /** The entry read for a cluster is the list's. */
  lemma EntryOfFat(disk: Sectors, g: Geometry, fat: seq<nat>, cluster: nat)
    requires HoldsFat(disk, g, fat) && cluster < |fat|
    ensures Entry(disk, g, cluster) == fat[cluster]
  {
    hide DiskByte;
    assert HoldsWord(disk, 512 * g.reservedSectors + 2 * cluster, fat[cluster]);
  }

  /** The word names a next cluster: neither free, reserved, bad nor end of chain. */
  predicate IsLink(entry: nat) {
    entry != 0 && entry < 0xFFF0
  }

  /** fat16.c:415-440 as written, with the markers of a 12-bit FAT. */
  predicate IsLinkAsWritten(entry: nat) {
    entry != 0xFF8 && entry != 0xFFF && entry != 0xFF7 && entry != 0xFF0 && entry != 0xFF6 && entry != 0x00
  }

  /** As written the walk classifies a FAT16 word rightly except for five ordinary cluster
      numbers, which it takes for markers, and for all sixteen real markers, which it
      follows. */
  lemma IsLinkAsWrittenIff(entry: nat)
    requires entry < 0x1_0000
    ensures IsLinkAsWritten(entry) == IsLink(entry) <==> entry !in {0xFF0, 0xFF6, 0xFF7, 0xFF8, 0xFFF} && entry < 0xFFF0
  {
  }

  /** The cluster n links after c, if the chain goes on that far. */
  ghost function Walk(disk: Sectors, g: Geometry, c: nat, n: nat): Option<nat>
    decreases n
  {
    if n == 0 then Some(c)
    else
      var e := Entry(disk, g, c);
      if IsLink(e) then Walk(disk, g, e, n - 1) else None
  }

  /** Walking is compositional: m + n links are m links and then n more. */
  lemma {:induction false} WalkComposes(disk: Sectors, g: Geometry, c: nat, m: nat, n: nat)
    ensures Walk(disk, g, c, m + n) ==
      match Walk(disk, g, c, m) case None => None case Some(d) => Walk(disk, g, d, n)
    decreases m
  {
    if m > 0 && IsLink(Entry(disk, g, c)) {
      WalkComposes(disk, g, Entry(disk, g, c), m - 1, n);
    }
  }

  /** fat16_cluster_to_sector: clusters are numbered from 2 on, and nothing stops a FAT word
      from naming cluster 1, which lies in front of the data area. */
  function ClusterSector(g: Geometry, cluster: nat): int {
    g.endingSector + (cluster - 2) * g.sectorsPerCluster
  }

  /** The cluster is not in front of the disk. */
  predicate OnDisk(g: Geometry, cluster: nat) {
    ClusterSector(g, cluster) >= 0
  }

  function ClusterPosition(g: Geometry, cluster: nat): nat
    requires OnDisk(g, cluster)
  {
    ClusterSector(g, cluster) * SECTOR_SIZE
  }

  /** The clusters of the chain from c that a walk of n links meets are on the disk. */
  ghost predicate DataChain(disk: Sectors, g: Geometry, c: nat, n: nat) {
    forall j :: 0 <= j <= n && Walk(disk, g, c, j).Some? ==> OnDisk(g, Walk(disk, g, c, j).value)
  }

  // --- Division by the cluster size -------------------------------------------------------

  function ClusterIndex(g: Geometry, i: nat): nat
    requires g.sectorsPerCluster > 0
  {
    i / ClusterBytes(g)
  }

  function ClusterOffset(g: Geometry, i: nat): (r: nat)
    requires g.sectorsPerCluster > 0
    ensures r < ClusterBytes(g)
  {
    i % ClusterBytes(g)
  }

  lemma MultipleBelow(s: int, x: int)
    requires s > 0 && -s < s * x < s
    ensures x == 0
  {
  }

  lemma DivisionIs(i: int, s: nat, q: int, r: int)
    requires s > 0 && 0 <= r < s && i == s * q + r
    ensures i / s == q && i % s == r
  {
    var q', r' := i / s, i % s;
    assert i == s * q' + r';
    assert s * (q - q') == s * q - s * q';
    MultipleBelow(s, q - q');
  }

  /** The position k whole clusters and t bytes further on, t reaching at most into the
      next cluster. */
  lemma IndexShift(g: Geometry, i: nat, k: nat, t: nat)
    requires g.sectorsPerCluster > 0 && t < ClusterBytes(g)
    ensures var (s, j) := (ClusterBytes(g), i + ClusterBytes(g) * k + t);
      if ClusterOffset(g, i) + t < s
      then ClusterIndex(g, j) == ClusterIndex(g, i) + k && ClusterOffset(g, j) == ClusterOffset(g, i) + t
      else ClusterIndex(g, j) == ClusterIndex(g, i) + k + 1 && ClusterOffset(g, j) == ClusterOffset(g, i) + t - s
  {
    var s, q, r := ClusterBytes(g), ClusterIndex(g, i), ClusterOffset(g, i);
    assert i == s * q + r;
    assert s * (q + k) == s * q + s * k;
    assert s * (q + k + 1) == s * q + s * k + s;
    if r + t < s {
      DivisionIs(i + s * k + t, s, q + k, r + t);
    } else {
      DivisionIs(i + s * k + t, s, q + k + 1, r + t - s);
    }
  }

  lemma IndexGrows(g: Geometry, a: nat, b: nat)
    requires g.sectorsPerCluster > 0 && a <= b
    ensures ClusterIndex(g, a) <= ClusterIndex(g, b)
  {
    var s := ClusterBytes(g);
    assert a == s * ClusterIndex(g, a) + ClusterOffset(g, a);
    assert b == s * ClusterIndex(g, b) + ClusterOffset(g, b);
    OrderedMultiples(s, ClusterIndex(g, a), ClusterIndex(g, b));
  }

  lemma OrderedMultiples(s: nat, x: int, y: int)
    requires s > 0 && s * x < s * y + s
    ensures x <= y
  {
    var d := x - y;
    assert s * x == s * y + s * d;
    if d >= 1 {
      ProductAtLeast(s, d, 1);
    }
  }

  // --- The file as a flat sequence of bytes ---------------------------------------------------

  ghost predicate Reaches(disk: Sectors, g: Geometry, c: nat, i: nat)
    requires g.sectorsPerCluster > 0
  {
    var w := Walk(disk, g, c, ClusterIndex(g, i));
    w.Some? && OnDisk(g, w.value)
  }

  /** Where byte i of the concatenated clusters of the chain from c lies on the disk. */
  ghost function FilePosition(disk: Sectors, g: Geometry, c: nat, i: nat): nat
    requires g.sectorsPerCluster > 0 && Reaches(disk, g, c, i)
  {
    ClusterPosition(g, Walk(disk, g, c, ClusterIndex(g, i)).value) + ClusterOffset(g, i)
  }

  /** total bytes of the concatenated clusters, from byte offset on. */
  ghost function FileBytes(disk: Sectors, g: Geometry, c: nat, offset: nat, total: nat): (r: seq<Byte>)
    requires g.sectorsPerCluster > 0 && forall i: nat :: offset <= i < offset + total ==> Reaches(disk, g, c, i)
    ensures |r| == total
  {
    seq<Byte>(total, i requires 0 <= i < total => DiskByte(disk, FilePosition(disk, g, c, offset + i)))
  }

  /** The last cluster index a read of total bytes at offset looks up. */
  ghost function LastCluster(g: Geometry, offset: nat, total: nat): nat
    requires g.sectorsPerCluster > 0
  {
    ClusterIndex(g, if total == 0 then offset else offset + total - 1)
  }

  lemma WalkPrefix(disk: Sectors, g: Geometry, c: nat, m: nat, n: nat)
    requires m <= n && Walk(disk, g, c, n).Some?
    ensures Walk(disk, g, c, m).Some?
  {
    WalkComposes(disk, g, c, m, n - m);
  }

  /** A chain that goes on to the last cluster of a request serves every byte of it. */
  lemma ChainServes(disk: Sectors, g: Geometry, c: nat, offset: nat, total: nat, i: nat)
    requires g.sectorsPerCluster > 0 && DataChain(disk, g, c, LastCluster(g, offset, total))
    requires Walk(disk, g, c, LastCluster(g, offset, total)).Some?
    requires offset <= i && (i < offset + total || i == offset)
    ensures Reaches(disk, g, c, i)
  {
    hide ClusterIndex, Walk;
    IndexGrows(g, i, if total == 0 then offset else offset + total - 1);
    WalkPrefix(disk, g, c, ClusterIndex(g, i), LastCluster(g, offset, total));
  }

  /** The first byte of a request is served whenever its cluster is found. */
  lemma StartServes(disk: Sectors, g: Geometry, c: nat, offset: nat, total: nat)
    requires g.sectorsPerCluster > 0 && DataChain(disk, g, c, LastCluster(g, offset, total))
    ensures Walk(disk, g, c, ClusterIndex(g, offset)).Some? ==> Reaches(disk, g, c, offset)
    ensures Walk(disk, g, c, LastCluster(g, offset, total)).Some? ==> Walk(disk, g, c, ClusterIndex(g, offset)).Some?
  {
    hide ClusterIndex, Walk;
    IndexGrows(g, offset, if total == 0 then offset else offset + total - 1);
    if Walk(disk, g, c, LastCluster(g, offset, total)).Some? {
      ChainServes(disk, g, c, offset, total, offset);
    }
  }

  /** The bytes of one piece lie in one stretch of the disk. */
  lemma PieceBytes(disk: Sectors, g: Geometry, c: nat, offset: nat, n: nat)
    requires g.sectorsPerCluster > 0 && ClusterOffset(g, offset) + n <= ClusterBytes(g) && Reaches(disk, g, c, offset)
    ensures forall i: nat :: offset <= i < offset + n ==> Reaches(disk, g, c, i)
    ensures FileBytes(disk, g, c, offset, n) == DiskBytes(disk, FilePosition(disk, g, c, offset), n)
  {
    hide ClusterIndex, ClusterOffset, Walk, ClusterPosition, DiskByte, ClusterBytes;
    forall i: nat | offset <= i < offset + n
      ensures Reaches(disk, g, c, i) && FilePosition(disk, g, c, i) == FilePosition(disk, g, c, offset) + (i - offset)
    {
      assert ClusterBytes(g) * 0 == 0;
      IndexShift(g, offset, 0, i - offset);
    }
  }

  /** A request that ends within its first cluster looks up no other. */
  lemma LastPiece(g: Geometry, offset: nat, total: nat)
    requires g.sectorsPerCluster > 0
    ensures ClusterOffset(g, offset) + total <= ClusterBytes(g) ==>
      LastCluster(g, offset, total) == ClusterIndex(g, offset)
  {
    hide ClusterIndex, ClusterOffset, ClusterBytes;
    if total > 0 && ClusterOffset(g, offset) + total <= ClusterBytes(g) {
      assert ClusterBytes(g) * 0 == 0;
      IndexShift(g, offset, 0, total - 1);
    }
  }

  lemma FileBytesCompose(disk: Sectors, g: Geometry, c: nat, offset: nat, a: nat, b: nat)
    requires g.sectorsPerCluster > 0 && forall i: nat :: offset <= i < offset + a + b ==> Reaches(disk, g, c, i)
    ensures FileBytes(disk, g, c, offset, a) + FileBytes(disk, g, c, offset + a, b) == FileBytes(disk, g, c, offset,
      a + b)
  {
    hide Reaches, FilePosition, DiskByte;
  }

  // --- fat16.c:468 as written --------------------------------------------------------------------

  /** Where the read as written takes its i-th byte from: pieces are a whole cluster long
      wherever in a cluster they start. */
  ghost function AsWrittenPosition(disk: Sectors, g: Geometry, c: nat, offset: nat, i: nat): nat
    requires g.sectorsPerCluster > 0 && PieceReaches(disk, g, c, offset, i)
  {
    ClusterPosition(g, Walk(disk, g, c, ClusterIndex(g, offset) + ClusterIndex(g, i)).value) + ClusterOffset(g,
      offset) + ClusterOffset(g, i)
  }

  ghost predicate PieceReaches(disk: Sectors, g: Geometry, c: nat, offset: nat, i: nat)
    requires g.sectorsPerCluster > 0
  {
    var w := Walk(disk, g, c, ClusterIndex(g, offset) + ClusterIndex(g, i));
    w.Some? && OnDisk(g, w.value)
  }

  /** Chain element j + 1 is the disk's next cluster after element j. */
  ghost predicate Adjacent(disk: Sectors, g: Geometry, c: nat, j: nat) {
    var (here, next) := (Walk(disk, g, c, j), Walk(disk, g, c, j + 1));
    here.Some? && next.Some? && next.value == here.value + 1
  }

  lemma Splits(g: Geometry, i: nat)
    requires g.sectorsPerCluster > 0
    ensures i == ClusterBytes(g) * ClusterIndex(g, i) + ClusterOffset(g, i)
  {
  }

  /** The i-th byte of a request: which of its offset's cluster and i's own offset decide. */
  lemma AsWrittenAt(disk: Sectors, g: Geometry, c: nat, offset: nat, total: nat, i: nat)
    requires g.sectorsPerCluster > 0 && DataChain(disk, g, c, LastCluster(g, offset, total))
    requires Walk(disk, g, c, LastCluster(g, offset, total)).Some? && i < total
    ensures PieceReaches(disk, g, c, offset, i) && Reaches(disk, g, c, offset + i)
    ensures AsWrittenPosition(disk, g, c, offset, i) == FilePosition(disk, g, c, offset + i) <==>
      ClusterOffset(g, offset) + ClusterOffset(g, i) < ClusterBytes(g)
        || Adjacent(disk, g, c, ClusterIndex(g, offset) + ClusterIndex(g, i))
    ensures ClusterOffset(g, offset) + ClusterOffset(g, i) >= ClusterBytes(g) ==>
      ClusterIndex(g, offset) + ClusterIndex(g, i) < LastCluster(g, offset, total)
  {
    hide ClusterIndex, ClusterOffset, ClusterBytes, Walk, ClusterPosition;
    var k, t, s := ClusterIndex(g, i), ClusterOffset(g, i), ClusterBytes(g);
    Splits(g, i);
    IndexShift(g, offset, k, t);
    assert offset + s * k + t == offset + i;
    IndexGrows(g, offset + i, offset + total - 1);
    ChainServes(disk, g, c, offset, total, offset + i);
    WalkPrefix(disk, g, c, ClusterIndex(g, offset) + k, LastCluster(g, offset, total));
    var here := Walk(disk, g, c, ClusterIndex(g, offset) + k).value;
    if ClusterOffset(g, offset) + t >= s {
      NextPosition(g, here, Walk(disk, g, c, ClusterIndex(g, offset) + k + 1).value);
    }
  }

  lemma NextPosition(g: Geometry, here: nat, next: nat)
    requires OnDisk(g, here) && OnDisk(g, next) && g.sectorsPerCluster > 0
    ensures ClusterPosition(g, next) == ClusterPosition(g, here) + ClusterBytes(g) <==> next == here + 1
  {
    var n := g.sectorsPerCluster;
    var a, b := next - 2, here - 2;
    assert a * n == b * n + (a - b) * n;
    if a != b + 1 { MultipleBelowOrAbove(n, a - b); }
  }

  lemma MultipleBelowOrAbove(n: nat, d: int)
    requires n > 0 && d != 1
    ensures d * n != n
  {
    assert d * n == n + n * (d - 1);
    if n * (d - 1) == 0 { MultipleBelow(n, d - 1); }
  }

  /** The last cluster index a read as written looks up. */
  ghost function AsWrittenLast(g: Geometry, offset: nat, total: nat): nat
    requires g.sectorsPerCluster > 0
  {
    ClusterIndex(g, offset) + (if total == 0 then 0 else ClusterIndex(g, total - 1))
  }

  lemma AsWrittenLooksNoFurther(g: Geometry, offset: nat, total: nat)
    requires g.sectorsPerCluster > 0
    ensures ClusterIndex(g, offset) <= AsWrittenLast(g, offset, total) <= LastCluster(g, offset, total)
  {
    hide ClusterIndex, ClusterOffset, ClusterBytes;
    if total > 0 {
      Splits(g, total - 1);
      IndexShift(g, offset, ClusterIndex(g, total - 1), ClusterOffset(g, total - 1));
    }
  }

  /** The read as written ends as the repaired one does and, if it succeeds, takes each byte
      from its place in the file. */
  ghost predicate AgreesAsWritten(disk: Sectors, g: Geometry, c: nat, offset: nat, total: nat)
    requires g.sectorsPerCluster > 0
  {
    && Walk(disk, g, c, LastCluster(g, offset, total)).Some? == Walk(disk, g, c, AsWrittenLast(g, offset, total)).Some?
    && (Walk(disk, g, c, LastCluster(g, offset, total)).Some? ==> PlacesAsWritten(disk, g, c, offset, total))
  }

  ghost predicate PlacesAsWritten(disk: Sectors, g: Geometry, c: nat, offset: nat, total: nat)
    requires g.sectorsPerCluster > 0
  {
    forall i: nat :: i < total ==> BytePlaced(disk, g, c, offset, i)
  }

  ghost predicate BytePlaced(disk: Sectors, g: Geometry, c: nat, offset: nat, i: nat)
    requires g.sectorsPerCluster > 0
  {
    && PieceReaches(disk, g, c, offset, i) && Reaches(disk, g, c, offset + i)
    && AsWrittenPosition(disk, g, c, offset, i) == FilePosition(disk, g, c, offset + i)
  }

  /** The read as written agrees with the repaired one exactly when both run off the chain, or
      the chain holds the whole request and the offset is cluster-aligned or each cluster the
      request runs on into lies right after the one before it on the disk. */
  lemma AsWrittenIff(disk: Sectors, g: Geometry, c: nat, offset: nat, total: nat)
    requires g.sectorsPerCluster > 0 && DataChain(disk, g, c, LastCluster(g, offset, total))
    ensures AgreesAsWritten(disk, g, c, offset, total) <==>
      (Walk(disk, g, c, AsWrittenLast(g, offset, total)).None?
      || (Walk(disk, g, c, LastCluster(g, offset, total)).Some? && OneStretch(disk, g, c, offset, total)))
  {
    hide Walk, ClusterIndex, LastCluster, AsWrittenLast, DataChain, OneStretch, PlacesAsWritten;
    AsWrittenLooksNoFurther(g, offset, total);
    if Walk(disk, g, c, LastCluster(g, offset, total)).Some? {
      WalkPrefix(disk, g, c, AsWrittenLast(g, offset, total), LastCluster(g, offset, total));
      PlacesIff(disk, g, c, offset, total);
    }
  }

  /** The request starts a cluster, or each cluster it runs on into lies right after the one
      before it on the disk. */
  ghost predicate OneStretch(disk: Sectors, g: Geometry, c: nat, offset: nat, total: nat)
    requires g.sectorsPerCluster > 0
  {
    ClusterOffset(g, offset) == 0
    || forall j: nat :: ClusterIndex(g, offset) <= j < LastCluster(g, offset, total) ==> Adjacent(disk, g, c, j)
  }

  lemma PlacesIff(disk: Sectors, g: Geometry, c: nat, offset: nat, total: nat)
    requires g.sectorsPerCluster > 0 && DataChain(disk, g, c, LastCluster(g, offset, total))
    requires Walk(disk, g, c, LastCluster(g, offset, total)).Some?
    ensures PlacesAsWritten(disk, g, c, offset, total) <==> OneStretch(disk, g, c, offset, total)
  {
    hide PlacesAsWritten, OneStretch, Walk, LastCluster;
    if PlacesAsWritten(disk, g, c, offset, total) { PlacesThenStretch(disk, g, c, offset, total); }
    if OneStretch(disk, g, c, offset, total) { StretchThenPlaces(disk, g, c, offset, total); }
  }

  lemma PlacesThenStretch(disk: Sectors, g: Geometry, c: nat, offset: nat, total: nat)
    requires g.sectorsPerCluster > 0 && DataChain(disk, g, c, LastCluster(g, offset, total))
    requires Walk(disk, g, c, LastCluster(g, offset, total)).Some? && PlacesAsWritten(disk, g, c, offset, total)
    ensures OneStretch(disk, g, c, offset, total)
  {
    hide ClusterIndex, ClusterOffset, Walk, ClusterPosition, ClusterBytes, Adjacent, PieceReaches, Reaches,
      AsWrittenPosition, FilePosition, LastCluster;
    if ClusterOffset(g, offset) != 0 {
      forall j: nat | ClusterIndex(g, offset) <= j < LastCluster(g, offset, total)
        ensures Adjacent(disk, g, c, j)
      {
        var i := Crossing(g, offset, total, j);
        AsWrittenAt(disk, g, c, offset, total, i);
        assert BytePlaced(disk, g, c, offset, i);
      }
    }
  }

  lemma StretchThenPlaces(disk: Sectors, g: Geometry, c: nat, offset: nat, total: nat)
    requires g.sectorsPerCluster > 0 && DataChain(disk, g, c, LastCluster(g, offset, total))
    requires Walk(disk, g, c, LastCluster(g, offset, total)).Some? && OneStretch(disk, g, c, offset, total)
    ensures PlacesAsWritten(disk, g, c, offset, total)
  {
    hide ClusterIndex, ClusterOffset, Walk, ClusterPosition, ClusterBytes, Adjacent, PieceReaches, Reaches,
      AsWrittenPosition, FilePosition, LastCluster, OneStretch;
    forall i: nat | i < total ensures BytePlaced(disk, g, c, offset, i) {
      AsWrittenAt(disk, g, c, offset, total, i);
      InStretch(disk, g, c, offset, total, i);
    }
  }

  /** In one stretch a byte is in its piece's first cluster, or the next one is adjacent. */
  lemma InStretch(disk: Sectors, g: Geometry, c: nat, offset: nat, total: nat, i: nat)
    requires g.sectorsPerCluster > 0 && OneStretch(disk, g, c, offset, total)
    requires ClusterOffset(g, offset) + ClusterOffset(g, i) >= ClusterBytes(g) ==>
      ClusterIndex(g, offset) + ClusterIndex(g, i) < LastCluster(g, offset, total)
    ensures ClusterOffset(g, offset) + ClusterOffset(g, i) < ClusterBytes(g)
      || Adjacent(disk, g, c, ClusterIndex(g, offset) + ClusterIndex(g, i))
  {
    hide ClusterIndex, ClusterOffset, ClusterBytes, Adjacent, LastCluster;
    OffsetBelow(g, i);
    var j: nat := ClusterIndex(g, offset) + ClusterIndex(g, i);
    if ClusterOffset(g, offset) + ClusterOffset(g, i) >= ClusterBytes(g) {
      assert ClusterIndex(g, offset) <= j < LastCluster(g, offset, total);
      assert Adjacent(disk, g, c, j);
    }
  }

  lemma OffsetBelow(g: Geometry, i: nat)
    requires g.sectorsPerCluster > 0
    ensures ClusterOffset(g, i) < ClusterBytes(g)
  {
  }

  /** The byte of an unaligned request that opens cluster j + 1. */
  lemma Crossing(g: Geometry, offset: nat, total: nat, j: nat) returns (i: nat)
    requires g.sectorsPerCluster > 0 && ClusterOffset(g, offset) != 0
    requires ClusterIndex(g, offset) <= j < LastCluster(g, offset, total)
    ensures i < total && ClusterIndex(g, offset) + ClusterIndex(g, i) == j
    ensures ClusterOffset(g, offset) + ClusterOffset(g, i) == ClusterBytes(g)
  {
    var s, q, r, last := ClusterBytes(g), ClusterIndex(g, offset), ClusterOffset(g, offset), LastCluster(g, offset,
      total);
    assert offset == s * q + r;
    assert total > 0 && offset + total - 1 == s * last + ClusterOffset(g, offset + total - 1);
    var k := j - q;
    assert s * j == s * q + s * k;
    assert s * last >= s * (j + 1) by { ProductAtLeast(s, last, j + 1); }
    assert s * (j + 1) == s * j + s;
    ProductAtLeast(s, k, 0);
    i := s * k + (s - r);
    DivisionIs(i, s, k, s - r);
  }

  class Volume {
    const disk: Sectors
    const g: Geometry
    const fatStream: DiskStream
    const clusterStream: DiskStream

    constructor (disk: Sectors, g: Geometry)
      requires g.sectorsPerCluster > 0
      ensures Valid() && this.disk == disk && this.g == g
    {
      this.disk := disk;
      this.g := g;
      fatStream := new DiskStream(disk);
      clusterStream := new DiskStream(disk);
    }

    ghost predicate Valid() {
      fatStream != clusterStream && fatStream.disk == disk && clusterStream.disk == disk && g.sectorsPerCluster > 0
    }

    /** fat16_get_fat_entry */
    method GetFatEntry(cluster: nat) returns (res: int)
      requires Valid()
      modifies fatStream
      ensures res == Entry(disk, g, cluster)
      ensures forall fat: seq<nat> :: HoldsFat(disk, g, fat) && cluster < |fat| ==> res == fat[cluster]
    {
      hide HoldsFat, DiskByte, EntryPosition;
      fatStream.Seek(EntryPosition(g, cluster));
      var result := new Byte[2](_ => 0);
      fatStream.Read(result, 0, 2);
      assert result[..][0..0 + 2] == DiskBytes(disk, EntryPosition(g, cluster), 2);
      assert result[0..2][0] == result[0] && result[0..2][1] == result[1];
      var low: int, high: int := result[0], result[1];
      res := low + 256 * high;
      forall fat: seq<nat> | HoldsFat(disk, g, fat) && cluster < |fat| ensures res == fat[cluster] {
        EntryOfFat(disk, g, fat, cluster);
      }
    }

    /** fat16_get_cluster_for_offset: the walk of offset / cluster size links. */
    method GetClusterForOffset(start: nat, offset: nat) returns (res: int)
      requires Valid()
      modifies fatStream
      ensures match Walk(disk, g, start, ClusterIndex(g, offset))
        case Some(c) => res == c
        case None => res == -EIO
    {
      var clusterToUse: nat := start;
      var ahead := ClusterIndex(g, offset);
      for i := 0 to ahead
        invariant Walk(disk, g, start, ahead) == Walk(disk, g, clusterToUse, ahead - i)
      {
        var entry := GetFatEntry(clusterToUse);
        if entry >= 0xFFF8 {
          return -EIO;
        }
        if entry == 0xFFF7 {
          return -EIO;
        }
        if 0xFFF0 <= entry <= 0xFFF6 {
          return -EIO;
        }
        if entry == 0 {
          return -EIO;
        }
        clusterToUse := entry;
      }
      res := clusterToUse;
    }

    /** fat16_read_internal_from_stream, with each piece ending at its cluster's end
        (fat16.c:468): the requested bytes of the concatenated clusters, or -EIO when the
        chain ends before the last of them. It re-walks the chain from the first cluster for
        every piece, and ends on a cyclic chain too, because total falls each time. */
    method ReadInternalFromStream(cluster: nat, offset: nat, total: nat, out: array<Byte>, at: nat) returns (res: int)
      requires Valid() && at + total <= out.Length && DataChain(disk, g, cluster, LastCluster(g, offset, total))
      modifies fatStream, clusterStream, out
      ensures Walk(disk, g, cluster, LastCluster(g, offset, total)).None? ==> res == -EIO
      ensures Walk(disk, g, cluster, LastCluster(g, offset, total)).Some? ==>
        (res == 0 && (forall i: nat :: offset <= i < offset + total ==> Reaches(disk, g, cluster, i))
        && Filled(old(out[..]), out[..], at, FileBytes(disk, g, cluster, offset, total)))
      ensures Outside(old(out[..]), out[..], at, total)
      decreases total
    {
      hide Walk, ClusterIndex, ClusterOffset, ClusterBytes, DiskByte, DiskBytes, ClusterPosition, DataChain, Filled,
        Outside, FileBytes;
      ghost var before := out[..];
      ghost var last := LastCluster(g, offset, total);
      if Walk(disk, g, cluster, last).Some? {
        forall i: nat | offset <= i && (i < offset + total || i == offset) ensures Reaches(disk, g, cluster, i) {
          ChainServes(disk, g, cluster, offset, total, i);
        }
      }
      StartServes(disk, g, cluster, offset, total);
      var clusterToUse := GetClusterForOffset(cluster, offset);
      if clusterToUse < 0 {
        NothingWritten(before, at, total);
        return clusterToUse;
      }
      LastPiece(g, offset, total);
      var offsetFromCluster := ClusterOffset(g, offset);
      var left := ClusterBytes(g) - offsetFromCluster;
      var totalToRead := if total > left then left else total;
      clusterStream.Seek(ClusterPosition(g, clusterToUse) + offsetFromCluster);
      clusterStream.Read(out, at, totalToRead);
      PieceBytes(disk, g, cluster, offset, totalToRead);
      ghost var middle, piece := out[..], FileBytes(disk, g, cluster, offset, totalToRead);
      FilledOutside(before, middle, at, piece);
      res := 0;
      var rest := total - totalToRead;
      if rest > 0 {
        res := ReadInternalFromStream(cluster, offset + totalToRead, rest, out, at + totalToRead);
        OutsideTwice(before, middle, out[..], at, totalToRead, rest);
        if res == 0 {
          FileBytesCompose(disk, g, cluster, offset, totalToRead, rest);
          FilledTwice(before, middle, out[..], at, piece, FileBytes(disk, g, cluster, offset + totalToRead, rest));
        }
      }
    }

    /** fat16_read_internal_from_stream as written: what it delivers, byte by byte, and when it
        fails. */
    method ReadInternalAsWritten(cluster: nat, offset: nat, total: nat, out: array<Byte>, at: nat) returns (res: int)
      requires Valid() && at + total <= out.Length && DataChain(disk, g, cluster, AsWrittenLast(g, offset, total))
      modifies fatStream, clusterStream, out
      ensures res == if Walk(disk, g, cluster, AsWrittenLast(g, offset, total)).Some? then 0 else -EIO
      ensures Outside(old(out[..]), out[..], at, total)
      ensures res == 0 ==> PiecesRead(disk, g, cluster, offset, total, out[..], at)
      decreases total
    {
      hide Walk, ClusterIndex, ClusterOffset, ClusterBytes, DiskByte, DiskBytes, ClusterPosition, Outside, Filled,
        DataChain, PiecesRead;
      ghost var before := out[..];
      AsWrittenLooksNoFurther(g, offset, total);
      if Walk(disk, g, cluster, AsWrittenLast(g, offset, total)).Some? {
        WalkPrefix(disk, g, cluster, ClusterIndex(g, offset), AsWrittenLast(g, offset, total));
      }
      var clusterToUse := GetClusterForOffset(cluster, offset);
      if clusterToUse < 0 {
        NothingWritten(before, at, total);
        return clusterToUse;
      }
      DataStart(disk, g, cluster, offset, total);
      var totalToRead := if total > ClusterBytes(g) then ClusterBytes(g) else total;
      clusterStream.Seek(ClusterPosition(g, clusterToUse) + ClusterOffset(g, offset));
      clusterStream.Read(out, at, totalToRead);
      ghost var middle := out[..];
      FilledOutside(before, middle, at, DiskBytes(disk, FilePosition(disk, g, cluster, offset), totalToRead));
      FirstPieceRead(disk, g, cluster, offset, totalToRead, before, middle, at);
      res := 0;
      var rest := total - totalToRead;
      if rest > 0 {
        SameLastAsWritten(g, offset, total);
        res := ReadInternalAsWritten(cluster, offset + totalToRead, rest, out, at + totalToRead);
        OutsideTwice(before, middle, out[..], at, totalToRead, rest);
        if res == 0 {
          OtherPiecesRead(disk, g, cluster, offset, total, middle, out[..], at);
        }
      } else {
        OneLookup(g, offset, total);
      }
    }

    /** fat16_read: nmemb items of size bytes from the descriptor's position, which stays
        where it was. Each item is one request, so all of them together are one stretch of
        the file. */
    method Read(firstCluster: nat, pos: nat, size: nat, nmemb: nat, out: array<Byte>) returns (res: int)
      requires Valid() && Items(size, nmemb) <= out.Length
      requires forall n: nat :: DataChain(disk, g, firstCluster, n)
      modifies fatStream, clusterStream, out
      ensures res == if nmemb == 0
        || Walk(disk, g, firstCluster, LastCluster(g, pos, Items(size, nmemb))).Some? then nmemb else -EIO
      ensures res == nmemb ==>
        ((forall i: nat :: pos <= i < pos + Items(size, nmemb) ==> Reaches(disk, g, firstCluster, i))
        && Filled(old(out[..]), out[..], 0, FileBytes(disk, g, firstCluster, pos, Items(size, nmemb))))
      ensures Outside(old(out[..]), out[..], 0, Items(size, nmemb))
    {
      hide Walk, ClusterIndex, ClusterOffset, ClusterBytes, DiskByte, ClusterPosition, Reaches, FilePosition,
        DataChain, Filled, Outside, FileBytes, LastCluster, Items;
      var offset := pos;
      var outPtr := 0;
      ghost var before := out[..];
      ghost var whole := Items(size, nmemb);
      NothingRead(disk, g, firstCluster, pos, before, whole);
      ItemsAre(size, nmemb);
      for i := 0 to nmemb
        invariant outPtr == Items(size, i) && offset == pos + outPtr
        invariant forall j: nat :: pos <= j < offset ==> Reaches(disk, g, firstCluster, j)
        invariant Filled(before, out[..], 0, FileBytes(disk, g, firstCluster, pos, outPtr))
        invariant outPtr <= whole == Items(size, nmemb)
        invariant i > 0 ==> Walk(disk, g, firstCluster, LastCluster(g, pos, Items(size, i))).Some?
      {
        ItemChain(disk, g, firstCluster, pos, size, i, nmemb);
        ghost var middle := out[..];
        var r := ReadInternalFromStream(firstCluster, offset, size, out, outPtr);
        if r < 0 {
          FilledOutside(before, middle, 0, FileBytes(disk, g, firstCluster, pos, outPtr));
          OutsideTwice(before, middle, out[..], 0, outPtr, size);
          OutsideMore(before, out[..], 0, outPtr + size, whole);
          return r;
        }
        FileBytesCompose(disk, g, firstCluster, pos, outPtr, size);
        FilledTwice(before, middle, out[..], 0, FileBytes(disk, g, firstCluster, pos, outPtr), FileBytes(disk, g,
          firstCluster, offset, size));
        outPtr := outPtr + size;
        offset := offset + size;
      }
      FilledOutside(before, out[..], 0, FileBytes(disk, g, firstCluster, pos, outPtr));
      res := nmemb;
    }
  }

  lemma FilledOutside(before: seq<Byte>, after: seq<Byte>, at: nat, data: seq<Byte>)
    requires Filled(before, after, at, data)
    ensures Outside(before, after, at, |data|)
  {
  }

  lemma OutsideMore(before: seq<Byte>, after: seq<Byte>, at: nat, m: nat, n: nat)
    requires Outside(before, after, at, m) && m <= n && at + n <= |before|
    ensures Outside(before, after, at, n)
  {
    assert after[at + n..] == after[at + m..][n - m..] && before[at + n..] == before[at + m..][n - m..];
  }

  lemma OutsideKeeps(before: seq<Byte>, after: seq<Byte>, at: nat, n: nat)
    requires Outside(before, after, at, n)
    ensures |after| == |before| && at <= |before| && forall i :: 0 <= i < at ==> after[i] == before[i]
  {
    forall i | 0 <= i < at ensures after[i] == before[i] { assert after[..at][i] == before[..at][i]; }
  }

  lemma FilledAt(before: seq<Byte>, after: seq<Byte>, at: nat, disk: Sectors, pos: nat, n: nat, i: nat)
    requires Filled(before, after, at, DiskBytes(disk, pos, n)) && i < n
    ensures after[at + i] == DiskByte(disk, pos + i)
  {
    hide DiskByte;
    assert DiskBytes(disk, pos, n)[i] == DiskByte(disk, pos + i);
    assert after[at..at + n][i] == after[at + i];
  }

  lemma NothingWritten(before: seq<Byte>, at: nat, n: nat)
    requires at + n <= |before|
    ensures Outside(before, before, at, n)
  {
  }

  lemma NothingRead(disk: Sectors, g: Geometry, c: nat, pos: nat, before: seq<Byte>, n: nat)
    requires g.sectorsPerCluster > 0 && n <= |before|
    ensures Filled(before, before, 0, FileBytes(disk, g, c, pos, 0))
  {
    assert FileBytes(disk, g, c, pos, 0) == [];
  }

  /** The bytes a read as written delivers for its first piece. */
  lemma FirstPiece(disk: Sectors, g: Geometry, c: nat, offset: nat, i: nat)
    requires g.sectorsPerCluster > 0 && Reaches(disk, g, c, offset) && i < ClusterBytes(g)
    ensures PieceReaches(disk, g, c, offset, i)
    ensures AsWrittenPosition(disk, g, c, offset, i) == FilePosition(disk, g, c, offset) + i
  {
    assert ClusterBytes(g) * 0 == 0;
    DivisionIs(i, ClusterBytes(g), 0, i);
  }

  /** The later pieces are the pieces of the request one cluster size further on. */
  lemma LaterPiece(disk: Sectors, g: Geometry, c: nat, offset: nat, i: nat)
    requires g.sectorsPerCluster > 0 && PieceReaches(disk, g, c, offset + ClusterBytes(g), i)
    ensures PieceReaches(disk, g, c, offset, ClusterBytes(g) + i)
    ensures AsWrittenPosition(disk, g, c, offset + ClusterBytes(g), i) == AsWrittenPosition(disk, g, c, offset,
      ClusterBytes(g) + i)
  {
    hide ClusterIndex, ClusterOffset, ClusterBytes, Walk, ClusterPosition;
    assert ClusterBytes(g) * 1 == ClusterBytes(g);
    assert ClusterBytes(g) > 0 by { ClusterHasBytes(g); }
    IndexShift(g, offset, 1, 0);
    IndexShift(g, i, 1, 0);
  }

  lemma ClusterHasBytes(g: Geometry)
    requires g.sectorsPerCluster > 0
    ensures ClusterBytes(g) >= SECTOR_SIZE
  {
  }

  /** Each byte of the request comes from where a read as written takes it. */
  ghost predicate PiecesRead(disk: Sectors, g: Geometry, c: nat, offset: nat, total: nat, data: seq<Byte>, at: nat)
    requires g.sectorsPerCluster > 0
  {
    at + total <= |data| && forall i: nat :: i < total ==>
      (PieceReaches(disk, g, c, offset, i) && data[at + i] == DiskByte(disk, AsWrittenPosition(disk, g, c, offset, i)))
  }

  lemma DataStart(disk: Sectors, g: Geometry, c: nat, offset: nat, total: nat)
    requires g.sectorsPerCluster > 0 && DataChain(disk, g, c, AsWrittenLast(g, offset, total))
    requires Walk(disk, g, c, ClusterIndex(g, offset)).Some?
    ensures Reaches(disk, g, c, offset)
  {
    hide Walk, ClusterIndex;
  }

  lemma FirstPieceRead(disk: Sectors, g: Geometry, c: nat, offset: nat, n: nat, before: seq<Byte>, after: seq<Byte>,
      at: nat)
    requires g.sectorsPerCluster > 0 && n <= ClusterBytes(g) && Reaches(disk, g, c, offset)
    requires Filled(before, after, at, DiskBytes(disk, FilePosition(disk, g, c, offset), n))
    ensures PiecesRead(disk, g, c, offset, n, after, at)
  {
    hide ClusterBytes, DiskByte, DiskBytes, FilePosition, AsWrittenPosition, PieceReaches, Reaches;
    FilledOutside(before, after, at, DiskBytes(disk, FilePosition(disk, g, c, offset), n));
    forall i: nat | i < n
      ensures PieceReaches(disk, g, c, offset, i)
      ensures after[at + i] == DiskByte(disk, AsWrittenPosition(disk, g, c, offset, i))
    {
      FirstPiece(disk, g, c, offset, i);
      FilledAt(before, after, at, disk, FilePosition(disk, g, c, offset), n, i);
    }
  }

  lemma OtherPiecesRead(disk: Sectors, g: Geometry, c: nat, offset: nat, total: nat, middle: seq<Byte>,
      data: seq<Byte>, at: nat)
    requires g.sectorsPerCluster > 0 && total > ClusterBytes(g)
    requires PiecesRead(disk, g, c, offset, ClusterBytes(g), middle, at)
    requires Outside(middle, data, at + ClusterBytes(g), total - ClusterBytes(g))
    requires PiecesRead(disk, g, c, offset + ClusterBytes(g), total - ClusterBytes(g), data, at + ClusterBytes(g))
    ensures PiecesRead(disk, g, c, offset, total, data, at)
  {
    hide ClusterBytes, DiskByte, AsWrittenPosition, PieceReaches, Outside;
    var n := ClusterBytes(g);
    OutsideKeeps(middle, data, at + n, total - n);
    forall i: nat | i < total
      ensures PieceReaches(disk, g, c, offset, i)
      ensures data[at + i] == DiskByte(disk, AsWrittenPosition(disk, g, c, offset, i))
    {
      if i < n {
        assert data[at + i] == middle[at + i];
      } else {
        LaterPiece(disk, g, c, offset, i - n);
      }
    }
  }

  lemma SameLastAsWritten(g: Geometry, offset: nat, total: nat)
    requires g.sectorsPerCluster > 0 && total > ClusterBytes(g)
    ensures AsWrittenLast(g, offset + ClusterBytes(g), total - ClusterBytes(g)) == AsWrittenLast(g, offset, total)
  {
    hide ClusterIndex, ClusterOffset, ClusterBytes;
    ClusterHasBytes(g);
    assert ClusterBytes(g) * 1 == ClusterBytes(g);
    IndexShift(g, offset, 1, 0);
    IndexShift(g, total - ClusterBytes(g) - 1, 1, 0);
  }

  lemma OneLookup(g: Geometry, offset: nat, total: nat)
    requires g.sectorsPerCluster > 0 && total <= ClusterBytes(g)
    ensures AsWrittenLast(g, offset, total) == ClusterIndex(g, offset)
  {
    if total > 0 {
      assert ClusterBytes(g) * 0 == 0;
      DivisionIs(total - 1, ClusterBytes(g), 0, total - 1);
    }
  }

  /** The bytes of n items. */
  function Items(size: nat, n: nat): nat {
    size * n
  }

  lemma ItemsAre(size: nat, n: nat)
    ensures Items(size, n) == size * n && Items(size, 0) == 0
  {
  }

  lemma ItemsFit(size: nat, i: nat, n: nat)
    requires i < n
    ensures size * i + size == size * (i + 1) <= size * n
  {
    ProductAtLeast(size, n, i + 1);
  }

  /** The chain reaches the end of a whole request only if it reaches the end of each item. */
  lemma ItemChain(disk: Sectors, g: Geometry, c: nat, pos: nat, size: nat, i: nat, n: nat)
    requires g.sectorsPerCluster > 0 && i < n
    ensures Items(size, i) + size == Items(size, i + 1) <= Items(size, n)
    ensures LastCluster(g, pos + Items(size, i), size) == LastCluster(g, pos, Items(size, i + 1))
    ensures Walk(disk, g, c, LastCluster(g, pos, Items(size, n))).Some? ==>
      Walk(disk, g, c, LastCluster(g, pos, Items(size, i + 1))).Some?
  {
    hide Walk, ClusterIndex;
    ItemsFit(size, i, n);
    if size > 0 {
      ProductAtLeast(size, i + 1, 1);
      IndexGrows(g, pos + size * (i + 1) - 1, pos + size * n - 1);
    }
    if Walk(disk, g, c, LastCluster(g, pos, size * n)).Some? {
      WalkPrefix(disk, g, c, LastCluster(g, pos, size * (i + 1)), LastCluster(g, pos, size * n));
    }
  }
}
