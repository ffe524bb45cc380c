/** What a read of a FAT16 file delivers, from the FAT and the data area as they lie on the
    disk: a list of words, a run of bytes, and the chain of clusters from the first one on. */
module FatContents {
  import Machine
  import opened Disk
  import opened Fat16

  /** The data area on the disk starts with these bytes. */
  ghost predicate HoldsData(disk: Sectors, g: Geometry, data: seq<Byte>) {
    DiskBytes(disk, 512 * g.endingSector, |data|) == data
  }

  /** A word of the FAT that ends a walk: free, reserved, bad or end of chain. */
  predicate EndsChain(word: nat) {
    word == 0 || word >= 0xFFF0
  }

  /** k clusters of size bytes. */
  function Times(size: nat, k: nat): nat {
    size * k
  }

  lemma TimesNext(size: nat, k: nat)
    ensures Times(size, 0) == 0 && Times(size, 1) == size && Times(size, k + 1) == Times(size, k) + size
  {
  }

  lemma TimesGrows(size: nat, j: nat, k: nat)
    requires j < k
    ensures Times(size, j) + size <= Times(size, k)
  {
    ProductAtLeast(size, k, j + 1);
    TimesNext(size, j);
  }

  /** In the FAT each cluster of the chain names the next one, the last names none, and all
      are data clusters of size bytes each inside the data area, numbered from 2 on. */
  ghost predicate IsChain(fat: seq<nat>, size: nat, length: nat, chain: seq<nat>)
    decreases |chain|
  {
    && chain != [] && 2 <= chain[0] < |fat| && Times(size, chain[0] - 2) + size <= length
    && if |chain| == 1 then EndsChain(fat[chain[0]])
       else !EndsChain(fat[chain[0]]) && fat[chain[0]] == chain[1] && IsChain(fat, size, length, chain[1..])
  }

  /** The file: the clusters of the chain one behind the other, cluster 2 being the first of
      the data area. */
  ghost function FileOf(data: seq<Byte>, fat: seq<nat>, size: nat, chain: seq<nat>): (r: seq<Byte>)
    requires IsChain(fat, size, |data|, chain)
    ensures |r| == Times(size, |chain|)
    decreases |chain|
  {
    var start := Times(size, chain[0] - 2);
    TimesNext(size, |chain| - 1);
    if |chain| == 1 then data[start..start + size]
    else data[start..start + size] + FileOf(data, fat, size, chain[1..])
  }

  lemma {:induction false} ChainAt(fat: seq<nat>, size: nat, length: nat, chain: seq<nat>, j: nat)
    requires IsChain(fat, size, length, chain) && j < |chain|
    ensures 2 <= chain[j] < |fat| && Times(size, chain[j] - 2) + size <= length
    decreases j
  {
    hide Times;
    if j > 0 { ChainAt(fat, size, length, chain[1..], j - 1); }
  }

  /** Walking the chain on the disk meets its clusters in order, and ends behind the last. */
  lemma {:induction false} WalkIs(disk: Sectors, g: Geometry, fat: seq<nat>, size: nat, length: nat, chain: seq<nat>,
      n: nat)
    requires HoldsFat(disk, g, fat) && IsChain(fat, size, length, chain)
    ensures Walk(disk, g, chain[0], n) == if n < |chain| then Machine.Some(chain[n]) else Machine.None
    decreases n
  {
    hide HoldsFat, Entry, Times;
    if n > 0 {
      EntryOfFat(disk, g, fat, chain[0]);
      if |chain| > 1 { WalkIs(disk, g, fat, size, length, chain[1..], n - 1); }
    }
  }

  /** Byte t of a cluster. */
  lemma ClusterByte(disk: Sectors, g: Geometry, data: seq<Byte>, cluster: nat, t: nat)
    requires HoldsData(disk, g, data) && cluster >= 2
    requires Times(512 * g.sectorsPerCluster, cluster - 2) + t < |data|
    ensures OnDisk(g, cluster)
    ensures ClusterPosition(g, cluster) == 512 * g.endingSector + (cluster - 2) * (512 * g.sectorsPerCluster)
    ensures DiskByte(disk, ClusterPosition(g, cluster) + t) == data[Times(512 * g.sectorsPerCluster, cluster - 2) + t]
  {
    hide DiskByte, HoldsData, Times, OnDisk, ClusterPosition;
    PositionIs(g, cluster);
    DataByte(disk, g, data, Times(512 * g.sectorsPerCluster, cluster - 2) + t);
  }

  lemma PositionIs(g: Geometry, cluster: nat)
    requires cluster >= 2
    ensures OnDisk(g, cluster)
    ensures ClusterPosition(g, cluster) == 512 * g.endingSector + (cluster - 2) * (512 * g.sectorsPerCluster)
    ensures ClusterPosition(g, cluster) == 512 * g.endingSector + Times(512 * g.sectorsPerCluster, cluster - 2)
  {
    var k: nat, n := cluster - 2, g.sectorsPerCluster;
    ProductAtLeast(n, k, 0);
    assert k * (512 * n) == 512 * (k * n) == Times(512 * n, k);
  }

  lemma DataByte(disk: Sectors, g: Geometry, data: seq<Byte>, i: nat)
    requires HoldsData(disk, g, data) && i < |data|
    ensures DiskByte(disk, 512 * g.endingSector + i) == data[i]
  {
    hide DiskByte;
    assert DiskBytes(disk, 512 * g.endingSector, |data|)[i] == DiskByte(disk, 512 * g.endingSector + i);
  }

  /** Byte t of the file's k-th cluster. */
  lemma {:induction false} FileAt(data: seq<Byte>, fat: seq<nat>, size: nat, chain: seq<nat>, k: nat, t: nat)
    requires IsChain(fat, size, |data|, chain) && k < |chain| && t < size
    ensures 2 <= chain[k] && Times(size, chain[k] - 2) + t < |data| && Times(size, k) + t < Times(size, |chain|)
    ensures FileOf(data, fat, size, chain)[Times(size, k) + t] == data[Times(size, chain[k] - 2) + t]
    decreases k
  {
    hide Times;
    TimesGrows(size, k, |chain|);
    if k == 0 {
      TimesNext(size, 0);
    } else {
      TimesNext(size, k - 1);
      FileAt(data, fat, size, chain[1..], k - 1, t);
    }
  }

  lemma IndexBelow(i: nat, size: nat, n: nat)
    requires size > 0
    ensures i / size < n <==> i < Times(size, n)
    ensures i == Times(size, i / size) + i % size
  {
    hide Times;
    var q, r := i / size, i % size;
    assert i == Times(size, q) + r by { SplitIs(i, size); }
    if q < n {
      TimesGrows(size, q, n);
    } else if n < q {
      TimesGrows(size, n, q);
    }
  }

  lemma SplitIs(i: nat, size: nat)
    requires size > 0
    ensures i == Times(size, i / size) + i % size
  {
  }

  /** A volume that holds this FAT and this data area, and a chain in it from cluster c on. */
  ghost predicate FileOn(disk: Sectors, g: Geometry, fat: seq<nat>, data: seq<Byte>, c: nat, chain: seq<nat>) {
    && g.sectorsPerCluster > 0 && HoldsFat(disk, g, fat) && HoldsData(disk, g, data)
    && IsChain(fat, 512 * g.sectorsPerCluster, |data|, chain) && chain[0] == c
  }

  /** The bytes of the file on the volume. */
  ghost function Content(disk: Sectors, g: Geometry, fat: seq<nat>, data: seq<Byte>, c: nat,
      chain: seq<nat>): (r: seq<Byte>)
    requires FileOn(disk, g, fat, data, c, chain)
    ensures |r| == Times(512 * g.sectorsPerCluster, |chain|)
  {
    FileOf(data, fat, 512 * g.sectorsPerCluster, chain)
  }

  /** Byte i of the concatenated clusters as the reader finds them is byte i of the file. */
  lemma ReadsByte(disk: Sectors, g: Geometry, fat: seq<nat>, data: seq<Byte>, c: nat, chain: seq<nat>, i: nat)
    requires FileOn(disk, g, fat, data, c, chain) && i < Times(512 * g.sectorsPerCluster, |chain|)
    ensures Reaches(disk, g, c, i)
    ensures DiskByte(disk, FilePosition(disk, g, c, i)) == Content(disk, g, fat, data, c, chain)[i]
  {
    hide Walk, HoldsFat, HoldsData, IsChain, OnDisk, ClusterPosition, DiskByte, FileOf, Times;
    var size := 512 * g.sectorsPerCluster;
    assert ClusterBytes(g) == size;
    IndexBelow(i, size, |chain|);
    ChainAt(fat, size, |data|, chain, i / size);
    WalkIs(disk, g, fat, size, |data|, chain, i / size);
    FileAt(data, fat, size, chain, i / size, i % size);
    ClusterByte(disk, g, data, chain[i / size], i % size);
  }

  /** The clusters a read may look up lie on the disk, however far it goes. */
  lemma ChainIsData(disk: Sectors, g: Geometry, fat: seq<nat>, data: seq<Byte>, c: nat, chain: seq<nat>, n: nat)
    requires FileOn(disk, g, fat, data, c, chain)
    ensures DataChain(disk, g, c, n)
  {
    hide Walk, HoldsFat, HoldsData, IsChain, OnDisk, Times;
    forall j: nat | j <= n && Walk(disk, g, c, j).Some? ensures OnDisk(g, Walk(disk, g, c, j).value) {
      WalkIs(disk, g, fat, 512 * g.sectorsPerCluster, |data|, chain, j);
      ChainAt(fat, 512 * g.sectorsPerCluster, |data|, chain, j);
      PositionIs(g, chain[j]);
    }
  }

  /** From the FAT and the data area alone: a request inside the file delivers the file's
      bytes, and one that goes beyond its last cluster finds the chain ended. */
  lemma ReadsTheFile(disk: Sectors, g: Geometry, fat: seq<nat>, data: seq<Byte>, c: nat, chain: seq<nat>, offset: nat,
      total: nat)
    requires FileOn(disk, g, fat, data, c, chain) && total > 0
    ensures DataChain(disk, g, c, LastCluster(g, offset, total))
    ensures var file := Content(disk, g, fat, data, c, chain);
      && (Walk(disk, g, c, LastCluster(g, offset, total)).Some? <==> offset + total <= |file|)
      && (offset + total <= |file| ==>
        (forall i: nat :: offset <= i < offset + total ==> Reaches(disk, g, c, i))
        && FileBytes(disk, g, c, offset, total) == file[offset..offset + total])
  {
    hide Walk, HoldsFat, HoldsData, IsChain, Content, DataChain, Reaches, FilePosition, DiskByte, Times;
    var size, file := 512 * g.sectorsPerCluster, Content(disk, g, fat, data, c, chain);
    ChainIsData(disk, g, fat, data, c, chain, LastCluster(g, offset, total));
    assert ClusterBytes(g) == size;
    IndexBelow(offset + total - 1, size, |chain|);
    WalkIs(disk, g, fat, size, |data|, chain, LastCluster(g, offset, total));
    if offset + total <= |file| {
      forall i: nat | offset <= i < offset + total
        ensures Reaches(disk, g, c, i) && DiskByte(disk, FilePosition(disk, g, c, i)) == file[i]
      {
        ReadsByte(disk, g, fat, data, c, chain, i);
      }
    }
  }

  /** fat16_read on such a volume, item by item: the file's next bytes, or -EIO when they
      reach beyond its last cluster. */
  method ReadItems(volume: Volume, c: nat, pos: nat, size: nat, nmemb: nat, out: array<Byte>, ghost fat: seq<nat>,
      ghost data: seq<Byte>, ghost chain: seq<nat>)
    returns (res: int)
    requires volume.Valid() && size * nmemb <= out.Length && size * nmemb > 0
    requires FileOn(volume.disk, volume.g, fat, data, c, chain)
    modifies volume.fatStream, volume.clusterStream, out
    ensures var file := Content(volume.disk, volume.g, fat, data, c, chain);
      if pos + size * nmemb <= |file| then res == nmemb && out[..size * nmemb] == file[pos..pos + size * nmemb]
      else res == -Machine.EIO
  {
    hide Walk, FileOn, Content, DataChain, Reaches, FilePosition, DiskByte, LastCluster;
    forall n: nat ensures DataChain(volume.disk, volume.g, c, n) {
      ChainIsData(volume.disk, volume.g, fat, data, c, chain, n);
    }
    ReadsTheFile(volume.disk, volume.g, fat, data, c, chain, pos, size * nmemb);
    res := volume.Read(c, pos, size, nmemb, out);
  }
}
