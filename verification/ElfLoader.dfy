/** src/loader/format/elfloader.c: the extents elf_load works out over the program headers. */
module ElfLoader {
  import opened Machine
  import opened Elf
  import opened System

  const PT_LOAD := 1

  /** The four address fields of struct elf_file. */
  datatype Extents = Extents(virtualBase: Word, virtualEnd: Word, physicalBase: Word, physicalEnd: Word)

  function SegmentEnd(ph: Phdr): Word {
    Wrap(ph.vaddr + ph.filesz)
  }

  function PhysicalEnd(memory: Word, ph: Phdr): Word {
    Wrap(memory + ph.offset + ph.filesz)
  }

  /** elf_process_pheader on the extents so far; an address 0 stands for "none yet". */
  function WithHeader(memory: Word, e: Extents, ph: Phdr): Extents {
    if ph.ptype != PT_LOAD then e
    else
      var e1 := if e.virtualBase >= ph.vaddr || e.virtualBase == 0
        then e.(virtualBase := ph.vaddr, physicalBase := PhysAddress(memory, ph)) else e;
      if e1.virtualEnd <= SegmentEnd(ph) || e1.virtualEnd == 0
        then e1.(virtualEnd := SegmentEnd(ph), physicalEnd := PhysicalEnd(memory, ph)) else e1
  }

  /** The extents after all the headers, from a zeroed record. */
  function ExtentsOf(memory: Word, phdrs: seq<Phdr>): Extents {
    if phdrs == [] then Extents(0, 0, 0, 0)
    else WithHeader(memory, ExtentsOf(memory, phdrs[..|phdrs| - 1]), phdrs[|phdrs| - 1])
  }

  predicate Loads(phdrs: seq<Phdr>, i: int) {
    0 <= i < |phdrs| && phdrs[i].ptype == PT_LOAD
  }

  /** Segment i is the last one placed at address v. */
  ghost predicate LastAt(phdrs: seq<Phdr>, i: int, v: Word) {
    Loads(phdrs, i) && phdrs[i].vaddr == v && forall j :: i < j && Loads(phdrs, j) ==> phdrs[j].vaddr != v
  }

  ghost predicate LastEndingAt(phdrs: seq<Phdr>, i: int, v: Word) {
    && Loads(phdrs, i) && Wrap(phdrs[i].vaddr + phdrs[i].filesz) == v
    && forall j :: i < j && Loads(phdrs, j) ==> Wrap(phdrs[j].vaddr + phdrs[j].filesz) != v
  }

  ghost predicate LastLoad(phdrs: seq<Phdr>, i: int) {
    Loads(phdrs, i) && forall j :: i < j ==> !Loads(phdrs, j)
  }

  /** The headers before the last. */
  lemma PrefixLoads(phdrs: seq<Phdr>)
    requires phdrs != []
    ensures var before := phdrs[..|phdrs| - 1];
      forall j: int :: Loads(phdrs, j) <==> (if j == |phdrs| - 1 then phdrs[j].ptype == PT_LOAD else Loads(before, j))
  {
  }

  /** Without a PT_LOAD header all four addresses stay 0. */
  lemma {:induction false} NoSegments(memory: Word, phdrs: seq<Phdr>)
    requires forall i :: !Loads(phdrs, i)
    ensures ExtentsOf(memory, phdrs) == Extents(0, 0, 0, 0)
  {
    if phdrs != [] {
      var before := phdrs[..|phdrs| - 1];
      PrefixLoads(phdrs);
      forall i ensures !Loads(before, i) { assert !Loads(phdrs, i); }
      NoSegments(memory, before);
    }
  }

  /** The virtual end is the greatest segment end, whatever the headers: the value 0 that
      stands for "none yet" never matters there. */
  lemma {:induction false} EndIsMaximum(memory: Word, phdrs: seq<Phdr>)
    ensures forall j :: Loads(phdrs, j) ==>
      Wrap(phdrs[j].vaddr + phdrs[j].filesz) <= ExtentsOf(memory, phdrs).virtualEnd
    decreases |phdrs|
  {
    hide PhysicalEnd, PhysAddress, Wrap;
    if phdrs != [] {
      PrefixLoads(phdrs);
      EndIsMaximum(memory, phdrs[..|phdrs| - 1]);
    }
  }

  /** The virtual end is attained, and the physical end is that of the last segment ending
      there. */
  lemma {:induction false} EndIsASegment(memory: Word, phdrs: seq<Phdr>, some: int)
    requires Loads(phdrs, some)
    ensures exists i ::
      (LastEndingAt(phdrs, i, ExtentsOf(memory, phdrs).virtualEnd)
      && ExtentsOf(memory, phdrs).physicalEnd == Wrap(memory + phdrs[i].offset + phdrs[i].filesz))
    decreases |phdrs|
  {
    hide PhysAddress, Wrap;
    var last := |phdrs| - 1;
    var before := phdrs[..last];
    var e, r := ExtentsOf(memory, before), ExtentsOf(memory, phdrs);
    PrefixLoads(phdrs);
    if exists k :: Loads(before, k) {
      var k :| Loads(before, k);
      EndIsASegment(memory, before, k);
      var i :| LastEndingAt(before, i, e.virtualEnd)
        && e.physicalEnd == Wrap(memory + before[i].offset + before[i].filesz);
      var w := if Loads(phdrs, last) && e.virtualEnd <= SegmentEnd(phdrs[last]) then last else i;
      assert LastEndingAt(phdrs, w, r.virtualEnd);
    } else {
      NoSegments(memory, before);
      assert LastEndingAt(phdrs, last, r.virtualEnd);
    }
  }

  /** The virtual base is some segment's address and the physical base belongs to the last
      segment there. */
  lemma {:induction false} BaseIsASegment(memory: Word, phdrs: seq<Phdr>, some: int)
    requires Loads(phdrs, some)
    ensures exists i ::
      (LastAt(phdrs, i, ExtentsOf(memory, phdrs).virtualBase)
      && ExtentsOf(memory, phdrs).physicalBase == Wrap(memory + phdrs[i].offset))
    decreases |phdrs|
  {
    hide SegmentEnd, PhysicalEnd, Wrap;
    var last := |phdrs| - 1;
    var before := phdrs[..last];
    var e, r := ExtentsOf(memory, before), ExtentsOf(memory, phdrs);
    PrefixLoads(phdrs);
    if exists k :: Loads(before, k) {
      var k :| Loads(before, k);
      BaseIsASegment(memory, before, k);
      var i :| LastAt(before, i, e.virtualBase) && e.physicalBase == Wrap(memory + before[i].offset);
      var w := if Loads(phdrs, last) && (e.virtualBase >= phdrs[last].vaddr || e.virtualBase == 0) then last else i;
      assert LastAt(phdrs, w, r.virtualBase);
    } else {
      NoSegments(memory, before);
      assert LastAt(phdrs, last, r.virtualBase);
    }
  }

  /** The base is 0 exactly when the last segment's address is. */
  lemma {:induction false} ZeroBase(memory: Word, phdrs: seq<Phdr>, i: int)
    requires LastLoad(phdrs, i)
    ensures phdrs[i].vaddr == 0 <==> ExtentsOf(memory, phdrs).virtualBase == 0
    decreases |phdrs|
  {
    hide SegmentEnd, PhysicalEnd, PhysAddress;
    if i < |phdrs| - 1 {
      PrefixLoads(phdrs);
      ZeroBase(memory, phdrs[..|phdrs| - 1], i);
    }
  }

  lemma {:induction false} MinimumUnlessZero(memory: Word, phdrs: seq<Phdr>)
    requires forall j :: Loads(phdrs, j) ==> phdrs[j].vaddr != 0
    ensures forall j :: Loads(phdrs, j) ==> ExtentsOf(memory, phdrs).virtualBase <= phdrs[j].vaddr
    decreases |phdrs|
  {
    hide SegmentEnd, PhysicalEnd, PhysAddress;
    if phdrs != [] {
      var before := phdrs[..|phdrs| - 1];
      PrefixLoads(phdrs);
      MinimumUnlessZero(memory, before);
      if forall j :: !Loads(before, j) {
        NoSegments(memory, before);
      } else {
        var k :| Loads(before, k);
        BaseIsASegment(memory, before, k);
      }
    }
  }

  /** The virtual base is the smallest segment address exactly when no segment lies at
      address 0, the value the loop takes for "none yet", or the last one does. */
  lemma BaseIsMinimumIff(memory: Word, phdrs: seq<Phdr>, last: int)
    requires LastLoad(phdrs, last)
    ensures (forall j :: Loads(phdrs, j) ==> ExtentsOf(memory, phdrs).virtualBase <= phdrs[j].vaddr)
      <==> ((forall j :: Loads(phdrs, j) ==> phdrs[j].vaddr != 0) || phdrs[last].vaddr == 0)
  {
    hide ExtentsOf;
    ZeroBase(memory, phdrs, last);
    if forall j :: Loads(phdrs, j) ==> phdrs[j].vaddr != 0 {
      MinimumUnlessZero(memory, phdrs);
    }
  }

  /** struct elf_file: where the record and the file's bytes lie, its headers, and the
      extents found for it. */
  class ElfFile {
    const address: Word
    const elfMemory: Word
    const image: Image
    var virtualBaseAddress: Word
    var virtualEndAddress: Word
    var physicalBaseAddress: Word
    var physicalEndAddress: Word

    constructor (address: Word, elfMemory: Word, image: Image)
      ensures this.address == address && this.elfMemory == elfMemory && this.image == image
      ensures Found() == Extents(0, 0, 0, 0)
    {
      this.address := address;
      this.elfMemory := elfMemory;
      this.image := image;
      virtualBaseAddress, virtualEndAddress, physicalBaseAddress, physicalEndAddress := 0, 0, 0, 0;
    }

    function Found(): Extents
      reads this
    {
      Extents(virtualBaseAddress, virtualEndAddress, physicalBaseAddress, physicalEndAddress)
    }

    /** elf_process_phdr_pt_load */
    method ProcessPhdrPtLoad(ph: Phdr)
      requires ph.ptype == PT_LOAD
      modifies this
      ensures Found() == WithHeader(elfMemory, old(Found()), ph)
    {
      if virtualBaseAddress >= ph.vaddr || virtualBaseAddress == 0 {
        virtualBaseAddress := ph.vaddr;
        physicalBaseAddress := PhysAddress(elfMemory, ph);
      }
      var endVirtualAddress := SegmentEnd(ph);
      if virtualEndAddress <= endVirtualAddress || virtualEndAddress == 0 {
        virtualEndAddress := endVirtualAddress;
        physicalEndAddress := PhysicalEnd(elfMemory, ph);
      }
    }

    /** elf_process_pheaders: from a zeroed record, the extents of all the headers. */
    method ProcessPheaders()
      requires Found() == Extents(0, 0, 0, 0)
      modifies this
      ensures Found() == ExtentsOf(elfMemory, image.phdrs)
    {
      for i := 0 to |image.phdrs|
        invariant Found() == ExtentsOf(elfMemory, image.phdrs[..i])
      {
        assert image.phdrs[..i + 1][..i] == image.phdrs[..i];
        if image.phdrs[i].ptype == PT_LOAD {
          ProcessPhdrPtLoad(image.phdrs[i]);
        }
      }
      assert image.phdrs[..|image.phdrs|] == image.phdrs;
    }
  }
}
