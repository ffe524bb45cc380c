/** Mapping an ELF image: src/task/process.c:405-462 and src/loader/format/elfloader.c
    on the flat page map. The file's bytes have been read to a heap run. */
module Elf {
  import opened Machine
  import opened PageTables

  const PF_W := 2

  /** The program header fields the loader uses; offset is the 32-bit pattern. */
  datatype Phdr = Phdr(ptype: Word, offset: Word, vaddr: Word, filesz: Word, memsz: Word, flags: Word)

  /** p_flags & PF_W */
  predicate WantsWrite(ph: Phdr) {
    ph.flags / PF_W % 2 == 1
  }

  function SegmentFlags(ph: Phdr): Word {
    if WantsWrite(ph) then IS_PRESENT + ACCESS_FROM_ALL + IS_WRITEABLE else IS_PRESENT + ACCESS_FROM_ALL
  }

  /** elf_phdr_phys_address, for an image at address memory. */
  function PhysAddress(memory: Word, ph: Phdr): Word {
    Wrap(memory + ph.offset)
  }

  /** process_map_elf: every program header, whatever its type, stopping at an error. */
  ghost function MapElf(pages: seq<Word>, memory: Word, phdrs: seq<Phdr>): (r: (seq<Word>, int))
    requires |pages| == PAGES
    ensures |r.0| == PAGES && (r.1 == 0 || r.1 == -EINVARG)
    decreases |phdrs|
  {
    if phdrs == [] then (pages, 0)
    else
      var (next, res) := MapSegment(pages, memory, phdrs[0]);
      if res < 0 then (next, res) else MapElf(next, memory, phdrs[1..])
  }

  ghost function MapSegment(pages: seq<Word>, memory: Word, ph: Phdr): (r: (seq<Word>, int))
    requires |pages| == PAGES
    ensures |r.0| == PAGES && (r.1 == 0 || r.1 == -EINVARG)
  {
    var phys := PhysAddress(memory, ph);
    MapTo(pages, AlignToLowerPage(ph.vaddr), AlignToLowerPage(phys), AlignAddress(Wrap(phys + ph.memsz)),
      SegmentFlags(ph))
  }

  /** process_map_memory: the segments, then the 16 KB stack below 0x3FF000. */
  ghost function MapMemory(pages: seq<Word>, memory: Word, phdrs: seq<Phdr>, stack: Word): (r: (seq<Word>, int))
    requires |pages| == PAGES
    ensures |r.0| == PAGES && (r.1 == 0 || r.1 == -EINVARG)
  {
    var (mapped, res) := MapElf(pages, memory, phdrs);
    if res < 0 then (mapped, res)
    else (MapTo(mapped, STACK_END, stack, AlignAddress(Wrap(stack + USER_STACK_SIZE)), USER_RW).0, res)
  }

  // --- Page footprints --------------------------------------------------------

  /** The frame of the segment's first byte. */
  ghost function FirstFrame(memory: Word, ph: Phdr): nat {
    PhysAddress(memory, ph) / PAGE_SIZE
  }

  /** Pages from the frame of the segment's first byte to that of its last, in 32 bits. */
  ghost function PageCount(memory: Word, ph: Phdr): (n: nat)
    ensures n < PAGES
  {
    (PhysAddress(memory, ph) % PAGE_SIZE + ph.memsz + PAGE_SIZE - 1) / PAGE_SIZE % PAGES
  }

  /** paging_map_to takes the segment: its physical end is not in front of its start. */
  ghost predicate Accepted(memory: Word, ph: Phdr) {
    FirstFrame(memory, ph) + PageCount(memory, ph) < PAGES
  }

  ghost predicate AllAccepted(memory: Word, phdrs: seq<Phdr>) {
    forall ph :: ph in phdrs ==> Accepted(memory, ph)
  }

  /** The loader maps page v for the segment, which may run past the last page. */
  ghost predicate InSegment(memory: Word, ph: Phdr, v: int) {
    0 <= v < PAGES && Ahead(ph.vaddr / PAGE_SIZE, v) < PageCount(memory, ph)
  }

  /** The frame behind page v of the segment. */
  ghost function SegmentFrame(memory: Word, ph: Phdr, v: int): nat {
    FirstFrame(memory, ph) + Ahead(ph.vaddr / PAGE_SIZE, v)
  }

  /** The table word the loader writes for page v of the segment. */
  ghost function SegmentWord(memory: Word, ph: Phdr, v: int): nat {
    SegmentFrame(memory, ph, v) * PAGE_SIZE + SegmentFlags(ph)
  }

  /** Where the range of a segment starts and ends, whatever its header says. */
  lemma SegmentRange(memory: Word, ph: Phdr)
    ensures var lo := AlignToLowerPage(PhysAddress(memory, ph));
      var hi := AlignAddress(Wrap(PhysAddress(memory, ph) + ph.memsz));
      && AlignToLowerPage(ph.vaddr) % PAGE_SIZE == 0 && AlignToLowerPage(ph.vaddr) / PAGE_SIZE == ph.vaddr / PAGE_SIZE
      && lo % PAGE_SIZE == 0 && lo / PAGE_SIZE == FirstFrame(memory, ph) && hi % PAGE_SIZE == 0
      && (lo <= hi <==> Accepted(memory, ph))
      && (lo <= hi ==> (hi - lo) / PAGE_SIZE == PageCount(memory, ph))
  {
    hide PhysAddress, AlignAddress;
    var phys := PhysAddress(memory, ph);
    var f, o := phys / PAGE_SIZE, phys % PAGE_SIZE;
    assert phys == f * PAGE_SIZE + o;
    EndPage(f, o, ph.memsz);
    LowerPage(phys);
    LowerPage(ph.vaddr);
    EndAhead(f, (o + ph.memsz + PAGE_SIZE - 1) / PAGE_SIZE);
  }

  lemma LowerPage(a: Word)
    ensures AlignToLowerPage(a) == a / PAGE_SIZE * PAGE_SIZE
  {
  }

  /** A range of n pages from page f on ends behind its start, in 32 bits, unless it wraps. */
  lemma EndAhead(f: nat, n: nat)
    requires f < PAGES && n <= PAGES + 1
    ensures f <= (f + n) % PAGES <==> f + n % PAGES < PAGES
    ensures f <= (f + n) % PAGES ==> (f + n) % PAGES - f == n % PAGES
  {
  }

  /** The page behind the last byte of a range, counted from its first. */
  lemma EndPage(f: nat, o: nat, size: Word)
    requires f < PAGES && o < PAGE_SIZE
    ensures AlignAddress(Wrap(f * PAGE_SIZE + o + size)) ==
      (f + (o + size + PAGE_SIZE - 1) / PAGE_SIZE) % PAGES * PAGE_SIZE
  {
    hide AlignAddress, Wrap;
    var n, rest := (o + size) / PAGE_SIZE, (o + size) % PAGE_SIZE;
    assert f * PAGE_SIZE + o + size == (f + n) * PAGE_SIZE + rest;
    PageWraps(f + n, rest);
    AlignedUp((f + n) % PAGES, rest);
    NextOf(f + n);
    RoundedUp(n, rest);
  }

  lemma NextOf(page: nat)
    ensures (page % PAGES + 1) % PAGES == (page + 1) % PAGES
  {
  }

  lemma AlignedUp(page: nat, rest: nat)
    requires page < PAGES && rest < PAGE_SIZE
    ensures page * PAGE_SIZE + rest < WORD
    ensures AlignAddress(page * PAGE_SIZE + rest) == (if rest == 0 then page else (page + 1) % PAGES) * PAGE_SIZE
  {
    PageSplit(page, rest);
    PageWraps(page + 1, 0);
  }

  lemma RoundedUp(n: nat, rest: nat)
    requires rest < PAGE_SIZE
    ensures (n * PAGE_SIZE + rest + PAGE_SIZE - 1) / PAGE_SIZE == if rest == 0 then n else n + 1
  {
    if rest == 0 { PageSplit(n, PAGE_SIZE - 1); } else { PageSplit(n + 1, rest - 1); }
  }

  /** One segment is mapped whole and touches no other page, or is refused and touches none. */
  lemma MapSegmentAt(pages: seq<Word>, memory: Word, ph: Phdr)
    requires |pages| == PAGES
    ensures MapSegment(pages, memory, ph).1 == 0 <==> Accepted(memory, ph)
    ensures forall v: nat :: v < PAGES ==>
      MapSegment(pages, memory, ph).0[v] ==
        if Accepted(memory, ph) && InSegment(memory, ph, v) then SegmentWord(memory, ph, v) else pages[v]
  {
    hide AlignToLowerPage, AlignAddress, MapPages, PageCount, Ahead, FirstFrame;
    SegmentRange(memory, ph);
    if Accepted(memory, ph) {
      var f, count := FirstFrame(memory, ph), PageCount(memory, ph);
      MapPagesAt(pages, ph.vaddr / PAGE_SIZE, f, count, SegmentFlags(ph));
      assert forall v: nat :: v < PAGES && Ahead(ph.vaddr / PAGE_SIZE, v) < count ==>
        (f + Ahead(ph.vaddr / PAGE_SIZE, v)) % PAGES == f + Ahead(ph.vaddr / PAGE_SIZE, v);
    }
  }

  // --- Overlapping segments ---------------------------------------------------

  /** Segment i is the last to map page v. */
  ghost predicate LastOver(memory: Word, phdrs: seq<Phdr>, v: int, i: int) {
    && 0 <= i < |phdrs| && InSegment(memory, phdrs[i], v)
    && forall j :: i < j < |phdrs| ==> !InSegment(memory, phdrs[j], v)
  }

  /** Page v's word after the header loop, old being its word before. */
  ghost function WordAfter(memory: Word, phdrs: seq<Phdr>, v: int, word: int): int
    decreases |phdrs|
  {
    if phdrs == [] then word
    else
      var next := if InSegment(memory, phdrs[0], v) then SegmentWord(memory, phdrs[0], v) else word;
      WordAfter(memory, phdrs[1..], v, next)
  }

  lemma {:induction false} MapElfWords(pages: seq<Word>, memory: Word, phdrs: seq<Phdr>)
    requires |pages| == PAGES
    ensures MapElf(pages, memory, phdrs).1 == 0 <==> AllAccepted(memory, phdrs)
    ensures AllAccepted(memory, phdrs) ==>
      forall v: nat :: v < PAGES ==> MapElf(pages, memory, phdrs).0[v] == WordAfter(memory, phdrs, v, pages[v])
    decreases |phdrs|
  {
    if phdrs != [] {
      hide Accepted, InSegment, SegmentWord, MapSegment;
      MapSegmentAt(pages, memory, phdrs[0]);
      MapElfWords(MapSegment(pages, memory, phdrs[0]).0, memory, phdrs[1..]);
      assert AllAccepted(memory, phdrs) <==> Accepted(memory, phdrs[0]) && AllAccepted(memory, phdrs[1..]);
    }
  }

  /** The last segment over a page decides its word; without one it stays. */
  lemma {:induction false} LastDecides(memory: Word, phdrs: seq<Phdr>, v: int, word: int)
    ensures forall i :: LastOver(memory, phdrs, v, i) ==>
      WordAfter(memory, phdrs, v, word) == SegmentWord(memory, phdrs[i], v)
    ensures (exists i :: LastOver(memory, phdrs, v, i)) || WordAfter(memory, phdrs, v, word) == word
    decreases |phdrs|
  {
    if phdrs != [] {
      hide InSegment, SegmentWord;
      var rest := phdrs[1..];
      LastDecides(memory, rest, v, if InSegment(memory, phdrs[0], v) then SegmentWord(memory, phdrs[0], v) else word);
      if i :| LastOver(memory, rest, v, i) {
        assert LastOver(memory, phdrs, v, i + 1);
      } else if InSegment(memory, phdrs[0], v) {
        NoneLast(memory, rest, v);
        assert LastOver(memory, phdrs, v, 0);
      }
      forall i | LastOver(memory, phdrs, v, i)
        ensures WordAfter(memory, phdrs, v, word) == SegmentWord(memory, phdrs[i], v)
      {
        if i > 0 { assert LastOver(memory, rest, v, i - 1); } else { NoneAfter(memory, phdrs, v); }
      }
    }
  }

  lemma {:induction false} NoneLast(memory: Word, phdrs: seq<Phdr>, v: int)
    requires !exists i :: LastOver(memory, phdrs, v, i)
    ensures forall i :: 0 <= i < |phdrs| ==> !InSegment(memory, phdrs[i], v)
    decreases |phdrs|
  {
    if phdrs != [] {
      hide InSegment;
      var before := phdrs[..|phdrs| - 1];
      assert !LastOver(memory, phdrs, v, |phdrs| - 1);
      forall i ensures !LastOver(memory, before, v, i) {
        assert !LastOver(memory, phdrs, v, i);
      }
      NoneLast(memory, before, v);
    }
  }

  lemma NoneAfter(memory: Word, phdrs: seq<Phdr>, v: int)
    requires phdrs != [] && LastOver(memory, phdrs, v, 0)
    ensures forall i :: !LastOver(memory, phdrs[1..], v, i)
  {
    hide InSegment;
    forall i | 0 <= i < |phdrs| - 1 ensures !InSegment(memory, phdrs[1..][i], v) {
      assert phdrs[1..][i] == phdrs[i + 1];
    }
  }

  /** The whole header loop succeeds exactly when paging_map_to takes every segment, and
      then each page holds the word of the last segment over it, or is as before. */
  lemma MapElfAt(pages: seq<Word>, memory: Word, phdrs: seq<Phdr>, v: nat)
    requires |pages| == PAGES && v < PAGES
    ensures MapElf(pages, memory, phdrs).1 == 0 <==> AllAccepted(memory, phdrs)
    ensures AllAccepted(memory, phdrs) ==> var r := MapElf(pages, memory, phdrs).0;
      && (forall i :: LastOver(memory, phdrs, v, i) ==> r[v] == SegmentWord(memory, phdrs[i], v))
      && ((forall i :: !LastOver(memory, phdrs, v, i)) ==> r[v] == pages[v])
  {
    hide MapElf, LastOver, SegmentWord, AllAccepted, WordAfter;
    MapElfWords(pages, memory, phdrs);
    LastDecides(memory, phdrs, v, pages[v]);
  }

  // --- The loaded image -------------------------------------------------------

  ghost predicate OnStackPage(v: int) {
    STACK_END / PAGE_SIZE <= v < STACK_START / PAGE_SIZE
  }

  ghost predicate StackAddress(stack: Word) {
    stack % PAGE_SIZE == 0 && stack + USER_STACK_SIZE < WORD
  }

  /** Segment i decides page v of the loaded program. */
  ghost predicate Decides(memory: Word, phdrs: seq<Phdr>, v: int, i: int) {
    LastOver(memory, phdrs, v, i) && !OnStackPage(v)
  }

  /** The page map of a loaded program, for any headers: the stack's words on its pages, on
      the others the word of the last segment there, and without one the word the task
      started with. */
  lemma MapMemoryAt(pages: seq<Word>, memory: Word, phdrs: seq<Phdr>, stack: Word, v: nat)
    requires |pages| == PAGES && v < PAGES && StackAddress(stack)
    ensures MapMemory(pages, memory, phdrs, stack).1 == 0 <==> AllAccepted(memory, phdrs)
    ensures AllAccepted(memory, phdrs) ==> var r := MapMemory(pages, memory, phdrs, stack).0;
      && (OnStackPage(v) ==> r[v] == StackWord(stack, v))
      && (forall i :: Decides(memory, phdrs, v, i) ==> r[v] == SegmentWord(memory, phdrs[i], v))
      && (!OnStackPage(v) && (forall i :: !LastOver(memory, phdrs, v, i)) ==> r[v] == pages[v])
  {
    hide LastOver, AllAccepted, MapElf, SegmentWord, StackWord, StackAddress, PageTables.MapTo;
    MapElfAt(pages, memory, phdrs, v);
    StackMapped(MapElf(pages, memory, phdrs).0, stack);
  }

  ghost function StackWord(stack: Word, v: int): int {
    (stack / PAGE_SIZE + v - STACK_END / PAGE_SIZE) * PAGE_SIZE + USER_RW
  }

  lemma StackMapped(pages: seq<Word>, stack: Word)
    requires |pages| == PAGES && StackAddress(stack)
    ensures var r := MapTo(pages, STACK_END, stack, AlignAddress(Wrap(stack + USER_STACK_SIZE)), USER_RW).0;
      forall v: nat :: v < PAGES ==> r[v] == if OnStackPage(v) then StackWord(stack, v) else pages[v]
  {
    var n := USER_STACK_SIZE / PAGE_SIZE;
    assert AlignAddress(Wrap(stack + USER_STACK_SIZE)) == stack + n * PAGE_SIZE;
    MapPagesStraight(pages, STACK_END / PAGE_SIZE, stack / PAGE_SIZE, n, USER_RW);
  }

  /** What the loaded program sees, for any headers the loader takes. An address on a page
      segment i decides leads to the byte as far behind the segment's start in the image,
      in 32 bits, exactly when p_vaddr and the segment's place agree modulo the page size;
      the page is present for user code, and writable exactly when the header says so (the
      low three bits are 7 or 5). The stack has its own 16 KB, present and writable. */
  lemma LoadedImage(pages: seq<Word>, memory: Word, phdrs: seq<Phdr>, stack: Word, va: Word)
    requires |pages| == PAGES && StackAddress(stack) && MapMemory(pages, memory, phdrs, stack).1 == 0
    ensures var r := MapMemory(pages, memory, phdrs, stack).0;
      && (forall i :: Decides(memory, phdrs, va / PAGE_SIZE, i) ==>
            var phys := Wrap(memory + phdrs[i].offset);
            && (Translate(r, va) == Wrap(phys + va - phdrs[i].vaddr) <==>
                  phdrs[i].vaddr % PAGE_SIZE == phys % PAGE_SIZE)
            && r[va / PAGE_SIZE] % 8 == (if phdrs[i].flags / 2 % 2 == 1 then 7 else 5))
      && (0x3F_B000 <= va < 0x3F_F000 ==>
            Translate(r, va) == stack + (va - 0x3F_B000) && r[va / PAGE_SIZE] % 8 == 7)
  {
    hide MapMemory, InSegment, AllAccepted, SegmentWord, StackWord, StackAddress, Translate, OnStackPage;
    var r := MapMemory(pages, memory, phdrs, stack).0;
    MapMemoryAt(pages, memory, phdrs, stack, va / PAGE_SIZE);
    forall i | 0 <= i < |phdrs| && Decides(memory, phdrs, va / PAGE_SIZE, i)
      ensures Translate(r, va) == Wrap(PhysAddress(memory, phdrs[i]) + va - phdrs[i].vaddr) <==>
        phdrs[i].vaddr % PAGE_SIZE == PhysAddress(memory, phdrs[i]) % PAGE_SIZE
      ensures r[va / PAGE_SIZE] % 8 == if phdrs[i].flags / 2 % 2 == 1 then 7 else 5
    {
      SegmentByte(r, memory, phdrs[i], va);
    }
    if STACK_END <= va < STACK_START { StackByte(r, stack, va); }
  }

  lemma StackByte(r: seq<Word>, stack: Word, va: Word)
    requires |r| == PAGES && StackAddress(stack) && STACK_END <= va < STACK_START
    requires OnStackPage(va / PAGE_SIZE) ==> r[va / PAGE_SIZE] == StackWord(stack, va / PAGE_SIZE)
    ensures Translate(r, va) == stack + (va - STACK_END) && r[va / PAGE_SIZE] % 8 == 7
  {
    WordParts(stack / PAGE_SIZE + va / PAGE_SIZE - STACK_END / PAGE_SIZE, USER_RW);
  }

  lemma SegmentByte(r: seq<Word>, memory: Word, ph: Phdr, va: Word)
    requires |r| == PAGES && r[va / PAGE_SIZE] == SegmentWord(memory, ph, va / PAGE_SIZE)
    ensures Translate(r, va) == Wrap(PhysAddress(memory, ph) + va - ph.vaddr) <==>
      ph.vaddr % PAGE_SIZE == PhysAddress(memory, ph) % PAGE_SIZE
    ensures r[va / PAGE_SIZE] % 8 == if ph.flags / 2 % 2 == 1 then 7 else 5
  {
    hide PhysAddress;
    WordParts(SegmentFrame(memory, ph, va / PAGE_SIZE), SegmentFlags(ph));
    PlaceOf(PhysAddress(memory, ph), ph.vaddr, va);
  }

  /** The address as far behind phys as va is behind virt, by page and offset. */
  lemma PlaceOf(phys: Word, virt: Word, va: Word)
    ensures var frame := phys / PAGE_SIZE + Ahead(virt / PAGE_SIZE, va / PAGE_SIZE);
      frame < PAGES ==>
        (frame * PAGE_SIZE + va % PAGE_SIZE == Wrap(phys + va - virt) <==> virt % PAGE_SIZE == phys % PAGE_SIZE)
  {
    var f, w, v := phys / PAGE_SIZE, virt / PAGE_SIZE, va / PAGE_SIZE;
    var a, b, e := phys % PAGE_SIZE, virt % PAGE_SIZE, va % PAGE_SIZE;
    var o := a + e - b;
    assert phys + va - virt == (f + v - w) * PAGE_SIZE + o;
    var carry := if o < 0 then -1 else if o < PAGE_SIZE then 0 else 1;
    PageWraps(f + v - w + carry, o - carry * PAGE_SIZE);
    SameFrame(f, v - w);
    PageSplit((f + v - w + carry) % PAGES, o - carry * PAGE_SIZE);
    PageSplit(f + Ahead(w, v), e);
  }

  lemma SameFrame(f: nat, d: int)
    ensures f + d % PAGES < PAGES ==> f + d % PAGES == (f + d) % PAGES
  {
  }

  /** The page of the segment's n-th byte. */
  ghost function PageOf(ph: Phdr, n: nat): nat {
    Wrap(ph.vaddr + n) / PAGE_SIZE
  }

  /** Each byte of the segment is on one of its pages exactly when the pages from its first
      byte to its last are fewer than the address space has. */
  lemma SegmentCovered(memory: Word, ph: Phdr)
    requires ph.vaddr % PAGE_SIZE == PhysAddress(memory, ph) % PAGE_SIZE
    ensures (forall n: nat :: n < ph.memsz ==> InSegment(memory, ph, PageOf(ph, n)))
      <==> ph.vaddr % PAGE_SIZE + ph.memsz <= WORD - PAGE_SIZE
  {
    hide PhysAddress, InSegment;
    var o := ph.vaddr % PAGE_SIZE;
    forall n: nat | n < ph.memsz
      ensures InSegment(memory, ph, PageOf(ph, n)) <==>
        (o + n) / PAGE_SIZE % PAGES < PageCount(memory, ph)
    {
      BytePage(memory, ph, n);
    }
    if o + ph.memsz > WORD - PAGE_SIZE {
      var n := 2 * PAGE_SIZE - o;
      assert !InSegment(memory, ph, PageOf(ph, n));
    }
  }

  lemma BytePage(memory: Word, ph: Phdr, n: nat)
    requires n < ph.memsz
    ensures InSegment(memory, ph, PageOf(ph, n)) <==>
      (ph.vaddr % PAGE_SIZE + n) / PAGE_SIZE % PAGES < PageCount(memory, ph)
  {
    hide PageCount;
    var w, o := ph.vaddr / PAGE_SIZE, ph.vaddr % PAGE_SIZE;
    var m, rest := (o + n) / PAGE_SIZE, (o + n) % PAGE_SIZE;
    assert ph.vaddr + n == (w + m) * PAGE_SIZE + rest;
    PageWraps(w + m, rest);
    PageSplit((w + m) % PAGES, rest);
    AheadOf(w, m);
  }

  lemma AheadOf(w: nat, m: nat)
    ensures Ahead(w, (w + m) % PAGES) == m % PAGES
  {
  }

  lemma WordParts(p: int, flags: Word)
    requires flags < 8
    ensures (p * PAGE_SIZE + flags) / PAGE_SIZE == p && (p * PAGE_SIZE + flags) % 8 == flags
  {
    var e := p * 512;
    assert (8 * e + flags) % 8 == flags;
  }
}
