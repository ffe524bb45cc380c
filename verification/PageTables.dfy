/** Two-level 32-bit page tables kept in physical memory (Intel SDM volume 3A,
    section 4.3), and the flat map over 2^20 virtual pages they stand for. */
module PageTables {
  import opened Machine
  import opened HeapRuns

  const ENTRIES := 1024
  const PAGES := 0x10_0000
  const HEAP_FRAME := 4096 // HEAP_ADDRESS / PAGE_SIZE

  const IS_PRESENT := 1
  const IS_WRITEABLE := 2
  const ACCESS_FROM_ALL := 4
  const USER_RW := 7 // present, writeable, access from all

  /** One 4 KB frame of physical memory, a cell per byte address; a 32-bit table word
      is held in the cell of its first byte. */
  type Frame = f: seq<Word> | |f| == PAGE_SIZE witness seq(4096, _ => 0)

  const ZERO_FRAME: Frame := seq(4096, _ => 0)

  /** The k-th 32-bit word of a frame. */
  function WordAt(f: Frame, k: nat): Word
    requires k < ENTRIES
  {
    f[4 * k]
  }

  type Mem = m: seq<Frame> | |m| == PAGES ghost witness seq<Frame>(PAGES, _ => ZERO_FRAME)

  /** The word at a physical address. */
  function Cell(m: Mem, a: Word): Word {
    m[a / PAGE_SIZE][a % PAGE_SIZE]
  }

  /** Memory after a store to one cell. */
  function Stored(m: Mem, a: Word, val: Word): Mem
  {
    m[a / PAGE_SIZE := m[a / PAGE_SIZE][a % PAGE_SIZE := val]]
  }

  /** Distinct addresses are distinct cells. */
  lemma CellStored(m: Mem, a: Word, val: Word, b: Word)
    ensures Cell(Stored(m, a, val), b) == if b == a then val else Cell(m, b)
  {
    assert b != a ==> b / PAGE_SIZE != a / PAGE_SIZE || b % PAGE_SIZE != a % PAGE_SIZE;
  }

  /** Physical address of a heap block, and the frame it occupies. */
  function Addr(b: nat): nat {
    HEAP_ADDRESS + PAGE_SIZE * b
  }

  function BlockFrame(b: nat): nat {
    HEAP_FRAME + b
  }

  /** Where one paging_4gb_chunk lives: the heap blocks of the chunk record, of the
      directory and of its 1024 tables, and the flag bits of the directory entries. */
  datatype Dir = Dir(chunk: nat, dir: nat, tables: seq<nat>, flags: nat)

  ghost function DirBlocks(d: Dir): set<nat> {
    {d.chunk, d.dir} + set t | t in d.tables
  }

  ghost predicate DistinctDir(d: Dir) {
    && |d.tables| == ENTRIES && d.flags < PAGE_SIZE
    && d.chunk != d.dir && d.chunk !in d.tables && d.dir !in d.tables
    && d.chunk < HEAP_BLOCKS && d.dir < HEAP_BLOCKS
    && (forall i :: 0 <= i < ENTRIES ==> d.tables[i] < HEAP_BLOCKS)
    && (forall i, j :: 0 <= i < ENTRIES && 0 <= j < ENTRIES && i != j ==> d.tables[i] != d.tables[j])
  }

  lemma DirSize(d: Dir)
    requires DistinctDir(d)
    ensures |DirBlocks(d)| == ENTRIES + 2
  {
    DistinctCount(d.tables);
    var tables := Elements(d.tables);
    assert tables + {d.chunk} + {d.dir} == DirBlocks(d);
    assert d.chunk !in tables && d.dir !in tables + {d.chunk};
  }

  ghost function Elements(ts: seq<nat>): set<nat> {
    set t | t in ts
  }

  lemma {:induction false} DistinctCount(ts: seq<nat>)
    requires forall i, j :: 0 <= i < |ts| && 0 <= j < |ts| && i != j ==> ts[i] != ts[j]
    ensures |Elements(ts)| == |ts|
  {
    if ts != [] {
      var rest, last := ts[..|ts| - 1], ts[|ts| - 1];
      DistinctCount(rest);
      assert ts == rest + [last] && last !in Elements(rest);
      assert Elements(ts) == Elements(rest) + {last};
    }
  }

  /** Memory holds the chunk record and the directory of d. */
  ghost predicate Installed(m: Mem, d: Dir) {
    && DistinctDir(d)
    && m[BlockFrame(d.chunk)][0] == Addr(d.dir)
    && forall i :: 0 <= i < ENTRIES ==> WordAt(m[BlockFrame(d.dir)], i) == Addr(d.tables[i]) + d.flags
  }

  /** The flat map: entry v is the table word for virtual page v. */
  ghost function Flat(m: Mem, d: Dir): (p: seq<Word>)
    requires DistinctDir(d)
    ensures |p| == PAGES
  {
    seq(PAGES, v requires 0 <= v < PAGES => WordAt(m[BlockFrame(d.tables[v / ENTRIES])], v % ENTRIES))
  }

  /** m' agrees with m outside the frames of the heap blocks s. */
  ghost predicate SameExcept(m: Mem, m': Mem, s: set<nat>) {
    forall f :: 0 <= f < PAGES && f - HEAP_FRAME !in s ==> m'[f] == m[f]
  }

  /** Only the page tables of d changed: its directory and chunk stay installed. */
  ghost function TableBlocks(d: Dir): set<nat> {
    set t | t in d.tables
  }

  /** A change away from d's blocks, or one confined to d's tables, keeps d installed. */
  lemma InstalledFrame(m: Mem, m': Mem, d: Dir, s: set<nat>)
    requires Installed(m, d) && SameExcept(m, m', s) && d.chunk !in s && d.dir !in s
    ensures Installed(m', d)
    ensures s !! TableBlocks(d) ==> Flat(m', d) == Flat(m, d)
  {
    assert m'[BlockFrame(d.chunk)] == m[BlockFrame(d.chunk)];
    assert m'[BlockFrame(d.dir)] == m[BlockFrame(d.dir)];
    if s !! TableBlocks(d) {
      forall v | 0 <= v < PAGES ensures Flat(m', d)[v] == Flat(m, d)[v] {
        var t := d.tables[v / ENTRIES];
        assert t in TableBlocks(d);
        assert m'[BlockFrame(t)] == m[BlockFrame(t)];
      }
    }
  }

  lemma SameExceptTrans(m: Mem, m1: Mem, m2: Mem, s1: set<nat>, s2: set<nat>)
    requires SameExcept(m, m1, s1) && SameExcept(m1, m2, s2)
    ensures SameExcept(m, m2, s1 + s2)
  {
  }

  /** Memory after writing the table word of virtual page v. */
  ghost function SetEntry(m: Mem, d: Dir, v: nat, val: Word): Mem
    requires DistinctDir(d) && v < PAGES
  {
    var t := d.tables[v / ENTRIES];
    m[BlockFrame(t) := m[BlockFrame(t)][4 * (v % ENTRIES) := val]]
  }

  /** Writing one table word changes exactly one page of the flat map. That the 1024
      tables are distinct heap blocks is what keeps the other pages apart. */
  lemma SetEntryIsFlatUpdate(m: Mem, d: Dir, v: nat, val: Word)
    requires Installed(m, d) && v < PAGES
    ensures var m' := SetEntry(m, d, v, val);
      && SameExcept(m, m', TableBlocks(d)) && Installed(m', d)
      && Flat(m', d) == Flat(m, d)[v := val]
  {
    var m' := SetEntry(m, d, v, val);
    var t := d.tables[v / ENTRIES];
    assert t in TableBlocks(d);
    InstalledFrame(m, m', d, TableBlocks(d));
    forall w | 0 <= w < PAGES ensures Flat(m', d)[w] == Flat(m, d)[v := val][w] {
      if w / ENTRIES != v / ENTRIES {
        assert d.tables[w / ENTRIES] != t;
      } else if w != v {
        assert w % ENTRIES != v % ENTRIES;
      }
    }
  }

  /** The words paging_new_4gb puts in its j-th table. */
  ghost predicate TableFilled(m: Mem, t: nat, j: nat, flags: nat)
    requires t < HEAP_BLOCKS
  {
    forall k :: 0 <= k < ENTRIES ==> WordAt(m[BlockFrame(t)], k) == (j * ENTRIES + k) * PAGE_SIZE + flags
  }

  lemma FilledTablesAreIdentity(m: Mem, d: Dir, flags: nat)
    requires DistinctDir(d) && flags < PAGE_SIZE
    requires forall j :: 0 <= j < ENTRIES ==> TableFilled(m, d.tables[j], j, flags)
    ensures Flat(m, d) == Identity(flags)
  {
    forall v | 0 <= v < PAGES ensures Flat(m, d)[v] == Identity(flags)[v] {
      assert TableFilled(m, d.tables[v / ENTRIES], v / ENTRIES, flags);
    }
  }

  /** Progress of paging_new_4gb: tables ts are allocated, filled and entered in the
      directory, and nothing but these blocks has changed since m0 and r0. */
  ghost predicate Building(m0: Mem, m: Mem, r0: Runs, r: Runs, dir: nat, ts: seq<nat>, flags: Word) {
    && flags < 256 && |ts| <= ENTRIES && dir < HEAP_BLOCKS && dir !in ts
    && (forall j :: 0 <= j < |ts| ==> ts[j] < HEAP_BLOCKS)
    && (forall j, k :: 0 <= j < |ts| && 0 <= k < |ts| && j != k ==> ts[j] != ts[k])
    && Built(dir, ts) !! r0.Keys && r == r0 + Singles(Built(dir, ts))
    && SameExcept(m0, m, Built(dir, ts))
    && (forall j :: 0 <= j < |ts| ==> WordAt(m[BlockFrame(dir)], j) == Addr(ts[j]) + Or(flags, IS_WRITEABLE))
    && (forall j :: 0 <= j < |ts| ==> TableFilled(m, ts[j], j, flags))
  }

  ghost function Built(dir: nat, ts: seq<nat>): set<nat> {
    {dir} + set t | t in ts
  }

  lemma BuildStep(m0: Mem, m: Mem, m': Mem, r0: Runs, r: Runs, dir: nat, ts: seq<nat>, flags: Word, t: nat)
    requires Building(m0, m, r0, r, dir, ts, flags) && |ts| < ENTRIES && t < HEAP_BLOCKS && t !in r
    requires SameExcept(m, m', {t, dir}) && TableFilled(m', t, |ts|, flags)
    requires forall j :: 0 <= j < |ts| ==> WordAt(m'[BlockFrame(dir)], j) == WordAt(m[BlockFrame(dir)], j)
    requires WordAt(m'[BlockFrame(dir)], |ts|) == Addr(t) + Or(flags, IS_WRITEABLE)
    ensures Building(m0, m', r0, r[t := 1], dir, ts + [t], flags)
  {
    var ts' := ts + [t];
    assert dir in r;
    forall j | 0 <= j < |ts| ensures ts[j] != t && ts'[j] == ts[j] { assert ts[j] in r; }
    assert Built(dir, ts') == Built(dir, ts) + {t};
    assert r[t := 1] == r0 + Singles(Built(dir, ts'));
    forall j | 0 <= j < |ts'| ensures TableFilled(m', ts'[j], j, flags) {
      if j < |ts| { assert m'[BlockFrame(ts[j])] == m[BlockFrame(ts[j])]; }
    }
  }

  /** The directory word of table t. */
  lemma DirectoryWord(t: nat, flags: nat)
    requires t < HEAP_BLOCKS && flags < 256
    ensures Or(Or(Addr(t), flags), IS_WRITEABLE) == Addr(t) + Or(flags, IS_WRITEABLE) < WORD
  {
    OrFlags(HEAP_FRAME + t, 0, flags);
    OrFlags(HEAP_FRAME + t, flags, IS_WRITEABLE);
    OrByte(flags);
  }

  lemma BuildDone(m0: Mem, m: Mem, m': Mem, r0: Runs, r: Runs, d: Dir, flags: Word)
    requires Building(m0, m, r0, r, d.dir, d.tables, flags) && |d.tables| == ENTRIES
    requires d.chunk < HEAP_BLOCKS && d.chunk !in r && d.flags == Or(flags, IS_WRITEABLE)
    requires SameExcept(m, m', {d.chunk}) && m'[BlockFrame(d.chunk)][0] == Addr(d.dir)
    ensures Installed(m', d) && Flat(m', d) == Identity(flags)
    ensures DirBlocks(d) !! r0.Keys && r[d.chunk := 1] == r0 + Singles(DirBlocks(d))
    ensures SameExcept(m0, m', DirBlocks(d))
  {
    hide TableFilled, Building, Built, Flat;
    FlagsAreByte(m0, m, r0, r, d.dir, d.tables, flags);
    OrFlags(0, flags, IS_WRITEABLE);
    OrByte(flags);
    BuiltDistinct(m0, m, r0, r, d, flags);
    BuildFinished(m0, m, m', r0, r, d, flags);
    FilledTablesAreIdentity(m', d, flags);
  }

  lemma FlagsAreByte(m0: Mem, m: Mem, r0: Runs, r: Runs, dir: nat, ts: seq<nat>, flags: Word)
    requires Building(m0, m, r0, r, dir, ts, flags)
    ensures flags < 256
  {
  }

  lemma BuildFinished(m0: Mem, m: Mem, m': Mem, r0: Runs, r: Runs, d: Dir, flags: Word)
    requires Building(m0, m, r0, r, d.dir, d.tables, flags) && |d.tables| == ENTRIES && d.chunk < HEAP_BLOCKS
    requires d.chunk !in r
    requires DistinctDir(d) && SameExcept(m, m', {d.chunk})
    ensures forall j :: 0 <= j < ENTRIES ==> TableFilled(m', d.tables[j], j, flags)
    ensures forall j :: 0 <= j < ENTRIES ==>
      WordAt(m'[BlockFrame(d.dir)], j) == Addr(d.tables[j]) + Or(flags, IS_WRITEABLE)
    ensures DirBlocks(d) !! r0.Keys && r[d.chunk := 1] == r0 + Singles(DirBlocks(d))
    ensures SameExcept(m0, m', DirBlocks(d))
  {
    hide TableFilled, WordAt;
    assert DirBlocks(d) == Built(d.dir, d.tables) + {d.chunk};
    assert m'[BlockFrame(d.dir)] == m[BlockFrame(d.dir)];
    forall j | 0 <= j < ENTRIES ensures TableFilled(m', d.tables[j], j, flags) {
      assert TableFilled(m, d.tables[j], j, flags);
      SameTable(m, m', d.tables[j], j, flags);
    }
  }

  lemma SameTable(m: Mem, m': Mem, t: nat, j: nat, flags: nat)
    requires t < HEAP_BLOCKS && TableFilled(m, t, j, flags) && m'[BlockFrame(t)] == m[BlockFrame(t)]
    ensures TableFilled(m', t, j, flags)
  {
  }

  lemma BuiltDistinct(m0: Mem, m: Mem, r0: Runs, r: Runs, d: Dir, flags: Word)
    requires Building(m0, m, r0, r, d.dir, d.tables, flags) && |d.tables| == ENTRIES
    requires d.chunk < HEAP_BLOCKS && d.chunk !in r && d.flags < PAGE_SIZE
    ensures DistinctDir(d)
  {
    assert d.dir in r;
    forall j | 0 <= j < ENTRIES ensures d.tables[j] != d.chunk { assert d.tables[j] in r; }
  }

  lemma OrByte(flags: nat)
    requires flags < 256
    ensures Or(flags, IS_WRITEABLE) < 256
  {
    assert Pow2(8) == 256;
    OrBounded(flags, IS_WRITEABLE, 8);
  }

  // --- Ranges of pages ------------------------------------------------------

  /** The words paging_map_range writes: count consecutive pages, wrapping at 4 GB. */
  ghost function MapPages(pages: seq<Word>, v: nat, p: nat, count: int, flags: Word): (r: seq<Word>)
    requires |pages| == PAGES && v < PAGES && p < PAGES
    ensures |r| == PAGES
    decreases count
  {
    if count <= 0 then pages
    else
      OrWord(p * PAGE_SIZE, flags);
      MapPages(pages[v := Or(p * PAGE_SIZE, flags)], (v + 1) % PAGES, (p + 1) % PAGES, count - 1, flags)
  }

  /** paging_map_to on the flat map: validate, then map the whole range. */
  ghost function MapTo(pages: seq<Word>, virt: Word, phys: Word, physEnd: Word, flags: Word): (r: (seq<Word>, int))
    requires |pages| == PAGES
    ensures |r.0| == PAGES
  {
    if virt % PAGE_SIZE != 0 || phys % PAGE_SIZE != 0 || physEnd % PAGE_SIZE != 0 || physEnd < phys
    then (pages, -EINVARG)
    else (MapPages(pages, virt / PAGE_SIZE, phys / PAGE_SIZE, (physEnd - phys) / PAGE_SIZE, flags), 0)
  }

  /** A byte address by page and offset, and the same in 32 bits. */
  lemma PageSplit(page: int, offset: nat)
    requires offset < PAGE_SIZE
    ensures (page * PAGE_SIZE + offset) / PAGE_SIZE == page && (page * PAGE_SIZE + offset) % PAGE_SIZE == offset
  {
  }

  lemma PageWraps(page: int, offset: nat)
    requires offset < PAGE_SIZE
    ensures Wrap(page * PAGE_SIZE + offset) == page % PAGES * PAGE_SIZE + offset
  {
    var k, m := page / PAGES, page % PAGES;
    assert page * PAGE_SIZE + offset == WORD * k + (m * PAGE_SIZE + offset);
    RestOf(k, m * PAGE_SIZE + offset);
  }

  lemma RestOf(k: int, rest: nat)
    requires rest < WORD
    ensures (WORD * k + rest) % WORD == rest
  {
  }

  /** How many pages lie from page v on to page w, counting past the last page on to the
      first. */
  function Ahead(v: int, w: int): (n: nat)
    ensures n < PAGES
  {
    (w - v) % PAGES
  }

  lemma AheadNext(v: nat, w: nat)
    requires v < PAGES && w < PAGES
    ensures Ahead(v, w) == if w == v then 0 else Ahead((v + 1) % PAGES, w) + 1
    ensures Ahead((v + 1) % PAGES, v) == PAGES - 1
  {
  }

  lemma NextFrame(p: nat, n: nat)
    ensures ((p + 1) % PAGES + n) % PAGES == (p + n + 1) % PAGES
  {
  }

  /** The n-th page of the range, wrapping at 4 GB as its frames do, holds the n-th frame
      with the flags added, and every other page is untouched. */
  lemma {:induction false} MapPagesAt(pages: seq<Word>, v: nat, p: nat, count: nat, flags: Word)
    requires |pages| == PAGES && v < PAGES && p < PAGES && count <= PAGES && flags < PAGE_SIZE
    ensures forall w: nat :: w < PAGES ==>
      MapPages(pages, v, p, count, flags)[w] ==
        if Ahead(v, w) < count then (p + Ahead(v, w)) % PAGES * PAGE_SIZE + flags else pages[w]
    decreases count
  {
    hide MapPages, Ahead;
    MapPagesStep(pages, v, p, count, flags);
    if count > 0 {
      MapPagesAt(pages[v := p * PAGE_SIZE + flags], (v + 1) % PAGES, (p + 1) % PAGES, count - 1, flags);
      forall w: nat | w < PAGES
        ensures MapPages(pages, v, p, count, flags)[w] ==
          if Ahead(v, w) < count then (p + Ahead(v, w)) % PAGES * PAGE_SIZE + flags else pages[w]
      {
        AheadNext(v, w);
        NextFrame(p, Ahead((v + 1) % PAGES, w));
      }
    }
  }

  /** The same for a range that does not wrap. */
  lemma MapPagesStraight(pages: seq<Word>, v: nat, p: nat, count: nat, flags: Word)
    requires |pages| == PAGES && v < PAGES && p < PAGES && v + count <= PAGES && p + count <= PAGES
    requires flags < PAGE_SIZE
    ensures forall w: nat :: w < PAGES ==>
      MapPages(pages, v, p, count, flags)[w] == if v <= w < v + count then (p + w - v) * PAGE_SIZE + flags else pages[w]
  {
    hide MapPages, Ahead;
    MapPagesAt(pages, v, p, count, flags);
    forall w: nat | w < PAGES
      ensures MapPages(pages, v, p, count, flags)[w] ==
        if v <= w < v + count then (p + w - v) * PAGE_SIZE + flags else pages[w]
    {
      AheadStraight(v, w, count);
      assert v <= w < v + count ==> (p + (w - v)) % PAGES == p + w - v;
    }
  }

  lemma AheadStraight(v: nat, w: nat, count: nat)
    requires v < PAGES && w < PAGES && v + count <= PAGES
    ensures Ahead(v, w) < count <==> v <= w < v + count
    ensures v <= w ==> Ahead(v, w) == w - v
  {
  }

  /** One turn of paging_map_range, and its end. */
  lemma MapPagesStep(pages: seq<Word>, v: nat, p: nat, count: int, flags: Word)
    requires |pages| == PAGES && v < PAGES && p < PAGES && flags < PAGE_SIZE && p * PAGE_SIZE + flags < WORD
    ensures var pages1 := pages[v := p * PAGE_SIZE + flags];
      && MapPages(pages, v, p, count, flags) ==
        (if count <= 0 then pages else MapPages(pages1, (v + 1) % PAGES, (p + 1) % PAGES, count - 1, flags))
  {
    OrFlags(p, 0, flags);
  }

  // --- Translation ------------------------------------------------------------

  /** paging_get_physical_address through the flat map. */
  ghost function Translate(pages: seq<Word>, va: Word): Word
    requires |pages| == PAGES
  {
    FrameOf(pages[va / PAGE_SIZE]) * PAGE_SIZE + va % PAGE_SIZE
  }

  /** A page the processor lets user code write (the directory entries grant it all). */
  ghost predicate Writable(entry: Word) {
    entry % 8 == USER_RW
  }

  /** How many bytes lie from address a on to address b, wrapping at 4 GB. */
  function BytesAhead(a: Word, b: Word): Word {
    Wrap(b - a)
  }

  lemma PageInRange(virt: Word, va: Word)
    requires virt % PAGE_SIZE == 0
    ensures Ahead(virt / PAGE_SIZE, va / PAGE_SIZE) == BytesAhead(virt, va) / PAGE_SIZE
    ensures BytesAhead(virt, va) % PAGE_SIZE == va % PAGE_SIZE
  {
    var n, o := va / PAGE_SIZE - virt / PAGE_SIZE, va % PAGE_SIZE;
    assert va - virt == n * PAGE_SIZE + o;
    PageWraps(n, o);
    PageSplit(n % PAGES, o);
  }

  /** paging_map_to is all-or-nothing, and on success the n-th byte of the range, which may
      run past the end of the address space, is translated to the n-th byte of the physical
      range, while no other page moves. */
  lemma MapToDisplaces(pages: seq<Word>, virt: Word, phys: Word, physEnd: Word, flags: Word)
    requires |pages| == PAGES && flags < PAGE_SIZE
    ensures var (r, res) := MapTo(pages, virt, phys, physEnd, flags);
      && (res != 0 ==> r == pages)
      && (res == 0 <==> virt % PAGE_SIZE == 0 && phys % PAGE_SIZE == 0 && physEnd % PAGE_SIZE == 0 && phys <= physEnd)
      && (res == 0 ==> forall va: Word ::
            if BytesAhead(virt, va) < physEnd - phys
            then Translate(r, va) == phys + BytesAhead(virt, va) && r[va / PAGE_SIZE] % PAGE_SIZE == flags
            else r[va / PAGE_SIZE] == pages[va / PAGE_SIZE])
  {
    hide MapPages, Ahead, BytesAhead, Translate;
    if virt % PAGE_SIZE == 0 && phys % PAGE_SIZE == 0 && physEnd % PAGE_SIZE == 0 && phys <= physEnd {
      var v, p, n := virt / PAGE_SIZE, phys / PAGE_SIZE, (physEnd - phys) / PAGE_SIZE;
      PageRange(phys, physEnd);
      MapPagesAt(pages, v, p, n, flags);
      var r := MapPages(pages, v, p, n, flags);
      forall va: Word { Displaced(pages, r, v, p, n, flags, virt, va); }
    }
  }

  lemma PageRange(a: Word, end: Word)
    requires a % PAGE_SIZE == 0 && end % PAGE_SIZE == 0 && a <= end
    ensures var n := (end - a) / PAGE_SIZE;
      end - a == n * PAGE_SIZE && a == a / PAGE_SIZE * PAGE_SIZE && a / PAGE_SIZE + n < PAGES
  {
  }

  lemma Displaced(pages: seq<Word>, r: seq<Word>, v: nat, p: nat, n: nat, flags: Word, virt: Word, va: Word)
    requires |pages| == PAGES == |r| && virt == v * PAGE_SIZE && p + n < PAGES && flags < PAGE_SIZE
    requires var w := va / PAGE_SIZE;
      r[w] == if Ahead(v, w) < n then (p + Ahead(v, w)) % PAGES * PAGE_SIZE + flags else pages[w]
    ensures if BytesAhead(virt, va) < n * PAGE_SIZE
      then Translate(r, va) == p * PAGE_SIZE + BytesAhead(virt, va) && r[va / PAGE_SIZE] % PAGE_SIZE == flags
      else r[va / PAGE_SIZE] == pages[va / PAGE_SIZE]
  {
    hide BytesAhead, Ahead;
    PageInRange(virt, va);
    var k := Ahead(v, va / PAGE_SIZE);
    PageSplit(p + k, flags);
    assert k < n ==> (p + k) % PAGES == p + k;
  }

  /** A fresh directory maps every page to itself. */
  ghost function Identity(flags: nat): (p: seq<Word>)
    requires flags < PAGE_SIZE
    ensures |p| == PAGES
  {
    seq(PAGES, v requires 0 <= v < PAGES => v * PAGE_SIZE + flags)
  }

  lemma IdentityTranslates(flags: nat, va: Word)
    requires flags < PAGE_SIZE
    ensures Translate(Identity(flags), va) == va
  {
  }
}
