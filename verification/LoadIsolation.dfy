/** What the headers and the file's length decide before the load: exactly when a file is
    loaded into isolation wherever its runs may lie, with the files that are not, and what a
    file that failed ELF validation can make writable. */
module LoadIsolation {
  import opened Machine
  import opened HeapRuns
  import opened Heap
  import opened PageTables
  import opened Elf
  import opened System
  import opened Invariants
  import opened LoadedPages
  import opened Isolation

  // --- Layouts ------------------------------------------------------------------------------------

  ghost predicate Apart(a: nat, m: nat, b: nat, n: nat) {
    a + m <= b || b + n <= a
  }

  /** A load of a validated file that finds its blocks here. */
  ghost function At(record: nat, elf: nat, image: nat, stack: nat, task: nat, d: Dir): Loading
    requires image < HEAP_BLOCKS
  {
    Complete(record, elf, Some(image), Addr(image), stack, task, d)
  }

  /** The 1026 blocks from dir on as paging blocks. */
  ghost function DirAt(dir: nat): Dir {
    Dir(dir, dir + 1, seq(ENTRIES, j requires 0 <= j < ENTRIES => dir + 2 + j), IS_PRESENT)
  }

  lemma DirAtBlocks(dir: nat)
    requires dir + ENTRIES + 2 <= HEAP_BLOCKS
    ensures DistinctDir(DirAt(dir))
    ensures forall b: nat :: b in DirBlocks(DirAt(dir)) ==> dir <= b < dir + ENTRIES + 2
  {
  }

  /** The runs of a load before its page tables do not meet. */
  ghost predicate Layout(record: nat, elf: nat, image: nat, n: nat, stack: nat, task: nat) {
    && Apart(record, 3, elf, 1) && Apart(record, 3, image, n) && Apart(record, 3, stack, 4) && Apart(record, 3, task, 1)
    && Apart(elf, 1, image, n) && Apart(elf, 1, stack, 4) && Apart(elf, 1, task, 1)
    && Apart(image, n, stack, 4) && Apart(image, n, task, 1) && Apart(stack, 4, task, 1)
    && record + 3 <= HEAP_BLOCKS && elf < HEAP_BLOCKS && 0 < n && image + n <= HEAP_BLOCKS
    && stack + 4 <= HEAP_BLOCKS && task < HEAP_BLOCKS
  }

  /** Block c is in none of them. */
  ghost predicate Outside(record: nat, elf: nat, image: nat, n: nat, stack: nat, task: nat, c: nat) {
    && c < HEAP_BLOCKS && Apart(record, 3, c, 1) && c != elf && Apart(image, n, c, 1) && Apart(stack, 4, c, 1)
    && c != task
  }

  ghost predicate DirOutside(record: nat, elf: nat, image: nat, n: nat, stack: nat, task: nat, d: Dir) {
    DistinctDir(d) && forall c: nat :: c in DirBlocks(d) ==> Outside(record, elf, image, n, stack, task, c)
  }

  /** Block b starts one of the runs before the page tables, m blocks long. */
  ghost predicate Part(record: nat, elf: nat, image: nat, n: nat, stack: nat, task: nat, b: nat, m: nat) {
    (b == record && m == 3) || (b == elf && m == 1) || (b == image && m == n) || (b == stack && m == 4)
    || (b == task && m == 1)
  }

  lemma PartsApart(record: nat, elf: nat, image: nat, n: nat, stack: nat, task: nat, a: nat, m: nat, b: nat, o: nat)
    requires Layout(record, elf, image, n, stack, task)
    requires Part(record, elf, image, n, stack, task, a, m)
    requires Part(record, elf, image, n, stack, task, b, o) ||
      (o == 1 && Outside(record, elf, image, n, stack, task, b))
    ensures 0 < m && 0 < o && a + m <= HEAP_BLOCKS && b + o <= HEAP_BLOCKS
    ensures a < b ==> a + m <= b
    ensures b < a ==> b + o <= a
  {
  }

  lemma RunIsPart(size: Word, record: nat, elf: nat, image: nat, stack: nat, task: nat, d: Dir, b: nat)
    requires image < HEAP_BLOCKS && Layout(record, elf, image, Blocks(size), stack, task)
    requires DirOutside(record, elf, image, Blocks(size), stack, task, d)
    requires b in LoadingRuns(At(record, elf, image, stack, task, d), size)
    ensures var m := LoadingRuns(At(record, elf, image, stack, task, d), size)[b];
      Part(record, elf, image, Blocks(size), stack, task, b, m) ||
      (m == 1 && Outside(record, elf, image, Blocks(size), stack, task, b))
  {
    hide Blocks, DistinctDir, DirBlocks, LoadingRuns;
    var l := At(record, elf, image, stack, task, d);
    LayoutDistinct(size, record, elf, image, stack, task, d);
    CompleteParts(l, size);
    ImageSize(l, size);
  }

  lemma LayoutDistinct(size: Word, record: nat, elf: nat, image: nat, stack: nat, task: nat, d: Dir)
    requires image < HEAP_BLOCKS && Layout(record, elf, image, Blocks(size), stack, task)
    requires DirOutside(record, elf, image, Blocks(size), stack, task, d)
    ensures DistinctParts(record, elf, Some(image), stack, task, d)
  {
    hide Blocks, DistinctDir, DirBlocks;
  }

  /** On an empty heap such a load is a fresh one. */
  lemma LayoutIsFresh(size: Word, record: nat, elf: nat, image: nat, stack: nat, task: nat, d: Dir)
    requires image < HEAP_BLOCKS && Layout(record, elf, image, Blocks(size), stack, task)
    requires DirOutside(record, elf, image, Blocks(size), stack, task, d)
    ensures FreshLoading(map[], At(record, elf, image, stack, task, d), size)
  {
    hide Blocks, DistinctDir, DirBlocks, LoadingRuns, Part, DistinctParts, Layout, Outside;
    var l := At(record, elf, image, stack, task, d);
    var all := LoadingRuns(l, size);
    LayoutDistinct(size, record, elf, image, stack, task, d);
    assert map[] + all == all;
    forall a: nat, b: nat | a in all && b in all
      ensures 0 < all[a] && a + all[a] <= HEAP_BLOCKS && (a < b ==> a + all[a] <= b)
    {
      RunIsPart(size, record, elf, image, stack, task, d, a);
      RunIsPart(size, record, elf, image, stack, task, d, b);
      TwoRuns(record, elf, image, Blocks(size), stack, task, a, all[a], b, all[b]);
    }
  }

  lemma TwoRuns(record: nat, elf: nat, image: nat, n: nat, stack: nat, task: nat, a: nat, m: nat, b: nat, o: nat)
    requires Layout(record, elf, image, n, stack, task)
    requires Part(record, elf, image, n, stack, task, a, m) ||
      (m == 1 && Outside(record, elf, image, n, stack, task, a))
    requires Part(record, elf, image, n, stack, task, b, o) ||
      (o == 1 && Outside(record, elf, image, n, stack, task, b))
    ensures 0 < m && a + m <= HEAP_BLOCKS && (a < b ==> a + m <= b)
  {
    hide Layout, Part;
    if Part(record, elf, image, n, stack, task, a, m) {
      PartsApart(record, elf, image, n, stack, task, a, m, b, o);
    }
  }

  lemma ImageSize(l: Loading, size: Word)
    requires l.Complete? && l.image.Some? && DistinctParts(l.record, l.elf, l.image, l.stack, l.task, l.dir)
    ensures LoadingRuns(l, size)[l.image.value] == Blocks(size)
  {
  }

  lemma FoundAt(size: Word, record: nat, elf: nat, image: nat, stack: nat, task: nat, d: Dir)
    requires image < HEAP_BLOCKS && Layout(record, elf, image, Blocks(size), stack, task)
    requires DirOutside(record, elf, image, Blocks(size), stack, task, d)
    ensures var all := map[] + LoadingRuns(At(record, elf, image, stack, task, d), size);
      && Live(all, image, Blocks(size)) && Live(all, stack, STACK_BLOCKS)
  {
    hide Blocks, DistinctDir, DirBlocks, LoadingRuns, DistinctParts, Layout, DirOutside;
    var l := At(record, elf, image, stack, task, d);
    LayoutDistinct(size, record, elf, image, stack, task, d);
    CompleteParts(l, size);
    ImageSize(l, size);
  }

  /** The page map of a load at image block image, on a heap with nothing else in it. */
  lemma LoadMaps(img: Image, record: nat, elf: nat, image: nat, stack: nat, task: nat, d: Dir)
    requires image < HEAP_BLOCKS && Layout(record, elf, image, Blocks(img.size), stack, task)
    requires DirOutside(record, elf, image, Blocks(img.size), stack, task, d)
    requires stack < HEAP_BLOCKS && AllAccepted(Addr(image), img.phdrs)
    ensures Maps(map[], img, At(record, elf, image, stack, task, d), Loaded(img, image, stack))
  {
    hide FreshLoading, Accepted, MapElf, Identity, Layout, DirOutside, StackAddress;
    LayoutIsFresh(img.size, record, elf, image, stack, task, d);
    StackIsRun(stack);
    MapMemoryAt(Identity(IS_PRESENT + ACCESS_FROM_ALL), Addr(image), img.phdrs, Addr(stack), 0);
  }

  ghost function Loaded(img: Image, image: nat, stack: nat): (r: seq<Word>)
    requires image < HEAP_BLOCKS && stack < HEAP_BLOCKS
    ensures |r| == PAGES
  {
    MapMemory(Identity(IS_PRESENT + ACCESS_FROM_ALL), Addr(image), img.phdrs, Addr(stack)).0
  }

  // --- Around a file anywhere ---------------------------------------------------------------------

  /** The j-th block that is not one of the n from image on. */
  ghost function Around(image: nat, n: nat, j: nat): nat {
    if j < image then j else j + n
  }

  /** Eleven blocks in a row that miss the image. */
  ghost function Row(image: nat, n: nat): nat {
    if image >= 11 then 0 else Around(image, n, 11)
  }

  /** The j-th of the blocks that miss both. */
  ghost function Spot(image: nat, n: nat, j: nat): nat {
    Around(image, n, if image >= 11 || j >= 11 then j + 11 else j)
  }

  lemma RowMisses(image: nat, n: nat)
    ensures Row(image, n) + 11 <= image || image + n <= Row(image, n)
    ensures Row(image, n) <= n + 11
  {
  }

  lemma SpotsMiss(image: nat, n: nat, i: nat, j: nat)
    requires n > 0
    ensures i != j ==> Spot(image, n, i) != Spot(image, n, j)
    ensures Spot(image, n, j) < Row(image, n) || Row(image, n) + 11 <= Spot(image, n, j)
    ensures Spot(image, n, j) < image || image + n <= Spot(image, n, j)
    ensures Spot(image, n, j) <= n + j + 11
  {
  }

  /** The row holds the record, the stack in one of two places, and four single blocks in the
      other, from left on; the other single blocks are in the spots. */
  ghost function Single(image: nat, n: nat, left: nat, j: nat): nat {
    if j < 4 then left + j else Spot(image, n, j - 4)
  }

  lemma SinglesMiss(image: nat, n: nat, left: nat, i: nat, j: nat)
    requires n > 0 && (left == Row(image, n) + 3 || left == Row(image, n) + 7)
    ensures i != j ==> Single(image, n, left, i) != Single(image, n, left, j)
    ensures Single(image, n, left, j) < image || image + n <= Single(image, n, left, j)
    ensures var y, b := Row(image, n), Single(image, n, left, j); b < y || left <= b < left + 4 || y + 11 <= b
    ensures Single(image, n, left, j) <= n + 21 || Single(image, n, left, j) <= n + j + 7
  {
    hide Row, Spot;
    RowMisses(image, n);
    SpotsMiss(image, n, if i < 4 then 0 else i - 4, if j < 4 then 0 else j - 4);
    SpotsMiss(image, n, if j < 4 then 0 else j - 4, if i < 4 then 0 else i - 4);
  }

  /** Page tables in the single blocks from the third on. */
  ghost function DirAround(image: nat, n: nat, left: nat): Dir {
    Dir(Single(image, n, left, 2), Single(image, n, left, 3),
      seq(ENTRIES, j requires 0 <= j < ENTRIES => Single(image, n, left, j + 4)), IS_PRESENT)
  }

  lemma LayoutAround(image: nat, n: nat, stack: nat, left: nat)
    requires 0 < n <= HEAP_BLOCKS - OTHER_BLOCKS && image + n <= HEAP_BLOCKS
    requires var y := Row(image, n); (stack == y + 3 && left == y + 7) || (stack == y + 7 && left == y + 3)
    ensures var (elf, task) := (Single(image, n, left, 0), Single(image, n, left, 1));
      && Layout(Row(image, n), elf, image, n, stack, task)
      && DirOutside(Row(image, n), elf, image, n, stack, task, DirAround(image, n, left))
  {
    hide Row, Single;
    RowMisses(image, n);
    SinglesMiss(image, n, left, 0, 1);
    SinglesMiss(image, n, left, 1, 0);
    DirAroundOutside(image, n, stack, left);
  }

  lemma DirAroundOutside(image: nat, n: nat, stack: nat, left: nat)
    requires 0 < n <= HEAP_BLOCKS - OTHER_BLOCKS && image + n <= HEAP_BLOCKS
    requires var y := Row(image, n); (stack == y + 3 && left == y + 7) || (stack == y + 7 && left == y + 3)
    ensures DirOutside(Row(image, n), Single(image, n, left, 0), image, n, stack, Single(image, n, left, 1),
      DirAround(image, n, left))
  {
    hide Row, Single;
    var d, elf, task := DirAround(image, n, left), Single(image, n, left, 0), Single(image, n, left, 1);
    forall i: nat, j: nat | i < 1028 && j < 1028
      ensures i != j ==> Single(image, n, left, i) != Single(image, n, left, j)
      ensures Single(image, n, left, j) < HEAP_BLOCKS
    {
      SinglesMiss(image, n, left, i, j);
    }
    forall j: nat | 2 <= j < 1028
      ensures Outside(Row(image, n), elf, image, n, stack, task, Single(image, n, left, j))
    {
      SinglesMiss(image, n, left, 0, j);
      SinglesMiss(image, n, left, 1, j);
    }
    forall c: nat | c in DirBlocks(d)
      ensures Outside(Row(image, n), elf, image, n, stack, task, c)
    {
      if c != d.chunk && c != d.dir {
        var j :| 0 <= j < ENTRIES && d.tables[j] == c;
        assert c == Single(image, n, left, j + 4);
      }
    }
  }

  // --- Room ---------------------------------------------------------------------------------------

  /** The blocks a process takes besides its file's: record, struct elf_file, stack, task and
      paging. */
  const OTHER_BLOCKS := 1035

  /** The heap has room for the file and for everything else its process takes. */
  ghost predicate HasRoom(img: Image) {
    0 < Blocks(img.size) <= HEAP_BLOCKS - OTHER_BLOCKS
  }

  lemma MapsHasRoom(r: Runs, img: Image, l: Loading, pages: seq<Word>)
    requires Maps(r, img, l, pages) && l.image.Some?
    ensures HasRoom(img)
  {
    hide MapMemory, Partition, LoadingRuns, DirBlocks, DistinctDir, Blocks;
    CompleteParts(l, img.size);
    ImageSize(l, img.size);
    PartsFit(r + LoadingRuns(l, img.size), l.record, l.elf, l.image.value, l.stack, l.task, l.dir, Blocks(img.size));
  }

  lemma PartsFit(r: Runs, record: nat, elf: nat, image: nat, stack: nat, task: nat, d: Dir, n: nat)
    requires Live(r, record, PROCESS_BLOCKS) && Live(r, elf, ELF_FILE_BLOCKS) && Live(r, image, n)
    requires Live(r, stack, STACK_BLOCKS) && Live(r, task, TASK_BLOCKS) && forall b :: b in DirBlocks(d) ==> b in r
    requires DistinctParts(record, elf, Some(image), stack, task, d) && Partition(r, HEAP_BLOCKS)
    ensures 0 < n <= HEAP_BLOCKS - OTHER_BLOCKS
  {
    hide Partition, DirBlocks, DistinctDir, RunBlocks;
    var a, b, c := RunBlocks(record, PROCESS_BLOCKS), RunBlocks(elf, ELF_FILE_BLOCKS), RunBlocks(image, n);
    var e, f, g := RunBlocks(stack, STACK_BLOCKS), RunBlocks(task, TASK_BLOCKS), RunBlocks(0, HEAP_BLOCKS);
    PartsMiss(r, record, elf, image, stack, task);
    MissesDir(r, record, d);
    MissesDir(r, elf, d);
    MissesDir(r, image, d);
    MissesDir(r, stack, d);
    MissesDir(r, task, d);
    InHeap(r, d);
    RunSize(record, PROCESS_BLOCKS);
    RunSize(elf, ELF_FILE_BLOCKS);
    RunSize(image, n);
    RunSize(stack, STACK_BLOCKS);
    RunSize(task, TASK_BLOCKS);
    RunSize(0, HEAP_BLOCKS);
    DirSize(d);
    RunInside(r, image, HEAP_BLOCKS);
    SixParts(a, b, c, e, f, DirBlocks(d), g);
  }

  lemma PartsMiss(r: Runs, record: nat, elf: nat, image: nat, stack: nat, task: nat)
    requires Partition(r, HEAP_BLOCKS) && {record, elf, image, stack, task} <= r.Keys
    requires record != elf && record != stack && record != task && elf != stack && elf != task && stack != task
    requires image !in {record, elf, stack, task}
    ensures var all := {record, elf, image, stack, task};
      forall a, b :: a in all && b in all && a != b ==> RunBlocks(a, r[a]) !! RunBlocks(b, r[b])
  {
    hide Partition, RunBlocks;
    forall a, b | a in {record, elf, image, stack, task} && b in {record, elf, image, stack, task} && a != b
      ensures RunBlocks(a, r[a]) !! RunBlocks(b, r[b])
    {
      RunsApart(r, HEAP_BLOCKS, a, b);
    }
  }

  lemma MissesDir(r: Runs, b: nat, d: Dir)
    requires Partition(r, HEAP_BLOCKS) && b in r && b !in DirBlocks(d) && forall c :: c in DirBlocks(d) ==> c in r
    ensures RunBlocks(b, r[b]) !! DirBlocks(d)
  {
    hide Partition, RunBlocks, DirBlocks;
    forall c | c in DirBlocks(d) ensures c !in RunBlocks(b, r[b]) {
      StartOnce(r, HEAP_BLOCKS, b, c);
    }
  }

  lemma InHeap(r: Runs, d: Dir)
    requires Partition(r, HEAP_BLOCKS) && forall c :: c in DirBlocks(d) ==> c in r
    ensures DirBlocks(d) <= RunBlocks(0, HEAP_BLOCKS)
    ensures forall b :: b in r ==> RunBlocks(b, r[b]) <= RunBlocks(0, HEAP_BLOCKS)
  {
    hide DirBlocks;
    forall b | b in r ensures 0 < r[b] && b + r[b] <= HEAP_BLOCKS { RunInside(r, b, HEAP_BLOCKS); }
  }

  lemma SixParts(a: set<nat>, b: set<nat>, c: set<nat>, d: set<nat>, e: set<nat>, f: set<nat>, all: set<nat>)
    requires a !! b && a + b !! c && a + b + c !! d && a + b + c + d !! e && a + b + c + d + e !! f
    requires a + b + c + d + e + f <= all
    ensures |a| + |b| + |c| + |d| + |e| + |f| <= |all|
  {
    var s := a + b + c + d + e + f;
    assert all == s + (all - s);
  }

  // --- Isolated in every layout -----------------------------------------------------------------------

  ghost predicate StaysInside(r: Runs, img: Image, l: Loading, pages: seq<Word>)
    requires l.Complete?
  {
    |pages| == PAGES && Isolated(r + LoadingRuns(l, img.size), NewProc(l, pages))
  }

  /** There is a place in the heap where the loader takes all the headers. */
  ghost predicate LoadsSomewhere(img: Image) {
    exists image: nat :: image < HEAP_BLOCKS && image + Blocks(img.size) <= HEAP_BLOCKS &&
      AllAccepted(Addr(image), img.phdrs)
  }

  /** From the headers and the file's length alone, whatever the headers: a file that can be
      loaded at all is isolated wherever its runs may lie exactly when each page a writable
      segment decides is one of the file's own. */
  lemma IsolatedInEveryLayoutIff(img: Image)
    ensures (forall r, l, pages :: Maps(r, img, l, pages) && l.image.Some? ==> StaysInside(r, img, l, pages))
      <==> (HasRoom(img) && LoadsSomewhere(img) ==> InsideFile(img))
  {
    hide FreshLoading, MapMemory, LoadingRuns, Isolated, Blocks, InsideFile, AllAccepted, WritesPage, FilePage,
      LoadsSomewhere;
    forall r, l, pages | Maps(r, img, l, pages) && l.image.Some?
        && (HasRoom(img) && LoadsSomewhere(img) ==> InsideFile(img))
      ensures StaysInside(r, img, l, pages)
    {
      MapsHasRoom(r, img, l, pages);
      MappedSomewhere(r, img, l, pages);
      InsideIsIsolated(r, img, l, pages);
    }
    if HasRoom(img) && LoadsSomewhere(img) && !InsideFile(img) {
      var i, v := OutsidePage(img);
      var image := Somewhere(img);
      var l, pages := Overflows(img, image, i, v);
      assert Maps(map[], img, l, pages) && !StaysInside(map[], img, l, pages);
    }
  }

  lemma Somewhere(img: Image) returns (image: nat)
    requires LoadsSomewhere(img)
    ensures image < HEAP_BLOCKS && image + Blocks(img.size) <= HEAP_BLOCKS && AllAccepted(Addr(image), img.phdrs)
  {
    hide Blocks, AllAccepted;
    image :| image < HEAP_BLOCKS && image + Blocks(img.size) <= HEAP_BLOCKS && AllAccepted(Addr(image), img.phdrs);
  }

  lemma OutsidePage(img: Image) returns (i: int, v: int)
    requires !InsideFile(img)
    ensures 0 <= i < |img.phdrs| && WritesPage(0, img.phdrs, v, i) && FilePage(img.phdrs[i], v) >= Blocks(img.size)
  {
    hide WritesPage, FilePage, Blocks;
    i, v :| 0 <= i < |img.phdrs| && WritesPage(0, img.phdrs, v, i) && FilePage(img.phdrs[i], v) >= Blocks(img.size);
  }

  lemma MappedSomewhere(r: Runs, img: Image, l: Loading, pages: seq<Word>)
    requires Maps(r, img, l, pages) && l.image.Some?
    ensures LoadsSomewhere(img) && l.Complete?
    ensures InsideFile(img) ==> SafeLoad(img, l)
  {
    hide FreshLoading, LoadingRuns, MapMemory, Blocks, AllAccepted, InsideFile;
    PartRuns(r, l, img.size);
    MemoryKnown(r, l, img.size);
    LoadedWord(r, img, l, pages, 0);
  }

  /** A layout around the file in which a page outside it is writable. */
  lemma Overflows(img: Image, image: nat, i: int, v: int) returns (l: Loading, pages: seq<Word>)
    requires HasRoom(img) && image + Blocks(img.size) <= HEAP_BLOCKS
    requires image < HEAP_BLOCKS && AllAccepted(Addr(image), img.phdrs)
    requires 0 <= i < |img.phdrs| && WritesPage(0, img.phdrs, v, i) && FilePage(img.phdrs[i], v) >= Blocks(img.size)
    ensures Maps(map[], img, l, pages) && l.image.Some? && !StaysInside(map[], img, l, pages)
  {
    hide MapMemory, FreshLoading, LoadingRuns, Isolated, Blocks, WritesPage, FilePage, AllAccepted, Row, Single,
      DirAround, Layout, DirOutside, SegmentFrame, InSegment;
    var n, c := Blocks(img.size), SegmentFrame(Addr(image), img.phdrs[i], v) - HEAP_FRAME;
    var y := Row(image, n);
    RowMisses(image, n);
    var (stack, left) := if y + 3 <= c < y + 7 then (y + 7, y + 3) else (y + 3, y + 7);
    var elf, task, d := Single(image, n, left, 0), Single(image, n, left, 1), DirAround(image, n, left);
    LayoutAround(image, n, stack, left);
    l, pages := At(y, elf, image, stack, task, d), Loaded(img, image, stack);
    LoadMaps(img, y, elf, image, stack, task, d);
    WritesMoved(image, img.phdrs, v, i);
    PageInImage(map[], img, l, pages, v, i);
    FoundAt(img.size, y, elf, image, stack, task, d);
    LoadIsolatesIff(map[], img, l, pages);
    assert !LandsInside(map[] + LoadingRuns(l, img.size), l, img.phdrs[i], v);
  }

  // --- Files that are not isolated ------------------------------------------------------------------------

  /** The layout first fit gives the first file loaded, if it is one block long. */
  lemma FirstLayout()
    ensures Blocks(PAGE_SIZE) == 1
    ensures Layout(0, 3, 4, 1, 5, 9) && DirOutside(0, 3, 4, 1, 5, 9, DirAt(10))
  {
    DirAtBlocks(10);
    hide DirAt, DirBlocks, DistinctDir;
  }

  /** There a file of one segment has this page map. */
  ghost function FirstLoad(ph: Phdr): (r: (Image, Loading, seq<Word>))
    ensures |r.2| == PAGES && r.1.Complete?
  {
    var img := Image(PAGE_SIZE, [ph]);
    (img, At(0, 3, 4, 5, 9, DirAt(10)), Loaded(img, 4, 5))
  }

  /** It can write the block behind page v of its segment. */
  lemma FirstWrites(ph: Phdr, v: nat, c: nat)
    requires WantsWrite(ph) && Accepted(Addr(4), ph) && v < PAGES && InSegment(Addr(4), ph, v) && !OnStackPage(v)
    requires SegmentFrame(Addr(4), ph, v) == HEAP_FRAME + c && c != 4 && !(5 <= c < 9)
    ensures var (img, l, pages) := FirstLoad(ph);
      && Maps(map[], img, l, pages) && !StaysInside(map[], img, l, pages)
      && CanWrite(NewProc(l, pages), c) && Writable(pages[v]) && FrameOf(pages[v]) == HEAP_FRAME + c
  {
    hide MapMemory, FreshLoading, LoadingRuns, Isolated, DirAt, Identity, Layout, DirOutside, Accepted, InSegment,
      SegmentFrame, OnStackPage;
    var (img, l, pages) := FirstLoad(ph);
    FirstLayout();
    LoadMaps(img, 0, 3, 4, 5, 9, DirAt(10));
    assert WritesPage(l.memory, img.phdrs, v, 0);
    FoundAt(PAGE_SIZE, 0, 3, 4, 5, 9, DirAt(10));
    LoadIsolatesIff(map[], img, l, pages);
    assert !LandsInside(map[] + LoadingRuns(l, PAGE_SIZE), l, ph, v);
    LoadedWord(map[], img, l, pages, v);
    SegmentEntry(l.memory, ph, v, pages[v]);
  }

  /** A failing file: one block long, with a writable segment of six pages. The process can
      write its own task record. */
  lemma OverflowWritesTask()
    ensures var (img, l, pages) := FirstLoad(Phdr(1, 0, 0x40_0000, PAGE_SIZE, 6 * PAGE_SIZE, PF_W));
      Maps(map[], img, l, pages) && CanWrite(NewProc(l, pages), l.task) && !StaysInside(map[], img, l, pages)
  {
    FirstWrites(Phdr(1, 0, 0x40_0000, PAGE_SIZE, 6 * PAGE_SIZE, PF_W), 0x405, 9);
  }

  /** p_offset is a signed number (src/loader/format/elf.h:64): the page in front of the file. */
  const NEGATIVE_OFFSET := Phdr(1, 0xFFFF_F000, 0x40_0000, PAGE_SIZE, PAGE_SIZE, PF_W)

  /** Another: with p_offset -4096 a one-page segment is the block in front of the image, where
      first fit has just put the struct elf_file. The process can write the word its end takes
      for the file's address. */
  lemma NegativeOffsetWritesElf()
    ensures var (img, l, pages) := FirstLoad(NEGATIVE_OFFSET);
      && Maps(map[], img, l, pages) && CanWrite(NewProc(l, pages), l.elf) && !StaysInside(map[], img, l, pages)
      && Writable(pages[0x400]) && FrameOf(pages[0x400]) == HEAP_FRAME + l.elf
  {
    FirstWrites(NEGATIVE_OFFSET, 0x400, 3);
  }

  /** The first load leaves the blocks from 1036 on free. */
  lemma FirstEnds(ph: Phdr, a: nat)
    requires a in LoadingRuns(FirstLoad(ph).1, PAGE_SIZE)
    ensures a < 1036 && a + LoadingRuns(FirstLoad(ph).1, PAGE_SIZE)[a] <= 1036
  {
    hide LoadingRuns, DirAt, DirBlocks, DistinctDir;
    FirstLayout();
    DirAtBlocks(10);
    LayoutDistinct(PAGE_SIZE, 0, 3, 4, 5, 9, DirAt(10));
    CompleteParts(FirstLoad(ph).1, PAGE_SIZE);
    ImageSize(FirstLoad(ph).1, PAGE_SIZE);
  }

  /** A file whose writable segment of six pages is overlaid by a read-only one is inside, for
      all that the writable header reaches beyond its one block. */
  lemma OverlaidIsInside()
    ensures var wide := Phdr(1, 0, 0x40_0000, PAGE_SIZE, 6 * PAGE_SIZE, PF_W);
      var over := Phdr(1, 0, 0x40_1000, PAGE_SIZE, 5 * PAGE_SIZE, 0);
      InsideFile(Image(PAGE_SIZE, [wide, over])) && !EndsWithin(wide, 1)
  {
    hide OnStackPage;
    var wide := Phdr(1, 0, 0x40_0000, PAGE_SIZE, 6 * PAGE_SIZE, PF_W);
    var over := Phdr(1, 0, 0x40_1000, PAGE_SIZE, 5 * PAGE_SIZE, 0);
    var img := Image(PAGE_SIZE, [wide, over]);
    forall i, v | 0 <= i < |img.phdrs| && WritesPage(0, img.phdrs, v, i)
      ensures FilePage(img.phdrs[i], v) < Blocks(img.size)
    {
      assert i == 0 && !InSegment(0, img.phdrs[1], v);
    }
  }

  // --- A file that failed ELF validation ----------------------------------------------------------

  /** A writable segment of one page, that of its elf_memory. */
  const ONE_PAGE := Phdr(1, 0, 0x40_0000, PAGE_SIZE, PAGE_SIZE, PF_W)

  lemma OnePageAt(b: nat)
    requires b < HEAP_BLOCKS
    ensures Accepted(Addr(b), ONE_PAGE) && InSegment(Addr(b), ONE_PAGE, 0x400) && !OnStackPage(0x400)
    ensures WantsWrite(ONE_PAGE) && SegmentFrame(Addr(b), ONE_PAGE, 0x400) == HEAP_FRAME + b
  {
  }

  /** A failing file of any length: its bytes lead the kernel to a writable one-page segment
      at the block b, which the process can then write, whoever's block it is. */
  lemma RawWritesAnywhere(r: Runs, size: Word, l: Loading, b: nat)
    requires l.Complete? && FreshLoading(r, l, size) && l.stack < HEAP_BLOCKS && l.image.None?
    requires b < HEAP_BLOCKS && l.memory == Addr(b)
    requires !Covers(r + LoadingRuns(l, size), l.stack, b)
    ensures var (img, pages) := (Image(size, [ONE_PAGE]), Loaded(Image(size, [ONE_PAGE]), b, l.stack));
      Maps(r, img, l, pages) && CanWrite(NewProc(l, pages), b) && !StaysInside(r, img, l, pages)
  {
    hide MapMemory, FreshLoading, LoadingRuns, Isolated, Identity, Blocks, StackAddress, Accepted, InSegment,
      SegmentFrame, OnStackPage, WantsWrite;
    var img, pages := Image(size, [ONE_PAGE]), Loaded(Image(size, [ONE_PAGE]), b, l.stack);
    OnePageAt(b);
    StackIsRun(l.stack);
    MapMemoryAt(Identity(IS_PRESENT + ACCESS_FROM_ALL), Addr(b), img.phdrs, Addr(l.stack), 0);
    assert WritesPage(l.memory, img.phdrs, 0x400, 0);
    LoadIsolatesIff(r, img, l, pages);
    assert !LandsInside(r + LoadingRuns(l, size), l, ONE_PAGE, 0x400);
    LoadedWord(r, img, l, pages, 0x400);
    SegmentEntry(l.memory, ONE_PAGE, 0x400, pages[0x400]);
  }
}
