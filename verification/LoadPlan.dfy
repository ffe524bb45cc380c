/** What process_load meets, what it asks the heap for, in which order, and how it ends:
    src/task/process.c:327-577 and src/loader/format/elfloader.c:185-221, as conditions on the
    heap, the process table and the file. */
module LoadPlan {
  import opened Machine
  import opened HeapRuns
  import opened Heap
  import opened PageTables
  import opened Elf
  import opened System

  /** What process_load_data meets when it opens the file: nothing; bytes it cannot read; a
      file that passes ELF validation; or one that does not. Of that the kernel later takes
      the word at byte 112 for elf_memory and reads program headers by way of it. */
  datatype File =
    | Missing
    | Unreadable(size: Word)
    | Program(image: Image)
    | Other(bytes: Image, memory: Word, again: Again)

  /** How process_load_binary's own reading of the file ends. */
  datatype Again = Gone | Broken | Read

  function ImageOf(file: File): Image {
    match file
    case Missing => Image(0, [])
    case Unreadable(size) => Image(size, [])
    case Program(image) => image
    case Other(bytes, _, _) => bytes
  }

  /** The runs of a new process before task_new, and the elf_memory word. */
  datatype Parts = Parts(record: nat, elf: nat, image: Option<nat>, memory: Word, stack: nat)

  // --- The heap, request by request ---------------------------------------------------------------

  /** The heap after a request for n blocks. */
  ghost function Grown(r: Runs, n: nat): Runs {
    var fit := FirstFit(r, HEAP_BLOCKS, n);
    if fit == -1 then r else r[fit := n]
  }

  ghost predicate Grants(r: Runs, n: nat) {
    FirstFit(r, HEAP_BLOCKS, n) != -1
  }

  /** Blocks for the file's bytes. */
  function FileBlocks(file: File): nat {
    Blocks(ImageOf(file).size)
  }

  /** The heap after elf_load: a struct elf_file and, if the file opens, room for its bytes. */
  ghost function AfterElf(r: Runs, file: File): Runs {
    if file.Missing? then Grown(r, ELF_FILE_BLOCKS) else Grown(Grown(r, ELF_FILE_BLOCKS), FileBlocks(file))
  }

  /** The heap after process_load_data: for a file that is not ELF, and opens again, room for
      its bytes once more. */
  ghost function AfterData(r: Runs, file: File): Runs {
    if file.Other? && !file.again.Gone? then Grown(AfterElf(r, file), FileBlocks(file)) else AfterElf(r, file)
  }

  /** process_load_data succeeds on the heap r. */
  ghost predicate IsRead(r: Runs, file: File) {
    file.Program? || (file.Other? && file.again.Read? && Grants(AfterElf(r, file), FileBlocks(file)))
  }

  /** It ends for want of memory. */
  ghost predicate RawRefused(r: Runs, file: File) {
    file.Other? && !file.again.Gone? && !Grants(AfterElf(r, file), FileBlocks(file))
  }

  /** It ends because the file does not open or cannot be read. */
  ghost predicate ReadFails(r: Runs, file: File) {
    || file.Missing? || file.Unreadable?
    || (file.Other? && (file.again.Gone? || (file.again.Broken? && Grants(AfterElf(r, file), FileBlocks(file)))))
  }

  /** The word the load finds, or writes, at elf_memory. */
  ghost function WordFound(r: Runs, file: File): Word {
    if file.Other? then file.memory
    else
      var fit := FirstFit(Grown(r, ELF_FILE_BLOCKS), HEAP_BLOCKS, FileBlocks(file));
      if fit == -1 then 0 else Addr(fit)
  }

  // --- The whole load -----------------------------------------------------------------------------

  /** All that process_load_for_slot asks for before task_new is granted and read. */
  ghost predicate PartsGranted(r: Runs, file: File) {
    var r1 := Grown(r, PROCESS_BLOCKS);
    Grants(r, PROCESS_BLOCKS) && IsRead(r1, file) && Grants(AfterData(r1, file), STACK_BLOCKS)
  }

  /** The record, the raw bytes or the stack of a file that is read is refused. */
  ghost predicate LacksMemory(r: Runs, file: File) {
    var r1 := Grown(r, PROCESS_BLOCKS);
    || !Grants(r, PROCESS_BLOCKS) || RawRefused(r1, file)
    || (IsRead(r1, file) && !Grants(AfterData(r1, file), STACK_BLOCKS))
  }

  ghost predicate FailsToRead(r: Runs, file: File) {
    Grants(r, PROCESS_BLOCKS) && ReadFails(Grown(r, PROCESS_BLOCKS), file)
  }

  /** paging_map_to takes every segment, at the place the word leads to. */
  ghost predicate SegmentsTaken(r: Runs, file: File) {
    AllAccepted(WordFound(Grown(r, PROCESS_BLOCKS), file), ImageOf(file).phdrs)
  }

  ghost predicate SlotFree(k: State) {
    exists i :: 0 <= i < |k.procs| && k.procs[i].None?
  }

  /** How process_load ends, from the process table, the heap and the file: it succeeds exactly
      when a slot is free, record, data and stack are granted in this order, the file is read,
      and every segment can be mapped; and each error has its one cause. */
  ghost predicate EndsWith(k: State, file: File, res: int) {
    && (res == 0 <==> SlotFree(k) && PartsGranted(k.runs, file) && SegmentsTaken(k.runs, file))
    && (res == -EISTKN <==> !SlotFree(k))
    && (res == -ENOMEM <==> SlotFree(k) && LacksMemory(k.runs, file))
    && (res == -EIO <==> SlotFree(k) && FailsToRead(k.runs, file))
    && (res == -EINVARG <==> SlotFree(k) && PartsGranted(k.runs, file) && !SegmentsTaken(k.runs, file))
    && res in {0, -EISTKN, -ENOMEM, -EIO, -EINVARG}
  }

  /** There is always exactly one such end. */
  lemma OneEnd(k: State, file: File)
    ensures exists res :: EndsWith(k, file, res)
    ensures forall res, res' :: EndsWith(k, file, res) && EndsWith(k, file, res') ==> res == res'
  {
    hide Grants, Grown, AfterElf, AfterData, AllAccepted, SlotFree, SegmentsTaken;
    EndsAt(k, file, if !SlotFree(k) then -EISTKN else if LacksMemory(k.runs, file) then -ENOMEM
      else if FailsToRead(k.runs, file) then -EIO else if SegmentsTaken(k.runs, file) then 0 else -EINVARG);
  }

  lemma EndsAt(k: State, file: File, res: int)
    requires res == if !SlotFree(k) then -EISTKN else if LacksMemory(k.runs, file) then -ENOMEM
      else if FailsToRead(k.runs, file) then -EIO else if SegmentsTaken(k.runs, file) then 0 else -EINVARG
    ensures EndsWith(k, file, res)
  {
    hide Grants, Grown, AfterElf, AfterData, AllAccepted, SlotFree, SegmentsTaken;
  }

  lemma EndsEarly(k: State, file: File, res: int)
    requires !SlotFree(k) ==> res == -EISTKN
    requires SlotFree(k) ==>
      && res != 0 && (res == -ENOMEM || res == -EIO) && !PartsGranted(k.runs, file)
      && (res == -ENOMEM <==> LacksMemory(k.runs, file)) && (res == -EIO <==> FailsToRead(k.runs, file))
    ensures EndsWith(k, file, res)
    ensures !SlotFree(k) ==> HeapLeft(k, file) == k.runs
  {
    hide PartsGranted, LacksMemory, FailsToRead, SlotFree, SegmentsTaken;
  }

  lemma EndsLate(k: State, file: File, p: Parts, res: int)
    requires SlotFree(k) && PartsGranted(k.runs, file) && PartsAt(k.runs, file, p)
    requires (res == 0 <==> AllAccepted(p.memory, ImageOf(file).phdrs)) && (res == 0 || res == -EINVARG)
    ensures EndsWith(k, file, res)
  {
    hide Grants, Grown, AfterElf, AfterData, AllAccepted, SlotFree;
  }

  /** The heap when the load is over, but for the task and the page tables of a process that
      was loaded. */
  ghost function HeapLeft(k: State, file: File): Runs {
    var r1 := Grown(k.runs, PROCESS_BLOCKS);
    if !SlotFree(k) || !Grants(k.runs, PROCESS_BLOCKS) then k.runs
    else if !IsRead(r1, file) then AfterData(r1, file)
    else Grown(AfterData(r1, file), STACK_BLOCKS)
  }

  /** The runs of a loaded process are where first fit puts them. */
  ghost predicate PartsAt(r: Runs, file: File, p: Parts) {
    var r1 := Grown(r, PROCESS_BLOCKS);
    && p.record == FirstFit(r, HEAP_BLOCKS, PROCESS_BLOCKS)
    && DataAt(r1, file, p.elf, p.image, p.memory)
    && p.stack == FirstFit(AfterData(r1, file), HEAP_BLOCKS, STACK_BLOCKS)
  }

  ghost predicate DataAt(r: Runs, file: File, elf: nat, image: Option<nat>, memory: Word) {
    && memory == WordFound(r, file)
    && if file.Other? then image.None? && elf == FirstFit(AfterElf(r, file), HEAP_BLOCKS, FileBlocks(file))
       else
         (elf == FirstFit(r, HEAP_BLOCKS, ELF_FILE_BLOCKS) && image.Some?
         && image.value == FirstFit(Grown(r, ELF_FILE_BLOCKS), HEAP_BLOCKS, FileBlocks(file)))
  }

  ghost function PartsOfProc(q: Proc): Parts {
    Parts(q.record, q.elf, q.image, q.memory, q.stack)
  }

  /** Process q is the one that was loaded, r the heap afterwards. */
  ghost predicate LoadedAs(k: State, file: File, q: Proc, r: Runs) {
    && PartsAt(k.runs, file, PartsOfProc(q)) && Tasked(HeapLeft(k, file), q, r)
  }

  /** After task_new: a task record where first fit puts it, and the 1026 paging blocks. */
  ghost predicate Tasked(before: Runs, q: Proc, r: Runs) {
    q.task == FirstFit(before, HEAP_BLOCKS, TASK_BLOCKS) && r == Grown(before, TASK_BLOCKS) + Singles(DirBlocks(q.dir))
  }

  lemma SlotIsFree(k: State)
    ensures SlotFree(k) <==> FreeSlot(k.procs, 0) >= 0
    ensures !SlotFree(k) ==> FreeSlot(k.procs, 0) == -EISTKN
  {
  }

  // --- Room -------------------------------------------------------------------------------------------

  /** elf_load's two allocations, which it does not check, are granted. */
  ghost predicate DataRoom(r: Runs, file: File) {
    Grants(r, ELF_FILE_BLOCKS) && (file.Missing? || Grants(Grown(r, ELF_FILE_BLOCKS), FileBlocks(file)))
  }

  /** The allocations of a load whose results the source does not check are granted, if it
      comes to them: elf_load's two, the task record and the 1026 of paging_new_4gb. */
  ghost predicate LoadRoom(r: Runs, file: File) {
    Grants(r, PROCESS_BLOCKS) ==>
      var r1 := Grown(r, PROCESS_BLOCKS);
      && DataRoom(r1, file)
      && (PartsGranted(r, file) ==>
            |FreeBlocks(Grown(AfterData(r1, file), STACK_BLOCKS), HEAP_BLOCKS)| >= ENTRIES + 3)
  }

  // --- The first program ------------------------------------------------------------------------------

  /** The runs fill the blocks up to end and no others. */
  ghost predicate Packed(r: Runs, end: nat) {
    (forall b :: b in r ==> b + r[b] <= end) && forall i :: 0 <= i < end ==> InSomeRun(r, i)
  }

  /** Then the next request gets the blocks from end on. */
  lemma PackedFit(r: Runs, end: nat, n: nat)
    requires Packed(r, end) && n > 0 && end + n <= HEAP_BLOCKS
    ensures FirstFit(r, HEAP_BLOCKS, n) == end && Grants(r, n)
    ensures Packed(Grown(r, n), end + n)
  {
    assert FreeAt(r, end, n);
    var f := FirstFit(r, HEAP_BLOCKS, n);
    assert f < end ==> InSomeRun(r, f);
    var r' := r[end := n];
    forall i | 0 <= i < end + n ensures InSomeRun(r', i) {
      if i < end {
        assert InSomeRun(r, i);
        var b: nat :| Covers(r, b, i);
        assert Covers(r', b, i);
      } else {
        assert Covers(r', end, i);
      }
    }
  }

  /** On the empty heap an ELF file with room in it is loaded exactly when its segments can be
      mapped for an image at block 4, as the kernel's own start of its first program does. */
  lemma FirstProgramLoads(k: State, img: Image, res: int)
    requires k.runs == map[] && |k.procs| > 0 && k.procs[0].None? && EndsWith(k, Program(img), res)
    requires 0 < Blocks(img.size) <= HEAP_BLOCKS - 8
    ensures res == if AllAccepted(Addr(4), img.phdrs) then 0 else -EINVARG
  {
    hide Packed, FirstFit, AllAccepted, Blocks;
    var n := Blocks(img.size);
    EmptyIsPacked();
    PackedFit(map[], 0, 3);
    var r1 := Grown(map[], 3);
    PackedFit(r1, 3, 1);
    var r2 := Grown(r1, 1);
    PackedFit(r2, 4, n);
    PackedFit(Grown(r2, n), 4 + n, 4);
  }

  lemma EmptyIsPacked()
    ensures Packed(map[], 0)
  {
  }
}
