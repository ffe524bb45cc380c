/** src/isr80h/process.c: the system calls that start a program, from the command line the
    user types to the argc and argv the new program finds. */
module SystemCommands {
  import opened Machine
  import opened HeapRuns
  import opened PageTables
  import opened System
  import opened Invariants
  import opened Preservation
  import opened Tasks
  import opened LoadPlan
  import opened Kernel
  import opened Strings
  import opened Command
  import opened Arguments

  /** The list's buffers are none of the kernel's own arrays. */
  ghost predicate BuffersApart(nodes: seq<CommandArgument>, kern: Kernel) {
    forall n :: n in nodes ==>
      n.argument as object != kern.memory.ram && n.argument as object != kern.memory.heap.entries
  }

  lemma EndIsNotPositive(k: State, file: File, res: int)
    requires EndsWith(k, file, res)
    ensures res <= 0
  {
  }

  /** isr80h_command6_process_load_start after the file name is copied: the new program gets
      the keyboard and the processor. */
  method ProcessLoadStart(kern: Kernel, file: File)
    returns (res: int, process: Process?, ghost l: Loading, ghost loaded: State)
    requires kern.Valid() && !kern.halted && LoadRoom(kern.abs.runs, file)
    modifies kern`abs, kern`currentProcess, kern.memory.heap`runs, kern.memory.heap.entries, kern.memory.ram,
      kern.processes, kern.tasks, kern.tasks.list
    ensures kern.Valid() && LoadsAs(old(kern.abs), ImageOf(file), l, loaded, res)
    ensures EndsWith(old(kern.abs), file, res)
    ensures res < 0 ==> kern.abs == loaded
    ensures res == 0 ==>
      process != null && kern.abs == loaded.(focus := Some(process.id), current := Some(process.id))
  {
    hide Kernel.Valid, Inv, LoadRoom, LoadsAs, EndsWith, LoadedAs, HeapLeft;
    res, process, l, loaded := kern.ProcessLoadSwitch(file);
    EndIsNotPositive(old(kern.abs), file, res);
    if res < 0 {
      return;
    }
    kern.TaskSwitch(process);
  }

  /** The first argument is missing or empty. */
  predicate NoProgram(root: CommandArgument?)
    requires root != null ==> root.argument.Length == ARGUMENT_SIZE
    reads if root == null then {} else {root.argument}
  {
    root == null || root.argument[0] == NUL
  }

  /** isr80h_command7_invoke_system_command: the program named by the first argument is loaded,
      given the keyboard, its arguments and the processor, in this order. A program that is
      loaded but runs out of memory for its arguments keeps what it was granted, and the
      keyboard. */
  method InvokeSystemCommand(kern: Kernel, file: File, root: CommandArgument?, ghost nodes: seq<CommandArgument>,
      ghost words: seq<seq<char>>)
    returns (res: int, process: Process?, ghost l: Loading, ghost loaded: State, ghost code: int)
    requires kern.Valid() && !kern.halted && LoadRoom(kern.abs.runs, file)
    requires Command.Linked(nodes) && root == (if nodes == [] then null else nodes[0]) && Given(nodes, words)
    requires BuffersApart(nodes, kern) && |nodes| * ARGUMENT_SIZE < WORD - PAGE_SIZE
    modifies kern`abs, kern`currentProcess, kern.memory.heap`runs, kern.memory.heap.entries, kern.memory.ram,
      kern.processes, kern.tasks, kern.tasks.list
    ensures kern.Valid()
    ensures words == [] || words[0] == [] ==> res == -EINVARG && kern.abs == old(kern.abs)
    ensures words != [] && words[0] != [] ==>
      && LoadsAs(old(kern.abs), ImageOf(file), l, loaded, code) && EndsWith(old(kern.abs), file, code)
      && (code != 0 ==> res == code && kern.abs == loaded)
      && (code == 0 ==> process != null && Started(kern, process, loaded, words, res))
  {
    hide Kernel.Valid, Inv, LoadRoom, Gives, Command.Linked, MallocAll, SeesArguments, LoadsAs, EndsWith, LoadedAs,
      HeapLeft, EmptyLedger, FreeBlocks;
    process, l, loaded, code := null, NoRecord, kern.abs, 0;
    FirstIsWord(root, nodes, words);
    if NoProgram(root) {
      return -EINVARG, process, l, loaded, code;
    }
    res, process, l, loaded := kern.ProcessLoadSwitch(file);
    code := res;
    EndIsNotPositive(old(kern.abs), file, res);
    if res < 0 {
      return;
    }
    ghost var k := kern.abs;
    FreshLedger(old(kern.abs), ImageOf(file), l, loaded);
    kern.ValidParts(process);
    Granted(k, loaded, process.id, |words|);
    res := InjectArguments(kern, process, root, nodes, words);
    if res < 0 {
      return;
    }
    kern.TaskSwitch(process);
  }

  lemma FreshLedger(k: State, img: Image, l: Loading, loaded: State)
    requires LoadsAs(k, img, l, loaded, 0)
    ensures var slot := FreeSlot(k.procs, 0);
      slot >= 0 && Occupied(loaded, slot) && loaded.procs[slot].value.ledger == EmptyLedger()
  {
    hide FreshLoading, Load, EmptyLedger;
    LoadOutcome(k, img, l);
  }

  lemma Granted(k: State, loaded: State, i: nat, n: nat)
    requires Inv(k) && Occupied(k, i) && !k.halted && n > 0 && k == loaded.(focus := k.focus)
    requires k.procs[i].value.ledger == EmptyLedger()
    ensures n <= 1023 ==>
      (MallocAll(k, i, ArgumentSizes(n)).1 <==> |FreeBlocks(loaded.runs, HEAP_BLOCKS)| >= n + 1)
  {
    hide Inv, FreeBlocks, EmptyLedger, MallocAll;
    if n <= 1023 { ArgumentsGrantedIff(k, i, n); }
  }

  /** What has become of a program that was loaded: its arguments in memory of its own, and
      the processor, exactly when all the mallocs for them succeed, which for up to 1023
      arguments is a matter of free blocks. */
  ghost predicate Started(kern: Kernel, process: Process, loaded: State, words: seq<seq<char>>, res: int)
    reads kern, kern.memory, kern.memory.ram, process, process.arguments
  {
    var focused := loaded.(focus := Some(process.id));
    && Inv(focused) && Occupied(focused, process.id) && !focused.halted
    && var (k, ok) := MallocAll(focused, process.id, ArgumentSizes(|words|));
      && (res == 0 <==> ok) && (res == 0 || res == -ENOMEM)
      && (|words| <= 1023 ==> (res == 0 <==> |FreeBlocks(loaded.runs, HEAP_BLOCKS)| >= |words| + 1))
      && kern.abs == (if ok then k.(current := Some(process.id)) else k)
      && (ok ==> ProgramSees(kern, process, words))
  }

  /** Through its own page map the program finds argc words by way of argv. */
  ghost predicate ProgramSees(kern: Kernel, process: Process, words: seq<seq<char>>)
    reads kern, kern.memory, kern.memory.ram, process, process.arguments
  {
    && kern.memory.ram.Length == PAGES && Occupied(kern.abs, process.id)
    && |kern.abs.procs[process.id].value.pages| == PAGES && process.arguments.argc == |words|
    && SeesArguments(kern.memory.Ram(), kern.abs.procs[process.id].value.pages, process.arguments.argv, words)
  }

  lemma FirstIsWord(root: CommandArgument?, nodes: seq<CommandArgument>, words: seq<seq<char>>)
    requires root == (if nodes == [] then null else nodes[0]) && Given(nodes, words)
    ensures root != null ==> root.argument.Length == ARGUMENT_SIZE
    ensures NoProgram(root) <==> words == [] || words[0] == []
  {
    if nodes != [] { assert Gives(nodes[0].argument, words[0]); }
  }

  // --- From a line to a running program ---------------------------------------------------------------

  /** The first n words, each cut to its buffer. */
  ghost function Cut(words: seq<seq<char>>, n: nat): (r: seq<seq<char>>)
    requires n <= |words|
    ensures |r| == n
  {
    seq(n, t requires 0 <= t < n => Clipped(words[t], ARGUMENT_SIZE - 1))
  }

  /** The text is these words, separated by blanks, and fits the buffer. */
  ghost predicate LineOf(text: seq<char>, line: seq<seq<char>>) {
    && CString(text) == Join(line, ' ') && |Join(line, ' ')| < RUN_BUFFER && line != []
    && forall w :: w in line ==> IsWord(w, ' ')
  }

  lemma LineWords(text: seq<char>, line: seq<seq<char>>)
    requires LineOf(text, line)
    ensures Words(Clipped(CString(text), RUN_BUFFER - 1), [' ']) == line
    ensures line[0] != [] && Clipped(line[0], ARGUMENT_SIZE - 1) != []
  {
    hide Words, CString, Join;
    WordsOfJoin(line, ' ');
    assert IsWord(line[0], ' ');
  }

  /** The calling program's buffer is none of the kernel's arrays. */
  ghost predicate CallerApart(tok: Tokenizer, kern: Kernel)
    reads kern.processes
    reads set j | 0 <= j < kern.processes.Length && kern.processes[j] != null :: kern.processes[j]
  {
    && tok.memory as object != kern.memory.ram && tok.memory as object != kern.memory.heap.entries
    && tok.memory as object != kern.processes
    && forall j :: 0 <= j < kern.processes.Length && kern.processes[j] != null ==>
      kern.processes[j].allocations as object != tok.memory
  }

  lemma LineIsShort(text: seq<char>, line: seq<seq<char>>)
    ensures LineOf(text, line) ==> 0 < |line| <= 1023
  {
    hide Words, CString, Join;
    if LineOf(text, line) {
      LineWords(text, line);
      WordsAreFew(Clipped(CString(text), RUN_BUFFER - 1), [' ']);
    }
  }

  lemma LineEnds(kern: Kernel, process: Process?, loaded: State, k: State, file: File, words: seq<seq<char>>,
      code: int, res: int)
    requires EndsWith(k, file, code) && (code != 0 ==> res == code) && 0 < |words| <= 1023
    requires code == 0 ==> process != null && Started(kern, process, loaded, words, res)
    ensures res == 0 <==>
      && SlotFree(k) && PartsGranted(k.runs, file) && SegmentsTaken(k.runs, file)
      && |FreeBlocks(loaded.runs, HEAP_BLOCKS)| >= |words| + 1
  {
    hide SlotFree, PartsGranted, SegmentsTaken, FreeBlocks, MallocAll, ProgramSees, LacksMemory, FailsToRead, Inv;
  }

  /** multitaskos_system_run with its system call: the line is split in the calling program,
      and the kernel loads the program its first word names. A line of words separated by
      blanks starts a program that finds exactly these words, cut to 511 characters, by way of
      its argc and argv: exactly when the load succeeds and leaves a free block for each word
      and one more. */
  method RunLine(kern: Kernel, file: File, tok: Tokenizer, frame: nat, command: array<char>, granted: nat,
      ghost line: seq<seq<char>>)
    returns (res: int, process: Process?, ghost l: Loading, ghost loaded: State, ghost code: int)
    requires kern.Valid() && !kern.halted && LoadRoom(kern.abs.runs, file) && CallerApart(tok, kern)
    requires command != tok.memory && frame + COMMAND_BUFFER <= tok.memory.Length && tok.sp.None?
    requires Terminated(command[..], 0) || command.Length >= RUN_BUFFER - 1
    modifies tok`sp, tok.memory
    modifies kern`abs, kern`currentProcess, kern.memory.heap`runs, kern.memory.heap.entries, kern.memory.ram,
      kern.processes, kern.tasks, kern.tasks.list
    ensures kern.Valid()
    ensures LineOf(old(command[..]), line) && granted >= |line| ==>
      && LoadsAs(old(kern.abs), ImageOf(file), l, loaded, code) && EndsWith(old(kern.abs), file, code)
      && (code != 0 ==> res == code && kern.abs == loaded)
      && (code == 0 ==> process != null && Started(kern, process, loaded, Cut(line, |line|), res))
    ensures LineOf(old(command[..]), line) && granted >= |line| ==>
      (res == 0 <==>
        && SlotFree(old(kern.abs)) && PartsGranted(old(kern.abs).runs, file) && SegmentsTaken(old(kern.abs).runs, file)
        && |FreeBlocks(loaded.runs, HEAP_BLOCKS)| >= |line| + 1)
  {
    hide Kernel.Valid, Inv, LoadRoom, Gives, Command.Linked, MallocAll, SeesArguments, Words, CString, Terminated,
      StringIs, Holds, Started, LoadsAs, Join, Clipped, EndsWith, PartsGranted, SegmentsTaken, SlotFree, FreeBlocks;
    process, l, loaded, code := null, NoRecord, kern.abs, 0;
    var root;
    ghost var nodes;
    ghost var words := Words(Clipped(CString(command[..]), RUN_BUFFER - 1), [' ']);
    if LineOf(command[..], line) { LineWords(command[..], line); }
    res, root, nodes := SystemRun(tok, frame, command, granted, line);
    if root == null {
      return;
    }
    ParsedIsGiven(nodes, words);
    LineIsShort(command[..], line);
    res, process, l, loaded, code := InvokeSystemCommand(kern, file, root, nodes, Cut(words, |nodes|));
    if LineOf(old(command[..]), line) && granted >= |line| {
      LineEnds(kern, process, loaded, old(kern.abs), file, Cut(line, |line|), code, res);
    }
  }
}
