/** process_inject_arguments (src/task/process.c:234-292): a parsed command line is copied
    into memory the new process owns. */
module Arguments {
  import opened Machine
  import opened HeapRuns
  import opened Heap
  import opened PageTables
  import opened System
  import opened Invariants
  import opened Preservation
  import opened Tasks
  import opened Kernel
  import opened OwnMemory
  import CopyString
  import opened Strings
  import opened Command

  const POINTER_SIZE := 4

  /** Block b starts with the string s and its terminator. */
  ghost predicate TextIn(m: Mem, b: nat, s: seq<char>) {
    && b < HEAP_BLOCKS && |s| < PAGE_SIZE && m[BlockFrame(b)][|s|] == 0
    && forall k :: 0 <= k < |s| ==> m[BlockFrame(b)][k] == s[k] as int
  }

  /** Argument t: the string word in a run of its own, its address in the t-th word of the
      run (ab, an). */
  ghost predicate OneLaid(k: State, i: nat, m: Mem, ab: nat, b: nat, t: nat, word: seq<char>)
    requires ab < HEAP_BLOCKS
  {
    && OwnRun(k, i, b, 1) && b != ab && TextIn(m, b, word)
    && Addr(ab) + POINTER_SIZE * t < WORD && Cell(m, Addr(ab) + POINTER_SIZE * t) == Addr(b)
  }

  /** The first arguments are laid out, each in place. */
  ghost predicate Laid(k: State, i: nat, m: Mem, ab: nat, an: nat, strs: seq<nat>, words: seq<seq<char>>) {
    && OwnRun(k, i, ab, an) && ab < HEAP_BLOCKS && |strs| <= |words| && POINTER_SIZE * |words| <= PAGE_SIZE * an
    && forall t :: 0 <= t < |strs| ==> OneLaid(k, i, m, ab, strs[t], t, words[t])
  }

  /** Writes elsewhere leave an argument as it is. */
  lemma OneLaidKept(k: State, k': State, i: nat, m: Mem, m': Mem, ab: nat, an: nat, b: nat, t: nat, word: seq<char>,
      s: set<nat>)
    requires OwnRun(k, i, ab, an) && OneLaid(k, i, m, ab, b, t, word) && OwnRun(k', i, b, 1)
    requires SameExcept(m, m', s) && RunBlocks(ab, an) !! s && b !in s && POINTER_SIZE * (t + 1) <= PAGE_SIZE * an
    ensures OneLaid(k', i, m', ab, b, t, word)
  {
    hide OwnRun;
    var a := Addr(ab) + POINTER_SIZE * t;
    BlockInRun(a, ab, an);
    assert a / PAGE_SIZE < PAGES;
    assert m'[BlockFrame(b)] == m[BlockFrame(b)];
  }

  /** A further malloc by the process keeps what is laid out. */
  lemma LaidAfterMalloc(k: State, i: nat, m: Mem, m': Mem, ab: nat, an: nat, strs: seq<nat>, words: seq<seq<char>>,
      size: Word, fit: int)
    requires Inv(k) && !k.halted && Occupied(k, i) && fit == FirstFit(k.runs, HEAP_BLOCKS, Blocks(size))
    requires |k.procs[i].value.pages| == PAGES
    requires Laid(k, i, m, ab, an, strs, words) && Malloc(k, i, size, fit).1 != 0
    requires SameExcept(m, m', RunBlocks(fit, Blocks(size)) + TableBlocks(k.procs[i].value.dir))
    ensures Laid(Malloc(k, i, size, fit).0, i, m', ab, an, strs, words)
  {
    hide Inv, Malloc, FirstFit, Blocks, OneLaid, SameExcept, OwnRun, TableBlocks;
    OwnRunsGrow(k, i, size, fit);
    var k' := Malloc(k, i, size, fit).0;
    RunMissesMalloc(k, i, size, fit, ab, an);
    forall t | 0 <= t < |strs| ensures OneLaid(k', i, m', ab, strs[t], t, words[t]) {
      LaidRun(k, i, m, ab, strs[t], t, words[t]);
      RunMissesMalloc(k, i, size, fit, strs[t], 1);
      OneLaidKept(k, k', i, m, m', ab, an, strs[t], t, words[t], RunBlocks(fit,
        Blocks(size)) + TableBlocks(k.procs[i].value.dir));
    }
  }

  lemma LaidRun(k: State, i: nat, m: Mem, ab: nat, b: nat, t: nat, word: seq<char>)
    requires ab < HEAP_BLOCKS && OneLaid(k, i, m, ab, b, t, word)
    ensures OwnRun(k, i, b, 1) && b != ab && b in RunBlocks(b, 1)
  {
    assert InRange(b, b, 1);
  }

  lemma RunMissesMalloc(k: State, i: nat, size: Word, fit: int, b: nat, n: nat)
    requires Inv(k) && !k.halted && Occupied(k, i) && fit == FirstFit(k.runs, HEAP_BLOCKS, Blocks(size))
    requires |k.procs[i].value.pages| == PAGES
    requires OwnRun(k, i, b, n) && Malloc(k, i, size, fit).1 != 0
    ensures fit >= 0 && RunBlocks(b, n) !! RunBlocks(fit, Blocks(size)) + TableBlocks(k.procs[i].value.dir)
  {
    hide RingOk, LedgerBlocks, Blocks, ProcOk, LedgerMapped, Accounted, FirstFit, Malloc, Partition;
    OwnRunsGrow(k, i, size, fit);
    var k' := Malloc(k, i, size, fit).0;
    RunNotDir(k, i, b, n, i);
    RunsApart(k'.runs, HEAP_BLOCKS, b, fit);
  }

  // --- All the allocations --------------------------------------------------------------------

  /** A series of mallocs by one process, until one fails. */
  ghost function MallocAll(k: State, i: nat, sizes: seq<Word>): (r: (State, bool))
    requires Inv(k) && Occupied(k, i) && !k.halted
    decreases |sizes|
  {
    if sizes == [] then (k, true)
    else
      MallocEnabled(k, i, sizes[0]);
      var (k1, ptr) := Malloc(k, i, sizes[0], FirstFit(k.runs, HEAP_BLOCKS, Blocks(sizes[0])));
      if ptr == 0 then (k1, false) else MallocAll(k1, i, sizes[1..])
  }

  lemma MallocEnabled(k: State, i: nat, size: Word)
    requires Inv(k) && Occupied(k, i) && !k.halted
    ensures |k.procs[i].value.pages| == PAGES
    ensures var k' := Malloc(k, i, size, FirstFit(k.runs, HEAP_BLOCKS, Blocks(size))).0;
      Inv(k') && Occupied(k', i) && !k'.halted
  {
    hide ProcsOk, Accounted, RingOk, MallocProc, FirstFit, Blocks;
    PageMapSize(k, i);
    var fit := FirstFit(k.runs, HEAP_BLOCKS, Blocks(size));
    FitEnabled(k, fit, Blocks(size));
    MallocStep(k, i, size, fit);
  }

  lemma FitEnabled(k: State, fit: int, n: nat)
    requires Inv(k) && fit == FirstFit(k.runs, HEAP_BLOCKS, n)
    ensures fit == -1 || FitsAt(k.runs, fit, n)
  {
  }

  /** The ledger's empty entries. */
  ghost function EmptyEntries(l: seq<Allocation>): set<nat> {
    set j: nat | j < |l| && l[j].ptr == 0
  }

  /** One malloc of a block: it takes one free block and one empty entry, if there are any. */
  lemma OneMalloc(k: State, i: nat, size: Word)
    requires 0 < size <= PAGE_SIZE && Occupied(k, i) && !k.halted && Inv(k) && |k.procs[i].value.pages| == PAGES
    ensures var (k', ptr) := Malloc(k, i, size, FirstFit(k.runs, HEAP_BLOCKS, Blocks(size)));
      && (ptr != 0 <==> FreeBlocks(k.runs, HEAP_BLOCKS) != {} && EmptyEntries(k.procs[i].value.ledger) != {})
      && (ptr == 0 ==> k' == k)
      && (ptr != 0 ==>
            && Occupied(k', i) && |FreeBlocks(k'.runs, HEAP_BLOCKS)| == |FreeBlocks(k.runs, HEAP_BLOCKS)| - 1
            && |EmptyEntries(k'.procs[i].value.ledger)| == |EmptyEntries(k.procs[i].value.ledger)| - 1)
  {
    hide Accounted, RingOk, ProcOk, LedgerMapped, FirstFit, PageTables.MapTo, FindPtr;
    var p, fit := k.procs[i].value, FirstFit(k.runs, HEAP_BLOCKS, Blocks(size));
    assert Blocks(size) == 1;
    FitIffFree(k.runs);
    if fit != -1 {
      FitEnabled(k, fit, 1);
      MallocKeeps(k.runs, p, size, fit);
      EntryTaken(p.ledger, Addr(fit), size);
    }
  }

  lemma FitIffFree(r: Runs)
    requires Partition(r, HEAP_BLOCKS)
    ensures var fit := FirstFit(r, HEAP_BLOCKS, 1);
      && (fit != -1 <==> FreeBlocks(r, HEAP_BLOCKS) != {})
      && (fit != -1 ==> 0 <= fit && |FreeBlocks(r[fit := 1], HEAP_BLOCKS)| == |FreeBlocks(r, HEAP_BLOCKS)| - 1)
  {
    var fit := FirstFit(r, HEAP_BLOCKS, 1);
    if FreeBlocks(r, HEAP_BLOCKS) != {} { TakeOne(r, HEAP_BLOCKS); }
    if fit != -1 { assert fit in FreeBlocks(r, HEAP_BLOCKS); }
  }

  lemma EntryTaken(l: seq<Allocation>, ptr: Word, size: Word)
    requires ptr != 0
    ensures var index := FindPtr(l, 0);
      && (index >= 0 <==> EmptyEntries(l) != {})
      && (index >= 0 ==> |EmptyEntries(l[index := Allocation(ptr, size)])| == |EmptyEntries(l)| - 1)
  {
    var index := FindPtr(l, 0);
    if index >= 0 {
      assert index in EmptyEntries(l);
      assert EmptyEntries(l[index := Allocation(ptr, size)]) == EmptyEntries(l) - {index};
    }
  }

  /** Requests of a block each are all granted exactly when the heap has as many free blocks
      and the ledger as many empty entries. */
  lemma {:induction false} MallocAllIff(k: State, i: nat, sizes: seq<Word>)
    requires Inv(k) && Occupied(k, i) && !k.halted && forall size :: size in sizes ==> 0 < size <= PAGE_SIZE
    ensures MallocAll(k, i, sizes).1 <==>
      |FreeBlocks(k.runs, HEAP_BLOCKS)| >= |sizes| && |EmptyEntries(k.procs[i].value.ledger)| >= |sizes|
    decreases |sizes|
  {
    hide Inv, FirstFit, Blocks, FreeBlocks, EmptyEntries, Malloc;
    if sizes != [] {
      assert sizes[0] in sizes && forall size :: size in sizes[1..] ==> size in sizes;
      MallocEnabled(k, i, sizes[0]);
      OneMalloc(k, i, sizes[0]);
      var (k', ptr) := Malloc(k, i, sizes[0], FirstFit(k.runs, HEAP_BLOCKS, Blocks(sizes[0])));
      if ptr != 0 { MallocAllIff(k', i, sizes[1..]); }
    }
  }

  lemma EmptyLedgerHas()
    ensures |EmptyEntries(EmptyLedger())| == 1024
  {
    var l := EmptyLedger();
    assert EmptyEntries(l) == RunBlocks(0, 1024);
    RunSize(0, 1024);
  }

  /** A new process gets n arguments, up to 1023 of them, exactly when n + 1 blocks are free. */
  lemma ArgumentsGrantedIff(k: State, i: nat, n: nat)
    requires Inv(k) && Occupied(k, i) && !k.halted && 0 < n <= 1023
    requires k.procs[i].value.ledger == EmptyLedger()
    ensures MallocAll(k, i, ArgumentSizes(n)).1 <==> |FreeBlocks(k.runs, HEAP_BLOCKS)| >= n + 1
  {
    hide Inv, FreeBlocks, EmptyEntries, EmptyLedger, MallocAll;
    EmptyLedgerHas();
    MallocAllIff(k, i, ArgumentSizes(n));
  }

  // --- The sizes asked for ---------------------------------------------------------------------------

  /** The mallocs of a command line of n arguments: the pointers, then each argument. */
  function ArgumentSizes(n: nat): seq<Word> {
    [Wrap(POINTER_SIZE * n)] + seq(n, _ => ARGUMENT_SIZE)
  }

  // --- As the program sees it --------------------------------------------------------------------

  ghost predicate SeesString(m: Mem, pages: seq<Word>, ptr: Word, s: seq<char>)
    requires |pages| == PAGES
  {
    && CopyString.Seen(m, pages, Wrap(ptr + |s|)) == 0
    && forall k :: 0 <= k < |s| ==> CopyString.Seen(m, pages, Wrap(ptr + k)) == s[k] as int
  }

  /** Through its own page map the program finds the words by way of argv. */
  ghost predicate SeesArguments(m: Mem, pages: seq<Word>, argv: Word, words: seq<seq<char>>)
    requires |pages| == PAGES
  {
    forall t :: 0 <= t < |words| ==>
      SeesString(m, pages, CopyString.Seen(m, pages, Wrap(argv + POINTER_SIZE * t)), words[t])
  }

  lemma TextIsSeen(k: State, i: nat, m: Mem, b: nat, s: seq<char>)
    requires Inv(k) && Occupied(k, i) && OwnRun(k, i, b, 1) && TextIn(m, b, s) && |k.procs[i].value.pages| == PAGES
    ensures SeesString(m, k.procs[i].value.pages, Addr(b), s)
  {
    hide Inv, OwnRun, CopyString.Seen;
    forall j | 0 <= j <= |s|
      ensures CopyString.Seen(m, k.procs[i].value.pages, Wrap(Addr(b) + j)) == m[BlockFrame(b)][j]
    {
      SeenOwn(k, m, i, b, 1, Addr(b) + j);
    }
  }

  lemma LaidIsSeen(k: State, i: nat, m: Mem, ab: nat, an: nat, strs: seq<nat>, words: seq<seq<char>>)
    requires Inv(k) && Occupied(k, i) && Laid(k, i, m, ab, an, strs, words) && |strs| == |words|
    requires |k.procs[i].value.pages| == PAGES
    ensures SeesArguments(m, k.procs[i].value.pages, Addr(ab), words)
  {
    hide Inv, OwnRun, CopyString.Seen, SeesString, TextIn;
    forall t | 0 <= t < |words|
      ensures SeesString(m, k.procs[i].value.pages, CopyString.Seen(m, k.procs[i].value.pages,
        Wrap(Addr(ab) + POINTER_SIZE * t)), words[t])
    {
      assert OneLaid(k, i, m, ab, strs[t], t, words[t]);
      SeenOwn(k, m, i, ab, an, Addr(ab) + POINTER_SIZE * t);
      TextIsSeen(k, i, m, strs[t], words[t]);
    }
  }

  // --- The loop of process_inject_arguments ----------------------------------------------------------

  /** The first n characters of s are written at the start of block b. */
  ghost predicate Begun(m: Mem, b: nat, s: seq<char>, n: nat) {
    b < HEAP_BLOCKS && n <= |s| < PAGE_SIZE && forall k :: 0 <= k < n ==> m[BlockFrame(b)][k] == s[k] as int
  }

  lemma SameAgain(m: Mem, m1: Mem, m2: Mem, blocks: set<nat>)
    requires SameExcept(m, m1, blocks) && SameExcept(m1, m2, blocks)
    ensures SameExcept(m, m2, blocks)
  {
  }

  lemma NoneBegun(m: Mem, b: nat, s: seq<char>, blocks: set<nat>)
    requires b < HEAP_BLOCKS && |s| < PAGE_SIZE
    ensures Begun(m, b, s, 0) && SameExcept(m, m, blocks)
  {
  }

  lemma BegunMore(m: Mem, b: nat, s: seq<char>, n: nat)
    requires Begun(m, b, s, n) && n < |s|
    ensures Begun(Stored(m, Addr(b) + n, s[n] as int), b, s, n + 1)
  {
    assert (Addr(b) + n) / PAGE_SIZE == BlockFrame(b) && (Addr(b) + n) % PAGE_SIZE == n;
  }

  lemma BegunAll(m: Mem, b: nat, s: seq<char>)
    requires Begun(m, b, s, |s|)
    ensures TextIn(Stored(m, Addr(b) + |s|, 0), b, s)
  {
    assert (Addr(b) + |s|) / PAGE_SIZE == BlockFrame(b) && (Addr(b) + |s|) % PAGE_SIZE == |s|;
  }

  /** strncpy of one argument into a fresh run. */
  method CopyArgument(kern: Kernel, ptr: Word, argument: array<char>, ghost word: seq<char>, ghost i: nat, ghost b: nat)
    requires kern.Valid() && OwnRun(kern.abs, i, b, 1) && ptr == Addr(b) && b < HEAP_BLOCKS
    requires Gives(argument, word)
    modifies kern.memory.ram
    ensures kern.Valid() && SameExcept(old(kern.memory.Ram()), kern.memory.Ram(), RunBlocks(b, 1))
    ensures TextIn(kern.memory.Ram(), b, word)
  {
    hide Kernel.Valid, OwnRun, Stored, TextIn, SameExcept, Begun, CString;
    kern.MemoryOk();
    WordFits(CString(argument[..]));
    NoneBegun(kern.memory.Ram(), b, word, RunBlocks(b, 1));
    ghost var m, text := kern.memory.Ram(), argument[..];
    var n := 0;
    while n < ARGUMENT_SIZE - 1
      invariant n <= |word| && argument[..] == text && kern.Valid()
      invariant SameExcept(m, kern.memory.Ram(), RunBlocks(b, 1))
      invariant Begun(kern.memory.Ram(), b, word, n)
    {
      var c := argument[n];
      WordAt(text, word, n);
      if c == NUL {
        break;
      }
      ghost var m1 := kern.memory.Ram();
      BegunMore(m1, b, word, n);
      kern.StoreOwn(ptr + n, c as int, i, b, 1);
      SameAgain(m, m1, kern.memory.Ram(), RunBlocks(b, 1));
      n := n + 1;
    }
    ghost var m1 := kern.memory.Ram();
    BegunAll(m1, b, word);
    kern.StoreOwn(ptr + n, 0, i, b, 1);
    SameAgain(m, m1, kern.memory.Ram(), RunBlocks(b, 1));
  }

  lemma WordFits(text: seq<char>)
    ensures |Clipped(text, ARGUMENT_SIZE - 1)| < ARGUMENT_SIZE
  {
  }

  lemma WordAt(text: seq<char>, word: seq<char>, n: nat)
    requires |text| == ARGUMENT_SIZE && word == Clipped(CString(text), ARGUMENT_SIZE - 1)
    requires n < ARGUMENT_SIZE - 1 && n <= |word|
    ensures if n < |word| then text[n] == word[n] != NUL else text[n] == NUL
  {
    hide CString;
    assert text[0..] == text;
    TextUpTo(text, 0, n, ARGUMENT_SIZE);
  }

  /** process_count_command_arguments */
  method CountArguments(root: CommandArgument?, ghost nodes: seq<CommandArgument>) returns (n: nat)
    requires Command.Linked(nodes) && root == (if nodes == [] then null else nodes[0])
    ensures n == |nodes|
  {
    var current := root;
    n := 0;
    while current != null
      invariant n <= |nodes| && current == if n == |nodes| then null else nodes[n]
      decreases |nodes| - n
    {
      current := current.next;
      n := n + 1;
    }
  }

  /** The buffer's string, cut at its size if it has no terminator, is the word. */
  ghost predicate Gives(argument: array<char>, word: seq<char>)
    reads argument
  {
    argument.Length == ARGUMENT_SIZE && word == Clipped(CString(argument[..]), ARGUMENT_SIZE - 1)
  }

  /** The list's buffers give the words. */
  ghost predicate Given(nodes: seq<CommandArgument>, words: seq<seq<char>>)
    reads set n | n in nodes :: n.argument
  {
    |nodes| == |words| && forall t :: 0 <= t < |nodes| ==> Gives(nodes[t].argument, words[t])
  }

  /** What the command parser leaves is such a list, of its words cut to size. */
  lemma ParsedIsGiven(nodes: seq<CommandArgument>, words: seq<seq<char>>)
    requires Holds(nodes, words)
    ensures Given(nodes, seq(|nodes|, t requires 0 <= t < |nodes| => Clipped(words[t], ARGUMENT_SIZE - 1)))
  {
    hide StringIs, CString;
    forall t | 0 <= t < |nodes| ensures Gives(nodes[t].argument, Clipped(words[t], ARGUMENT_SIZE - 1)) {
      assert ArgumentIs(nodes[t].argument, Clipped(words[t], ARGUMENT_SIZE - 1));
      StringGiven(nodes[t].argument[..], Clipped(words[t], ARGUMENT_SIZE - 1));
    }
  }

  lemma StringGiven(text: seq<char>, word: seq<char>)
    requires StringIs(text, 0, word) && |word| < ARGUMENT_SIZE
    ensures Clipped(CString(text), ARGUMENT_SIZE - 1) == word
  {
    assert text[0..] == text;
  }

  /** The list's buffers are none of the arrays the mallocs may change. */
  ghost predicate Elsewhere(nodes: seq<CommandArgument>, kern: Kernel, p: Process) {
    forall n :: n in nodes ==>
      n.argument as object != kern.memory.ram && n.argument as object != kern.memory.heap.entries
        && n.argument as object != p.allocations
  }

  /** One turn of the loop: a run for the argument, its text, and its address in argv. Fails
      only if the malloc does. */
  method InjectOne(kern: Kernel, p: Process, argv: Word, i: nat, argument: array<char>,
                   ghost ab: nat, ghost an: nat, ghost strs: seq<nat>, ghost words: seq<seq<char>>)
    returns (res: int, ghost b: nat)
    requires kern.Valid() && kern.InTable(p) && !kern.halted && argv == Addr(ab)
    requires Laid(kern.abs, p.id, kern.memory.Ram(), ab, an, strs, words) && i == |strs| < |words|
    requires Gives(argument, words[|strs|])
    modifies kern`abs, kern.memory.heap`runs, kern.memory.heap.entries, kern.memory.ram, p.allocations
    ensures kern.Valid() && Inv(old(kern.abs)) && Occupied(old(kern.abs), p.id)
    ensures |old(kern.abs).procs[p.id].value.pages| == PAGES
    ensures var (k, ptr) := Malloc(old(kern.abs), p.id, ARGUMENT_SIZE, FirstFit(old(kern.abs).runs, HEAP_BLOCKS,
      Blocks(ARGUMENT_SIZE)));
      kern.abs == k && (res == 0 <==> ptr != 0)
    ensures res == 0 || res == -ENOMEM
    ensures res == 0 ==> Laid(kern.abs, p.id, kern.memory.Ram(), ab, an, strs + [b], words)
  {
    hide Kernel.Valid, Laid, Malloc, FirstFit, Inv, StringIs, Blocks, TableBlocks, Kernel.NewBlocks;
    kern.ValidParts(p);
    ghost var k, m, fit := kern.abs, kern.memory.Ram(), FirstFit(kern.abs.runs, HEAP_BLOCKS, Blocks(ARGUMENT_SIZE));
    OwnRunsGrow(k, p.id, ARGUMENT_SIZE, fit);
    if Malloc(k, p.id, ARGUMENT_SIZE, fit).1 != 0 { NotLaidYet(k, p.id, m, ab, an, strs, words, fit); }
    var ptr := kern.ProcessMalloc(p, ARGUMENT_SIZE);
    b := 0;
    if ptr == 0 {
      return -ENOMEM, 0;
    }
    b := fit;
    kern.MemoryOk();
    ghost var m1 := kern.memory.Ram();
    kern.NewBlocksIs(b, ARGUMENT_SIZE);
    LaidAfterMalloc(k, p.id, m, m1, ab, an, strs, words, ARGUMENT_SIZE, fit);
    OneBlock();
    CopyArgument(kern, ptr, argument, words[|strs|], p.id, b);
    ghost var m2 := kern.memory.Ram();
    ArgvCell(kern.abs, p.id, m1, ab, an, strs, words);
    kern.StoreOwn(argv + POINTER_SIZE * i, ptr, p.id, ab, an);
    LaidOneMore(kern.abs, p.id, m1, m2, kern.memory.Ram(), ab, an, strs, words, b);
    res := 0;
  }

  lemma NotLaidYet(k: State, i: nat, m: Mem, ab: nat, an: nat, strs: seq<nat>, words: seq<seq<char>>, b: nat)
    requires Laid(k, i, m, ab, an, strs, words) && forall c: nat, n: nat :: OwnRun(k, i, c, n) ==> c != b
    ensures b != ab && forall t :: 0 <= t < |strs| ==> strs[t] != b
  {
    hide OwnRun, TextIn, Cell;
    forall t | 0 <= t < |strs| ensures strs[t] != b {
      assert OneLaid(k, i, m, ab, strs[t], t, words[t]);
    }
  }

  lemma OneBlock()
    ensures Blocks(ARGUMENT_SIZE) == 1
  {
  }

  lemma ArgvCell(k: State, i: nat, m: Mem, ab: nat, an: nat, strs: seq<nat>, words: seq<seq<char>>)
    requires Inv(k) && Laid(k, i, m, ab, an, strs, words) && |strs| < |words|
    ensures OwnRun(k, i, ab, an) && InRun(Addr(ab) + POINTER_SIZE * |strs|, ab, an) && ab < HEAP_BLOCKS
    ensures Addr(ab) + POINTER_SIZE * |words| < WORD && POINTER_SIZE * |words| <= PAGE_SIZE * an
  {
    RunInHeap(k.runs, ab, ab + an - 1);
  }

  lemma LaidAt(k: State, i: nat, m: Mem, ab: nat, an: nat, strs: seq<nat>, words: seq<seq<char>>, t: nat)
    requires Laid(k, i, m, ab, an, strs, words) && t < |strs|
    ensures ab < HEAP_BLOCKS && |strs| <= |words| && OneLaid(k, i, m, ab, strs[t], t, words[t])
  {
    hide OneLaid, OwnRun;
  }

  /** The text of the next argument, then its address: the layout has one more. */
  lemma LaidOneMore(k: State, i: nat, m1: Mem, m2: Mem, m3: Mem, ab: nat, an: nat, strs: seq<nat>,
      words: seq<seq<char>>, b: nat)
    requires |strs| < |words| && b < HEAP_BLOCKS && b != ab && (forall t :: 0 <= t < |strs| ==> strs[t] != b)
    requires Addr(ab) + POINTER_SIZE * |strs| < WORD && m3 == Stored(m2, Addr(ab) + POINTER_SIZE * |strs|, Addr(b))
    requires SameExcept(m1, m2, RunBlocks(b, 1)) && TextIn(m2, b, words[|strs|])
    requires OwnRun(k, i, b, 1) && Laid(k, i, m1, ab, an, strs, words) && Inv(k)
    ensures Laid(k, i, m3, ab, an, strs + [b], words)
  {
    hide Inv, Laid, OneLaid, OwnRun, SameExcept, TextIn, Stored, RunBlocks, InRun;
    ArgvCell(k, i, m1, ab, an, strs, words);
    forall t | 0 <= t < |strs| ensures OneLaid(k, i, m3, ab, strs[t], t, words[t]) {
      LaidAt(k, i, m1, ab, an, strs, words, t);
      OldLaid(k, i, m1, m2, ab, an, strs[t], t, words[t], |strs|, b);
    }
    NewLaid(k, i, m2, ab, an, b, |strs|, words[|strs|]);
    LaidPlus(k, i, m3, ab, an, strs, words, b);
  }

  lemma LaidPlus(k: State, i: nat, m: Mem, ab: nat, an: nat, strs: seq<nat>, words: seq<seq<char>>, b: nat)
    requires OwnRun(k, i, ab, an) && ab < HEAP_BLOCKS && |strs| < |words| && POINTER_SIZE * |words| <= PAGE_SIZE * an
    requires forall t :: 0 <= t < |strs| ==> OneLaid(k, i, m, ab, strs[t], t, words[t])
    requires OneLaid(k, i, m, ab, b, |strs|, words[|strs|])
    ensures Laid(k, i, m, ab, an, strs + [b], words)
  {
    hide OneLaid, OwnRun;
  }

  lemma OldLaid(k: State, i: nat, m1: Mem, m2: Mem, ab: nat, an: nat, c: nat, t: nat, word: seq<char>, u: nat, b: nat)
    requires Inv(k) && OwnRun(k, i, ab, an) && ab < HEAP_BLOCKS && OwnRun(k, i, b, 1) && b < HEAP_BLOCKS
    requires b != ab && c != b
    requires OneLaid(k, i, m1, ab, c, t, word) && SameExcept(m1, m2, RunBlocks(b, 1)) && t < u
    requires POINTER_SIZE * (u + 1) <= PAGE_SIZE * an && InRun(Addr(ab) + POINTER_SIZE * u, ab, an)
    requires Addr(ab) + POINTER_SIZE * u < WORD
    ensures OneLaid(k, i, Stored(m2, Addr(ab) + POINTER_SIZE * u, Addr(b)), ab, c, t, word)
  {
    hide Inv, OneLaid, OwnRun, SameExcept, Stored;
    LaidRun(k, i, m1, ab, c, t, word);
    ApartFrom(k, i, ab, an, b, 1);
    ApartFrom(k, i, c, 1, b, 1);
    OneLaidKept(k, k, i, m1, m2, ab, an, c, t, word, RunBlocks(b, 1));
    OneLaidStored(k, i, m2, ab, an, c, t, word, u, Addr(b));
  }

  lemma ApartFrom(k: State, i: nat, a: nat, an: nat, b: nat, bn: nat)
    requires Inv(k) && OwnRun(k, i, a, an) && OwnRun(k, i, b, bn) && a != b
    ensures RunBlocks(a, an) !! RunBlocks(b, bn)
  {
    RunsApart(k.runs, HEAP_BLOCKS, a, b);
  }

  /** The store into word u of the argument array. */
  lemma OneLaidStored(k: State, i: nat, m: Mem, ab: nat, an: nat, b: nat, t: nat, word: seq<char>, u: nat, val: Word)
    requires Inv(k) && OwnRun(k, i, ab, an) && OneLaid(k, i, m, ab, b, t, word) && t != u
    requires InRun(Addr(ab) + POINTER_SIZE * u, ab, an) && Addr(ab) + POINTER_SIZE * u < WORD
    ensures OneLaid(k, i, Stored(m, Addr(ab) + POINTER_SIZE * u, val), ab, b, t, word)
  {
    hide Inv, OwnRun;
    var a: Word := Addr(ab) + POINTER_SIZE * u;
    BlockInRun(a, ab, an);
    ApartFrom(k, i, ab, an, b, 1);
    assert InRange(b, b, 1);
    assert a / PAGE_SIZE != BlockFrame(b);
    CellStored(m, a, val, Addr(ab) + POINTER_SIZE * t);
  }

  lemma NewLaid(k: State, i: nat, m: Mem, ab: nat, an: nat, b: nat, u: nat, word: seq<char>)
    requires Inv(k) && OwnRun(k, i, ab, an) && OwnRun(k, i, b, 1) && b != ab && TextIn(m, b, word)
    requires InRun(Addr(ab) + POINTER_SIZE * u, ab, an) && Addr(ab) + POINTER_SIZE * u < WORD
    ensures OneLaid(k, i, Stored(m, Addr(ab) + POINTER_SIZE * u, Addr(b)), ab, b, u, word)
  {
    hide Inv, OwnRun;
    var a: Word := Addr(ab) + POINTER_SIZE * u;
    BlockInRun(a, ab, an);
    ApartFrom(k, i, ab, an, b, 1);
    assert InRange(b, b, 1);
    assert a / PAGE_SIZE != BlockFrame(b);
    CellStored(m, a, Addr(b), a);
  }

  /** process_inject_arguments. It succeeds exactly when all its mallocs do, and then the
      program, looking through its own page map, finds argc words by way of argv. On failure
      the runs it was granted stay in the process's ledger. */
  method InjectArguments(kern: Kernel, p: Process, root: CommandArgument?, ghost nodes: seq<CommandArgument>,
      ghost words: seq<seq<char>>)
    returns (res: int)
    requires kern.Valid() && kern.InTable(p) && !kern.halted
    requires Command.Linked(nodes) && root == (if nodes == [] then null else nodes[0]) && Given(nodes, words)
    requires Elsewhere(nodes, kern, p)
    requires |nodes| * ARGUMENT_SIZE < WORD - PAGE_SIZE
    modifies kern`abs, kern.memory.heap`runs, kern.memory.heap.entries, kern.memory.ram, p.allocations, p.arguments
    ensures kern.Valid() && Inv(old(kern.abs)) && Occupied(old(kern.abs), p.id) && !old(kern.abs).halted
    ensures nodes == [] ==> res == -EIO && kern.abs == old(kern.abs)
    ensures nodes != [] ==>
      (kern.abs, res == 0) == MallocAll(old(kern.abs), p.id, ArgumentSizes(|nodes|)) && (res == 0 || res == -ENOMEM)
    ensures Occupied(kern.abs, p.id) && |kern.abs.procs[p.id].value.pages| == PAGES
    ensures res == 0 ==> p.arguments.argc == |nodes|
    ensures res == 0 ==> SeesArguments(kern.memory.Ram(), kern.abs.procs[p.id].value.pages, p.arguments.argv, words)
    ensures res < 0 ==> p.arguments.argc == old(p.arguments.argc) && p.arguments.argv == old(p.arguments.argv)
  {
    hide Kernel.Valid, Laid, Malloc, FirstFit, Inv, Blocks, TableBlocks, Kernel.NewBlocks, Gives, Command.Linked,
      SeesArguments, Occupied, MallocAll;
    kern.ValidParts(p);
    ghost var k, fit, sizes := kern.abs, FirstFit(kern.abs.runs, HEAP_BLOCKS, Blocks(Wrap(POINTER_SIZE * |nodes|))),
      ArgumentSizes(|nodes|);
    var argc := CountArguments(root, nodes);
    if argc == 0 {
      return -EIO;
    }
    AllFrom(k, p.id, sizes, 0);
    OwnRunsGrow(k, p.id, sizes[0], fit);
    var argv := kern.ProcessMalloc(p, Wrap(POINTER_SIZE * argc));
    kern.ValidParts(p);
    if argv == 0 {
      return -ENOMEM;
    }
    assert sizes[0..] == sizes;
    ghost var an := Blocks(sizes[0]);
    NothingLaid(kern.abs, p.id, kern.memory.Ram(), fit, words);
    res := InjectAll(kern, p, argv, root, nodes, words, fit, an, sizes);
    if res < 0 {
      return;
    }
    p.arguments.argc := argc;
    p.arguments.argv := argv;
  }

  /** The loop of process_inject_arguments over the whole list. */
  method InjectAll(kern: Kernel, p: Process, argv: Word, root: CommandArgument?, ghost nodes: seq<CommandArgument>,
                   ghost words: seq<seq<char>>, ghost ab: nat, ghost an: nat, ghost sizes: seq<Word>)
    returns (res: int)
    requires kern.Valid() && kern.InTable(p) && !kern.halted && Inv(kern.abs) && Occupied(kern.abs, p.id)
    requires !kern.abs.halted
    requires Command.Linked(nodes) && root == (if nodes == [] then null else nodes[0]) && Given(nodes, words)
    requires Elsewhere(nodes, kern, p)
    requires argv == Addr(ab) && Laid(kern.abs, p.id, kern.memory.Ram(), ab, an, [], words)
    requires sizes == ArgumentSizes(|nodes|)
    modifies kern`abs, kern.memory.heap`runs, kern.memory.heap.entries, kern.memory.ram, p.allocations
    ensures kern.Valid() && Occupied(kern.abs, p.id) && |kern.abs.procs[p.id].value.pages| == PAGES
    ensures (kern.abs, res == 0) == MallocAll(old(kern.abs), p.id, sizes[1..]) && (res == 0 || res == -ENOMEM)
    ensures res == 0 ==> SeesArguments(kern.memory.Ram(), kern.abs.procs[p.id].value.pages, argv, words)
  {
    hide Kernel.Valid, Laid, Malloc, FirstFit, Inv, Blocks, TableBlocks, Kernel.NewBlocks, Gives, Command.Linked,
      SeesArguments, Occupied, MallocAll;
    kern.ValidParts(p);
    ghost var k, strs := kern.abs, [];
    var current, i := root, 0;
    while current != null
      invariant 0 <= i <= |nodes| && |strs| == i && current == if i == |nodes| then null else nodes[i]
      invariant Command.Linked(nodes) && Given(nodes, words)
      invariant kern.Valid() && kern.InTable(p) && !kern.halted && Inv(kern.abs) && Occupied(kern.abs, p.id)
      invariant !kern.abs.halted
      invariant Laid(kern.abs, p.id, kern.memory.Ram(), ab, an, strs, words)
      invariant MallocAll(k, p.id, sizes[1..]) == MallocAll(kern.abs, p.id, sizes[i + 1..])
      decreases |nodes| - i
    {
      AllFrom(kern.abs, p.id, sizes, i + 1);
      ghost var b;
      res, b := InjectOne(kern, p, argv, i, current.argument, ab, an, strs, words);
      kern.ValidParts(p);
      if res < 0 {
        return;
      }
      strs := strs + [b];
      current := NextArgument(current, nodes, i);
      i := i + 1;
    }
    kern.ValidParts(p);
    AllDone(kern.abs, p.id, sizes, i + 1);
    LaidIsSeen(kern.abs, p.id, kern.memory.Ram(), ab, an, strs, words);
    res := 0;
  }

  lemma AllFrom(k: State, i: nat, sizes: seq<Word>, j: nat)
    requires Inv(k) && Occupied(k, i) && !k.halted && j < |sizes|
    ensures |k.procs[i].value.pages| == PAGES
    ensures var (k1, ptr) := Malloc(k, i, sizes[j], FirstFit(k.runs, HEAP_BLOCKS, Blocks(sizes[j])));
      && Inv(k1) && Occupied(k1, i) && !k1.halted
      && MallocAll(k, i, sizes[j..]) == if ptr == 0 then (k1, false) else MallocAll(k1, i, sizes[j + 1..])
  {
    hide Malloc, FirstFit, Inv, Blocks;
    MallocEnabled(k, i, sizes[j]);
    assert sizes[j..][0] == sizes[j] && sizes[j..][1..] == sizes[j + 1..];
  }

  lemma AllDone(k: State, i: nat, sizes: seq<Word>, j: nat)
    requires Inv(k) && Occupied(k, i) && !k.halted && j == |sizes|
    ensures MallocAll(k, i, sizes[j..]) == (k, true)
  {
  }

  lemma NothingLaid(k: State, i: nat, m: Mem, ab: nat, words: seq<seq<char>>)
    requires |words| * ARGUMENT_SIZE < WORD - PAGE_SIZE && OwnRun(k, i, ab, Blocks(Wrap(POINTER_SIZE * |words|)))
    ensures Laid(k, i, m, ab, Blocks(Wrap(POINTER_SIZE * |words|)), [], words)
  {
    BlocksIsCeiling(POINTER_SIZE * |words|);
  }

  /** current->next */
  method NextArgument(current: CommandArgument, ghost nodes: seq<CommandArgument>,
      ghost i: nat) returns (next: CommandArgument?)
    requires Command.Linked(nodes) && i < |nodes| && current == nodes[i]
    ensures next == if i + 1 == |nodes| then null else nodes[i + 1]
  {
    next := current.next;
  }
}
