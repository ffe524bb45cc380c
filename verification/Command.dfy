/** programs/stdlib/src/multitaskos.c: splitting a command line into a linked argument list. */
module Command {
  import opened Machine
  import opened Strings

  const COMMAND_BUFFER := 1025
  const RUN_BUFFER := 1024
  const ARGUMENT_SIZE := 512

  /** struct command_argument */
  class CommandArgument {
    const argument: array<char>
    var next: CommandArgument?

    constructor ()
      ensures fresh(argument) && argument.Length == ARGUMENT_SIZE && next == null
    {
      argument := new char[ARGUMENT_SIZE];
      next := null;
    }
  }

  /** The nodes form one list, in order and null-terminated. */
  ghost predicate Linked(nodes: seq<CommandArgument>)
    reads nodes
  {
    && (forall i :: 0 <= i < |nodes| - 1 ==> nodes[i].next == nodes[i + 1])
    && (nodes != [] ==> nodes[|nodes| - 1].next == null)
  }

  /** Node i holds word i, cut to what fits its buffer. */
  ghost predicate Holds(nodes: seq<CommandArgument>, words: seq<seq<char>>)
    reads set n | n in nodes :: n.argument
  {
    |nodes| <= |words| && forall i :: 0 <= i < |nodes| ==>
      ArgumentIs(nodes[i].argument, Clipped(words[i], ARGUMENT_SIZE - 1))
  }

  /** The buffer holds the word and its terminator. */
  ghost predicate ArgumentIs(argument: array<char>, word: seq<char>)
    reads argument
  {
    argument.Length == ARGUMENT_SIZE && |word| < ARGUMENT_SIZE && StringIs(argument[..], 0, word)
  }

  /** The text strtok will go through: the copied command, unless a cursor is left over
      from an earlier line. */
  function TextParsed(memory: seq<char>, sp: Option<nat>, frame: nat, command: seq<char>): seq<char>
    requires frame + COMMAND_BUFFER <= |memory|
    requires sp.Some? ==> sp.value <= |memory|
  {
    var line := Clipped(CString(command), COMMAND_BUFFER - 1);
    if sp.None? then line else CString(Copied(memory, frame, line)[sp.value..])
  }

  /** A cursor left over from a line cut short by a failed allocation decides what the next
      call parses: a stale text elsewhere hides the new command altogether, and one in the
      same buffer hides its start. */
  lemma StaleCursor(memory: seq<char>, at: nat, frame: nat, command: seq<char>)
    requires frame + COMMAND_BUFFER <= |memory| && at <= |memory|
    ensures at >= frame + COMMAND_BUFFER ==> TextParsed(memory, Some(at), frame, command) == CString(memory[at..])
    ensures var line := Clipped(CString(command), COMMAND_BUFFER - 1);
      frame <= at <= frame + |line| ==> TextParsed(memory, Some(at), frame, command) == line[at - frame..]
  {
    var line := Clipped(CString(command), COMMAND_BUFFER - 1);
    var after := Copied(memory, frame, line);
    if at >= frame + COMMAND_BUFFER { assert after[at..] == memory[at..]; }
    if frame <= at <= frame + |line| { StringAt(after, at, line[at - frame..]); }
  }

  /** peachos_parse_command, its buffer at frame, with memory for granted arguments. Every
      word becomes an argument as long as memory lasts; the cursor is null afterwards exactly
      when it lasted for all of them. */
  method ParseCommand(tok: Tokenizer, frame: nat, command: array<char>, max: int, granted: nat)
    returns (root: CommandArgument?, ghost nodes: seq<CommandArgument>)
    requires command != tok.memory && frame + COMMAND_BUFFER <= tok.memory.Length
    requires Terminated(command[..], 0) || command.Length >= COMMAND_BUFFER - 1
    requires tok.sp.Some? ==>
      Terminated(Copied(tok.memory[..], frame, Clipped(CString(command[..]), COMMAND_BUFFER - 1)), tok.sp.value)
    modifies tok`sp, tok.memory
    ensures max >= COMMAND_BUFFER ==> nodes == [] && tok.sp == old(tok.sp) && tok.memory[..] == old(tok.memory[..])
    ensures max < COMMAND_BUFFER ==>
      var words := Words(old(TextParsed(tok.memory[..], tok.sp, frame, command[..])), [' ']);
      && |nodes| == (if granted < |words| then granted else |words|) && Holds(nodes, words)
      && (tok.sp.None? <==> granted >= |words|)
    ensures Linked(nodes) && root == (if nodes == [] then null else nodes[0])
    ensures forall n :: n in nodes ==> fresh(n) && fresh(n.argument)
  {
    hide Words, CString, Terminated, StringIs, Copied, Clipped, Pending, Linked, Holds, ArgumentIs, TextParsed;
    root, nodes := null, [];
    NoneLinked();
    if max >= COMMAND_BUFFER {
      return;
    }
    StartInMemory(tok.memory[..], tok.sp, frame, command[..]);
    ghost var words := Words(TextParsed(tok.memory[..], tok.sp, frame, command[..]), [' ']);
    var token := FirstToken(tok, frame, command);
    PendingMeans(tok.memory[..], tok.sp, token, words, 0);
    if token.None? {
      return;
    }
    if granted == 0 {
      return;
    }
    root := NewArgument(tok.memory, token.value);
    HoldsMore([], root, words);
    Alone(root);
    assert [] + [root] == [root];
    token := NextToken(tok, token, words, 0);
    nodes := OtherArguments(tok, token, granted - 1, root, words);
    assert nodes == [root] + nodes[1..];
  }

  /** The loop over the words behind the first, for as long as there is memory. */
  method OtherArguments(tok: Tokenizer, first: Option<nat>, granted: nat, root: CommandArgument,
      ghost words: seq<seq<char>>)
    returns (ghost nodes: seq<CommandArgument>)
    requires Linked([root]) && Holds([root], words) && root.next == null && root.argument != tok.memory
    requires words != [] && Pending(tok.memory[..], tok.sp, first, words, 1)
    modifies tok`sp, tok.memory, root`next
    ensures nodes != [] && nodes[0] == root && Linked(nodes) && Holds(nodes, words)
    ensures forall n :: n in nodes[1..] ==> fresh(n) && fresh(n.argument)
    ensures |nodes| == if granted + 1 < |words| then granted + 1 else |words|
    ensures tok.sp.None? <==> granted + 1 >= |words|
  {
    hide Words, CString, Terminated, StringIs, Copied, Clipped, Pending, Linked, Holds, ArgumentIs;
    nodes := [root];
    var left: nat, token, current := granted, first, root;
    while token.Some?
      invariant 0 < |nodes| <= |words| && root == nodes[0] && current == nodes[|nodes| - 1]
      invariant Linked(nodes) && Holds(nodes, words)
      invariant (current == root || fresh(current)) && forall n :: n in nodes[1..] ==> fresh(n) && fresh(n.argument)
      invariant left + |nodes| == granted + 1
      invariant Pending(tok.memory[..], tok.sp, token, words, |nodes|)
      decreases left
    {
      PendingMeans(tok.memory[..], tok.sp, token, words, |nodes|);
      if left == 0 {
        break;
      }
      left := left - 1;
      var newCommand := NewArgument(tok.memory, token.value);
      HoldsMore(nodes, newCommand, words);
      Link(current, newCommand, nodes);
      assert (nodes + [newCommand])[1..] == nodes[1..] + [newCommand];
      nodes := nodes + [newCommand];
      current := newCommand;
      token := NextToken(tok, token, words, |nodes| - 1);
    }
    PendingMeans(tok.memory[..], tok.sp, token, words, |nodes|);
  }

  lemma Alone(root: CommandArgument)
    requires root.next == null
    ensures Linked([root])
  {
  }

  lemma NoneLinked()
    ensures Linked([]) && forall words :: Holds([], words)
  {
  }

  lemma HoldsMore(nodes: seq<CommandArgument>, node: CommandArgument, words: seq<seq<char>>)
    requires Holds(nodes, words) && |nodes| < |words|
    requires ArgumentIs(node.argument, Clipped(words[|nodes|], ARGUMENT_SIZE - 1))
    ensures Holds(nodes + [node], words)
  {
    hide ArgumentIs, Clipped;
  }

  lemma StartInMemory(memory: seq<char>, sp: Option<nat>, frame: nat, command: seq<char>)
    requires frame + COMMAND_BUFFER <= |memory|
    requires sp.Some? ==> Terminated(Copied(memory, frame, Clipped(CString(command), COMMAND_BUFFER - 1)), sp.value)
    ensures sp.Some? ==> sp.value <= |memory|
  {
  }

  /** The copy of the command and the first call of strtok. */
  method FirstToken(tok: Tokenizer, frame: nat, command: array<char>) returns (token: Option<nat>)
    requires command != tok.memory && frame + COMMAND_BUFFER <= tok.memory.Length
    requires Terminated(command[..], 0) || command.Length >= COMMAND_BUFFER - 1
    requires tok.sp.Some? ==>
      Terminated(Copied(tok.memory[..], frame, Clipped(CString(command[..]), COMMAND_BUFFER - 1)), tok.sp.value)
    modifies tok`sp, tok.memory
    ensures Pending(tok.memory[..], tok.sp, token, Words(old(TextParsed(tok.memory[..], tok.sp, frame, command[..])),
      [' ']), 0)
  {
    hide Words, CString, StringIs, Terminated, Copied, Clipped, CutBefore;
    ghost var before := tok.memory[..];
    ghost var line := Clipped(CString(command[..]), COMMAND_BUFFER - 1);
    assert command[0..] == command[..];
    LineFits(CString(command[..]), COMMAND_BUFFER - 1);
    CopiedReads(before, frame, line);
    Strncpy(tok.memory, frame, command, 0, COMMAND_BUFFER);
    if tok.sp.Some? { EndsWithin(tok.memory[..], tok.sp.value); }
    token := tok.Strtok(Some(frame), [' ']);
  }

  lemma LineFits(text: seq<char>, n: nat)
    requires NUL !in text
    ensures |Clipped(text, n)| <= n && NUL !in Clipped(text, n)
  {
  }

  /** One node for the word at token. */
  method NewArgument(memory: array<char>, token: nat) returns (node: CommandArgument)
    requires Terminated(memory[..], token)
    ensures fresh(node) && fresh(node.argument) && node.next == null
    ensures ArgumentIs(node.argument, Clipped(CString(memory[..][token..]), ARGUMENT_SIZE - 1))
  {
    hide CString, Terminated, Copied, Clipped;
    node := new CommandArgument();
    EndsWithin(memory[..], token);
    ghost var before, word := node.argument[..], CString(memory[..][token..]);
    assert memory[token..] == memory[..][token..];
    LineFits(word, ARGUMENT_SIZE - 1);
    CopiedReads(before, 0, Clipped(word, ARGUMENT_SIZE - 1));
    Strncpy(node.argument, 0, memory, token, ARGUMENT_SIZE);
    assert node.argument[..][0..] == node.argument[..];
  }

  /** The new node goes behind the last one. */
  method Link(current: CommandArgument, newCommand: CommandArgument, ghost nodes: seq<CommandArgument>)
    requires nodes != [] && current == nodes[|nodes| - 1] && Linked(nodes) && newCommand !in nodes
    requires newCommand.next == null
    modifies current`next
    ensures Linked(nodes + [newCommand])
  {
    ghost var all := nodes + [newCommand];
    forall i | 0 <= i < |nodes| - 1 ensures all[i] != current && all[i].next == all[i + 1] {
      assert nodes[i].next == nodes[i + 1];
      assert all[i] == nodes[i] && all[i + 1] == nodes[i + 1];
    }
    assert newCommand != current by { assert current in nodes; }
    current.next := newCommand;
    assert all[|nodes| - 1] == current && all[|nodes|] == newCommand;
  }

  /** strtok(NULL, " ") with word n in hand. */
  method NextToken(tok: Tokenizer, token: Option<nat>, ghost words: seq<seq<char>>,
      ghost n: nat) returns (next: Option<nat>)
    requires Pending(tok.memory[..], tok.sp, token, words, n) && n < |words|
    modifies tok`sp, tok.memory
    ensures Pending(tok.memory[..], tok.sp, next, words, n + 1)
  {
    hide Words, CString, StringIs, Terminated, CutBefore;
    EndsWithin(tok.memory[..], tok.sp.value);
    next := tok.Strtok(None, [' ']);
  }

  lemma PendingMeans(memory: seq<char>, sp: Option<nat>, token: Option<nat>, words: seq<seq<char>>, n: nat)
    requires Pending(memory, sp, token, words, n)
    ensures n <= |words| && (token.Some? <==> n < |words|) && (sp.Some? <==> n < |words|)
    ensures n < |words| ==> Terminated(memory, token.value) && CString(memory[token.value..]) == words[n]
  {
  }

  /** What strtok has still to hand out once n words are stored and token is in hand. */
  ghost predicate Pending(memory: seq<char>, sp: Option<nat>, token: Option<nat>, words: seq<seq<char>>, n: nat) {
    if n >= |words| then n == |words| && token.None? && sp.None?
    else
      (token.Some? && sp.Some? && Terminated(memory, sp.value)
      && StringIs(memory, token.value, words[n]) && Words(CString(memory[sp.value..]), [' ']) == words[n + 1..])
  }

  /** multitaskos_system_run up to the call of the kernel: the buffer's copy is parsed, and
      -1 stands for no argument at all. A line of words separated by blanks becomes exactly
      these words, each cut to its argument's size. */
  method SystemRun(tok: Tokenizer, frame: nat, command: array<char>, granted: nat, ghost line: seq<seq<char>>)
    returns (res: int, root: CommandArgument?, ghost nodes: seq<CommandArgument>)
    requires command != tok.memory && frame + COMMAND_BUFFER <= tok.memory.Length && tok.sp.None?
    requires Terminated(command[..], 0) || command.Length >= RUN_BUFFER - 1
    modifies tok`sp, tok.memory
    ensures res == (if root == null then -1 else 0) && Linked(nodes) && root == (if nodes == [] then null else nodes[0])
    ensures var words := Words(Clipped(CString(command[..]), RUN_BUFFER - 1), [' ']);
      |nodes| == (if granted < |words| then granted else |words|) && Holds(nodes, words)
      && (tok.sp.None? <==> granted >= |words|)
    ensures CString(command[..]) == Join(line, ' ') && |Join(line, ' ')| < RUN_BUFFER
      && (forall w :: w in line ==> IsWord(w, ' ')) && granted >= |line|
      ==> |nodes| == |line| && Holds(nodes, line) && tok.sp.None?
    ensures forall n :: n in nodes ==> fresh(n) && fresh(n.argument)
    ensures |nodes| < RUN_BUFFER
  {
    hide Words, CString, Terminated, StringIs, Copied, Holds, Linked;
    var buf := new char[RUN_BUFFER];
    ghost var before, text := buf[..], Clipped(CString(command[..]), RUN_BUFFER - 1);
    LineFits(CString(command[..]), RUN_BUFFER - 1);
    CopiedReads(before, 0, text);
    assert command[0..] == command[..];
    Strncpy(buf, 0, command, 0, RUN_BUFFER);
    assert buf[..][0..] == buf[..];
    root, nodes := ParseCommand(tok, frame, buf, RUN_BUFFER, granted);
    res := if root == null then -1 else 0;
    if forall w :: w in line ==> IsWord(w, ' ') { WordsOfJoin(line, ' '); }
    WordsAreFew(text, [' ']);
  }
}
