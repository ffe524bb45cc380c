/** src/keyboard/keyboard.c: a process's ring of pending characters. */
module Keyboard {
  import opened Machine

  const BUFFER_SIZE := 1024
  const NUL: char := '\0'

  /** struct keyboard_buffer; both counters run on and wrap at the word size. */
  datatype Ring = Ring(buffer: seq<char>, head: Word, tail: Word)

  function Slot(counter: Word, k: nat): (i: nat)
    ensures i < BUFFER_SIZE
  {
    (counter + k) % BUFFER_SIZE
  }

  /** The ring holds the characters of q, oldest at head: their slots are nonzero, all the
      others zero. */
  ghost predicate Represents(r: Ring, q: seq<char>) {
    && |r.buffer| == BUFFER_SIZE && |q| <= BUFFER_SIZE && NUL !in q
    && Slot(r.tail, 0) == Slot(r.head, |q|)
    && forall k :: 0 <= k < BUFFER_SIZE ==> r.buffer[Slot(r.head, k)] == if k < |q| then q[k] else NUL
  }

  function PushOn(r: Ring, c: char): Ring
    requires |r.buffer| == BUFFER_SIZE
  {
    if c == NUL then r else Ring(r.buffer[Slot(r.tail, 0) := c], r.head, Wrap(r.tail + 1))
  }

  function PopOn(r: Ring): (Ring, char)
    requires |r.buffer| == BUFFER_SIZE
  {
    var c := r.buffer[Slot(r.head, 0)];
    if c == NUL then (r, NUL) else (Ring(r.buffer[Slot(r.head, 0) := NUL], Wrap(r.head + 1), r.tail), c)
  }

  function BackspaceOn(r: Ring): Ring
    requires |r.buffer| == BUFFER_SIZE
  {
    var tail := Wrap(r.tail - 1);
    Ring(r.buffer[Slot(tail, 0) := NUL], r.head, tail)
  }

  lemma SlotsDiffer(counter: Word, j: nat, k: nat)
    requires j < BUFFER_SIZE && k < BUFFER_SIZE
    ensures Slot(counter, j) == Slot(counter, k) <==> j == k
  {
  }

  /** 2^32 is a multiple of 1024, so a counter's wrap moves no slot. */
  lemma NextSlot(counter: Word, k: nat)
    ensures Slot(Wrap(counter + 1), k) == Slot(counter, k + 1)
  {
    if counter + 1 == WORD { assert counter + k + 1 == 4194304 * BUFFER_SIZE + k; Multiples(4194304, k); }
  }

  lemma PreviousSlot(counter: Word, k: nat)
    ensures Slot(Wrap(counter - 1), k + 1) == Slot(counter, k)
  {
    if counter > 0 { assert Wrap(counter - 1) == counter - 1; }
    else { assert Wrap(counter - 1) + k + 1 == 4194304 * BUFFER_SIZE + k; Multiples(4194304, k); }
  }

  lemma RingRound(counter: Word, k: nat)
    ensures Slot(counter, k + BUFFER_SIZE) == Slot(counter, k)
  {
    Multiples(1, counter + k);
  }

  lemma Multiples(n: nat, k: nat)
    ensures (n * BUFFER_SIZE + k) % BUFFER_SIZE == k % BUFFER_SIZE
  {
  }

  /** A ring holds one queue at most. */
  lemma OneQueue(r: Ring, q: seq<char>, p: seq<char>)
    requires Represents(r, q) && Represents(r, p)
    ensures q == p
  {
    hide Slot;
    var m := if |q| < |p| then |q| else |p|;
    forall k | 0 <= k < m ensures q[k] == p[k] { assert r.buffer[Slot(r.head, k)] == q[k]; }
    if m < BUFFER_SIZE {
      var c := r.buffer[Slot(r.head, m)];
    }
  }

  /** A push queues its character exactly when there is room; pushed onto a full ring it
      leaves one that no queue describes. */
  lemma PushIff(r: Ring, q: seq<char>, c: char)
    requires Represents(r, q) && c != NUL
    ensures |q| < BUFFER_SIZE ==> Represents(PushOn(r, c), q + [c])
    ensures |q| == BUFFER_SIZE ==> forall p :: !Represents(PushOn(r, c), p)
  {
    hide Slot;
    var after := PushOn(r, c);
    if |q| < BUFFER_SIZE {
      TailMoves(r, q);
      forall k | 0 <= k < BUFFER_SIZE
        ensures after.buffer[Slot(r.head, k)] == if k < |q| + 1 then (q + [c])[k] else NUL
      {
        SlotsDiffer(r.head, |q|, k);
      }
    } else {
      forall p ensures !Represents(after, p) {
        FullAgain(r, q, c, p);
      }
    }
  }

  lemma TailMoves(r: Ring, q: seq<char>)
    requires Represents(r, q)
    ensures Slot(Wrap(r.tail + 1), 0) == Slot(r.head, |q| + 1)
  {
    NextSlot(r.tail, 0);
    SameSlot(r.tail, 0, r.head, |q|);
  }

  lemma SameSlot(a: Word, j: nat, b: Word, k: nat)
    requires Slot(a, j) == Slot(b, k)
    ensures Slot(a, j + 1) == Slot(b, k + 1)
  {
    OneOn(a + j);
    OneOn(b + k);
  }

  lemma OneOn(x: nat)
    ensures (x + 1) % BUFFER_SIZE == if x % BUFFER_SIZE == BUFFER_SIZE - 1 then 0 else x % BUFFER_SIZE + 1
  {
  }

  lemma FullAgain(r: Ring, q: seq<char>, c: char, p: seq<char>)
    requires Represents(r, q) && c != NUL && |q| == BUFFER_SIZE
    ensures !Represents(PushOn(r, c), p)
  {
    hide Slot;
    var after := PushOn(r, c);
    if |p| < BUFFER_SIZE {
      assert q[|p|] in q;
      assert after.buffer[Slot(r.head, |p|)] != NUL;
    } else if |p| == BUFFER_SIZE {
      TailMoves(r, q);
      RingRound(r.head, 0);
      RingRound(r.head, 1);
      SlotsDiffer(r.head, 0, 1);
    }
  }

  /** A pop takes the oldest character, and returns 0 exactly when there is none. */
  lemma PopTakesOldest(r: Ring, q: seq<char>)
    requires Represents(r, q)
    ensures PopOn(r).1 == NUL <==> q == []
    ensures q == [] ==> PopOn(r).0 == r
    ensures q != [] ==> PopOn(r).1 == q[0] && Represents(PopOn(r).0, q[1..])
  {
    hide Slot;
    assert r.buffer[Slot(r.head, 0)] == if |q| > 0 then q[0] else NUL;
    if q != [] {
      assert q[0] in q;
      var after := PopOn(r).0;
      NextSlot(r.head, |q| - 1);
      forall k | 0 <= k < BUFFER_SIZE
        ensures after.buffer[Slot(after.head, k)] == if k < |q| - 1 then q[1..][k] else NUL
      {
        NextSlot(r.head, k);
        if k + 1 < BUFFER_SIZE {
          SlotsDiffer(r.head, 0, k + 1);
        } else {
          RingRound(r.head, 0);
        }
      }
    }
  }

  /** Backspace takes the newest character back exactly when there is one; on an empty ring
      it leaves one that no queue describes. */
  lemma BackspaceIff(r: Ring, q: seq<char>)
    requires Represents(r, q)
    ensures q != [] ==> Represents(BackspaceOn(r), q[..|q| - 1])
    ensures q == [] ==> forall p :: !Represents(BackspaceOn(r), p)
  {
    hide Slot;
    var after := BackspaceOn(r);
    if q != [] {
      TailBack(r, q);
      forall k | 0 <= k < BUFFER_SIZE
        ensures after.buffer[Slot(r.head, k)] == if k < |q| - 1 then q[k] else NUL
      {
        SlotsDiffer(r.head, |q| - 1, k);
      }
    } else {
      forall p ensures !Represents(after, p) {
        EmptyAgain(r, p);
      }
    }
  }

  lemma TailBack(r: Ring, q: seq<char>)
    requires Represents(r, q)
    ensures Slot(Wrap(r.tail - 1), 0) == Slot(r.head, |q| + BUFFER_SIZE - 1)
    ensures q != [] ==> Slot(Wrap(r.tail - 1), 0) == Slot(r.head, |q| - 1)
  {
    hide Slot;
    PreviousSlot(r.tail, 0);
    RingRound(r.head, |q|);
    SlotBefore(Wrap(r.tail - 1), 0, r.head, |q| + BUFFER_SIZE - 1);
    if q != [] { RingRound(r.head, |q| - 1); }
  }

  lemma SlotBefore(a: Word, j: nat, b: Word, k: nat)
    requires Slot(a, j + 1) == Slot(b, k + 1)
    ensures Slot(a, j) == Slot(b, k)
  {
    OneOn(a + j);
    OneOn(b + k);
  }

  lemma EmptyAgain(r: Ring, p: seq<char>)
    requires Represents(r, [])
    ensures !Represents(BackspaceOn(r), p)
  {
    hide Slot;
    var after := BackspaceOn(r);
    assert after.buffer[Slot(r.head, 0)] == NUL;
    if p == [] {
      TailBack(r, []);
      SlotsDiffer(r.head, 0, BUFFER_SIZE - 1);
    } else {
      assert p[0] in p;
    }
  }

  // --- Runs ---------------------------------------------------------------------------------------

  datatype Op = Push(c: char) | Pop | Backspace

  /** What the ring returns over a run, and what it ends as. */
  function RingRun(r: Ring, ops: seq<Op>): (Ring, seq<char>)
    requires |r.buffer| == BUFFER_SIZE
    decreases |ops|
  {
    if ops == [] then (r, [])
    else match ops[0]
      case Push(c) => RingRun(PushOn(r, c), ops[1..])
      case Backspace => RingRun(BackspaceOn(r), ops[1..])
      case Pop => var (next, c) := PopOn(r); var (end, out) := RingRun(next, ops[1..]); (end, [c] + out)
  }

  /** A plain queue under the same run: pushing 0 does nothing, popping nothing gives 0. */
  function QueueRun(q: seq<char>, ops: seq<Op>): (seq<char>, seq<char>)
    decreases |ops|
  {
    if ops == [] then (q, [])
    else match ops[0]
      case Push(c) => QueueRun(if c == NUL then q else q + [c], ops[1..])
      case Backspace => QueueRun(if q == [] then q else q[..|q| - 1], ops[1..])
      case Pop =>
        var (end, out) := QueueRun(if q == [] then q else q[1..], ops[1..]);
        (end, [if q == [] then NUL else q[0]] + out)
  }

  /** The run never pushes onto 1024 pending characters and never takes back from none. */
  predicate Fits(q: seq<char>, ops: seq<Op>)
    decreases |ops|
  {
    ops == [] ||
    match ops[0]
    case Push(c) => (c == NUL || |q| < BUFFER_SIZE) && Fits(if c == NUL then q else q + [c], ops[1..])
    case Backspace => q != [] && Fits(q[..|q| - 1], ops[1..])
    case Pop => Fits(if q == [] then q else q[1..], ops[1..])
  }

  /** Over every such run, across any number of counter wraps, the ring is a first-in
      first-out queue: same characters out in the same order, same characters left. */
  lemma {:induction false} RunsAreQueues(r: Ring, q: seq<char>, ops: seq<Op>)
    requires Represents(r, q) && Fits(q, ops)
    ensures RingRun(r, ops).1 == QueueRun(q, ops).1 && Represents(RingRun(r, ops).0, QueueRun(q, ops).0)
    decreases |ops|
  {
    if ops != [] {
      hide Represents;
      assert Represents(r, q);
      assert |r.buffer| == BUFFER_SIZE by { IsRing(r, q); }
      match ops[0]
      case Push(c) =>
        if c == NUL { RunsAreQueues(r, q, ops[1..]); }
        else { PushIff(r, q, c); RunsAreQueues(PushOn(r, c), q + [c], ops[1..]); }
      case Backspace =>
        BackspaceIff(r, q);
        RunsAreQueues(BackspaceOn(r), q[..|q| - 1], ops[1..]);
      case Pop =>
        PopTakesOldest(r, q);
        RunsAreQueues(PopOn(r).0, if q == [] then q else q[1..], ops[1..]);
    }
  }

  lemma IsRing(r: Ring, q: seq<char>)
    requires Represents(r, q)
    ensures |r.buffer| == BUFFER_SIZE
  {
  }

  // --- The code -------------------------------------------------------------------------------------

  class KeyboardBuffer {
    const buffer: array<char>
    var tail: Word
    var head: Word

    /** A process record fresh from kzalloc. */
    constructor ()
      ensures fresh(buffer) && Valid() && Represents(Contents(), [])
    {
      buffer := new char[BUFFER_SIZE](_ => NUL);
      tail, head := 0, 0;
    }

    ghost predicate Valid() {
      buffer.Length == BUFFER_SIZE
    }

    function Contents(): (r: Ring)
      reads this, buffer
    {
      Ring(buffer[..], head, tail)
    }
  }

  /** keyboard_get_tail_index */
  method GetTailIndex(process: KeyboardBuffer) returns (i: nat)
    ensures i == Slot(process.tail, 0)
  {
    i := process.tail % BUFFER_SIZE;
  }

  /** keyboard_push, to the process in focus, if there is one. */
  method Push(focus: KeyboardBuffer?, c: char)
    requires focus != null ==> focus.Valid()
    modifies focus, if focus == null then {} else {focus.buffer}
    ensures focus != null ==> focus.Contents() == PushOn(old(focus.Contents()), c)
  {
    if focus == null {
      return;
    }
    if c == NUL {
      return;
    }
    var realIndex := GetTailIndex(focus);
    focus.buffer[realIndex] := c;
    focus.tail := Wrap(focus.tail + 1);
  }

  /** keyboard_backspace */
  method Backspace(process: KeyboardBuffer)
    requires process.Valid()
    modifies process, process.buffer
    ensures process.Contents() == BackspaceOn(old(process.Contents()))
  {
    process.tail := Wrap(process.tail - 1);
    var realIndex := GetTailIndex(process);
    process.buffer[realIndex] := NUL;
  }

  /** keyboard_pop, from the running task's process, if a task runs. */
  method Pop(running: KeyboardBuffer?) returns (c: char)
    requires running != null ==> running.Valid()
    modifies running, if running == null then {} else {running.buffer}
    ensures running == null ==> c == NUL
    ensures running != null ==> (running.Contents(), c) == PopOn(old(running.Contents()))
  {
    if running == null {
      return NUL;
    }
    var realIndex := running.head % BUFFER_SIZE;
    c := running.buffer[realIndex];
    if c == NUL {
      return NUL;
    }
    running.buffer[realIndex] := NUL;
    running.head := Wrap(running.head + 1);
  }
}
