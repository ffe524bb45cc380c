/** Bounded waiting over runs of the kernel: mallocs, frees, kernel allocations and focus
    changes may come between the scheduling events. */
module Scheduling {
  import opened Machine
  import opened Heap
  import opened TaskRing
  import opened System
  import opened Invariants
  import opened Preservation

  /** The operation neither adds a task nor sets the cursor by hand. */
  predicate Schedules(op: Op) {
    !op.OpLoad? && !op.OpRunTask?
  }

  function EventsOf(ops: seq<Op>): seq<Event> {
    if ops == [] then [] else EventOf(ops[0]) + EventsOf(ops[1..])
  }

  lemma RingFacts(k: State)
    requires Inv(k) && k.current.Some?
    ensures Distinct(k.ring) && Running(k)
  {
  }

  ghost predicate Running(k: State) {
    k.current.Some? && k.current.value in k.ring
  }

  /** The ring as the running task sees it. */
  ghost function Seen(k: State): (q: seq<nat>)
    requires Running(k)
    ensures |q| == |k.ring| > 0 && q[0] == k.current.value
  {
    From(k.ring, k.current.value)
  }

  lemma TickTurns(k: State, k': State)
    requires Running(k) && Inv(k) && Enabled(k, OpTick) && k' == Step(k, OpTick)
    ensures Running(k') && Seen(k') == After(Seen(k), Tick)
  {
    hide Inv, Distinct, From, Next, After;
    RingFacts(k);
    EventsOnTheList(k.ring, k.current.value);
  }

  lemma ExitTurns(k: State, k': State)
    requires Running(k) && |k.ring| > 1 && Inv(k) && Enabled(k, OpExit) && k' == Step(k, OpExit)
    ensures !k'.halted && Running(k') && Seen(k') == After(Seen(k), Exit)
  {
    hide Inv, Distinct, From, Next, After, Remove, Step;
    RingFacts(k);
    ExitLeads(k);
    EventsOnTheList(k.ring, k.current.value);
  }

  /** After an exit with other tasks left the cursor has moved on twice. */
  lemma ExitLeads(k: State)
    requires Inv(k) && Enabled(k, OpExit) && |k.ring| > 1
    ensures k.current.value in k.ring
    ensures var k' := Step(k, OpExit); var next := Next(k.ring, k.current.value);
      && !k'.halted && k'.ring == Remove(k.ring, k.current.value)
      && next in k'.ring && k'.current == Some(Next(k'.ring, next))
  {
    hide ProcsOk, Accounted, Owned, Distinct, From, ExitHarmless;
    RemoveElements(k.ring, k.current.value);
    RemoveDropsFirst(k.ring, k.current.value);
    SomeoneLeft(k);
  }

  lemma SomeoneLeft(k: State)
    requires Inv(k) && k.current.Some? && |k.ring| > 1
    ensures k.current.value < |k.procs| && AnyProcess(k.procs[k.current.value := None], 0).Some?
    ensures CurrentAfter(k.ring, k.current.value, k.current.value) == Some(Next(k.ring, k.current.value))
  {
    hide ProcsOk, Accounted;
    var j := if k.ring[0] == k.current.value then k.ring[1] else k.ring[0];
    assert j in k.ring && Occupied(k, j) && Occupied(k, k.current.value) && j != k.current.value;
    assert k.procs[k.current.value := None][j].Some?;
  }

  lemma OthersStay(k: State, op: Op)
    requires Inv(k) && Enabled(k, op) && Schedules(op) && !op.OpTick? && !op.OpExit?
    ensures var k' := Step(k, op); k'.ring == k.ring && k'.current == k.current
  {
    hide Inv, MallocProc, FreeProc, Blocks, FitsAt;
  }

  function EventOf(op: Op): seq<Event> {
    if op.OpTick? then [Tick] else if op.OpExit? then [Exit] else []
  }

  lemma MoveOne(k: State, op: Op, rest: seq<Event>)
    requires Running(k) && Possible(Seen(k), EventOf(op) + rest) && Schedules(op) && Inv(k) && Enabled(k, op)
    ensures var k' := Step(k, op);
      && Running(k') && Possible(Seen(k'), rest) && Run(Seen(k), EventOf(op) + rest) == Run(Seen(k'), rest)
  {
    hide Inv, Step, After, From, Enabled;
    var es := EventOf(op) + rest;
    if op.OpTick? {
      TickTurns(k, Step(k, op));
      assert es[1..] == rest;
    } else if op.OpExit? {
      ExitTurns(k, Step(k, op));
      assert es[1..] == rest;
    } else {
      OthersStay(k, op);
      assert es == rest;
    }
  }

  /** Over a run the ring moves by the run's scheduling events, whatever happens between. */
  lemma {:induction false} RunMoves(k: State, ops: seq<Op>)
    requires Running(k) && Possible(Seen(k), EventsOf(ops)) && (forall op :: op in ops ==> Schedules(op))
    requires Inv(k) && CanRun(k, ops)
    ensures var k' := RunOps(k, ops); Running(k') && Seen(k') == Run(Seen(k), EventsOf(ops))
    decreases |ops|
  {
    hide Inv, Step, Enabled, Seen, Schedules, Possible, Run;
    if ops == [] {
      NoEvents(Seen(k));
    } else {
      StepKeeps(k, ops[0]);
      assert ops[0] in ops;
      MoveOne(k, ops[0], EventsOf(ops[1..]));
      RunMoves(Step(k, ops[0]), ops[1..]);
    }
  }

  lemma NoEvents(q: seq<nat>)
    requires Possible(q, [])
    ensures Run(q, []) == q
  {
  }

  lemma {:induction false} CanRunPrefix(k: State, ops: seq<Op>, m: nat)
    requires Inv(k) && CanRun(k, ops) && m <= |ops|
    ensures CanRun(k, ops[..m])
    decreases m
  {
    hide Inv, Step, Enabled;
    if m > 0 {
      StepKeeps(k, ops[0]);
      assert ops[..m][1..] == ops[1..][..m - 1];
      CanRunPrefix(Step(k, ops[0]), ops[1..], m - 1);
    }
  }

  /** Some prefix of the run has exactly its first j events. */
  lemma {:induction false} PrefixWith(ops: seq<Op>, j: nat) returns (m: nat)
    requires j <= |EventsOf(ops)|
    ensures m <= |ops| && EventsOf(ops[..m]) == EventsOf(ops)[..j]
    decreases |ops|
  {
    m := 0;
    if j > 0 {
      var first := EventOf(ops[0]);
      var more := PrefixWith(ops[1..], if |first| == 1 then j - 1 else j);
      m := more + 1;
      assert ops[..m][1..] == ops[1..][..more];
    }
  }

  /** Some prefix of the run leads to i running, after at most bound scheduling events. */
  ghost predicate GetsToRun(k: State, ops: seq<Op>, i: nat, bound: int)
    requires Inv(k) && CanRun(k, ops)
  {
    exists m: nat :: m <= |ops| && |EventsOf(ops[..m])| <= bound && RunsAt(k, ops[..m], i)
  }

  ghost predicate RunsAt(k: State, ops: seq<Op>, i: nat)
    requires Inv(k)
  {
    CanRun(k, ops) && RunOps(k, ops).current == Some(i)
  }

  /** Bounded waiting of the kernel: in any run without new tasks that leaves somebody to run,
      a task in the ring of n runs within (n-1) + (n-2) + ... + (n-1-k) ticks and exits, k
      being the exits, however many mallocs, frees and other operations lie between. */
  lemma KernelBoundedWaiting(k: State, ops: seq<Op>, i: nat)
    requires Running(k) && i in k.ring && (forall op :: op in ops ==> Schedules(op)) && Possible(Seen(k), EventsOf(ops))
    requires Inv(k) && CanRun(k, ops)
    requires |EventsOf(ops)| >= (|k.ring| - 1) + Skips(|k.ring|, Exits(EventsOf(ops)))
    ensures GetsToRun(k, ops, i, (|k.ring| - 1) + Skips(|k.ring|, Exits(EventsOf(ops))))
  {
    hide Inv, Possible, Run, EventsOf, CanRun, Skips, RunsWithin, RunsAt, Distinct, From;
    RingFacts(k);
    BoundedWaiting(k.ring, k.current.value, i, EventsOf(ops));
    SomePrefix(k, ops, i, (|k.ring| - 1) + Skips(|k.ring|, Exits(EventsOf(ops))));
  }

  lemma SomePrefix(k: State, ops: seq<Op>, i: nat, bound: int)
    requires Running(k) && (forall op :: op in ops ==> Schedules(op)) && RunsWithin(Seen(k), EventsOf(ops), i, bound)
    requires Inv(k) && CanRun(k, ops)
    ensures GetsToRun(k, ops, i, bound)
  {
    hide Inv, Possible, Run, EventsOf, CanRun, From, Seen;
    var es := EventsOf(ops);
    var j :| 0 <= j <= bound && j <= |es| && RunsAfter(Seen(k), es[..j], i);
    var m := PrefixWith(ops, j);
    CanRunPrefix(k, ops, m);
    assert forall op :: op in ops[..m] ==> op in ops;
    RunMoves(k, ops[..m]);
    assert RunsAt(k, ops[..m], i);
  }
}
