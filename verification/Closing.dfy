/** The kfree calls of a dying process on the heap's tags. One of them is for an address that
    elf_close finds in memory: the file's if the load put it there and nobody has changed it,
    and whatever the raw bytes hold for a file that failed ELF validation. */
module Closing {
  import opened Machine
  import opened HeapRuns
  import opened Freeing
  import opened PageTables
  import opened System
  import opened Invariants

  // --- Termination ------------------------------------------------------------------------------

  /** The blocks heap_free works from while process p terminates, in whatever order: those
      of all its runs but the record, and that of the word elf_close finds in its struct
      elf_file and takes for the address of the file's bytes. */
  ghost predicate KfreesOf(p: Proc, word: Word, calls: seq<int>) {
    forall b :: b in calls <==> b in Owned(p) - {p.record} || b == FreedBlock(word)
  }

  predicate NoneNegative(calls: seq<int>) {
    forall b :: b in calls ==> b >= 0
  }

  function Nats(calls: seq<int>): (bs: seq<nat>)
    requires NoneNegative(calls)
    ensures |bs| == |calls| && forall k :: 0 <= k < |bs| ==> bs[k] == calls[k]
  {
    if calls == [] then []
    else
      assert calls[0] in calls && forall b :: b in calls[1..] ==> b in calls;
      [calls[0]] + Nats(calls[1..])
  }

  /** A terminating process leaves tags that say what Terminate says, and nothing is cleared
      in front of the table, exactly when the word found in its struct elf_file at that time
      is harmless: its block is not in front of the table and in no run that is to survive.
      The word a load writes for a file that passed ELF validation always is. */
  lemma ExitFreesExactlyIff(k: State, i: nat, s: seq<Tag>, word: Word, calls: seq<int>)
    requires Inv(k) && Occupied(k, i) && i in k.ring && k.current.Some?
    requires Encoded(s, k.runs) && |s| == HEAP_BLOCKS && KfreesOf(k.procs[i].value, word, calls)
    ensures (NoneNegative(calls) && Encoded(FreeAll(s, Nats(calls)), Terminate(k, i).runs))
      <==> CloseHarmless(Terminate(k, i).runs, word)
    ensures k.procs[i].value.image.Some? && word == k.procs[i].value.memory ==>
      CloseHarmless(Terminate(k, i).runs, word)
  {
    hide ProcsOk, Accounted, RingOk, Encoded, Owned, FreeAll;
    var p := k.procs[i].value;
    var gone, extra := Owned(p) - {p.record}, FreedBlock(word);
    OwnedLiveRuns(k, i);
    assert extra in calls;
    if extra >= 0 {
      assert forall b :: b in calls ==> b in gone || b == extra;
      SameCalls(calls, gone, extra);
      FreesExactlyIff(s, k.runs, gone, extra, Nats(calls));
    }
    if p.image.Some? { OwnImage(k, i); }
  }

  lemma SameCalls(calls: seq<int>, gone: set<nat>, extra: nat)
    requires forall b :: b in calls <==> b in gone || b == extra
    ensures NoneNegative(calls) && forall b: nat :: b in Nats(calls) <==> b in gone || b == extra
  {
    var bs := Nats(calls);
    forall b: nat ensures b in bs <==> b in calls {
      if b in calls {
        var j :| 0 <= j < |calls| && calls[j] == b;
        assert bs[j] == b;
      }
      if b in bs {
        var j :| 0 <= j < |bs| && bs[j] == b;
        assert calls[j] == b;
      }
    }
  }

  lemma OwnedLiveRuns(k: State, i: nat)
    requires Inv(k) && Occupied(k, i)
    ensures Owned(k.procs[i].value) <= k.runs.Keys
    ensures var p := k.procs[i].value;
      p.image.Some? ==> p.image.value in Owned(p) - {p.record} && FreedBlock(p.memory) == p.image.value
  {
    hide ProcOk, LedgerMapped, RingOk, Partition, Owned, FreedBlock;
    var p := k.procs[i].value;
    assert OwnedBy(k, i) == Owned(p) && ProcOk(k.runs, p);
    if p.image.Some? { ImageOwned(k.runs, p); }
  }

  lemma ImageOwned(r: Runs, p: Proc)
    requires ProcOk(r, p) && p.image.Some?
    ensures p.image.value in Owned(p) - {p.record} && FreedBlock(p.memory) == p.image.value
  {
    hide LedgerBlocks, PartsLive, LedgerOk, DistinctDir, DirBlocks;
    assert p.image.value in ImageRun(p.image);
  }

  /** The file's own bytes are in no run that survives. */
  lemma OwnImage(k: State, i: nat)
    requires Inv(k) && Occupied(k, i) && i in k.ring && k.current.Some? && k.procs[i].value.image.Some?
    ensures CloseHarmless(Terminate(k, i).runs, k.procs[i].value.memory)
  {
    hide ProcOk, LedgerMapped, Accounted, RingOk, Owned, Partition, InSomeRun;
    OwnedLiveRuns(k, i);
    GoneStart(k.runs, Owned(k.procs[i].value) - {k.procs[i].value.record}, k.procs[i].value.image.value);
  }

  /** A failing exit: the word found, in raw bytes or because somebody has written it, is the
      address of a run that belongs to somebody else. Its tags are cleared, so the heap hands
      the block out again. */
  lemma ExitFreesOthers(k: State, i: nat, s: seq<Tag>, calls: seq<int>, b: nat)
    requires b < HEAP_BLOCKS && Inv(k) && Occupied(k, i) && i in k.ring && k.current.Some?
    requires b in k.runs && b !in OwnedBy(k, i) && Encoded(s, k.runs) && |s| == HEAP_BLOCKS
    requires KfreesOf(k.procs[i].value, Addr(b), calls) && NoneNegative(calls)
    ensures FreeAll(s, Nats(calls))[b] == FREE && InSomeRun(Terminate(k, i).runs, b)
  {
    hide Inv, Encoded, Owned, OwnedBy, FreeAll, Reached, Partly, Terminate, FreedBlock;
    BlockInHeap(k, b);
    Survives(k, i, b);
    assert b in calls;
    var j :| 0 <= j < |calls| && calls[j] == b;
    var bs := Nats(calls);
    assert bs[j] == b;
    NoneDone(s, k.runs);
    FreeAllIs(s, k.runs, [], s, bs);
    assert [] + bs == bs;
    GoneReached(k.runs, bs, b, b);
    PartlyAt(s, k.runs, bs, FreeAll(s, bs), b);
  }

  lemma Survives(k: State, i: nat, b: nat)
    requires Inv(k) && Occupied(k, i) && i in k.ring && k.current.Some? && b in k.runs && b !in OwnedBy(k, i)
    ensures Covers(k.runs, b, b) && InSomeRun(Terminate(k, i).runs, b)
  {
    hide ProcOk, LedgerMapped, Accounted, RingOk, Owned;
    assert Covers(k.runs, b, b) && Covers(Terminate(k, i).runs, b, b);
  }

  lemma BlockInHeap(k: State, b: nat)
    requires Inv(k) && b in k.runs
    ensures b < HEAP_BLOCKS && k.runs[b] > 0 && FreedBlock(Addr(b)) == b
  {
  }

  // --- kfree(0) -----------------------------------------------------------------------------------

  /** What heap_mark_blocks_free does to the bytes in front of the table for the null
      pointer: it starts 4096 bytes before the table, clears that byte in any case and those
      behind it up to the first without HAS_NEXT. The table is reached only if all 4096 bytes
      have that bit. */
  lemma NullClearsInFront(low: seq<Tag>, table: seq<Tag>)
    requires |low| >= 4096 && |table| == HEAP_BLOCKS
    ensures FreedBlock(0) == -4096
    ensures var (s, b) := (low + table, |low| - 4096);
      && Cleared(s, b)[b] == FREE
      && (forall i :: 0 <= i < |s| ==> Cleared(s, b)[i] == if b <= i < ClearStop(s, b) then FREE else s[i])
      && (ClearStop(s, b) > |low| <==> forall i :: b <= i < |low| ==> HasNext(s[i]))
  {
    StopBeyondIff(low + table, |low| - 4096, |low|);
  }

  lemma {:induction false} StopBeyondIff(s: seq<Tag>, b: nat, end: nat)
    requires b < end < |s|
    ensures ClearStop(s, b) > end <==> forall i :: b <= i < end ==> HasNext(s[i])
    decreases end - b
  {
    if HasNext(s[b]) && b + 1 < end { StopBeyondIff(s, b + 1, end); }
  }
}
