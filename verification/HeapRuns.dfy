/** The abstract heap: which blocks belong to which live allocation, how the tag
    bytes of heap.c encode that, and what "first fit" means. */
module HeapRuns {
  import opened Machine

  type Tag = bv8

  const FREE: Tag := 0x00
  const TAKEN: Tag := 0x01
  const HAS_NEXT: Tag := 0x80
  const IS_FIRST: Tag := 0x40

  function EntryType(e: Tag): Tag {
    e & 0x0f
  }

  /** Live allocations: first block of each run, mapped to its length in blocks. */
  type Runs = map<nat, nat>

  ghost predicate Covers(r: Runs, b: nat, i: int) {
    b in r && b <= i < b + r[b]
  }

  lemma RunInside(r: Runs, b: nat, size: nat)
    requires Partition(r, size) && b in r
    ensures r[b] > 0 && b + r[b] <= size
  {
  }

  lemma OneCover(r: Runs, a: nat, b: nat, c: int)
    requires Partition(r, HEAP_BLOCKS) && Covers(r, a, c) && Covers(r, b, c)
    ensures a == b
  {
  }

  ghost predicate InSomeRun(r: Runs, i: int) {
    exists b :: Covers(r, b, i)
  }

  /** Runs are non-empty, lie inside the table and do not overlap. */
  ghost predicate Partition(r: Runs, total: nat) {
    && (forall b :: b in r ==> r[b] >= 1 && b + r[b] <= total)
    && (forall a, b :: a in r && b in r && a < b ==> a + r[a] <= b)
  }

  /** The tag of block i of a run of n blocks. */
  function RunTag(i: nat, n: nat): Tag {
    TAKEN | (if i == 0 then IS_FIRST else 0) | (if i + 1 < n then HAS_NEXT else 0)
  }

  /** The tag bytes s say exactly that r is the set of live runs. */
  ghost predicate Encoded(s: seq<Tag>, r: Runs) {
    && Partition(r, |s|)
    && (forall b: nat, i :: Covers(r, b, i) ==> s[i] == RunTag(i - b, r[b]))
    && (forall i :: 0 <= i < |s| && !InSomeRun(r, i) ==> s[i] == FREE)
  }

  ghost predicate FreeAt(r: Runs, b: int, n: nat) {
    forall i :: b <= i < b + n ==> !InSomeRun(r, i)
  }

  ghost predicate FreeWindow(s: seq<Tag>, b: int, n: nat) {
    0 <= b && b + n <= |s| && forall i :: b <= i < b + n ==> EntryType(s[i]) == FREE
  }

  lemma RunTagBits(i: nat, n: nat)
    ensures EntryType(RunTag(i, n)) == TAKEN
    ensures HasNext(RunTag(i, n)) <==> i + 1 < n
    ensures IsFirst(RunTag(i, n)) <==> i == 0
    ensures RunTag(i, n) != FREE && TagValue(RunTag(i, n))
  {
  }

  /** Seen through the tags, a block is free iff no live run covers it. */
  lemma FreeTag(s: seq<Tag>, r: Runs, i: nat)
    requires Encoded(s, r) && i < |s|
    ensures EntryType(s[i]) == FREE <==> !InSomeRun(r, i)
    ensures EntryType(s[i]) == FREE <==> s[i] == FREE
  {
    if InSomeRun(r, i) {
      var b: nat :| Covers(r, b, i);
      RunTagBits(i - b, r[b]);
    }
  }

  lemma FreeWindowIsFreeAt(s: seq<Tag>, r: Runs, b: int, n: nat)
    requires Encoded(s, r) && 0 <= b && b + n <= |s|
    ensures FreeWindow(s, b, n) <==> FreeAt(r, b, n)
  {
    forall i | b <= i < b + n
      ensures EntryType(s[i]) == FREE <==> !InSomeRun(r, i)
    {
      FreeTag(s, r, i);
    }
  }

  /** Lowest start >= b of n consecutive free blocks, or -1. */
  ghost function FirstFitFrom(r: Runs, total: nat, n: nat, b: nat): (f: int)
    ensures f == -1 || (b <= f && f + n <= total && FreeAt(r, f, n))
    ensures forall c :: b <= c && c + n <= total && FreeAt(r, c, n) ==> 0 <= f <= c
    decreases total - b
  {
    if b + n > total then -1
    else if FreeAt(r, b, n) then b
    else if b == total then -1
    else FirstFitFrom(r, total, n, b + 1)
  }

  /** First fit over the whole table; no fit exists for zero blocks. */
  ghost function FirstFit(r: Runs, total: nat, n: nat): (f: int)
    ensures f == -1 || (n > 0 && 0 <= f && f + n <= total && FreeAt(r, f, n))
    ensures forall c :: n > 0 && 0 <= c && c + n <= total && FreeAt(r, c, n) ==> 0 <= f <= c
  {
    if n == 0 then -1 else FirstFitFrom(r, total, n, 0)
  }

  /** What a caller of the allocator expects of the block search. */
  ghost predicate IsFirstFit(s: seq<Tag>, n: nat, start: int) {
    if start < 0 then
      start == -ENOMEM && (n > 0 ==> forall b :: !FreeWindow(s, b, n))
    else
      n > 0 && FreeWindow(s, start, n) && forall b :: FreeWindow(s, b, n) ==> start <= b
  }

  lemma IsFirstFitMeansFirstFit(s: seq<Tag>, r: Runs, n: nat, start: int)
    requires Encoded(s, r) && IsFirstFit(s, n, start)
    ensures FirstFit(r, |s|, n) == (if start < 0 then -1 else start)
  {
    forall b | 0 <= b && b + n <= |s|
      ensures FreeWindow(s, b, n) <==> FreeAt(r, b, n)
    {
      FreeWindowIsFreeAt(s, r, b, n);
    }
  }

  // --- Adding and removing a run -------------------------------------------

  lemma PartitionAdd(r: Runs, total: nat, b: nat, n: nat)
    requires Partition(r, total) && n >= 1 && b + n <= total && FreeAt(r, b, n)
    ensures b !in r && Partition(r[b := n], total)
    ensures forall i :: InSomeRun(r[b := n], i) <==> InSomeRun(r, i) || b <= i < b + n
  {
    var r' := r[b := n];
    assert b !in r by {
      if b in r { assert Covers(r, b, b); assert InSomeRun(r, b); }
    }
    forall a | a in r
      ensures a < b ==> a + r[a] <= b
      ensures a > b ==> b + n <= a
    {
      if a < b < a + r[a] { assert Covers(r, a, b); assert InSomeRun(r, b); }
      if b < a < b + n { assert Covers(r, a, a); assert InSomeRun(r, a); }
    }
    forall i ensures InSomeRun(r', i) <==> InSomeRun(r, i) || b <= i < b + n {
      if InSomeRun(r, i) {
        var a: nat :| Covers(r, a, i);
        assert Covers(r', a, i);
      }
      if b <= i < b + n { assert Covers(r', b, i); }
      if InSomeRun(r', i) && !(b <= i < b + n) {
        var a: nat :| Covers(r', a, i);
        assert Covers(r, a, i);
      }
    }
  }

  lemma PartitionRemove(r: Runs, total: nat, b: nat)
    requires Partition(r, total) && b in r
    ensures Partition(r - {b}, total)
    ensures forall i :: InSomeRun(r - {b}, i) <==> InSomeRun(r, i) && !Covers(r, b, i)
  {
    var r' := r - {b};
    forall i ensures InSomeRun(r', i) <==> InSomeRun(r, i) && !Covers(r, b, i) {
      if InSomeRun(r', i) {
        var a: nat :| Covers(r', a, i);
        assert Covers(r, a, i);
      }
      if InSomeRun(r, i) && !Covers(r, b, i) {
        var a: nat :| Covers(r, a, i);
        assert Covers(r', a, i);
      }
    }
  }

  /** Writing the run's tags over free blocks encodes one more run. */
  lemma EncodeAdd(s: seq<Tag>, s': seq<Tag>, r: Runs, b: nat, n: nat)
    requires Encoded(s, r) && n >= 1 && b + n <= |s| == |s'| && FreeAt(r, b, n)
    requires forall i :: b <= i < b + n ==> s'[i] == RunTag(i - b, n)
    requires forall i :: 0 <= i < |s| && !(b <= i < b + n) ==> s'[i] == s[i]
    ensures b !in r && Encoded(s', r[b := n])
  {
    PartitionAdd(r, |s|, b, n);
    var r' := r[b := n];
    forall a, i | Covers(r', a, i)
      ensures s'[i] == RunTag(i - a, r'[a])
    {
      if a != b { assert Covers(r, a, i); }
    }
  }

  /** Clearing one run's tags encodes one run less. */
  lemma EncodeRemove(s: seq<Tag>, s': seq<Tag>, r: Runs, b: nat)
    requires Encoded(s, r) && b in r && |s'| == |s|
    requires forall i :: 0 <= i < |s| ==> s'[i] == if Covers(r, b, i) then FREE else s[i]
    ensures Encoded(s', r - {b})
  {
    PartitionRemove(r, |s|, b);
    var r' := r - {b};
    forall a, i | Covers(r', a, i)
      ensures s'[i] == RunTag(i - a, r'[a])
    {
      assert Covers(r, a, i) && a != b;
      assert !Covers(r, b, i);
    }
  }

  // --- Adding and removing several runs ------------------------------------

  /** The live runs r may be joined by the runs extra. */
  ghost predicate Extends(r: Runs, extra: Runs, total: nat) {
    extra.Keys !! r.Keys && Partition(r + extra, total)
  }

  lemma PartitionSubset(r: Runs, total: nat, s: set<nat>)
    requires Partition(r, total)
    ensures Partition(r - s, total)
  {
  }

  predicate InRange(i: int, b: nat, n: nat) {
    b <= i < b + n
  }

  ghost function RunBlocks(b: nat, n: nat): set<nat> {
    set i: nat | i < b + n && InRange(i, b, n)
  }

  lemma RunsApart(r: Runs, total: nat, a: nat, b: nat)
    requires Partition(r, total) && a in r && b in r && a != b
    ensures RunBlocks(a, r[a]) !! RunBlocks(b, r[b])
  {
    forall c | c in RunBlocks(a, r[a]) ensures c !in RunBlocks(b, r[b]) {
      assert Covers(r, a, c);
      if Covers(r, b, c) { OneCover(r, a, b, c); }
    }
  }

  /** A run holds the start of no other. */
  lemma StartOnce(r: Runs, total: nat, b: nat, c: nat)
    requires Partition(r, total) && b in r && c in r && b != c
    ensures c !in RunBlocks(b, r[b])
  {
    assert Covers(r, c, c);
    if Covers(r, b, c) { OneCover(r, b, c, c); }
  }

  lemma {:induction false} RunSize(b: nat, n: nat)
    ensures |RunBlocks(b, n)| == n
  {
    if n == 0 {
      assert RunBlocks(b, n) == {};
    } else {
      RunSize(b, n - 1);
      assert RunBlocks(b, n) == RunBlocks(b, n - 1) + {b + n - 1};
    }
  }

  ghost function Singles(s: set<nat>): Runs {
    map b | b in s :: 1
  }

  ghost function FreeBlocks(r: Runs, total: nat): set<nat> {
    set b: nat | b < total && !InSomeRun(r, b)
  }

  /** With a free block left, a one-block request succeeds and uses up one free block. */
  lemma TakeOne(r: Runs, total: nat)
    requires Partition(r, total) && FreeBlocks(r, total) != {}
    ensures var fit := FirstFit(r, total, 1);
      && fit != -1 && fit !in r && Partition(r[fit := 1], total)
      && |FreeBlocks(r[fit := 1], total)| == |FreeBlocks(r, total)| - 1
  {
    var b :| b in FreeBlocks(r, total);
    assert FreeAt(r, b, 1);
    TakeBlock(r, total, FirstFit(r, total, 1));
  }

  lemma TakeBlock(r: Runs, total: nat, b: nat)
    requires Partition(r, total) && b < total && FreeAt(r, b, 1)
    ensures b !in r && Partition(r[b := 1], total)
    ensures |FreeBlocks(r[b := 1], total)| == |FreeBlocks(r, total)| - 1
  {
    PartitionAdd(r, total, b, 1);
    assert !InSomeRun(r, b);
    assert FreeBlocks(r[b := 1], total) == FreeBlocks(r, total) - {b};
  }

  // --- The tags decode to exactly one partition ----------------------------

  predicate HasNext(e: Tag) {
    e & HAS_NEXT != 0
  }

  predicate IsFirst(e: Tag) {
    e & IS_FIRST != 0
  }

  predicate TagValue(e: Tag) {
    e == FREE || (EntryType(e) == TAKEN && e & 0x30 == 0)
  }

  /** Every tag is free or one of the four taken tags, and HAS_NEXT links a block to an
      inner (taken, non-first) block after it, which has a HAS_NEXT block before it. */
  ghost predicate WellTagged(s: seq<Tag>) {
    && (forall i :: 0 <= i < |s| ==> TagValue(s[i]))
    && (forall i :: 0 <= i < |s| ==> Linked(s, i))
    && (|s| > 0 ==> !Inner(s[0]))
  }

  ghost predicate Linked(s: seq<Tag>, i: nat)
    requires i < |s|
  {
    HasNext(s[i]) <==> i + 1 < |s| && Inner(s[i + 1])
  }

  /** A taken block that is not the first of its run. */
  predicate Inner(e: Tag) {
    e != FREE && !IsFirst(e)
  }

  lemma TagIsRunTag(e: Tag, i: nat, n: nat)
    requires TagValue(e) && e != FREE && (IsFirst(e) <==> i == 0) && (HasNext(e) <==> i + 1 < n)
    ensures e == RunTag(i, n)
  {
  }

  /** Two run sets with the same tags are the same run set. */
  lemma EncodingIsInjective(s: seq<Tag>, r1: Runs, r2: Runs)
    requires Encoded(s, r1) && Encoded(s, r2)
    ensures r1 == r2
  {
    forall b | b in r1 ensures b in r2 && r1[b] == r2[b] { SameRun(s, r1, r2, b); }
    forall b | b in r2 ensures b in r1 { SameRun(s, r2, r1, b); }
  }

  lemma SameRun(s: seq<Tag>, r1: Runs, r2: Runs, b: nat)
    requires Encoded(s, r1) && Encoded(s, r2) && b in r1
    ensures b in r2 && r1[b] == r2[b]
  {
    assert Covers(r1, b, b);
    RunTagBits(0, r1[b]);
    FreeTag(s, r2, b);
    var a: nat :| Covers(r2, a, b);
    RunTagBits(b - a, r2[a]);
    assert a == b;
    var n := if r1[b] < r2[b] then r1[b] else r2[b];
    var last := b + n - 1;
    assert Covers(r1, b, last) && Covers(r2, b, last);
    RunTagBits(n - 1, r1[b]);
    RunTagBits(n - 1, r2[b]);
  }

  /** One run set has one encoding, so malloc followed by free restores every tag. */
  lemma EncodingIsAFunction(s1: seq<Tag>, s2: seq<Tag>, r: Runs)
    requires Encoded(s1, r) && Encoded(s2, r) && |s1| == |s2|
    ensures s1 == s2
  {
    forall i | 0 <= i < |s1| ensures s1[i] == s2[i] {
      if InSomeRun(r, i) {
        var b: nat :| Covers(r, b, i);
      }
    }
  }

  lemma EncodedIsWellTagged(s: seq<Tag>, r: Runs)
    requires Encoded(s, r)
    ensures WellTagged(s)
  {
    forall i | 0 <= i < |s|
      ensures TagValue(s[i])
      ensures Linked(s, i)
      ensures i == 0 ==> !Inner(s[i])
    {
      TagNeighbours(s, r, i);
    }
  }

  lemma TagNeighbours(s: seq<Tag>, r: Runs, i: nat)
    requires Encoded(s, r) && i < |s|
    ensures TagValue(s[i])
    ensures Linked(s, i)
    ensures i == 0 ==> !Inner(s[i])
  {
    if InSomeRun(r, i) {
      var b: nat :| Covers(r, b, i);
      RunTagBits(i - b, r[b]);
      if i + 1 < b + r[b] { assert Covers(r, b, i + 1); RunTagBits(i + 1 - b, r[b]); }
    }
    if i + 1 < |s| && InSomeRun(r, i + 1) {
      var a: nat :| Covers(r, a, i + 1);
      RunTagBits(i + 1 - a, r[a]);
      if a <= i { assert Covers(r, a, i); }
    }
  }

  /** End of the chain through i: one past the first block from i on without HAS_NEXT. */
  ghost function ChainEnd(s: seq<Tag>, i: nat): (e: nat)
    requires WellTagged(s) && i < |s|
    ensures i < e <= |s|
    ensures !HasNext(s[e - 1])
    ensures forall j :: i <= j < e - 1 ==> HasNext(s[j])
    decreases |s| - i
  {
    assert Linked(s, i);
    if !HasNext(s[i]) then i + 1 else ChainEnd(s, i + 1)
  }

  /** The run set read off the tags. */
  ghost function Decode(s: seq<Tag>): Runs
    requires WellTagged(s)
  {
    map b: nat | b < |s| && IsFirst(s[b]) :: ChainEnd(s, b) - b
  }

  /** Walking back over inner blocks reaches the first block of the run. */
  lemma {:induction false} RunStart(s: seq<Tag>, i: nat) returns (b: nat)
    requires WellTagged(s) && i < |s| && s[i] != FREE
    ensures b <= i < ChainEnd(s, b) && IsFirst(s[b])
  {
    if IsFirst(s[i]) {
      b := i;
    } else {
      assert Inner(s[i]) && Linked(s, i - 1);
      b := RunStart(s, i - 1);
    }
  }

  lemma ChainTag(s: seq<Tag>, b: nat, i: nat)
    requires WellTagged(s) && b <= i && b < |s| && IsFirst(s[b]) && i < ChainEnd(s, b)
    ensures s[i] == RunTag(i - b, ChainEnd(s, b) - b)
  {
    if i > b {
      assert Linked(s, i - 1) && HasNext(s[i - 1]);
    }
    TagIsRunTag(s[i], i - b, ChainEnd(s, b) - b);
  }

  lemma DecodeIsPartition(s: seq<Tag>)
    requires WellTagged(s)
    ensures Partition(Decode(s), |s|)
  {
    var r := Decode(s);
    forall a, b | a in r && b in r && a < b ensures a + r[a] <= b {
      assert Linked(s, b - 1);
    }
  }

  lemma DecodeEncodes(s: seq<Tag>)
    requires WellTagged(s)
    ensures Encoded(s, Decode(s))
  {
    var r := Decode(s);
    DecodeIsPartition(s);
    forall b: nat, i | Covers(r, b, i) ensures s[i] == RunTag(i - b, r[b]) {
      ChainTag(s, b, i);
    }
    forall i | 0 <= i < |s| && !InSomeRun(r, i) ensures s[i] == FREE {
      if s[i] != FREE {
        var b := RunStart(s, i);
        assert Covers(r, b, i);
      }
    }
  }

  /** The tags decode to a partition of the table (necessarily one) exactly when they
      are well tagged. */
  lemma WellTaggedIffEncoded(s: seq<Tag>)
    ensures WellTagged(s) <==> exists r :: Encoded(s, r)
  {
    if r :| Encoded(s, r) { EncodedIsWellTagged(s, r); }
    if WellTagged(s) { DecodeEncodes(s); }
  }

  // --- Clearing from any block on ------------------------------------------

  /** Where heap_mark_blocks_free stops that starts at block b: behind the first block
      without HAS_NEXT, or at the end of the table. */
  function ClearStop(s: seq<Tag>, b: nat): (e: nat)
    requires b < |s|
    ensures b < e <= |s|
    decreases |s| - b
  {
    if b + 1 == |s| || !HasNext(s[b]) then b + 1 else ClearStop(s, b + 1)
  }

  /** The tags after heap_mark_blocks_free from block b on, whatever b is. */
  function Cleared(s: seq<Tag>, b: nat): (t: seq<Tag>)
    ensures |t| == |s|
  {
    if b >= |s| then s else seq(|s|, i requires 0 <= i < |s| => if b <= i < ClearStop(s, b) then FREE else s[i])
  }

  /** From the start of a run, clearing stops exactly behind the run. */
  lemma {:induction false} ClearStopOfRun(s: seq<Tag>, r: Runs, b: nat, i: nat)
    requires Encoded(s, r) && Covers(r, b, i)
    ensures i < |s| && ClearStop(s, i) == b + r[b] <= |s|
    decreases |s| - i
  {
    RunTagBits(i - b, r[b]);
    if i + 1 < b + r[b] {
      assert Covers(r, b, i + 1);
      ClearStopOfRun(s, r, b, i + 1);
    }
  }

  lemma ClearedFree(s: seq<Tag>, b: nat)
    requires b < |s| ==> s[b] == FREE
    ensures Cleared(s, b) == s
  {
    assert !HasNext(FREE);
    if b < |s| {
      assert ClearStop(s, b) == b + 1;
      forall i | 0 <= i < |s| ensures Cleared(s, b)[i] == s[i] {}
    }
  }
}
