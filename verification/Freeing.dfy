/** kfree of a series of blocks on the heap's tags, in any order: what is left, and exactly
    when that is the tags of the runs that were to survive. */
module Freeing {
  import opened Machine
  import opened HeapRuns

  /** The tags after kfree of each block in turn. */
  function FreeAll(s: seq<Tag>, bs: seq<nat>): (t: seq<Tag>)
    ensures |t| == |s|
    decreases |bs|
  {
    if bs == [] then s else FreeAll(Cleared(s, bs[0]), bs[1..])
  }

  /** Block i lies in the same run as b, from b on. */
  ghost predicate RunFrom(r: Runs, b: nat, i: int) {
    b <= i && exists a: nat :: Covers(r, a, b) && Covers(r, a, i)
  }

  ghost predicate Reached(r: Runs, bs: seq<nat>, i: int) {
    exists k :: 0 <= k < |bs| && RunFrom(r, bs[k], i)
  }

  /** What is left of the tags s of the runs r when the blocks done are freed. */
  ghost predicate Partly(s: seq<Tag>, r: Runs, done: seq<nat>, t: seq<Tag>) {
    |t| == |s| && forall i :: 0 <= i < |s| ==> t[i] == if Reached(r, done, i) then FREE else s[i]
  }

  /** Clearing from inside a run that may be partly cleared already clears its rest. */
  lemma {:induction false} ClearRest(s: seq<Tag>, r: Runs, done: seq<nat>, t: seq<Tag>, a: nat, b: nat)
    requires Encoded(s, r) && |s| == HEAP_BLOCKS && Partly(s, r, done, t) && Covers(r, a, b)
    ensures b < |t| && a + r[a] <= |t| && ClearStop(t, b) <= a + r[a]
    ensures forall i :: ClearStop(t, b) <= i < a + r[a] ==> t[i] == FREE
    decreases |s| - b
  {
    hide Encoded, Partly, Reached;
    TagAt(s, r, done, t, a, b);
    if Reached(r, done, b) {
      RestReached(s, r, done, t, a, b);
    } else if b + 1 < a + r[a] {
      assert Covers(r, a, b + 1);
      ClearRest(s, r, done, t, a, b + 1);
    }
  }

  lemma TagAt(s: seq<Tag>, r: Runs, done: seq<nat>, t: seq<Tag>, a: nat, b: nat)
    requires Encoded(s, r) && Partly(s, r, done, t) && Covers(r, a, b)
    ensures b < |s| == |t| && a + r[a] <= |s|
    ensures t[b] == if Reached(r, done, b) then FREE else s[b]
    ensures !Reached(r, done, b) ==> (HasNext(t[b]) <==> b + 1 < a + r[a])
    ensures !HasNext(FREE)
  {
    hide Reached;
    RunTagBits(b - a, r[a]);
  }

  lemma RestReached(s: seq<Tag>, r: Runs, done: seq<nat>, t: seq<Tag>, a: nat, b: nat)
    requires Encoded(s, r) && |s| == HEAP_BLOCKS && Partly(s, r, done, t) && Covers(r, a, b) && Reached(r, done, b)
    ensures a + r[a] <= |t| && forall i :: b <= i < a + r[a] ==> t[i] == FREE
  {
    hide Reached;
    ReachedOn(r, done, a, b);
  }

  /** Once a block of a run is reached, so are those behind it. */
  lemma ReachedOn(r: Runs, done: seq<nat>, a: nat, b: nat)
    requires Covers(r, a, b) && Reached(r, done, b) && Partition(r, HEAP_BLOCKS)
    ensures forall i: int :: b <= i < a + r[a] ==> Reached(r, done, i)
  {
    var k :| 0 <= k < |done| && RunFrom(r, done[k], b);
    var c: nat :| Covers(r, c, done[k]) && Covers(r, c, b);
    OneCover(r, a, c, b);
    forall i: int | b <= i < a + r[a] ensures RunFrom(r, done[k], i) {
      assert Covers(r, a, i);
    }
  }

  /** One more kfree: the blocks it reaches are exactly those of one more entry. */
  lemma FreeOne(s: seq<Tag>, r: Runs, done: seq<nat>, t: seq<Tag>, b: nat)
    requires Encoded(s, r) && |s| == HEAP_BLOCKS && Partly(s, r, done, t)
    ensures Partly(s, r, done + [b], Cleared(t, b))
  {
    hide Encoded, Partly, Reached, Cleared, Partition;
    EncodedParts(s, r);
    if a: nat :| Covers(r, a, b) {
      ClearRest(s, r, done, t, a, b);
      FreeInRun(s, r, done, t, a, b);
    } else {
      FreeOutside(s, r, done, t, b);
    }
  }

  lemma EncodedParts(s: seq<Tag>, r: Runs)
    requires Encoded(s, r)
    ensures Partition(r, |s|)
  {
  }

  lemma ReachedMore(r: Runs, done: seq<nat>, b: nat, i: int)
    ensures Reached(r, done + [b], i) <==> Reached(r, done, i) || RunFrom(r, b, i)
  {
    hide RunFrom;
    var more := done + [b];
    if Reached(r, done, i) {
      var k :| 0 <= k < |done| && RunFrom(r, done[k], i);
      assert more[k] == done[k];
    }
    if RunFrom(r, b, i) { assert more[|done|] == b; }
  }

  lemma FreeInRun(s: seq<Tag>, r: Runs, done: seq<nat>, t: seq<Tag>, a: nat, b: nat)
    requires Partition(r, HEAP_BLOCKS) && |s| == HEAP_BLOCKS && Partly(s, r, done, t) && Covers(r, a, b)
    requires b < |t| && a + r[a] <= |t| && ClearStop(t, b) <= a + r[a]
    requires forall i :: ClearStop(t, b) <= i < a + r[a] ==>
      t[i] == FREE
    ensures Partly(s, r, done + [b], Cleared(t, b))
  {
    hide Reached, RunFrom, Partition;
    forall i | 0 <= i < |s|
      ensures Cleared(t, b)[i] == if Reached(r, done + [b], i) then FREE else s[i]
    {
      ReachedMore(r, done, b, i);
      FromIs(r, a, b, i);
    }
  }

  lemma FromIs(r: Runs, a: nat, b: nat, i: int)
    requires Partition(r, HEAP_BLOCKS) && Covers(r, a, b)
    ensures RunFrom(r, b, i) <==> b <= i < a + r[a]
  {
    if b <= i < a + r[a] { assert Covers(r, a, i); }
    if RunFrom(r, b, i) {
      var c: nat :| Covers(r, c, b) && Covers(r, c, i);
      OneCover(r, a, c, b);
    }
  }

  lemma FreeOutside(s: seq<Tag>, r: Runs, done: seq<nat>, t: seq<Tag>, b: nat)
    requires Encoded(s, r) && Partly(s, r, done, t) && !exists a: nat :: Covers(r, a, b)
    ensures Partly(s, r, done + [b], Cleared(t, b))
  {
    hide Reached;
    if b < |s| { assert s[b] == FREE; }
    ClearedFree(t, b);
    forall i: int ensures Reached(r, done + [b], i) <==> Reached(r, done, i) {
      ReachedMore(r, done, b, i);
    }
  }

  lemma {:induction false} FreeAllIs(s: seq<Tag>, r: Runs, done: seq<nat>, t: seq<Tag>, bs: seq<nat>)
    requires Encoded(s, r) && |s| == HEAP_BLOCKS && Partly(s, r, done, t)
    ensures Partly(s, r, done + bs, FreeAll(t, bs))
    decreases |bs|
  {
    hide Encoded, Partly;
    if bs == [] {
      assert done + bs == done;
    } else {
      FreeOne(s, r, done, t, bs[0]);
      FreeAllIs(s, r, done + [bs[0]], Cleared(t, bs[0]), bs[1..]);
      assert done + [bs[0]] + bs[1..] == done + bs;
    }
  }

  /** Freeing the starts of the runs gone and one block more leaves the tags of the other
      runs exactly when that block lies in none of these. */
  lemma FreesExactlyIff(s: seq<Tag>, r: Runs, gone: set<nat>, extra: nat, bs: seq<nat>)
    requires Encoded(s, r) && |s| == HEAP_BLOCKS && gone <= r.Keys
    requires forall b: nat :: b in bs <==> b in gone || b == extra
    ensures Encoded(FreeAll(s, bs), r - gone) <==> !InSomeRun(r - gone, extra)
  {
    hide Encoded, Partition;
    NoneDone(s, r);
    FreeAllIs(s, r, [], s, bs);
    assert [] + bs == bs;
    var t := FreeAll(s, bs);
    if InSomeRun(r - gone, extra) {
      Hit(s, r, gone, extra, bs, t);
    } else {
      Spared(s, r, gone, extra, bs, t);
    }
  }

  lemma NoneDone(s: seq<Tag>, r: Runs)
    ensures Partly(s, r, [], s)
  {
  }

  lemma Hit(s: seq<Tag>, r: Runs, gone: set<nat>, extra: nat, bs: seq<nat>, t: seq<Tag>)
    requires Encoded(s, r) && Partly(s, r, bs, t) && extra in bs && InSomeRun(r - gone, extra)
    ensures !Encoded(t, r - gone)
  {
    hide Partly;
    var a: nat :| Covers(r - gone, a, extra);
    assert Covers(r, a, extra);
    var k :| 0 <= k < |bs| && bs[k] == extra;
    assert RunFrom(r, bs[k], extra);
    assert Reached(r, bs, extra);
    RunTagBits(extra - a, r[a]);
    PartlyAt(s, r, bs, t, extra);
  }

  lemma PartlyAt(s: seq<Tag>, r: Runs, bs: seq<nat>, t: seq<Tag>, i: nat)
    requires Partly(s, r, bs, t) && i < |s|
    ensures |t| == |s| && t[i] == if Reached(r, bs, i) then FREE else s[i]
  {
  }

  lemma PartlySize(s: seq<Tag>, r: Runs, bs: seq<nat>, t: seq<Tag>)
    requires Partly(s, r, bs, t)
    ensures |t| == |s|
  {
  }

  lemma Spared(s: seq<Tag>, r: Runs, gone: set<nat>, extra: nat, bs: seq<nat>, t: seq<Tag>)
    requires Encoded(s, r) && |s| == HEAP_BLOCKS && Partly(s, r, bs, t) && gone <= r.Keys && !InSomeRun(r - gone, extra)
    requires forall b: nat :: b in bs <==> b in gone || b == extra
    ensures Encoded(t, r - gone)
  {
    hide Partly, Reached;
    PartlySize(s, r, bs, t);
    PartitionSubset(r, |s|, gone);
    forall b: nat, i | Covers(r - gone, b, i)
      ensures t[i] == RunTag(i - b, (r - gone)[b])
    {
      assert Covers(r, b, i);
      NotReached(r, gone, extra, bs, b, i);
      PartlyAt(s, r, bs, t, i);
    }
    forall i: nat | i < |s| && !InSomeRun(r - gone, i)
      ensures t[i] == FREE
    {
      PartlyAt(s, r, bs, t, i);
      if b: nat :| Covers(r, b, i) {
        assert b !in gone ==> Covers(r - gone, b, i);
        GoneReached(r, bs, b, i);
      }
    }
  }

  lemma NotReached(r: Runs, gone: set<nat>, extra: nat, bs: seq<nat>, b: nat, i: int)
    requires Partition(r, HEAP_BLOCKS) && Covers(r, b, i) && b !in gone && gone <= r.Keys && !InSomeRun(r - gone, extra)
    requires forall c: nat :: c in bs <==> c in gone || c == extra
    ensures !Reached(r, bs, i)
  {
    forall k | 0 <= k < |bs| ensures !RunFrom(r, bs[k], i) {
      assert bs[k] in bs;
      NotInRun(r, gone, extra, b, bs[k]);
      if RunFrom(r, bs[k], i) {
        var c: nat :| Covers(r, c, bs[k]) && Covers(r, c, i);
        OneCover(r, b, c, i);
      }
    }
  }

  lemma NotInRun(r: Runs, gone: set<nat>, extra: nat, b: nat, c: nat)
    requires Partition(r, HEAP_BLOCKS) && b in r && b !in gone && gone <= r.Keys && !InSomeRun(r - gone, extra)
    requires c in gone || c == extra
    ensures !Covers(r, b, c)
  {
    if c in gone {
      assert Covers(r, c, c);
      if Covers(r, b, c) { OneCover(r, b, c, c); }
    } else {
      assert !Covers(r - gone, b, c);
    }
  }

  lemma GoneReached(r: Runs, bs: seq<nat>, b: nat, i: int)
    requires Covers(r, b, i) && b in bs
    ensures Reached(r, bs, i)
  {
    var k :| 0 <= k < |bs| && bs[k] == b;
    assert Covers(r, b, b);
    assert RunFrom(r, bs[k], i);
  }

  lemma FreeAllMore(s: seq<Tag>, bs: seq<nat>, b: nat)
    ensures FreeAll(s, bs + [b]) == Cleared(FreeAll(s, bs), b)
  {
    FreeAllJoin(s, bs, [b]);
  }

  lemma {:induction false} FreeAllJoin(s: seq<Tag>, bs: seq<nat>, cs: seq<nat>)
    ensures FreeAll(s, bs + cs) == FreeAll(FreeAll(s, bs), cs)
    decreases |bs|
  {
    hide Cleared;
    if bs == [] {
      assert bs + cs == cs;
    } else {
      assert (bs + cs)[1..] == bs[1..] + cs;
      FreeAllJoin(Cleared(s, bs[0]), bs[1..], cs);
    }
  }

  /** Freeing the starts of live runs removes exactly these runs. */
  lemma FreesExactly(s: seq<Tag>, r: Runs, gone: set<nat>, bs: seq<nat>)
    requires Encoded(s, r) && |s| == HEAP_BLOCKS && gone <= r.Keys && forall b: nat :: b in bs <==> b in gone
    ensures Encoded(FreeAll(s, bs), r - gone)
  {
    hide Encoded, FreeAll;
    if bs == [] {
      assert r - gone == r;
      assert FreeAll(s, bs) == s by { NoneFreed(s); }
    } else {
      EncodedParts(s, r);
      GoneStart(r, gone, bs[0]);
      FreesExactlyIff(s, r, gone, bs[0], bs);
    }
  }

  lemma NoneFreed(s: seq<Tag>)
    ensures FreeAll(s, []) == s
  {
  }

  lemma GoneStart(r: Runs, gone: set<nat>, b: nat)
    requires Partition(r, HEAP_BLOCKS) && b in gone && gone <= r.Keys
    ensures !InSomeRun(r - gone, b)
  {
    hide Partition;
    assert Covers(r, b, b) by { StartCovered(r, b); }
    forall a: nat ensures !Covers(r - gone, a, b) {
      if Covers(r, a, b) { OneCover(r, a, b, b); }
    }
  }

  lemma StartCovered(r: Runs, b: nat)
    requires Partition(r, HEAP_BLOCKS) && b in r
    ensures Covers(r, b, b)
  {
  }
}
