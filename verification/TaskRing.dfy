/** The order tasks run in: the list from task_head to task_tail, read as a ring, with
    the running task. Used by the scheduler methods and by the whole-kernel model. */
module TaskRing {
  import opened Machine

  ghost predicate Distinct<T>(r: seq<T>) {
    forall i, j :: 0 <= i < |r| && 0 <= j < |r| && i != j ==> r[i] != r[j]
  }

  ghost function IndexOf<T>(r: seq<T>, t: T): (i: nat)
    requires t in r
    ensures i < |r| && r[i] == t
  {
    if r[0] == t then 0 else 1 + IndexOf(r[1..], t)
  }

  /** task_get_next: the following task, or the head after the tail. */
  ghost function Next<T>(r: seq<T>, t: T): (n: T)
    requires t in r
    ensures n in r
  {
    var i := IndexOf(r, t);
    if i + 1 == |r| then r[0] else r[i + 1]
  }

  /** The list without t. */
  ghost function Remove<T>(r: seq<T>, t: T): (s: seq<T>)
    requires t in r
    ensures |s| == |r| - 1
  {
    var i := IndexOf(r, t);
    r[..i] + r[i + 1..]
  }

  /** current_task after t leaves the list. */
  ghost function CurrentAfter<T>(r: seq<T>, current: T, t: T): Option<T>
    requires t in r
  {
    if current != t then Some(current)
    else if |r| == 1 then None
    else Some(Next(r, t))
  }

  lemma IndexIs<T>(r: seq<T>, i: nat)
    requires Distinct(r) && i < |r|
    ensures IndexOf(r, r[i]) == i
  {
  }

  lemma RemoveElements<T>(r: seq<T>, t: T)
    requires Distinct(r) && t in r
    ensures Distinct(Remove(r, t))
    ensures forall u :: u in Remove(r, t) <==> u in r && u != t
  {
    var i, s := IndexOf(r, t), Remove(r, t);
    forall u ensures u in s <==> u in r && u != t {
      if u in s {
        var j :| 0 <= j < |s| && s[j] == u;
        assert u == if j < i then r[j] else r[j + 1];
      }
      if u in r && u != t {
        var j :| 0 <= j < |r| && r[j] == u;
        assert u == if j < i then s[j] else s[j - 1];
      }
    }
  }

  lemma CurrentAfterIsLive<T>(r: seq<T>, current: T, t: T)
    requires Distinct(r) && t in r && current in r
    ensures match CurrentAfter(r, current, t)
      case None => Remove(r, t) == []
      case Some(c) => c in Remove(r, t)
  {
    RemoveElements(r, t);
    var i := IndexOf(r, t);
    if current == t && |r| > 1 {
      var j := if i + 1 == |r| then 0 else i + 1;
      assert r[j] != r[i];
    }
  }

  // --- The ring seen from the running task ------------------------------------

  /** The ring turned so that t comes first. */
  ghost function From<T>(r: seq<T>, t: T): (q: seq<T>)
    requires t in r
    ensures |q| == |r| && q[0] == t
  {
    var i := IndexOf(r, t);
    r[i..] + r[..i]
  }

  ghost function Turn<T>(q: seq<T>): seq<T>
    requires |q| > 0
  {
    q[1..] + [q[0]]
  }

  lemma FromElements<T>(r: seq<T>, t: T)
    requires t in r && Distinct(r)
    ensures Distinct(From(r, t)) && forall u :: u in From(r, t) <==> u in r
  {
    var i, q := IndexOf(r, t), From(r, t);
    forall u ensures u in q <==> u in r {
      if u in r {
        var j :| 0 <= j < |r| && r[j] == u;
        assert q[if j >= i then j - i else j + |r| - i] == u;
      }
    }
  }

  /** One scheduling step turns the ring by one. */
  lemma NextTurns<T>(r: seq<T>, t: T)
    requires t in r && Distinct(r)
    ensures From(r, Next(r, t)) == Turn(From(r, t))
  {
    var i := IndexOf(r, t);
    if i + 1 < |r| {
      IndexIs(r, i + 1);
      assert r[i..] == [r[i]] + r[i + 1..];
      assert r[..i + 1] == r[..i] + [r[i]];
    } else {
      IndexIs(r, 0);
      assert r[i..] == [r[i]];
      assert r == r[..i] + [r[i]];
    }
  }

  /** Removing the running task leaves the rest of the ring, in order, from its successor. */
  lemma RemoveDropsFirst<T>(r: seq<T>, t: T)
    requires t in r && Distinct(r) && |r| > 1
    ensures Next(r, t) in Remove(r, t)
    ensures From(Remove(r, t), Next(r, t)) == From(r, t)[1..]
  {
    var i, s, n := IndexOf(r, t), Remove(r, t), Next(r, t);
    RemoveElements(r, t);
    CurrentAfterIsLive(r, t, t);
    if i + 1 < |r| {
      assert s[i] == n;
      IndexIs(s, i);
      assert s[i..] == r[i + 1..] && s[..i] == r[..i];
    } else {
      assert s == r[..i] && s[0] == n;
      IndexIs(s, 0);
      assert From(s, n) == s;
    }
  }

  // --- Bounded waiting ---------------------------------------------------------

  /** Scheduling events without creations: the timer switches to the next task; an exit
      or exception removes the running task, which moves the cursor to its successor, and
      then switches to the next task once more. */
  datatype Event = Tick | Exit

  /** The ring, seen from the running task, after one event. */
  ghost function After<T>(q: seq<T>, e: Event): (q': seq<T>)
    requires |q| > 0 && (e.Exit? ==> |q| > 1)
    ensures |q'| == |q| - (if e.Exit? then 1 else 0)
  {
    if e.Tick? then Turn(q) else Turn(q[1..])
  }

  ghost function Exits(es: seq<Event>): nat {
    if es == [] then 0 else (if es[0].Exit? then 1 else 0) + Exits(es[1..])
  }

  /** The events can happen: some task is left to run after each. */
  ghost predicate Possible<T>(q: seq<T>, es: seq<Event>)
    decreases |es|
  {
    |q| > 0 && (es == [] || ((es[0].Exit? ==> |q| > 1) && Possible(After(q, es[0]), es[1..])))
  }

  ghost function Run<T>(q: seq<T>, es: seq<Event>): seq<T>
    requires Possible(q, es)
    decreases |es|
  {
    if es == [] then q else Run(After(q, es[0]), es[1..])
  }

  /** The tick and exit of the kernel's list and current task are Turn and drop-then-Turn
      of the ring seen from the running task. */
  lemma EventsOnTheList<T>(r: seq<T>, current: T)
    requires Distinct(r) && current in r
    ensures From(r, Next(r, current)) == After(From(r, current), Tick)
    ensures |r| > 1 ==>
      && Next(r, current) in Remove(r, current)
      && From(Remove(r, current), Next(Remove(r, current), Next(r, current))) == After(From(r, current), Exit)
  {
    NextTurns(r, current);
    if |r| > 1 {
      RemoveDropsFirst(r, current);
      RemoveElements(r, current);
      NextTurns(Remove(r, current), Next(r, current));
    }
  }

  lemma {:induction false} RunLength<T>(q: seq<T>, es: seq<Event>)
    requires Possible(q, es)
    ensures |Run(q, es)| == |q| - Exits(es) && |Run(q, es)| > 0
    decreases |es|
  {
    if es != [] {
      RunLength(After(q, es[0]), es[1..]);
    }
  }

  /** Some prefix of at most bound events brings t to the front, that is, runs it. */
  ghost predicate RunsWithin<T>(q: seq<T>, es: seq<Event>, t: T, bound: int) {
    exists k :: 0 <= k <= bound && k <= |es| && RunsAfter(q, es[..k], t)
  }

  ghost predicate RunsAfter<T>(q: seq<T>, es: seq<Event>, t: T) {
    Possible(q, es) && (RunLength(q, es); Run(q, es)[0] == t)
  }

  lemma RunsLater<T>(q: seq<T>, es: seq<Event>, t: T, bound: int)
    requires es != [] && Possible(q, es) && RunsWithin(After(q, es[0]), es[1..], t, bound)
    ensures RunsWithin(q, es, t, bound + 1)
  {
    var k :| 0 <= k <= bound && k <= |es| - 1 && RunsAfter(After(q, es[0]), es[1..][..k], t);
    assert es[..k + 1][1..] == es[1..][..k];
    assert RunsAfter(q, es[..k + 1], t);
  }

  /** What k exits can add to a wait among n tasks, each skipping the waiting task once in
      a ring that is one shorter than before. */
  ghost function Skips(n: int, k: nat): int
    decreases k
  {
    if k == 0 then 0 else (n - 2) + Skips(n - 1, k - 1)
  }

  lemma {:induction false} SkipsSum(n: int, k: nat)
    ensures 2 * Skips(n, k) == k * (2 * n - k - 3)
    decreases k
  {
    if k > 0 {
      SkipsSum(n - 1, k - 1);
      assert (k - 1) * (2 * (n - 1) - (k - 1) - 3) + 2 * (n - 2) == k * (2 * n - k - 3) by {
        var m := 2 * n - k - 4;
        assert (k - 1) * m == k * m - m;
        assert k * (m + 1) == k * m + k;
      }
    }
  }

  /** Events a task d places behind the running one of n may have to wait through, if k
      of them are exits. */
  ghost function WaitBound(d: nat, n: nat, k: nat): int {
    d + Skips(n, k)
  }

  /** A task d places behind the running one waits at most d + Skips(n, k) events: an exit by
      the running task may skip the task just behind it, sending it to the back of a ring
      that is one shorter. */
  lemma {:induction false} WaitFrom<T>(q: seq<T>, es: seq<Event>, d: nat)
    requires Possible(q, es) && d < |q| && |es| >= WaitBound(d, |q|, Exits(es))
    ensures RunsWithin(q, es, q[d], WaitBound(d, |q|, Exits(es)))
    decreases |es|
  {
    hide RunsWithin, RunsAfter, Run;
    var n, k := |q|, Exits(es);
    SkipsNotNegative(q, es);
    if d == 0 {
      RunsNow(q, es, WaitBound(0, n, k));
    } else {
      var q', es' := After(q, es[0]), es[1..];
      if es[0].Tick? {
        WaitFrom(q', es', d - 1);
        RunsLater(q, es, q[d], WaitBound(d - 1, n, k));
      } else {
        var d' := if d == 1 then n - 2 else d - 2;
        WaitFrom(q', es', d');
        RunsLater(q, es, q[d], WaitBound(d', n - 1, k - 1));
        WithinMore(q, es, q[d], WaitBound(d', n - 1, k - 1) + 1, WaitBound(d, n, k));
      }
    }
  }

  lemma SkipsNotNegative<T>(q: seq<T>, es: seq<Event>)
    requires Possible(q, es)
    ensures Skips(|q|, Exits(es)) >= 0
  {
    RunLength(q, es);
    SumNotNegative(|q|, Exits(es));
  }

  lemma {:induction false} SumNotNegative(n: int, k: nat)
    requires k < n
    ensures Skips(n, k) >= 0
    decreases k
  {
    if k > 0 { SumNotNegative(n - 1, k - 1); }
  }

  lemma RunsNow<T>(q: seq<T>, es: seq<Event>, bound: nat)
    requires |q| > 0
    ensures RunsWithin(q, es, q[0], bound)
  {
    assert RunsAfter(q, es[..0], q[0]);
  }

  lemma WithinMore<T>(q: seq<T>, es: seq<Event>, t: T, a: int, b: int)
    requires RunsWithin(q, es, t, a) && a <= b
    ensures RunsWithin(q, es, t, b)
  {
  }

  /** Bounded waiting: with n tasks, k exits and no creations, every waiting task runs within
      (n-1) + (n-2) + ... + (n-1-k) scheduling events. */
  lemma BoundedWaiting<T>(r: seq<T>, current: T, t: T, es: seq<Event>)
    requires Distinct(r) && current in r && t in r
    requires Possible(From(r, current), es) && |es| >= (|r| - 1) + Skips(|r|, Exits(es))
    ensures RunsWithin(From(r, current), es, t, (|r| - 1) + Skips(|r|, Exits(es)))
  {
    hide RunsWithin, Possible, Distinct, From, Skips, Run;
    var q := From(r, current);
    FromElements(r, current);
    var d, n, k := IndexOf(q, t), |r|, Exits(es);
    WaitFrom(q, es, d);
    WithinMore(q, es, t, WaitBound(d, n, k), WaitBound(n - 1, n, k));
  }

  /** On timer ticks alone the ring only turns: after j ticks the task j places on runs,
      so n ticks run each task exactly once and return to the start. */
  lemma {:induction false} TicksVisitAll<T>(q: seq<T>, es: seq<Event>)
    requires |es| <= |q| && |q| > 0 && Exits(es) == 0
    ensures Possible(q, es) && Run(q, es) == q[|es|..] + q[..|es|]
    decreases |es|
  {
    if es != [] {
      TicksVisitAll(Turn(q), es[1..]);
      var j := |es| - 1;
      assert Turn(q)[j..] + Turn(q)[..j] == q[|es|..] + q[..|es|];
    }
  }

  /** The worst case for a task d places behind the running one of n: ticks until it is next,
      then an exit, and so on k times. */
  ghost function Worst(d: nat, n: nat, k: nat): seq<Event>
    requires n > 0 && k < n
    decreases k, d
  {
    if d == 0 then []
    else if d == 1 && k > 0 then [Exit] + Worst(n - 2, n - 1, k - 1)
    else [Tick] + Worst(d - 1, n, k)
  }

  /** t runs after all these events and not before. */
  ghost predicate FirstRuns<T>(q: seq<T>, es: seq<Event>, t: T) {
    RunsAfter(q, es, t) && forall j :: 0 <= j < |es| ==> !RunsAfter(q, es[..j], t)
  }

  lemma FirstLater<T>(q: seq<T>, e: Event, es: seq<Event>, t: T)
    requires |q| > 0 && (e.Exit? ==> |q| > 1) && q[0] != t && FirstRuns(After(q, e), es, t)
    ensures FirstRuns(q, [e] + es, t)
  {
    var all := [e] + es;
    assert all[1..] == es;
    forall j | 0 <= j < |all| ensures !RunsAfter(q, all[..j], t) {
      if j > 0 { assert all[..j][1..] == es[..j - 1]; }
    }
  }

  /** The bound is the best one: for every ring, every task behind the running one and every
      possible number of exits, these events make the task wait exactly that long. */
  lemma {:induction false} BoundIsReached<T>(q: seq<T>, d: nat, k: nat)
    requires Distinct(q) && d < |q| && k < |q| && (d > 0 || k == 0)
    ensures var es := Worst(d, |q|, k);
      Exits(es) == k && |es| == WaitBound(d, |q|, k) && Possible(q, es) && FirstRuns(q, es, q[d])
    decreases k, d
  {
    hide RunsAfter, FirstRuns, Distinct, After;
    var n, es := |q|, Worst(d, |q|, k);
    if d == 0 {
      RunsAtOnce(q);
    } else if d == 1 && k > 0 {
      var q' := After(q, Exit);
      assert es[1..] == Worst(n - 2, n - 1, k - 1);
      ExitShape(q);
      BoundIsReached(q', n - 2, k - 1);
      FirstLater(q, Exit, es[1..], q[d]);
    } else {
      var q' := After(q, Tick);
      assert es[1..] == Worst(d - 1, n, k);
      TickShape(q, d);
      BoundIsReached(q', d - 1, k);
      FirstLater(q, Tick, es[1..], q[d]);
    }
  }

  lemma ExitShape<T>(q: seq<T>)
    requires Distinct(q) && |q| > 1
    ensures var q' := After(q, Exit); Distinct(q') && q'[|q| - 2] == q[1] && q[0] != q[1]
  {
  }

  lemma TickShape<T>(q: seq<T>, d: nat)
    requires Distinct(q) && 0 < d < |q|
    ensures var q' := After(q, Tick); Distinct(q') && q'[d - 1] == q[d] && q[0] != q[d]
  {
  }

  lemma RunsAtOnce<T>(q: seq<T>)
    requires |q| > 0
    ensures FirstRuns(q, [], q[0])
  {
  }
}
