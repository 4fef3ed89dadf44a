/**
 Who gets what in a run of LockRange (yacul/concurrency/lock_range.cc), told by the guards that are valid and the
 writers that wait, without the table: when a request is granted, when it waits and when a guard comes out empty.
 */
module LockRangeFate {
  import opened RangeTable
  import opened LockRange

  predicate Covers(h: Hold, x: nat)
  {
    h.offset <= x < h.end
  }

  /** Some offset is in both ranges. */
  ghost predicate Meet(a: Hold, b: Hold)
  {
    exists x :: Covers(a, x) && Covers(b, x)
  }

  /** The comparison of the ends says whether two ranges have an offset in common. */
  lemma OverlapsExactly(a: Hold, b: Hold)
    requires GoodRange(a) && GoodRange(b)
    ensures Overlaps(a, b) <==> Meet(a, b)
  {
    if Overlaps(a, b) {
      var x := if a.offset < b.offset then b.offset else a.offset;
      assert Covers(a, x) && Covers(b, x);
    }
  }

  /** Slot j holds a range that h meets, and not both are shared. */
  ghost predicate InTheWay(x: Slot, h: Hold)
  {
    x.Valid? && Meet(x.hold, h) && (x.hold.mode.Exclusive? || h.mode.Exclusive?)
  }

  ghost predicate NoGuardInTheWay(xs: seq<Slot>, h: Hold)
  {
    forall j {:trigger xs[j]} :: 0 <= j < |xs| ==> !InTheWay(xs[j], h)
  }

  /** A waiting writer that h meets. */
  ghost predicate Queues(w: Waiter, h: Hold)
  {
    w.hold.mode.Exclusive? && Meet(w.hold, h)
  }

  /** The request h stands in nobody's way and comes before no waiting writer. */
  ghost predicate NobodyInTheWay(s: State, h: Hold)
  {
    NoGuardInTheWay(s.slots, h) && (h.mode.Shared? ==> forall w <- s.tb.waiters :: !Queues(w, h))
  }

  lemma {:induction false} HasBag(es: seq<Entry>, i: nat)
    requires i < |es|
    ensures es[i].hold in Bag(es)
  {
    if i > 0 {
      HasBag(es[1..], i - 1);
    }
  }

  lemma {:induction false} GuardOf(xs: seq<Slot>, h: Hold) returns (i: nat)
    requires h in GuardBag(xs)
    ensures i < |xs| && xs[i] == Valid(h)
  {
    if h in Held(xs[0]) {
      i := 0;
    } else {
      i := GuardOf(xs[1..], h);
      i := i + 1;
    }
  }

  /** The entries conflict with a request exactly if some guard is in its way. */
  lemma ConflictExactly(s: State, h: Hold)
    requires Inv(s) && GoodRange(h)
    ensures ConflictIn(s.tb.entries, h) <==> !NoGuardInTheWay(s.slots, h)
  {
    var es := s.tb.entries;
    if ConflictIn(es, h) {
      var k :| 0 <= k < |es| && Conflicts(es[k].hold, h);
      assert es[k] in es;
      HasBag(es, k);
      var j := GuardOf(s.slots, es[k].hold);
      OverlapsExactly(es[k].hold, h);
      assert InTheWay(s.slots[j], h);
    }
    if j :| 0 <= j < |s.slots| && InTheWay(s.slots[j], h) {
      assert s.slots[j] in s.slots;
      GuardInBag(s.slots, j);
      BagHas(es, s.slots[j].hold);
      OverlapsExactly(s.slots[j].hold, h);
      assert Conflicts(es[FirstMatch(es, s.slots[j].hold)].hold, h);
    }
  }

  lemma WriterExactly(s: State, h: Hold)
    requires Inv(s) && GoodRange(h)
    ensures ExclusiveWaiterIn(s.tb.waiters, h) <==> exists w <- s.tb.waiters :: Queues(w, h)
  {
    var ws := s.tb.waiters;
    if ExclusiveWaiterIn(ws, h) {
      var k :| 0 <= k < |ws| && ws[k].hold.mode.Exclusive? && Overlaps(ws[k].hold, h);
      assert ws[k] in ws;
      OverlapsExactly(ws[k].hold, h);
    }
    if w :| w in ws && Queues(w, h) {
      OverlapsExactly(w.hold, h);
      var k :| 0 <= k < |ws| && ws[k] == w;
    }
  }

  /** In every reachable state a request can be granted exactly if nobody is in its way. */
  lemma GrantedExactly(s: State, h: Hold)
    requires Inv(s) && GoodRange(h)
    ensures Grantable(s.tb, h) <==> NobodyInTheWay(s, h)
  {
    ConflictExactly(s, h);
    WriterExactly(s, h);
  }

  // ---------------------------------------------------------------- what becomes of a guard

  /** The slot an attempt leaves behind. */
  ghost function Fate(s: State, h: Hold, otherwise: Slot): Slot
  {
    if NobodyInTheWay(s, h) then Valid(h) else otherwise
  }

  /** A lock call: granted at once exactly if nobody is in the way, else refused or registered as the last waiter. */
  lemma AcquireFate(tr: seq<State>, acts: seq<Action>, n: nat, t: Tid, i: nat, h: Hold, noWait: bool)
    requires IsRun(tr, acts) && n < |acts| && acts[n] == Acquire(t, i, h, noWait)
    ensures var s, r := tr[n], tr[n + 1];
            i < |s.slots| && s.slots[i].Empty? && t !in Tids(s.tb.waiters) &&
            r.slots == s.slots[i := Fate(s, h, if noWait then Empty else Pending(t))] &&
            r.tb.waiters == if r.slots[i].Pending? then s.tb.waiters + [Waiter(t, i, h)] else s.tb.waiters
  {
    var s := tr[n];
    RunInv(tr, acts, n);
    GrantedExactly(s, h);
    assert Enabled(s, acts[n]) && tr[n + 1] == Apply(s, acts[n]);
    assert s.slots[i := Empty] == s.slots;
    NotWaiting(s.tb.waiters, t);
  }

  lemma {:induction false} NotWaiting(ws: seq<Waiter>, t: Tid)
    ensures WaiterAt(ws, t) == |ws| <==> t !in Tids(ws)
  {
    if WaiterAt(ws, t) < |ws| {
      assert ws[WaiterAt(ws, t)] in ws;
    }
  }

  /**
   A waiter that looks again, after a notification or without one: it is granted exactly if nobody is in its way,
   and otherwise sleeps on as before unless its wait has expired, which empties its guard.
   */
  lemma WakeFate(tr: seq<State>, acts: seq<Action>, n: nat, t: Tid, expired: bool)
    requires IsRun(tr, acts) && n < |acts| && acts[n] == Wake(t, expired)
    ensures var s, r := tr[n], tr[n + 1];
            Waiting(s, t) &&
            var w := WaiterOf(s, t);
            w.slot < |s.slots| && s.slots[w.slot] == Pending(t) &&
            r.slots == s.slots[w.slot := Fate(s, w.hold, if expired then Empty else Pending(t))] &&
            r.tb.waiters ==
              if NobodyInTheWay(s, w.hold) || expired then WithoutWaiter(s.tb.waiters, t) else s.tb.waiters
  {
    var s := tr[n];
    RunInv(tr, acts, n);
    var w := WaiterOf(s, t);
    assert w in s.tb.waiters;
    GrantedExactly(s, w.hold);
    assert tr[n + 1] == Apply(s, acts[n]);
    assert s.slots[w.slot := Pending(t)] == s.slots;
  }

  /** What is in an exclusive request's way when its own shared guard has been given up. */
  ghost predicate NoOtherMeets(s: State, i: nat, h: Hold)
  {
    forall j {:trigger s.slots[j]} :: 0 <= j < |s.slots| && j != i && s.slots[j].Valid? ==> !Meet(s.slots[j].hold, h)
  }

  /**
   An upgrade holds the same range exclusively at once exactly if no other guard meets it.  Otherwise the guard is
   pending and its thread the last waiter; everybody asleep has been notified.
   */
  lemma UpgradeFate(tr: seq<State>, acts: seq<Action>, n: nat, t: Tid, i: nat)
    requires IsRun(tr, acts) && n < |acts| && acts[n] == Upgrade(t, i)
    ensures var s, r := tr[n], tr[n + 1];
            i < |s.slots| && s.slots[i].Valid? &&
            var h := s.slots[i].hold.(mode := Exclusive);
            r.slots == s.slots[i := if NoOtherMeets(s, i, h) then Valid(h) else Pending(t)] &&
            r.tb.waiters == (if NoOtherMeets(s, i, h) then s.tb.waiters else s.tb.waiters + [Waiter(t, i, h)]) &&
            Tids(s.tb.waiters) - {t} <= r.notified
  {
    var s, r := tr[n], tr[n + 1];
    RunInv(tr, acts, n);
    assert Enabled(s, acts[n]) && r == Apply(s, acts[n]);
    UpgradeGrant(s, i);
    KeepDrop(s, i);
    UpgradeSlots(s, t, i);
  }

  lemma UpgradeSlots(s: State, t: Tid, i: nat)
    requires i < |s.slots| && s.slots[i].Valid? && DropNotifies(s.tb.entries, s.slots[i].hold)
    ensures var h := s.slots[i].hold.(mode := Exclusive);
            var s1 := Drop(s.(slots := s.slots[i := Empty]), s.slots[i].hold);
            var r := Attempt(s1, t, i, h, false);
            var g := Grantable(s1.tb, h);
            r.slots == s.slots[i := if g then Valid(h) else Pending(t)] &&
            r.tb.waiters == (if g then s.tb.waiters else s.tb.waiters + [Waiter(t, i, h)]) &&
            Tids(s.tb.waiters) - {t} <= r.notified
  {
    var h := s.slots[i].hold.(mode := Exclusive);
    assert s.slots[i := Empty][i := Valid(h)] == s.slots[i := Valid(h)];
    assert s.slots[i := Empty][i := Pending(t)] == s.slots[i := Pending(t)];
  }

  /** With its shared guard given up, an upgrade can be granted exactly if no other guard meets it. */
  lemma UpgradeGrant(s: State, i: nat)
    requires Inv(s) && i < |s.slots| && s.slots[i].Valid?
    ensures var h := s.slots[i].hold;
            var s1 := Drop(s.(slots := s.slots[i := Empty]), h);
            Grantable(s1.tb, h.(mode := Exclusive)) <==> NoOtherMeets(s, i, h.(mode := Exclusive))
  {
    var h := s.slots[i].hold.(mode := Exclusive);
    var s1 := Drop(s.(slots := s.slots[i := Empty]), s.slots[i].hold);
    KeepDrop(s, i);
    assert s.slots[i] in s.slots;
    GrantedExactly(s1, h);
    OthersInTheWay(s, i, h);
  }

  lemma OthersInTheWay(s: State, i: nat, h: Hold)
    requires i < |s.slots| && h.mode.Exclusive?
    ensures NoGuardInTheWay(s.slots[i := Empty], h) <==> NoOtherMeets(s, i, h)
  {
    var xs := s.slots[i := Empty];
    assert forall j {:trigger xs[j]} {:trigger s.slots[j]} :: 0 <= j < |xs| && j != i ==> xs[j] == s.slots[j];
  }

  /** A release empties its guard, wakes every sleeper, and touches no other guard and no waiter. */
  lemma ReleaseFate(tr: seq<State>, acts: seq<Action>, n: nat, i: nat)
    requires IsRun(tr, acts) && n < |acts| && acts[n] == Release(i)
    ensures var s, r := tr[n], tr[n + 1];
            i < |s.slots| && s.slots[i].Valid? && r.slots == s.slots[i := Empty] && r.tb.waiters == s.tb.waiters &&
            Tids(s.tb.waiters) <= r.notified
  {
    RunInv(tr, acts, n);
    assert tr[n + 1] == Apply(tr[n], acts[n]);
    KeepDrop(tr[n], i);
  }

  /** A guard comes out empty only by its release, by being moved from, or by a wait that expires unfulfilled. */
  lemma EmptiedOnlyBy(tr: seq<State>, acts: seq<Action>, n: nat, k: nat)
    requires IsRun(tr, acts) && n < |acts| && k < |tr[n].slots|
    ensures |tr[n + 1].slots| == |tr[n].slots|
    ensures !tr[n].slots[k].Empty? && tr[n + 1].slots[k].Empty? ==>
              acts[n] == Release(k) || (acts[n].Move? && acts[n].from == k) ||
              (acts[n].Wake? && acts[n].expired && tr[n].slots[k] == Pending(acts[n].tid) &&
               Waiting(tr[n], acts[n].tid) && !NobodyInTheWay(tr[n], WaiterOf(tr[n], acts[n].tid).hold))
  {
    assert Enabled(tr[n], acts[n]) && tr[n + 1] == Apply(tr[n], acts[n]);
    match acts[n]
    case Acquire(t, i, h, noWait) => AcquireFate(tr, acts, n, t, i, h, noWait);
    case Wake(t, expired) => WakeFate(tr, acts, n, t, expired);
    case Release(i) =>
    case Upgrade(t, i) => UpgradeFate(tr, acts, n, t, i);
    case Move(i, j) =>
  }
}
