/**
 Runs of LockRange (yacul/concurrency/lock_range.cc): any number of threads lock, try, wait,
 time out, upgrade, move and release guards.  One action is one critical section on mu_.
 */
module LockRange {
  import opened RangeTable

  /** A guard variable: empty, holding a range, or being filled by a blocked thread. */
  datatype Slot = Empty | Valid(hold: Hold) | Pending(tid: Tid)

  /** notified: the sleeping threads for which notify_all has been called since they went to sleep. */
  datatype State = State(tb: Table, slots: seq<Slot>, notified: set<Tid>)

  datatype Action =
    | Acquire(tid: Tid, slot: nat, hold: Hold, noWait: bool)            // Lock, TryLock, TryLockUntil
    | Wake(tid: Tid, expired: bool)                                     // cv_ wait returns (also spuriously)
    | Release(slot: nat)
    | Upgrade(tid: Tid, slot: nat)
    | Move(from: nat, to: nat)

  predicate Waiting(s: State, t: Tid)
  {
    WaiterAt(s.tb.waiters, t) < |s.tb.waiters|
  }

  function WaiterOf(s: State, t: Tid): Waiter
    requires Waiting(s, t)
  {
    s.tb.waiters[WaiterAt(s.tb.waiters, t)]
  }

  /** ValidateRange: non-empty and end representable. */
  predicate GoodRange(h: Hold)
  {
    h.offset < h.end <= MAX64
  }

  function Tids(ws: seq<Waiter>): set<Tid>
  {
    set w | w in ws :: w.tid
  }

  predicate Enabled(s: State, a: Action)
  {
    match a
    case Acquire(t, i, h, _) => !Waiting(s, t) && i < |s.slots| && s.slots[i].Empty? && GoodRange(h)
    case Wake(t, _) => Waiting(s, t)
    case Release(i) => i < |s.slots| && s.slots[i].Valid?
    case Upgrade(t, i) => !Waiting(s, t) && i < |s.slots| && s.slots[i].Valid? && s.slots[i].hold.mode.Shared?
    case Move(i, j) => i < |s.slots| && j < |s.slots| && s.slots[i].Valid? && s.slots[j].Empty?
  }

  /** Acquisition attempt on the current table: grant into slot i, refuse, or register and sleep. */
  ghost function Attempt(s: State, t: Tid, i: nat, h: Hold, noWait: bool): State
    requires i < |s.slots|
  {
    if Grantable(s.tb, h) then s.(tb := WithEntry(s.tb, h), slots := s.slots[i := Valid(h)])
    else if noWait then s
    else s.(tb := s.tb.(waiters := s.tb.waiters + [Waiter(t, i, h)]), slots := s.slots[i := Pending(t)],
            notified := s.notified - {t})
  }

  ghost function Drop(s: State, h: Hold): State
  {
    s.(tb := s.tb.(entries := Dropped(s.tb.entries, h)),
       notified := if DropNotifies(s.tb.entries, h) then s.notified + Tids(s.tb.waiters) else s.notified)
  }

  ghost function Rechecked(s: State, t: Tid, expired: bool): State
    requires Waiting(s, t)
  {
    var w := WaiterOf(s, t);
    var tb' := s.tb.(waiters := WithoutWaiter(s.tb.waiters, t));
    if w.slot >= |s.slots| then s
    else if Grantable(s.tb, w.hold) then
      State(WithEntry(tb', w.hold), s.slots[w.slot := Valid(w.hold)], s.notified - {t})
    else if expired then State(tb', s.slots[w.slot := Empty], s.notified - {t})
    else s.(notified := s.notified - {t})
  }

  ghost function Apply(s: State, a: Action): State
    requires Enabled(s, a)
  {
    match a
    case Acquire(t, i, h, noWait) => Attempt(s, t, i, h, noWait)
    case Wake(t, expired) => Rechecked(s, t, expired)
    case Release(i) => Drop(s.(slots := s.slots[i := Empty]), s.slots[i].hold)
    case Upgrade(t, i) =>
      var h := s.slots[i].hold;
      Attempt(Drop(s.(slots := s.slots[i := Empty]), h), t, i, h.(mode := Exclusive), false)
    case Move(i, j) => s.(slots := s.slots[j := s.slots[i]][i := Empty])
  }

  /** Any number of default-constructed guards and an empty table. */
  predicate Init(s: State)
  {
    s.tb == Table([], [], 0) && s.notified == {} && forall x <- s.slots :: x.Empty?
  }

  ghost predicate IsRun(tr: seq<State>, acts: seq<Action>)
  {
    |tr| == |acts| + 1 && Init(tr[0]) &&
    forall i :: 0 <= i < |acts| ==> Enabled(tr[i], acts[i]) && tr[i + 1] == Apply(tr[i], acts[i])
  }

  // ---------------------------------------------------------------- guards and entries as multisets

  function Bag(es: seq<Entry>): multiset<Hold>
  {
    if |es| == 0 then multiset{} else multiset{es[0].hold} + Bag(es[1..])
  }

  function Held(x: Slot): multiset<Hold>
  {
    if x.Valid? then multiset{x.hold} else multiset{}
  }

  function GuardBag(xs: seq<Slot>): multiset<Hold>
  {
    if |xs| == 0 then multiset{} else Held(xs[0]) + GuardBag(xs[1..])
  }

  lemma {:induction false} BagInsert(es: seq<Entry>, e: Entry)
    ensures Bag(Insert(es, e)) == Bag(es) + multiset{e.hold}
  {
    if |es| == 0 || es[0].hold.offset > e.hold.offset {
      assert ([e] + es)[1..] == es;
    } else {
      BagInsert(es[1..], e);
      assert ([es[0]] + Insert(es[1..], e))[1..] == Insert(es[1..], e);
    }
  }

  lemma {:induction false} BagHas(es: seq<Entry>, h: Hold)
    requires h in Bag(es)
    ensures FirstMatch(es, h) < |es|
  {
    if es[0].hold != h {
      BagHas(es[1..], h);
    }
  }

  lemma {:induction false} BagRemove(es: seq<Entry>, k: nat)
    requires k < |es|
    ensures Bag(es) == Bag(es[..k] + es[k + 1..]) + multiset{es[k].hold}
  {
    if k == 0 {
      assert es[..0] + es[1..] == es[1..];
    } else {
      BagRemove(es[1..], k - 1);
      assert (es[..k] + es[k + 1..])[1..] == es[1..][..k - 1] + es[1..][k..];
      assert es[1..][k..] == es[k + 1..];
    }
  }

  lemma Shift(a: multiset<Hold>, b: multiset<Hold>, c: multiset<Hold>, d: multiset<Hold>, e: multiset<Hold>)
    requires b + c == d + e
    ensures (a + b) + c == (a + d) + e
  {
    assert (a + b) + c == a + (b + c);
    assert (a + d) + e == a + (d + e);
  }

  lemma {:induction false} GuardBagUpdate(xs: seq<Slot>, i: nat, x: Slot)
    requires i < |xs|
    ensures GuardBag(xs[i := x]) + Held(xs[i]) == GuardBag(xs) + Held(x)
  {
    if i > 0 {
      var ys := xs[1..];
      assert xs[i := x][1..] == ys[i - 1 := x];
      GuardBagUpdate(ys, i - 1, x);
      Shift(Held(xs[0]), GuardBag(ys[i - 1 := x]), Held(xs[i]), GuardBag(ys), Held(x));
    } else {
      assert xs[0 := x][1..] == xs[1..];
      assert Held(x) + GuardBag(xs[1..]) + Held(xs[0]) == Held(xs[0]) + GuardBag(xs[1..]) + Held(x);
    }
  }

  /** Filling a slot that holds nothing, or emptying one. */
  lemma GuardBagSet(xs: seq<Slot>, i: nat, x: Slot)
    requires i < |xs|
    ensures !xs[i].Valid? ==> GuardBag(xs[i := x]) == GuardBag(xs) + Held(x)
    ensures !x.Valid? ==> GuardBag(xs) == GuardBag(xs[i := x]) + Held(xs[i])
  {
    GuardBagUpdate(xs, i, x);
    assert GuardBag(xs[i := x]) + multiset{} == GuardBag(xs[i := x]);
    assert GuardBag(xs) + multiset{} == GuardBag(xs);
  }

  lemma {:induction false} GuardBagOfEmpty(xs: seq<Slot>)
    requires forall x <- xs :: x.Empty?
    ensures GuardBag(xs) == multiset{}
  {
    if |xs| > 0 {
      assert xs[0] in xs;
      GuardBagOfEmpty(xs[1..]);
    }
  }

  // ---------------------------------------------------------------- the invariant

  /** Two entries that overlap are both shared. */
  predicate Compatible(es: seq<Entry>)
  {
    forall i, j :: 0 <= i < j < |es| ==> !Conflicts(es[i].hold, es[j].hold)
  }

  predicate EntriesOk(tb: Table)
  {
    Sorted(tb.entries) && IdsBelow(tb.entries, tb.nextId) && Compatible(tb.entries) &&
    forall e <- tb.entries :: e.shareCount == 1 && GoodRange(e.hold)
  }

  predicate WaitersOk(s: State)
  {
    (forall i, j :: 0 <= i < j < |s.tb.waiters| ==> s.tb.waiters[i].tid != s.tb.waiters[j].tid) &&
    (forall w <- s.tb.waiters :: w.slot < |s.slots| && s.slots[w.slot] == Pending(w.tid) && GoodRange(w.hold))
  }

  predicate SlotsOk(s: State)
  {
    forall x <- s.slots :: x.Valid? ==> GoodRange(x.hold)
  }

  ghost predicate Inv(s: State)
  {
    EntriesOk(s.tb) && WaitersOk(s) && SlotsOk(s) && Bag(s.tb.entries) == GuardBag(s.slots)
  }

  lemma GrantKeepsEntries(tb: Table, h: Hold)
    requires EntriesOk(tb) && GoodRange(h) && !ConflictIn(tb.entries, h)
    ensures EntriesOk(WithEntry(tb, h)) && Bag(WithEntry(tb, h).entries) == Bag(tb.entries) + multiset{h}
  {
    var e := Entry(tb.nextId, h, 1);
    InsertSorted(tb.entries, e);
    InsertMembers(tb.entries, e);
    BagInsert(tb.entries, e);
    var k := InsertSplits(tb.entries, e);
    GrantCompatible(tb.entries, e, k);
  }

  lemma GrantCompatible(es: seq<Entry>, e: Entry, k: nat)
    requires k <= |es| && Compatible(es) && !ConflictIn(es, e.hold)
    ensures Compatible(es[..k] + [e] + es[k..])
  {
    var fs := es[..k] + [e] + es[k..];
    forall i, j | 0 <= i < j < |fs| ensures !Conflicts(fs[i].hold, fs[j].hold) {
      var a := if i < k then i else i - 1;
      var b := if j < k then j else j - 1;
      if i == k {
        assert fs[j] == es[b];
        assert !Conflicts(es[b].hold, e.hold);
      } else if j == k {
        assert fs[i] == es[a];
        assert !Conflicts(es[a].hold, e.hold);
      } else {
        assert fs[i] == es[a] && fs[j] == es[b];
      }
    }
  }

  /** A release finds its entry and removes exactly that one. */
  lemma DropKeepsEntries(tb: Table, h: Hold)
    requires EntriesOk(tb) && h in Bag(tb.entries)
    ensures DropNotifies(tb.entries, h) && EntriesOk(tb.(entries := Dropped(tb.entries, h)))
    ensures Bag(tb.entries) == Bag(Dropped(tb.entries, h)) + multiset{h}
  {
    BagHas(tb.entries, h);
    var k := FirstMatch(tb.entries, h);
    assert tb.entries[k].shareCount == 1;
    assert Dropped(tb.entries, h) == tb.entries[..k] + tb.entries[k + 1..];
    BagRemove(tb.entries, k);
    DroppedMembers(tb.entries, h);
    DroppedSorted(tb.entries, h);
  }

  lemma {:induction false} GuardInBag(xs: seq<Slot>, i: nat)
    requires i < |xs| && xs[i].Valid?
    ensures xs[i].hold in GuardBag(xs)
  {
    if i > 0 {
      GuardInBag(xs[1..], i - 1);
    }
  }

  /** Slots of waiters are pending, so setting a slot that is not pending disturbs none of them. */
  lemma SetSlot(s: State, i: nat, x: Slot)
    requires WaitersOk(s) && SlotsOk(s) && i < |s.slots| && !s.slots[i].Pending? && (x.Valid? ==> GoodRange(x.hold))
    ensures WaitersOk(s.(slots := s.slots[i := x])) && SlotsOk(s.(slots := s.slots[i := x]))
  {
  }

  lemma Register(s: State, t: Tid, i: nat, h: Hold)
    requires WaitersOk(s) && SlotsOk(s) && i < |s.slots| && s.slots[i].Empty? && GoodRange(h) && !Waiting(s, t)
    ensures var s' := s.(tb := s.tb.(waiters := s.tb.waiters + [Waiter(t, i, h)]), slots := s.slots[i := Pending(t)]);
            WaitersOk(s') && SlotsOk(s')
  {
  }

  lemma Unregister(s: State, t: Tid, x: Slot)
    requires WaitersOk(s) && SlotsOk(s) && Waiting(s, t) && !x.Pending? && (x.Valid? ==> GoodRange(x.hold))
    ensures var w := WaiterOf(s, t);
            w.slot < |s.slots| && s.slots[w.slot] == Pending(t) && GoodRange(w.hold) &&
            var s' := s.(tb := s.tb.(waiters := WithoutWaiter(s.tb.waiters, t)), slots := s.slots[w.slot := x]);
            WaitersOk(s') && SlotsOk(s')
  {
    assert WaiterOf(s, t) in s.tb.waiters;
    WithoutWaiterMembers(s.tb.waiters, t);
  }

  lemma KeepGrant(s: State, i: nat, h: Hold)
    requires Inv(s) && i < |s.slots| && s.slots[i].Empty? && GoodRange(h) && !ConflictIn(s.tb.entries, h)
    ensures Inv(s.(tb := WithEntry(s.tb, h), slots := s.slots[i := Valid(h)]))
  {
    GrantKeepsEntries(s.tb, h);
    GuardBagSet(s.slots, i, Valid(h));
    SetSlot(s, i, Valid(h));
  }

  lemma KeepAttempt(s: State, t: Tid, i: nat, h: Hold, noWait: bool)
    requires Inv(s) && !Waiting(s, t) && i < |s.slots| && s.slots[i].Empty? && GoodRange(h)
    ensures Inv(Attempt(s, t, i, h, noWait))
  {
    if Grantable(s.tb, h) {
      KeepGrant(s, i, h);
    } else if !noWait {
      GuardBagSet(s.slots, i, Pending(t));
      Register(s, t, i, h);
    }
  }

  lemma KeepDrop(s: State, i: nat)
    requires Inv(s) && i < |s.slots| && s.slots[i].Valid?
    ensures var s' := Drop(s.(slots := s.slots[i := Empty]), s.slots[i].hold);
            Inv(s') && DropNotifies(s.tb.entries, s.slots[i].hold)
  {
    var h := s.slots[i].hold;
    GuardInBag(s.slots, i);
    GuardBagSet(s.slots, i, Empty);
    DropKeepsEntries(s.tb, h);
    SetSlot(s, i, Empty);
    Cancel(GuardBag(s.slots[i := Empty]), Bag(Dropped(s.tb.entries, h)), h);
  }

  lemma Cancel(a: multiset<Hold>, b: multiset<Hold>, h: Hold)
    requires a + multiset{h} == b + multiset{h}
    ensures a == b
  {
    assert a == (a + multiset{h}) - multiset{h};
    assert b == (b + multiset{h}) - multiset{h};
  }

  /** The waiter of thread t taken off, with its slot empty. */
  ghost function Withdrawn(s: State, t: Tid): State
    requires Waiting(s, t) && WaiterOf(s, t).slot < |s.slots|
  {
    s.(tb := s.tb.(waiters := WithoutWaiter(s.tb.waiters, t)), slots := s.slots[WaiterOf(s, t).slot := Empty])
  }

  lemma KeepWithdraw(s: State, t: Tid)
    requires Inv(s) && Waiting(s, t)
    ensures WaiterOf(s, t).slot < |s.slots| && GoodRange(WaiterOf(s, t).hold) && Inv(Withdrawn(s, t))
  {
    Unregister(s, t, Empty);
    GuardBagSet(s.slots, WaiterOf(s, t).slot, Empty);
  }

  lemma KeepWake(s: State, t: Tid, expired: bool)
    requires Inv(s) && Waiting(s, t)
    ensures Inv(Rechecked(s, t, expired))
  {
    var w := WaiterOf(s, t);
    KeepWithdraw(s, t);
    if Grantable(s.tb, w.hold) {
      KeepGrant(Withdrawn(s, t), w.slot, w.hold);
      assert Withdrawn(s, t).slots[w.slot := Valid(w.hold)] == s.slots[w.slot := Valid(w.hold)];
    }
  }

  lemma KeepMove(s: State, i: nat, j: nat)
    requires Inv(s) && Enabled(s, Move(i, j))
    ensures Inv(Apply(s, Move(i, j)))
  {
    var x := s.slots[i];
    var ys := s.slots[j := x];
    GuardBagSet(s.slots, j, x);
    GuardBagSet(ys, i, Empty);
    Cancel(GuardBag(s.slots), GuardBag(ys[i := Empty]), x.hold);
    SetSlot(s, j, x);
    SetSlot(s.(slots := ys), i, Empty);
  }

  lemma KeepApply(s: State, a: Action)
    requires Inv(s) && Enabled(s, a)
    ensures Inv(Apply(s, a))
  {
    match a
    case Acquire(t, i, h, noWait) => KeepAttempt(s, t, i, h, noWait);
    case Wake(t, expired) => KeepWake(s, t, expired);
    case Release(i) => KeepDrop(s, i);
    case Upgrade(t, i) =>
      KeepDrop(s, i);
      var s1 := Drop(s.(slots := s.slots[i := Empty]), s.slots[i].hold);
      KeepAttempt(s1, t, i, s.slots[i].hold.(mode := Exclusive), false);
    case Move(i, j) => KeepMove(s, i, j);
  }

  lemma {:induction false} RunInv(tr: seq<State>, acts: seq<Action>, i: nat)
    requires IsRun(tr, acts) && i < |tr|
    ensures Inv(tr[i])
  {
    if i == 0 {
      GuardBagOfEmpty(tr[0].slots);
    } else {
      RunInv(tr, acts, i - 1);
      KeepApply(tr[i - 1], acts[i - 1]);
    }
  }

  // ---------------------------------------------------------------- exclusion and accounting

  lemma {:induction false} TwoGuardsInBag(xs: seq<Slot>, a: nat, b: nat)
    requires a < b < |xs| && xs[a].Valid? && xs[b].Valid?
    ensures multiset{xs[a].hold} + multiset{xs[b].hold} <= GuardBag(xs)
  {
    if a == 0 {
      GuardInBag(xs[1..], b - 1);
    } else {
      TwoGuardsInBag(xs[1..], a - 1, b - 1);
    }
  }

  lemma TwoEntriesInBag(es: seq<Entry>, h1: Hold, h2: Hold) returns (i: nat, j: nat)
    requires multiset{h1} + multiset{h2} <= Bag(es)
    ensures i < |es| && j < |es| && i != j && es[i].hold == h1 && es[j].hold == h2
  {
    assert h1 in multiset{h1} + multiset{h2};
    BagHas(es, h1);
    i := FirstMatch(es, h1);
    BagRemove(es, i);
    var rest := es[..i] + es[i + 1..];
    assert (multiset{h1} + multiset{h2})[h2] <= Bag(es)[h2];
    BagHas(rest, h2);
    var k := FirstMatch(rest, h2);
    j := if k < i then k else k + 1;
  }

  /** Mutual exclusion: in every reachable state two valid guards on overlapping ranges are both shared. */
  lemma GuardsExclude(tr: seq<State>, acts: seq<Action>, n: nat, a: nat, b: nat)
    requires IsRun(tr, acts) && n < |tr| && a < b < |tr[n].slots|
    requires tr[n].slots[a].Valid? && tr[n].slots[b].Valid? && Overlaps(tr[n].slots[a].hold, tr[n].slots[b].hold)
    ensures tr[n].slots[a].hold.mode.Shared? && tr[n].slots[b].hold.mode.Shared?
  {
    RunInv(tr, acts, n);
    TwoGuardsInBag(tr[n].slots, a, b);
    var i, j := TwoEntriesInBag(tr[n].tb.entries, tr[n].slots[a].hold, tr[n].slots[b].hold);
    var es := tr[n].tb.entries;
    assert i < j ==> !Conflicts(es[i].hold, es[j].hold);
    assert j < i ==> !Conflicts(es[j].hold, es[i].hold);
  }

  /** Entries and valid guards are the same multiset, entries are pairwise compatible, and share_count stays 1. */
  lemma EntriesMatchGuards(tr: seq<State>, acts: seq<Action>, n: nat)
    requires IsRun(tr, acts) && n < |tr|
    ensures Bag(tr[n].tb.entries) == GuardBag(tr[n].slots)
    ensures Compatible(tr[n].tb.entries) && Sorted(tr[n].tb.entries)
    ensures forall e <- tr[n].tb.entries :: e.shareCount == 1
  {
    RunInv(tr, acts, n);
  }

  /** Release and Upgrade always find the entry of their guard: "Could not find own lock entry" is unreachable. */
  lemma OwnEntryFound(tr: seq<State>, acts: seq<Action>, n: nat, i: nat)
    requires IsRun(tr, acts) && n < |tr| && i < |tr[n].slots| && tr[n].slots[i].Valid?
    ensures FirstMatch(tr[n].tb.entries, tr[n].slots[i].hold) < |tr[n].tb.entries|
    ensures DropNotifies(tr[n].tb.entries, tr[n].slots[i].hold)
  {
    RunInv(tr, acts, n);
    KeepDrop(tr[n], i);
  }

  // ---------------------------------------------------------------- writer preference

  /** The shared entries that stand in the way of an exclusive request. */
  function Readers(es: seq<Entry>, h: Hold): set<Entry>
  {
    set e | e in es && e.hold.mode.Shared? && Overlaps(e.hold, h)
  }

  lemma GrantAddsNoReader(tb: Table, h: Hold, w: Waiter)
    requires Sorted(tb.entries) && w in tb.waiters && w.hold.mode.Exclusive? && Grantable(tb, h)
    ensures Readers(WithEntry(tb, h).entries, w.hold) <= Readers(tb.entries, w.hold)
  {
    InsertMembers(tb.entries, Entry(tb.nextId, h, 1));
    var k :| 0 <= k < |tb.waiters| && tb.waiters[k] == w;
  }

  lemma StepAddsNoReader(s: State, a: Action, w: Waiter)
    requires Inv(s) && Enabled(s, a) && w.hold.mode.Exclusive? && w in s.tb.waiters && w in Apply(s, a).tb.waiters
    ensures Readers(Apply(s, a).tb.entries, w.hold) <= Readers(s.tb.entries, w.hold)
  {
    match a
    case Acquire(t, i, h, noWait) =>
      if Grantable(s.tb, h) {
        GrantAddsNoReader(s.tb, h, w);
      }
    case Wake(t, expired) =>
      var x := WaiterOf(s, t);
      if Grantable(s.tb, x.hold) {
        GrantAddsNoReader(s.tb, x.hold, w);
      }
    case Release(i) => DroppedMembers(s.tb.entries, s.slots[i].hold);
    case Upgrade(t, i) =>
      DroppedMembers(s.tb.entries, s.slots[i].hold);
      KeepDrop(s, i);
      var s1 := Drop(s.(slots := s.slots[i := Empty]), s.slots[i].hold);
      var h := s.slots[i].hold.(mode := Exclusive);
      if Grantable(s1.tb, h) {
        GrantAddsNoReader(s1.tb, h, w);
      }
    case _ =>
  }

  lemma RunStepAddsNoReader(tr: seq<State>, acts: seq<Action>, n: nat, w: Waiter)
    requires IsRun(tr, acts) && n < |acts| && w.hold.mode.Exclusive?
    requires w in tr[n].tb.waiters && w in tr[n + 1].tb.waiters
    ensures Readers(tr[n + 1].tb.entries, w.hold) <= Readers(tr[n].tb.entries, w.hold)
  {
    RunInv(tr, acts, n);
    StepAddsNoReader(tr[n], acts[n], w);
  }

  /** While an exclusive request stays registered, the shared entries that overlap it only go away. */
  lemma {:induction false} ReadersOnlyLeave(tr: seq<State>, acts: seq<Action>, i: nat, j: nat, w: Waiter)
    requires IsRun(tr, acts) && i <= j < |tr| && w.hold.mode.Exclusive?
    requires forall k :: i <= k <= j ==> w in tr[k].tb.waiters
    ensures Readers(tr[j].tb.entries, w.hold) <= Readers(tr[i].tb.entries, w.hold)
  {
    if i < j {
      ReadersOnlyLeave(tr, acts, i, j - 1, w);
      RunStepAddsNoReader(tr, acts, j - 1, w);
    }
  }

  // ---------------------------------------------------------------- wake-ups

  /** Every sleeper whose request could be granted has been notified since it went to sleep. */
  ghost predicate Awake(s: State)
  {
    forall w <- s.tb.waiters :: w.tid in s.notified || !Grantable(s.tb, w.hold)
  }

  lemma ConflictSubset(es: seq<Entry>, fs: seq<Entry>, h: Hold)
    requires forall e <- es :: e in fs
    requires ConflictIn(es, h)
    ensures ConflictIn(fs, h)
  {
    var i :| 0 <= i < |es| && Conflicts(es[i].hold, h);
    assert es[i] in es;
    var k :| 0 <= k < |fs| && fs[k] == es[i];
  }

  lemma WaiterSubset(ws: seq<Waiter>, vs: seq<Waiter>, h: Hold)
    requires forall w <- ws :: w.hold.mode.Exclusive? && Overlaps(w.hold, h) ==> w in vs
    requires ExclusiveWaiterIn(ws, h)
    ensures ExclusiveWaiterIn(vs, h)
  {
    var i :| 0 <= i < |ws| && ws[i].hold.mode.Exclusive? && Overlaps(ws[i].hold, h);
    assert ws[i] in ws;
    var k :| 0 <= k < |vs| && vs[k] == ws[i];
  }

  /** Neither new entries nor new waiters make a request grantable. */
  lemma GrantableShrinks(tb: Table, tb': Table, h: Hold)
    requires forall e <- tb.entries :: e in tb'.entries
    requires forall w <- tb.waiters :: w.hold.mode.Exclusive? && Overlaps(w.hold, h) ==> w in tb'.waiters
    requires Grantable(tb', h)
    ensures Grantable(tb, h)
  {
    if ConflictIn(tb.entries, h) {
      ConflictSubset(tb.entries, tb'.entries, h);
      assert false;
    }
    if h.mode.Shared? && ExclusiveWaiterIn(tb.waiters, h) {
      WaiterSubset(tb.waiters, tb'.waiters, h);
      assert false;
    }
  }

  lemma AwakeAttempt(s: State, t: Tid, i: nat, h: Hold, noWait: bool)
    requires Inv(s) && Awake(s) && !Waiting(s, t) && i < |s.slots|
    ensures Awake(Attempt(s, t, i, h, noWait))
  {
    var s' := Attempt(s, t, i, h, noWait);
    if Grantable(s.tb, h) {
      InsertMembers(s.tb.entries, Entry(s.tb.nextId, h, 1));
    }
    forall w <- s'.tb.waiters ensures w.tid in s'.notified || !Grantable(s'.tb, w.hold) {
      if Grantable(s'.tb, w.hold) {
        GrantableShrinks(s.tb, s'.tb, w.hold);
        if w in s.tb.waiters {
          assert w.tid in s.notified && w.tid != t;
        }
      }
    }
  }

  lemma AwakeDrop(s: State, h: Hold)
    requires DropNotifies(s.tb.entries, h)
    ensures Awake(Drop(s, h))
  {
  }

  /** After a grant to an exclusive waiter its entry blocks whatever the waiter blocked. */
  lemma AwakeGranted(s: State, t: Tid, expired: bool)
    requires Inv(s) && Awake(s) && Waiting(s, t) && Grantable(s.tb, WaiterOf(s, t).hold)
    ensures Awake(Rechecked(s, t, expired))
  {
    var w := WaiterOf(s, t);
    assert w in s.tb.waiters;
    var s' := Rechecked(s, t, expired);
    var e := Entry(s.tb.nextId, w.hold, 1);
    InsertMembers(s.tb.entries, e);
    WithoutWaiterMembers(s.tb.waiters, t);
    forall x <- s'.tb.waiters ensures x.tid in s'.notified || !Grantable(s'.tb, x.hold) {
      if Conflicts(w.hold, x.hold) {
        EntryBlocks(s'.tb.entries, e, x.hold);
      } else if Grantable(s'.tb, x.hold) {
        SameWaiter(s, t, w);
        GrantableShrinks(s.tb, s'.tb, x.hold);
      }
    }
  }

  lemma EntryBlocks(es: seq<Entry>, e: Entry, h: Hold)
    requires e in es && Conflicts(e.hold, h)
    ensures ConflictIn(es, h)
  {
    var k :| 0 <= k < |es| && es[k] == e;
  }

  lemma SameWaiter(s: State, t: Tid, w: Waiter)
    requires WaitersOk(s) && Waiting(s, t) && w == WaiterOf(s, t)
    ensures forall y <- s.tb.waiters :: y.tid == t ==> y == w
  {
  }

  lemma AwakeRefused(s: State, t: Tid, expired: bool)
    requires Inv(s) && Awake(s) && Waiting(s, t) && !Grantable(s.tb, WaiterOf(s, t).hold)
    requires expired ==> WaiterOf(s, t).hold.mode.Shared?
    ensures Awake(Rechecked(s, t, expired))
  {
    var w := WaiterOf(s, t);
    assert w in s.tb.waiters;
    SameWaiter(s, t, w);
    WithoutWaiterMembers(s.tb.waiters, t);
    var s' := Rechecked(s, t, expired);
    forall x <- s'.tb.waiters ensures x.tid in s'.notified || !Grantable(s'.tb, x.hold) {
      if Grantable(s'.tb, x.hold) {
        GrantableShrinks(s.tb, s'.tb, x.hold);
      }
    }
  }

  /** An exclusive wait of thread t that gives up in state s. */
  ghost predicate ExclusiveExpiry(s: State, a: Action)
  {
    a.Wake? && a.expired && Waiting(s, a.tid) && WaiterOf(s, a.tid).hold.mode.Exclusive? &&
    !Grantable(s.tb, WaiterOf(s, a.tid).hold)
  }

  lemma AwakeStep(s: State, a: Action)
    requires Inv(s) && Awake(s) && Enabled(s, a) && !ExclusiveExpiry(s, a)
    ensures Awake(Apply(s, a))
  {
    match a
    case Acquire(t, i, h, noWait) => AwakeAttempt(s, t, i, h, noWait);
    case Wake(t, expired) =>
      if Grantable(s.tb, WaiterOf(s, t).hold) {
        AwakeGranted(s, t, expired);
      } else {
        AwakeRefused(s, t, expired);
      }
    case Release(i) =>
      KeepDrop(s, i);
      AwakeDrop(s.(slots := s.slots[i := Empty]), s.slots[i].hold);
    case Upgrade(t, i) =>
      KeepDrop(s, i);
      AwakeDrop(s.(slots := s.slots[i := Empty]), s.slots[i].hold);
      var s1 := Drop(s.(slots := s.slots[i := Empty]), s.slots[i].hold);
      AwakeAttempt(s1, t, i, s.slots[i].hold.(mode := Exclusive), false);
    case Move(i, j) => assert Apply(s, a).tb == s.tb;
  }

  /** No lost wake-up in any run in which no exclusive wait has expired. */
  lemma {:induction false} NoLostWakeup(tr: seq<State>, acts: seq<Action>, n: nat)
    requires IsRun(tr, acts) && n < |tr|
    requires forall k :: 0 <= k < n ==> !ExclusiveExpiry(tr[k], acts[k])
    ensures Awake(tr[n])
  {
    if n > 0 {
      NoLostWakeup(tr, acts, n - 1);
      RunInv(tr, acts, n - 1);
      AwakeStep(tr[n - 1], acts[n - 1]);
    }
  }

  /** x sleeps un-notified, and the exclusive waiter of t is all that keeps it from being granted. */
  ghost predicate HeldUpBy(s: State, t: Tid, x: Waiter)
    requires Waiting(s, t)
  {
    x in s.tb.waiters && x.tid != t && x.tid !in s.notified && x.hold.mode.Shared? &&
    Overlaps(WaiterOf(s, t).hold, x.hold) && !ConflictIn(s.tb.entries, x.hold) &&
    forall y <- s.tb.waiters :: y.tid != t && y.hold.mode.Exclusive? ==> !Overlaps(y.hold, x.hold)
  }

  /** The step is an expiring exclusive wait that alone holds somebody up. */
  ghost predicate Loses(s: State, a: Action)
  {
    ExclusiveExpiry(s, a) && exists x <- s.tb.waiters :: HeldUpBy(s, a.tid, x)
  }

  /** An expiring exclusive wait loses a wake-up exactly when somebody is held up by it alone. */
  lemma ExpiryLosesWakeup(s: State, a: Action)
    requires Inv(s) && Awake(s) && ExclusiveExpiry(s, a)
    ensures Awake(Apply(s, a)) <==> forall x <- s.tb.waiters :: !HeldUpBy(s, a.tid, x)
  {
    var t := a.tid;
    var w := WaiterOf(s, t);
    var s' := Apply(s, a);
    assert w in s.tb.waiters;
    WithoutWaiterMembers(s.tb.waiters, t);
    SameWaiter(s, t, w);
    forall x <- s'.tb.waiters
      ensures (x.tid !in s'.notified && Grantable(s'.tb, x.hold)) <==> HeldUpBy(s, t, x)
    {
      ExpiryWaiter(s, a, x);
    }
    forall x <- s.tb.waiters | HeldUpBy(s, t, x) ensures x in s'.tb.waiters {
    }
  }

  ghost predicate AwakeUpTo(tr: seq<State>, n: nat)
    requires n < |tr|
  {
    forall k :: 0 <= k <= n ==> Awake(tr[k])
  }

  ghost predicate NoneLoses(tr: seq<State>, acts: seq<Action>, n: nat)
    requires n <= |acts| && n < |tr|
  {
    forall k :: 0 <= k < n ==> !Loses(tr[k], acts[k])
  }

  /** Over a run: no wake-up is lost up to state n exactly if no step before it is such an expiry. */
  lemma {:induction false} NoLostWakeupExactly(tr: seq<State>, acts: seq<Action>, n: nat)
    requires IsRun(tr, acts) && n < |tr|
    ensures AwakeUpTo(tr, n) <==> NoneLoses(tr, acts, n)
  {
    if n == 0 {
      assert tr[0].tb.waiters == [];
    } else {
      NoLostWakeupExactly(tr, acts, n - 1);
      if AwakeUpTo(tr, n - 1) {
        assert Awake(tr[n - 1]);
        RunWakeStep(tr, acts, n - 1);
        assert Awake(tr[n]) ==> AwakeUpTo(tr, n);
      }
    }
  }

  lemma RunWakeStep(tr: seq<State>, acts: seq<Action>, k: nat)
    requires IsRun(tr, acts) && k < |acts| && Awake(tr[k])
    ensures Awake(tr[k + 1]) <==> !Loses(tr[k], acts[k])
  {
    RunInv(tr, acts, k);
    WakeStep(tr[k], acts[k]);
  }

  lemma WakeStep(s: State, a: Action)
    requires Inv(s) && Awake(s) && Enabled(s, a)
    ensures Awake(Apply(s, a)) <==> !Loses(s, a)
  {
    if ExclusiveExpiry(s, a) {
      ExpiryLosesWakeup(s, a);
    } else {
      AwakeStep(s, a);
    }
  }

  lemma ExpiryWaiter(s: State, a: Action, x: Waiter)
    requires Inv(s) && Awake(s) && ExclusiveExpiry(s, a) && x in s.tb.waiters && x.tid != a.tid
    ensures (x.tid !in Apply(s, a).notified && Grantable(Apply(s, a).tb, x.hold)) <==> HeldUpBy(s, a.tid, x)
  {
    var t := a.tid;
    var w := WaiterOf(s, t);
    var ws' := WithoutWaiter(s.tb.waiters, t);
    assert w in s.tb.waiters;
    WithoutWaiterMembers(s.tb.waiters, t);
    SameWaiter(s, t, w);
    OthersOverlap(s.tb.waiters, ws', t, x.hold);
    if x.tid !in s.notified && Grantable(Apply(s, a).tb, x.hold) {
      if !(x.hold.mode.Shared? && Overlaps(w.hold, x.hold)) {
        GrantableShrinks(s.tb, Apply(s, a).tb, x.hold);
        assert false;
      }
    }
  }

  lemma OthersOverlap(ws: seq<Waiter>, ws': seq<Waiter>, t: Tid, h: Hold)
    requires forall w :: w in ws' <==> w in ws && w.tid != t
    ensures ExclusiveWaiterIn(ws', h) <==> exists y <- ws :: y.tid != t && y.hold.mode.Exclusive? && Overlaps(y.hold, h)
  {
    if ExclusiveWaiterIn(ws', h) {
      var i :| 0 <= i < |ws'| && ws'[i].hold.mode.Exclusive? && Overlaps(ws'[i].hold, h);
      assert ws'[i] in ws';
    }
    if y :| y in ws && y.tid != t && y.hold.mode.Exclusive? && Overlaps(y.hold, h) {
      assert y in ws';
      var i :| 0 <= i < |ws'| && ws'[i] == y;
    }
  }

  const READ := Hold(0, 10, Shared)
  const WRITE := Hold(0, 10, Exclusive)

  /** Reader 1 holds [0, 10); writer 2 and then reader 3 wait for it. */
  function Queued(ws: seq<Waiter>, second: Slot, third: Slot): State
  {
    State(Table([Entry(0, READ, 1)], ws, 1), [Valid(READ), second, third], {})
  }

  lemma LostWakeupSteps()
    ensures var s0 := State(Table([], [], 0), [Empty, Empty, Empty], {});
            Enabled(s0, Acquire(1, 0, READ, false)) && Apply(s0, Acquire(1, 0, READ, false)) == Queued([], Empty, Empty)
    ensures var s1 := Queued([], Empty, Empty);
            Enabled(s1, Acquire(2, 1, WRITE, false)) &&
            Apply(s1, Acquire(2, 1, WRITE, false)) == Queued([Waiter(2, 1, WRITE)], Pending(2), Empty)
    ensures var s2 := Queued([Waiter(2, 1, WRITE)], Pending(2), Empty);
            Enabled(s2, Acquire(3, 2, READ, false)) &&
            Apply(s2, Acquire(3, 2, READ, false)) ==
              Queued([Waiter(2, 1, WRITE), Waiter(3, 2, READ)], Pending(2), Pending(3))
  {
    assert Conflicts(Queued([], Empty, Empty).tb.entries[0].hold, WRITE);
    var ws := [Waiter(2, 1, WRITE)];
    assert ws[0].hold.mode.Exclusive? && Overlaps(ws[0].hold, READ);
    assert ws + [Waiter(3, 2, READ)] == [Waiter(2, 1, WRITE), Waiter(3, 2, READ)];
  }

  lemma LostWakeupExpiry()
    ensures var s3 := Queued([Waiter(2, 1, WRITE), Waiter(3, 2, READ)], Pending(2), Pending(3));
            var s4 := Queued([Waiter(3, 2, READ)], Empty, Pending(3));
            Enabled(s3, Wake(2, true)) && Apply(s3, Wake(2, true)) == s4 && !Awake(s4)
  {
    var s3 := Queued([Waiter(2, 1, WRITE), Waiter(3, 2, READ)], Pending(2), Pending(3));
    var s4 := Queued([Waiter(3, 2, READ)], Empty, Pending(3));
    assert Conflicts(s3.tb.entries[0].hold, WRITE);
    assert WaiterAt(s3.tb.waiters, 2) == 0;
    assert WithoutWaiter(s3.tb.waiters, 2) == s4.tb.waiters;
    assert s4.tb.waiters[0] in s4.tb.waiters && Grantable(s4.tb, READ);
  }

  lemma RunOn(tr: seq<State>, acts: seq<Action>, a: Action, t: State)
    requires IsRun(tr, acts) && Enabled(tr[|tr| - 1], a) && t == Apply(tr[|tr| - 1], a)
    ensures IsRun(tr + [t], acts + [a])
  {
  }

  lemma QueuedRun() returns (tr: seq<State>, acts: seq<Action>)
    ensures IsRun(tr, acts) && tr[|tr| - 1] == Queued([Waiter(2, 1, WRITE), Waiter(3, 2, READ)], Pending(2), Pending(3))
  {
    LostWakeupSteps();
    var s0 := State(Table([], [], 0), [Empty, Empty, Empty], {});
    var s1, s2 := Queued([], Empty, Empty), Queued([Waiter(2, 1, WRITE)], Pending(2), Empty);
    var s3 := Queued([Waiter(2, 1, WRITE), Waiter(3, 2, READ)], Pending(2), Pending(3));
    RunOn([s0], [], Acquire(1, 0, READ, false), s1);
    RunOn([s0] + [s1], [] + [Acquire(1, 0, READ, false)], Acquire(2, 1, WRITE, false), s2);
    tr, acts := [s0] + [s1] + [s2], [] + [Acquire(1, 0, READ, false)] + [Acquire(2, 1, WRITE, false)];
    RunOn(tr, acts, Acquire(3, 2, READ, false), s3);
    tr, acts := tr + [s3], acts + [Acquire(3, 2, READ, false)];
  }

  /** A run that loses a wake-up: a writer that stood before a reader times out and the reader sleeps on. */
  lemma LostWakeupRun() returns (tr: seq<State>, acts: seq<Action>)
    ensures IsRun(tr, acts) && !Awake(tr[|tr| - 1])
  {
    LostWakeupExpiry();
    var s4 := Queued([Waiter(3, 2, READ)], Empty, Pending(3));
    tr, acts := QueuedRun();
    RunOn(tr, acts, Wake(2, true), s4);
    tr, acts := tr + [s4], acts + [Wake(2, true)];
  }

  // ---------------------------------------------------------------- IsLockedAny and wrap-around

  ghost predicate LockedAny(es: seq<Entry>, offset: nat, end: nat)
  {
    exists i :: 0 <= i < |es| && Overlaps(es[i].hold, Hold(offset, end, Shared))
  }

  ghost predicate WrapAgrees(es: seq<Entry>, offset: nat, length: nat)
  {
    LockedAny(es, offset, (offset + length) % TWO64) <==> LockedAny(es, offset, offset + length)
  }

  predicate RangesOk(es: seq<Entry>)
  {
    forall e <- es :: GoodRange(e.hold)
  }

  /** What IsLockedAny computes is the truth about every table exactly for ranges that do not overflow. */
  lemma LockedAnyExact(offset: nat, length: nat)
    requires offset <= MAX64 && 0 < length <= MAX64
    ensures (forall es :: RangesOk(es) ==> WrapAgrees(es, offset, length))
            <==> offset + length < TWO64 || offset == MAX64
  {
    if offset + length >= TWO64 && offset < MAX64 {
      var es := [Entry(0, Hold(offset, offset + 1, Shared), 1)];
      assert Overlaps(es[0].hold, Hold(offset, offset + length, Shared));
      assert RangesOk(es) && !WrapAgrees(es, offset, length);
    } else if offset == MAX64 {
      forall es | RangesOk(es) ensures WrapAgrees(es, offset, length) {
        assert forall i :: 0 <= i < |es| ==> es[i] in es;
      }
    }
  }

  /** A reader at the last offset but one; the query for the 3 offsets from there wraps and does not see it. */
  lemma LockedAnyWrongRun() returns (tr: seq<State>, acts: seq<Action>)
    ensures IsRun(tr, acts)
    ensures var es := tr[|tr| - 1].tb.entries;
            LockedAny(es, MAX64 - 1, MAX64 - 1 + 3) && !LockedAny(es, MAX64 - 1, (MAX64 - 1 + 3) % TWO64)
  {
    var h := Hold(MAX64 - 1, MAX64, Shared);
    var s0 := State(Table([], [], 0), [Empty], {});
    var s1 := Apply(s0, Acquire(1, 0, h, false));
    tr, acts := [s0, s1], [Acquire(1, 0, h, false)];
    assert s1.tb.entries == [Entry(0, h, 1)];
    assert Overlaps(s1.tb.entries[0].hold, Hold(MAX64 - 1, MAX64 + 2, Shared));
  }
}
