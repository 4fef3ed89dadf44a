/**
 The lock table of LockRange (yacul/concurrency/lock_range.cc): the sorted map of granted
 entries, the registered waiters, and the scans and updates made while mu_ is held.

 Functions say what each operation means on all entries; the class RangeLock performs the
 operation as the source does, with early-exit scans over the sorted map.
 */
module RangeTable {

  const MAX64 := 0xFFFF_FFFF_FFFF_FFFF
  const TWO64 := 0x1_0000_0000_0000_0000

  type Tid = nat

  datatype Mode = Shared | Exclusive

  /** What a guard or an entry holds: [offset, end) in a mode. */
  datatype Hold = Hold(offset: nat, end: nat, mode: Mode)

  /** id is the second component of the map key; the first is the offset itself. */
  datatype Entry = Entry(id: nat, hold: Hold, shareCount: nat)

  /** A blocked thread; slot is the guard variable that the acquisition will fill. */
  datatype Waiter = Waiter(tid: Tid, slot: nat, hold: Hold)

  datatype Table = Table(entries: seq<Entry>, waiters: seq<Waiter>, nextId: nat)

  predicate Overlaps(a: Hold, b: Hold)
  {
    a.offset < b.end && b.offset < a.end
  }

  predicate Conflicts(a: Hold, b: Hold)
  {
    Overlaps(a, b) && (a.mode.Exclusive? || b.mode.Exclusive?)
  }

  /** Some granted entry, anywhere in the table, conflicts with the request. */
  ghost predicate ConflictIn(es: seq<Entry>, h: Hold)
  {
    exists i :: 0 <= i < |es| && Conflicts(es[i].hold, h)
  }

  ghost predicate ExclusiveWaiterIn(ws: seq<Waiter>, h: Hold)
  {
    exists i :: 0 <= i < |ws| && ws[i].hold.mode.Exclusive? && Overlaps(ws[i].hold, h)
  }

  /** CanGrant: no conflict and, for a shared request, no overlapping exclusive waiter. */
  ghost predicate Grantable(tb: Table, h: Hold)
  {
    !(h.mode.Shared? && ExclusiveWaiterIn(tb.waiters, h)) && !ConflictIn(tb.entries, h)
  }

  predicate KeyLess(a: Entry, b: Entry)
  {
    a.hold.offset < b.hold.offset || (a.hold.offset == b.hold.offset && a.id < b.id)
  }

  predicate Sorted(es: seq<Entry>)
  {
    forall i, j :: 0 <= i < j < |es| ==> KeyLess(es[i], es[j])
  }

  predicate IdsBelow(es: seq<Entry>, n: nat)
  {
    forall i :: 0 <= i < |es| ==> es[i].id < n
  }

  /** Insertion into the ordered map; the new id is larger than every other. */
  function Insert(es: seq<Entry>, e: Entry): seq<Entry>
  {
    if |es| == 0 || es[0].hold.offset > e.hold.offset then [e] + es
    else [es[0]] + Insert(es[1..], e)
  }

  /** Position of the first entry that matches (offset, end, mode), or |es|. */
  function FirstMatch(es: seq<Entry>, h: Hold): (k: nat)
    ensures k <= |es| && (k < |es| ==> es[k].hold == h) && forall i :: 0 <= i < k ==> es[i].hold != h
  {
    if |es| == 0 || es[0].hold == h then 0 else 1 + FirstMatch(es[1..], h)
  }

  /** The map after one holder of h lets go. */
  function Dropped(es: seq<Entry>, h: Hold): seq<Entry>
  {
    var k := FirstMatch(es, h);
    if k == |es| then es
    else if h.mode.Shared? && es[k].shareCount > 1 then es[k := es[k].(shareCount := es[k].shareCount - 1)]
    else es[..k] + es[k + 1..]
  }

  /** Whether that removed an entry, in which case every sleeper is notified. */
  predicate DropNotifies(es: seq<Entry>, h: Hold)
  {
    var k := FirstMatch(es, h);
    k < |es| && !(h.mode.Shared? && es[k].shareCount > 1)
  }

  function WithEntry(tb: Table, h: Hold): Table
  {
    tb.(entries := Insert(tb.entries, Entry(tb.nextId, h, 1)), nextId := tb.nextId + 1)
  }

  /** Position of the waiter of thread t, or |ws|. */
  function WaiterAt(ws: seq<Waiter>, t: Tid): (k: nat)
    ensures k <= |ws| && (k < |ws| ==> ws[k].tid == t) && forall i :: 0 <= i < k ==> ws[i].tid != t
  {
    if |ws| == 0 || ws[0].tid == t then 0 else 1 + WaiterAt(ws[1..], t)
  }

  function WithoutWaiter(ws: seq<Waiter>, t: Tid): seq<Waiter>
  {
    var k := WaiterAt(ws, t);
    if k == |ws| then ws else ws[..k] + ws[k + 1..]
  }

  // ---------------------------------------------------------------- facts about the table functions

  /** Insert puts the entry after every entry of the same or a smaller offset. */
  lemma {:induction false} InsertSplits(es: seq<Entry>, e: Entry) returns (k: nat)
    requires Sorted(es)
    ensures k <= |es| && Insert(es, e) == es[..k] + [e] + es[k..]
    ensures forall i :: 0 <= i < k ==> es[i].hold.offset <= e.hold.offset
    ensures forall i :: k <= i < |es| ==> es[i].hold.offset > e.hold.offset
  {
    if |es| == 0 || es[0].hold.offset > e.hold.offset {
      k := 0;
    } else {
      var k0 := InsertSplits(es[1..], e);
      k := k0 + 1;
      assert es[..k] == [es[0]] + es[1..][..k0];
    }
  }

  lemma InsertSorted(es: seq<Entry>, e: Entry)
    requires Sorted(es) && IdsBelow(es, e.id)
    ensures Sorted(Insert(es, e)) && IdsBelow(Insert(es, e), e.id + 1)
  {
    var k := InsertSplits(es, e);
  }

  /** Insert keeps the old entries and adds exactly one. */
  lemma InsertMembers(es: seq<Entry>, e: Entry)
    requires Sorted(es)
    ensures forall x :: x in Insert(es, e) <==> x in es || x == e
  {
    var k := InsertSplits(es, e);
    assert es == es[..k] + es[k..];
  }

  lemma DroppedMembers(es: seq<Entry>, h: Hold)
    requires forall e <- es :: e.shareCount == 1
    ensures forall x :: x in Dropped(es, h) ==> x in es
    ensures FirstMatch(es, h) < |es| ==> DropNotifies(es, h)
  {
  }

  lemma DroppedSorted(es: seq<Entry>, h: Hold)
    requires Sorted(es) && forall e <- es :: e.shareCount == 1
    ensures Sorted(Dropped(es, h))
  {
  }

  lemma WithoutWaiterMembers(ws: seq<Waiter>, t: Tid)
    requires forall i, j :: 0 <= i < j < |ws| ==> ws[i].tid != ws[j].tid
    ensures forall w :: w in WithoutWaiter(ws, t) <==> w in ws && w.tid != t
    ensures var vs := WithoutWaiter(ws, t);
            forall i, j :: 0 <= i < j < |vs| ==> vs[i].tid != vs[j].tid
  {
    var k := WaiterAt(ws, t);
    if k < |ws| {
      assert ws == ws[..k] + [ws[k]] + ws[k + 1..];
    }
  }

  // ---------------------------------------------------------------- the code under the mutex

  datatype Outcome = Acquired | Refused | Sleeping

  class RangeLock {
    var entries: seq<Entry>
    var waiters: seq<Waiter>
    var nextId: nat

    constructor ()
      ensures View() == Table([], [], 0) && Valid()
    {
      entries, waiters, nextId := [], [], 0;
    }

    function View(): Table
      reads this
    {
      Table(entries, waiters, nextId)
    }

    predicate Valid()
      reads this
    {
      Sorted(entries) && IdsBelow(entries, nextId)
    }

    /** The scan stops at the first key that starts at or after the end of the request. */
    method HasConflict(h: Hold) returns (b: bool)
      requires Valid()
      ensures b <==> ConflictIn(entries, h)
    {
      var i := 0;
      while i < |entries|
        invariant 0 <= i <= |entries|
        invariant forall j :: 0 <= j < i ==> !Conflicts(entries[j].hold, h)
      {
        if entries[i].hold.offset >= h.end {
          break;
        }
        if Overlaps(entries[i].hold, h) && (h.mode.Exclusive? || entries[i].hold.mode.Exclusive?) {
          return true;
        }
        i := i + 1;
      }
      return false;
    }

    method ExclusiveWaiterExists(h: Hold) returns (b: bool)
      ensures b <==> ExclusiveWaiterIn(waiters, h)
    {
      for i := 0 to |waiters|
        invariant forall j :: 0 <= j < i ==> !(waiters[j].hold.mode.Exclusive? && Overlaps(waiters[j].hold, h))
      {
        if waiters[i].hold.mode.Exclusive? && Overlaps(waiters[i].hold, h) {
          return true;
        }
      }
      return false;
    }

    method CanGrant(h: Hold) returns (b: bool)
      requires Valid()
      ensures b <==> Grantable(View(), h)
    {
      if h.mode.Shared? {
        var w := ExclusiveWaiterExists(h);
        if w {
          return false;
        }
      }
      var c := HasConflict(h);
      return !c;
    }

    method InsertEntry(h: Hold)
      requires Valid()
      modifies this
      ensures View() == WithEntry(old(View()), h) && Valid()
    {
      InsertSorted(entries, Entry(nextId, h, 1));
      entries := Insert(entries, Entry(nextId, h, 1));
      nextId := nextId + 1;
    }

    /** DoRelease: stops scanning once keys start after the end of the range. */
    method DoRelease(h: Hold) returns (notify: bool)
      requires Valid() && h.offset <= h.end
      modifies this`entries
      ensures entries == Dropped(old(entries), h)
      ensures notify <==> DropNotifies(old(entries), h)
    {
      var i := 0;
      while i < |entries|
        invariant 0 <= i <= |entries| && entries == old(entries)
        invariant forall j :: 0 <= j < i ==> entries[j].hold != h
      {
        if entries[i].hold.offset > h.end {
          break;
        }
        if entries[i].hold == h {
          assert i == FirstMatch(entries, h);
          if h.mode.Shared? && entries[i].shareCount > 1 {
            entries := entries[i := entries[i].(shareCount := entries[i].shareCount - 1)];
            return false;
          }
          entries := entries[..i] + entries[i + 1..];
          return true;
        }
        i := i + 1;
      }
      assert FirstMatch(entries, h) == |entries|;
      return false;
    }

    /** First step of UpgradeUntil: give up the shared entry; stops once keys start after the offset. */
    method DropShared(h: Hold) returns (found: bool, notify: bool)
      requires Valid() && h.mode.Shared?
      modifies this`entries
      ensures entries == Dropped(old(entries), h)
      ensures found <==> FirstMatch(old(entries), h) < |old(entries)|
      ensures notify <==> DropNotifies(old(entries), h)
    {
      var i := 0;
      while i < |entries|
        invariant 0 <= i <= |entries| && entries == old(entries)
        invariant forall j :: 0 <= j < i ==> entries[j].hold != h
      {
        if entries[i].hold.offset > h.offset {
          break;
        }
        if entries[i].hold == h {
          assert i == FirstMatch(entries, h);
          if entries[i].shareCount > 1 {
            entries := entries[i := entries[i].(shareCount := entries[i].shareCount - 1)];
            return true, false;
          }
          entries := entries[..i] + entries[i + 1..];
          return true, true;
        }
        i := i + 1;
      }
      assert FirstMatch(entries, h) == |entries|;
      return false, false;
    }

    /** WaitLoop up to the first cv_ wait. */
    method Enter(t: Tid, slot: nat, h: Hold, noWait: bool) returns (r: Outcome)
      requires Valid()
      modifies this
      ensures Valid()
      ensures r.Acquired? <==> old(Grantable(View(), h))
      ensures r.Acquired? ==> View() == WithEntry(old(View()), h)
      ensures r.Refused? <==> old(!Grantable(View(), h)) && noWait
      ensures r.Refused? ==> View() == old(View())
      ensures r.Sleeping? ==> View() == old(View()).(waiters := old(waiters) + [Waiter(t, slot, h)])
    {
      var g := CanGrant(h);
      if g {
        InsertEntry(h);
        return Acquired;
      }
      if noWait {
        return Refused;
      }
      waiters := waiters + [Waiter(t, slot, h)];
      return Sleeping;
    }

    /** WaitLoop after a wake-up of thread t; expired says that wait_until reported a timeout. */
    method Recheck(t: Tid, expired: bool) returns (r: Outcome)
      requires Valid() && WaiterAt(waiters, t) < |waiters|
      requires forall i, j :: 0 <= i < j < |waiters| ==> waiters[i].tid != waiters[j].tid
      modifies this
      ensures Valid()
      ensures r.Acquired? <==> old(Grantable(View(), waiters[WaiterAt(waiters, t)].hold))
      ensures r.Acquired? ==>
        View() == WithEntry(old(View()).(waiters := WithoutWaiter(old(waiters), t)),
                            old(waiters[WaiterAt(waiters, t)]).hold)
      ensures r.Refused? ==> expired && View() == old(View()).(waiters := WithoutWaiter(old(waiters), t))
      ensures r.Sleeping? ==> !expired && View() == old(View())
    {
      var h := waiters[WaiterAt(waiters, t)].hold;
      var g := CanGrant(h);
      if !g && !expired {
        return Sleeping;
      }
      UnregisterKeepsGrant(View(), t);
      waiters := WithoutWaiter(waiters, t);
      g := CanGrant(h);
      if g {
        InsertEntry(h);
        return Acquired;
      }
      return Refused;
    }

    /** IsLockedAny; offset + length is 64-bit arithmetic and may wrap. */
    method IsLockedAny(offset: nat, length: nat) returns (b: bool)
      requires Valid() && offset <= MAX64 && length <= MAX64
      ensures length == 0 ==> !b
      ensures length > 0 ==>
        (b <==> exists i :: 0 <= i < |entries| &&
                            Overlaps(entries[i].hold, Hold(offset, (offset + length) % TWO64, Shared)))
    {
      if length == 0 {
        return false;
      }
      var q := Hold(offset, (offset + length) % TWO64, Shared);
      var i := 0;
      while i < |entries|
        invariant 0 <= i <= |entries|
        invariant forall j :: 0 <= j < i ==> !Overlaps(entries[j].hold, q)
      {
        if entries[i].hold.offset >= q.end {
          break;
        }
        if Overlaps(entries[i].hold, q) {
          return true;
        }
        i := i + 1;
      }
      return false;
    }
  }

  /** Unregistering a waiter does not change whether its own request can be granted. */
  lemma UnregisterKeepsGrant(tb: Table, t: Tid)
    requires WaiterAt(tb.waiters, t) < |tb.waiters|
    requires forall i, j :: 0 <= i < j < |tb.waiters| ==> tb.waiters[i].tid != tb.waiters[j].tid
    ensures var h := tb.waiters[WaiterAt(tb.waiters, t)].hold;
            Grantable(tb.(waiters := WithoutWaiter(tb.waiters, t)), h) <==> Grantable(tb, h)
  {
    var k := WaiterAt(tb.waiters, t);
    var h := tb.waiters[k].hold;
    var ws' := WithoutWaiter(tb.waiters, t);
    if h.mode.Shared? {
      if ExclusiveWaiterIn(tb.waiters, h) {
        var i :| 0 <= i < |tb.waiters| && tb.waiters[i].hold.mode.Exclusive? && Overlaps(tb.waiters[i].hold, h);
        assert ws'[if i < k then i else i - 1] == tb.waiters[i];
      }
      if ExclusiveWaiterIn(ws', h) {
        var i :| 0 <= i < |ws'| && ws'[i].hold.mode.Exclusive? && Overlaps(ws'[i].hold, h);
        assert tb.waiters[if i < k then i else i + 1] == ws'[i];
      }
    }
  }
}
