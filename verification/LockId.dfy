/**
 LockId (yacul/concurrency/lock_id.h): per-id reader/writer locks whose entries are created on
 first use and erased with the last user.

 An operation is one call of Lock, TryLock, TryLockFor or a shared variant together with the
 guard it returns.  One action is one critical section on a shard's map_mutex or one operation
 on an entry's shared_timed_mutex; actions of any number of operations interleave.
 */
module LockId {
  import opened Counting
  import opened Masks

  type Id = nat
  type Op = nat
  type Eid = nat      // address of a LockEntry; an erased address may be used again

  datatype Mode = Shared | Exclusive

  /** ref_count and the state of the shared_timed_mutex. */
  datatype LockEntry = LockEntry(refCount: nat, writer: bool, readers: nat)

  datatype Stage =
    | Waiting(mode: Mode)       // AcquireEntry done, mutex not yet held
    | Holding(mode: Mode)
    | Leaving                   // mutex released or never obtained; ReleaseEntry still to come

  datatype Use = Use(id: Id, eid: Eid, stage: Stage)

  /** The shard maps and the LockEntry objects they own. */
  datatype Table = Table(hash: Id -> nat, shards: seq<map<Id, Eid>>, heap: map<Eid, LockEntry>)

  datatype State = State(tb: Table, ops: map<Op, Use>)

  datatype Action =
    | Begin(op: Op, id: Id, mode: Mode, addr: Eid)
    | Lock(op: Op)
    | GiveUp(op: Op)            // try_lock failed or the deadline passed
    | Unlock(op: Op)
    | Finish(op: Op)

  // ---------------------------------------------------------------- sharding

  /** hasher_(id) & (num_shards_ - 1): in range for every shard count, power of two or not. */
  function MaskIndex(hash: nat, n: nat): (k: nat)
    requires n > 0
    ensures k < n
  {
    BitAnd(hash, n - 1)
  }

  /** Every shard is the id's hash modulo the count exactly if the count is a power of two, which nothing checks. */
  lemma MaskIndexIsRemainder(n: nat)
    requires n > 0
    ensures (forall hash: nat :: MaskIndex(hash, n) == hash % n) <==> exists k :: n == Pow2(k)
  {
    if k :| n == Pow2(k) {
      forall hash: nat ensures MaskIndex(hash, n) == hash % n {
        MaskIsRemainder(hash, k);
      }
    } else if forall hash: nat :: MaskIndex(hash, n) == hash % n {
      assert MaskIndex(n, n) == n % n == 0;
      var k := LoneBit(n);
    }
  }

  function ShardIndex(tb: Table, id: Id): (k: nat)
    requires |tb.shards| > 0
    ensures k < |tb.shards|
  {
    MaskIndex(tb.hash(id), |tb.shards|)
  }

  // ---------------------------------------------------------------- the critical sections

  /** AcquireEntry: find or create the entry of id and count one more user. */
  function Acquired(tb: Table, id: Id, addr: Eid): (r: (Table, Eid))
    requires |tb.shards| > 0
  {
    var k := ShardIndex(tb, id);
    if id in tb.shards[k] then
      var e := tb.shards[k][id];
      (if e in tb.heap then tb.(heap := tb.heap[e := tb.heap[e].(refCount := tb.heap[e].refCount + 1)]) else tb, e)
    else
      var m: map<Id, Eid> := tb.shards[k][id := addr];
      (tb.(shards := tb.shards[k := m], heap := tb.heap[addr := LockEntry(1, false, 0)]), addr)
  }

  /** ReleaseEntry: count one user less and erase the entry with the last one. */
  function Released(tb: Table, id: Id): Table
    requires |tb.shards| > 0
  {
    var k := ShardIndex(tb, id);
    if id !in tb.shards[k] || tb.shards[k][id] !in tb.heap then tb
    else
      var e := tb.shards[k][id];
      var n := tb.heap[e].refCount;
      if n == 1 then tb.(shards := tb.shards[k := tb.shards[k] - {id}], heap := tb.heap - {e})
      else tb.(heap := tb.heap[e := tb.heap[e].(refCount := if n == 0 then 0xFFFF_FFFF_FFFF_FFFF else n - 1)])
  }

  predicate Admits(e: LockEntry, mode: Mode)
  {
    !e.writer && (mode.Exclusive? ==> e.readers == 0)
  }

  function Locked(e: LockEntry, mode: Mode): LockEntry
  {
    if mode.Exclusive? then e.(writer := true) else e.(readers := e.readers + 1)
  }

  function Unlocked(e: LockEntry, mode: Mode): LockEntry
  {
    if mode.Exclusive? then e.(writer := false) else e.(readers := if e.readers == 0 then 0 else e.readers - 1)
  }

  /** The code of a shard's critical sections. */
  class LockTable {
    const hash: Id -> nat
    var shards: seq<map<Id, Eid>>
    var heap: map<Eid, LockEntry>

    constructor (hash: Id -> nat, numShards: nat)
      ensures View() == Table(hash, seq(if numShards > 0 then numShards else 64, _ => map[]), map[])
    {
      this.hash := hash;
      shards := seq(if numShards > 0 then numShards else 64, _ => map[]);
      heap := map[];
    }

    function View(): Table
      reads this
    {
      Table(hash, shards, heap)
    }

    method AcquireEntry(id: Id, addr: Eid) returns (e: Eid)
      requires |shards| > 0 && addr !in heap
      requires forall m <- shards :: forall i <- m :: m[i] in heap
      modifies this
      ensures (View(), e) == Acquired(old(View()), id, addr)
    {
      var k := ShardIndex(View(), id);
      if id !in shards[k] {
        heap := heap[addr := LockEntry(0, false, 0)];
        var m: map<Id, Eid> := shards[k][id := addr];
        shards := shards[k := m];
      }
      e := shards[k][id];
      assert shards[k] in shards;
      heap := heap[e := heap[e].(refCount := heap[e].refCount + 1)];
      assert e == addr && id !in old(shards)[k] ==> heap == old(heap)[addr := LockEntry(1, false, 0)];
    }

    method ReleaseEntry(id: Id)
      requires |shards| > 0
      requires forall m <- shards :: forall i <- m :: m[i] in heap && heap[m[i]].refCount > 0
      modifies this
      ensures View() == Released(old(View()), id)
    {
      var k := ShardIndex(View(), id);
      if id in shards[k] {
        assert shards[k] in shards;
        var e := shards[k][id];
        var c := heap[e].refCount - 1;
        heap := heap[e := heap[e].(refCount := c)];
        if c == 0 {
          heap := heap - {e};
          shards := shards[k := shards[k] - {id}];
        }
      }
    }

    /** Each shard is counted under its own mutex; seen[k] is shard k at the time it is locked. */
    method ActiveEntryCount(seen: seq<map<Id, Eid>>) returns (total: nat)
      requires |seen| == |shards|
      ensures total == EntryCount(seen)
    {
      total := 0;
      for i := 0 to |shards|
        invariant total == EntryCount(seen[..i])
      {
        assert seen[..i + 1] == seen[..i] + [seen[i]];
        EntryCountAppend(seen[..i], seen[i]);
        total := total + |seen[i]|;
      }
      assert seen[..|shards|] == seen;
    }
  }

  function EntryCount(shards: seq<map<Id, Eid>>): nat
  {
    if |shards| == 0 then 0 else |shards[0]| + EntryCount(shards[1..])
  }

  lemma {:induction false} EntryCountAppend(ss: seq<map<Id, Eid>>, m: map<Id, Eid>)
    ensures EntryCount(ss + [m]) == EntryCount(ss) + |m|
  {
    if |ss| > 0 {
      assert (ss + [m])[1..] == ss[1..] + [m];
      EntryCountAppend(ss[1..], m);
    } else {
      assert ss + [m] == [m];
    }
  }

  // ---------------------------------------------------------------- runs

  predicate Enabled(s: State, a: Action)
  {
    match a
    case Begin(op, _, _, addr) => op !in s.ops && addr !in s.tb.heap && |s.tb.shards| > 0
    case Lock(op) =>
      op in s.ops && s.ops[op].stage.Waiting? && s.ops[op].eid in s.tb.heap &&
      Admits(s.tb.heap[s.ops[op].eid], s.ops[op].stage.mode)
    case GiveUp(op) => op in s.ops && s.ops[op].stage.Waiting?
    case Unlock(op) => op in s.ops && s.ops[op].stage.Holding? && s.ops[op].eid in s.tb.heap
    case Finish(op) => op in s.ops && s.ops[op].stage.Leaving? && |s.tb.shards| > 0
  }

  function Apply(s: State, a: Action): State
    requires Enabled(s, a)
  {
    match a
    case Begin(op, id, mode, addr) =>
      var (tb', e) := Acquired(s.tb, id, addr);
      State(tb', s.ops[op := Use(id, e, Waiting(mode))])
    case Lock(op) =>
      var u := s.ops[op];
      State(s.tb.(heap := s.tb.heap[u.eid := Locked(s.tb.heap[u.eid], u.stage.mode)]),
            s.ops[op := u.(stage := Holding(u.stage.mode))])
    case GiveUp(op) => s.(ops := s.ops[op := s.ops[op].(stage := Leaving)])
    case Unlock(op) =>
      var u := s.ops[op];
      State(s.tb.(heap := s.tb.heap[u.eid := Unlocked(s.tb.heap[u.eid], u.stage.mode)]),
            s.ops[op := u.(stage := Leaving)])
    case Finish(op) => State(Released(s.tb, s.ops[op].id), s.ops - {op})
  }

  /** Any positive number of empty shards, power of two or not. */
  predicate Init(s: State)
  {
    |s.tb.shards| > 0 && (forall m <- s.tb.shards :: m == map[]) && s.tb.heap == map[] && s.ops == map[]
  }

  ghost predicate IsRun(tr: seq<State>, acts: seq<Action>)
  {
    |tr| == |acts| + 1 && Init(tr[0]) &&
    forall i :: 0 <= i < |acts| ==> Enabled(tr[i], acts[i]) && tr[i + 1] == Apply(tr[i], acts[i])
  }

  // ---------------------------------------------------------------- the invariant

  function Users(ops: map<Op, Use>, e: Eid): set<Op>
  {
    set op | op in ops && ops[op].eid == e
  }

  function Holders(ops: map<Op, Use>, e: Eid, mode: Mode): set<Op>
  {
    set op | op in ops && ops[op].eid == e && ops[op].stage == Holding(mode)
  }

  /** id is mapped, in its own shard, to e. */
  predicate Maps(tb: Table, id: Id, e: Eid)
    requires |tb.shards| > 0
  {
    var k := ShardIndex(tb, id);
    id in tb.shards[k] && tb.shards[k][id] == e
  }

  ghost predicate ShardsOk(tb: Table)
  {
    |tb.shards| > 0 &&
    (forall k, id :: 0 <= k < |tb.shards| && id in tb.shards[k] ==> k == ShardIndex(tb, id)) &&
    (forall id, e :: Maps(tb, id, e) ==> e in tb.heap) &&
    (forall id, id', e :: Maps(tb, id, e) && Maps(tb, id', e) ==> id == id')
  }

  ghost predicate OpsOk(s: State)
    requires |s.tb.shards| > 0
  {
    forall op <- s.ops :: Maps(s.tb, s.ops[op].id, s.ops[op].eid)
  }

  ghost predicate EntryOk(ops: map<Op, Use>, e: Eid, x: LockEntry)
  {
    x.refCount == |Users(ops, e)| > 0 &&
    x.readers == |Holders(ops, e, Shared)| &&
    |Holders(ops, e, Exclusive)| == (if x.writer then 1 else 0) &&
    (x.writer ==> x.readers == 0)
  }

  ghost predicate HeapOk(s: State)
  {
    forall e <- s.tb.heap :: EntryOk(s.ops, e, s.tb.heap[e])
  }

  ghost predicate Inv(s: State)
  {
    ShardsOk(s.tb) && OpsOk(s) && HeapOk(s)
  }

  predicate HoldersSwap(ops: map<Op, Use>, ops': map<Op, Use>, op: Op, e: Eid, m: Mode)
  {
    |Holders(ops', e, m)| ==
    |Holders(ops, e, m)| - (if op in Holders(ops, e, m) then 1 else 0) + (if op in Holders(ops', e, m) then 1 else 0)
  }

  lemma UsersChange(ops: map<Op, Use>, ops': map<Op, Use>, op: Op, e: Eid)
    requires ops - {op} == ops' - {op}
    ensures |Users(ops', e)| ==
            |Users(ops, e)| - (if op in Users(ops, e) then 1 else 0) + (if op in Users(ops', e) then 1 else 0)
    ensures forall m :: HoldersSwap(ops, ops', op, e, m)
  {
    assert forall o :: o != op ==> (o in ops <==> o in ops - {op}) && (o in ops' <==> o in ops' - {op});
    assert forall o :: o != op && o in ops ==> ops[o] == (ops - {op})[o] && o in ops' && ops'[o] == (ops' - {op})[o];
    CardSwap(Users(ops, e), Users(ops', e), op);
    forall m ensures HoldersSwap(ops, ops', op, e, m) {
      CardSwap(Holders(ops, e, m), Holders(ops', e, m), op);
    }
  }

  /** An entry that operation op neither uses before nor after is unaffected. */
  lemma OtherEntry(ops: map<Op, Use>, ops': map<Op, Use>, op: Op, e: Eid, x: LockEntry)
    requires ops - {op} == ops' - {op} && EntryOk(ops, e, x)
    requires op !in Users(ops, e) && op !in Users(ops', e)
    ensures EntryOk(ops', e, x)
  {
    UsersChange(ops, ops', op, e);
    assert HoldersSwap(ops, ops', op, e, Shared) && HoldersSwap(ops, ops', op, e, Exclusive);
  }

  lemma SameShards(tb: Table, tb': Table)
    requires ShardsOk(tb) && tb'.hash == tb.hash && tb'.shards == tb.shards && tb'.heap.Keys == tb.heap.Keys
    ensures ShardsOk(tb') && forall i, f :: Maps(tb', i, f) <==> Maps(tb, i, f)
  {
    forall i ensures ShardIndex(tb', i) == ShardIndex(tb, i) {
    }
    assert forall i, f :: Maps(tb', i, f) <==> Maps(tb, i, f);
  }

  lemma SameOps(s: State, s': State, op: Op)
    requires |s.tb.shards| > 0 && |s'.tb.shards| > 0 && OpsOk(s)
    requires forall i, f :: Maps(s.tb, i, f) ==> Maps(s'.tb, i, f)
    requires forall o <- s'.ops :: o != op ==> o in s.ops && s'.ops[o] == s.ops[o]
    requires op in s'.ops ==> Maps(s'.tb, s'.ops[op].id, s'.ops[op].eid)
    ensures OpsOk(s')
  {
  }

  /** A step that leaves the shard maps alone and lets op use an entry that is mapped. */
  lemma SameMaps(s: State, s': State, op: Op)
    requires ShardsOk(s.tb) && OpsOk(s)
    requires s'.tb.hash == s.tb.hash && s'.tb.shards == s.tb.shards && s'.tb.heap.Keys == s.tb.heap.Keys
    requires forall o <- s'.ops :: o != op ==> o in s.ops && s'.ops[o] == s.ops[o]
    requires op in s'.ops ==> Maps(s.tb, s'.ops[op].id, s'.ops[op].eid)
    ensures ShardsOk(s'.tb) && OpsOk(s')
  {
    SameShards(s.tb, s'.tb);
    SameOps(s, s', op);
  }

  /** Only the entry of op changes, to a value that fits the new operations. */
  lemma SameHeap(s: State, s': State, op: Op, e: Eid)
    requires HeapOk(s) && s.ops - {op} == s'.ops - {op}
    requires (op in s.ops ==> s.ops[op].eid == e) && (op in s'.ops ==> s'.ops[op].eid == e)
    requires forall f <- s'.tb.heap :: f != e ==> f in s.tb.heap && s'.tb.heap[f] == s.tb.heap[f]
    requires e in s'.tb.heap ==> EntryOk(s'.ops, e, s'.tb.heap[e])
    ensures HeapOk(s')
  {
    forall f <- s'.tb.heap ensures EntryOk(s'.ops, f, s'.tb.heap[f]) {
      if f != e {
        OtherEntry(s.ops, s'.ops, op, f, s.tb.heap[f]);
      }
    }
  }

  lemma OpEntry(s: State, op: Op)
    requires Inv(s) && op in s.ops
    ensures s.ops[op].eid in s.tb.heap && EntryOk(s.ops, s.ops[op].eid, s.tb.heap[s.ops[op].eid])
    ensures Maps(s.tb, s.ops[op].id, s.ops[op].eid) && op in Users(s.ops, s.ops[op].eid)
  {
    assert Maps(s.tb, s.ops[op].id, s.ops[op].eid);
  }

  lemma JoinEntry(ops: map<Op, Use>, op: Op, u: Use, x: LockEntry)
    requires op !in ops && u.stage.Waiting? && EntryOk(ops, u.eid, x)
    ensures EntryOk(ops[op := u], u.eid, x.(refCount := x.refCount + 1))
  {
    var ops' := ops[op := u];
    assert ops - {op} == ops' - {op};
    UsersChange(ops, ops', op, u.eid);
    assert HoldersSwap(ops, ops', op, u.eid, Shared) && HoldersSwap(ops, ops', op, u.eid, Exclusive);
  }

  lemma HeapJoin(s: State, op: Op, id: Id, mode: Mode, addr: Eid)
    requires HeapOk(s) && Enabled(s, Begin(op, id, mode, addr)) && id in s.tb.shards[ShardIndex(s.tb, id)]
    requires s.tb.shards[ShardIndex(s.tb, id)][id] in s.tb.heap
    ensures HeapOk(Apply(s, Begin(op, id, mode, addr)))
  {
    var s' := Apply(s, Begin(op, id, mode, addr));
    var e := s.tb.shards[ShardIndex(s.tb, id)][id];
    assert s.ops - {op} == s'.ops - {op};
    JoinEntry(s.ops, op, Use(id, e, Waiting(mode)), s.tb.heap[e]);
    SameHeap(s, s', op, e);
  }

  /** Beginning with an existing entry. */
  lemma KeepJoin(s: State, op: Op, id: Id, mode: Mode, addr: Eid)
    requires Inv(s) && Enabled(s, Begin(op, id, mode, addr)) && id in s.tb.shards[ShardIndex(s.tb, id)]
    ensures Inv(Apply(s, Begin(op, id, mode, addr)))
  {
    assert Maps(s.tb, id, s.tb.shards[ShardIndex(s.tb, id)][id]);
    HeapJoin(s, op, id, mode, addr);
    MapsJoin(s, op, id, mode, addr);
  }

  lemma MapsJoin(s: State, op: Op, id: Id, mode: Mode, addr: Eid)
    requires ShardsOk(s.tb) && OpsOk(s) && Enabled(s, Begin(op, id, mode, addr))
    requires id in s.tb.shards[ShardIndex(s.tb, id)] && s.tb.shards[ShardIndex(s.tb, id)][id] in s.tb.heap
    ensures ShardsOk(Apply(s, Begin(op, id, mode, addr)).tb) && OpsOk(Apply(s, Begin(op, id, mode, addr)))
  {
    assert Maps(s.tb, id, s.tb.shards[ShardIndex(s.tb, id)][id]);
    SameMaps(s, Apply(s, Begin(op, id, mode, addr)), op);
  }

  lemma FreshShards(tb: Table, id: Id, addr: Eid)
    requires ShardsOk(tb) && addr !in tb.heap && id !in tb.shards[ShardIndex(tb, id)]
    ensures ShardsOk(Acquired(tb, id, addr).0)
    ensures forall i, f :: Maps(Acquired(tb, id, addr).0, i, f) <==> Maps(tb, i, f) || (i == id && f == addr)
  {
    var tb' := Acquired(tb, id, addr).0;
    forall i ensures ShardIndex(tb', i) == ShardIndex(tb, i) {
    }
    forall k, i | 0 <= k < |tb'.shards| && i in tb'.shards[k] ensures k == ShardIndex(tb', i) {
      assert i == id || i in tb.shards[k];
      assert ShardIndex(tb', i) == ShardIndex(tb, i);
    }
    forall i, f ensures Maps(tb', i, f) <==> Maps(tb, i, f) || (i == id && f == addr) {
      assert ShardIndex(tb', i) == ShardIndex(tb, i);
    }
  }

  lemma NewEntry(ops: map<Op, Use>, op: Op, u: Use)
    requires op !in ops && u.stage.Waiting? && forall o <- ops :: ops[o].eid != u.eid
    ensures EntryOk(ops[op := u], u.eid, LockEntry(1, false, 0))
  {
    assert Users(ops[op := u], u.eid) == {op};
    assert Holders(ops[op := u], u.eid, Shared) == {} && Holders(ops[op := u], u.eid, Exclusive) == {};
  }

  lemma HeapCreate(s: State, op: Op, id: Id, mode: Mode, addr: Eid)
    requires HeapOk(s) && Enabled(s, Begin(op, id, mode, addr)) && id !in s.tb.shards[ShardIndex(s.tb, id)]
    requires forall o <- s.ops :: s.ops[o].eid != addr
    ensures HeapOk(Apply(s, Begin(op, id, mode, addr)))
  {
    var s' := Apply(s, Begin(op, id, mode, addr));
    assert s.ops - {op} == s'.ops - {op};
    NewEntry(s.ops, op, Use(id, addr, Waiting(mode)));
    SameHeap(s, s', op, addr);
  }

  /** Beginning with a new entry, possibly at the address of an erased one. */
  lemma KeepCreate(s: State, op: Op, id: Id, mode: Mode, addr: Eid)
    requires Inv(s) && Enabled(s, Begin(op, id, mode, addr)) && id !in s.tb.shards[ShardIndex(s.tb, id)]
    ensures Inv(Apply(s, Begin(op, id, mode, addr)))
  {
    forall o <- s.ops ensures s.ops[o].eid != addr {
      assert Maps(s.tb, s.ops[o].id, s.ops[o].eid);
    }
    HeapCreate(s, op, id, mode, addr);
    FreshMaps(s, op, id, mode, addr);
  }

  lemma FreshMaps(s: State, op: Op, id: Id, mode: Mode, addr: Eid)
    requires ShardsOk(s.tb) && OpsOk(s)
    requires Enabled(s, Begin(op, id, mode, addr)) && id !in s.tb.shards[ShardIndex(s.tb, id)]
    ensures var s' := Apply(s, Begin(op, id, mode, addr)); ShardsOk(s'.tb) && OpsOk(s')
  {
    FreshShards(s.tb, id, addr);
    SameOps(s, Apply(s, Begin(op, id, mode, addr)), op);
  }

  lemma MutexEntry(ops: map<Op, Use>, op: Op, u: Use, x: LockEntry, x': LockEntry)
    requires op in ops && u.eid == ops[op].eid && EntryOk(ops, u.eid, x) && x'.refCount == x.refCount
    requires (ops[op].stage.Waiting? && u.stage.Leaving? && x' == x)
          || (ops[op].stage.Waiting? && u.stage == Holding(ops[op].stage.mode) && Admits(x, u.stage.mode) &&
              x' == Locked(x, u.stage.mode))
          || (ops[op].stage.Holding? && u.stage.Leaving? && x' == Unlocked(x, ops[op].stage.mode))
    ensures EntryOk(ops[op := u], u.eid, x')
  {
    var ops' := ops[op := u];
    assert ops - {op} == ops' - {op};
    UsersChange(ops, ops', op, u.eid);
    assert HoldersSwap(ops, ops', op, u.eid, Shared) && HoldersSwap(ops, ops', op, u.eid, Exclusive);
    assert op in Users(ops, u.eid) && op in Users(ops', u.eid);
  }

  lemma HeapMutex(s: State, a: Action)
    requires HeapOk(s) && Enabled(s, a) && (a.Lock? || a.GiveUp? || a.Unlock?) && s.ops[a.op].eid in s.tb.heap
    ensures var s' := Apply(s, a);
            HeapOk(s') && s'.tb.hash == s.tb.hash && s'.tb.shards == s.tb.shards && s'.tb.heap.Keys == s.tb.heap.Keys
  {
    var s' := Apply(s, a);
    var op, e := a.op, s.ops[a.op].eid;
    assert s.ops - {op} == s'.ops - {op};
    MutexEntry(s.ops, op, s'.ops[op], s.tb.heap[e], s'.tb.heap[e]);
    SameHeap(s, s', op, e);
  }

  lemma MapsMutex(s: State, a: Action)
    requires ShardsOk(s.tb) && OpsOk(s) && Enabled(s, a) && (a.Lock? || a.GiveUp? || a.Unlock?)
    requires Apply(s, a).tb.hash == s.tb.hash && Apply(s, a).tb.shards == s.tb.shards
    requires Apply(s, a).tb.heap.Keys == s.tb.heap.Keys
    ensures ShardsOk(Apply(s, a).tb) && OpsOk(Apply(s, a))
  {
    assert Maps(s.tb, s.ops[a.op].id, s.ops[a.op].eid);
    SameMaps(s, Apply(s, a), a.op);
  }

  lemma KeepMutex(s: State, a: Action)
    requires Inv(s) && Enabled(s, a) && (a.Lock? || a.GiveUp? || a.Unlock?)
    ensures Inv(Apply(s, a))
  {
    OpEntry(s, a.op);
    HeapMutex(s, a);
    MapsMutex(s, a);
  }

  lemma ErasedShards(tb: Table, id: Id, e: Eid)
    requires ShardsOk(tb) && Maps(tb, id, e) && tb.heap[e].refCount == 1
    ensures ShardsOk(Released(tb, id))
    ensures forall i, f :: Maps(Released(tb, id), i, f) <==> Maps(tb, i, f) && i != id
  {
    var tb' := Released(tb, id);
    forall i, f ensures Maps(tb', i, f) <==> Maps(tb, i, f) && i != id {
      assert ShardIndex(tb', i) == ShardIndex(tb, i);
    }
    forall k, i | 0 <= k < |tb'.shards| && i in tb'.shards[k] ensures k == ShardIndex(tb', i) {
      assert i in tb.shards[k];
      assert ShardIndex(tb', i) == ShardIndex(tb, i);
    }
    forall i, f | Maps(tb', i, f) ensures f in tb'.heap {
      assert Maps(tb, i, f);
      assert f == e ==> i == id;
    }
  }

  lemma LeaveEntry(ops: map<Op, Use>, op: Op, x: LockEntry)
    requires op in ops && ops[op].stage.Leaving? && EntryOk(ops, ops[op].eid, x)
    ensures x.refCount == 1 ==> Users(ops - {op}, ops[op].eid) == {}
    ensures x.refCount > 1 ==> EntryOk(ops - {op}, ops[op].eid, x.(refCount := x.refCount - 1))
  {
    var e, ops' := ops[op].eid, ops - {op};
    UsersChange(ops, ops', op, e);
    assert HoldersSwap(ops, ops', op, e, Shared) && HoldersSwap(ops, ops', op, e, Exclusive);
    assert op in Users(ops, e) && op !in Users(ops', e);
  }

  lemma HeapFinish(s: State, op: Op)
    requires HeapOk(s) && Enabled(s, Finish(op))
    requires Maps(s.tb, s.ops[op].id, s.ops[op].eid) && s.ops[op].eid in s.tb.heap
    ensures var s' := Apply(s, Finish(op));
            var e := s.ops[op].eid;
            HeapOk(s') && (s.tb.heap[e].refCount == 1 ==> Users(s'.ops, e) == {})
  {
    var e := s.ops[op].eid;
    LeaveEntry(s.ops, op, s.tb.heap[e]);
    SameHeap(s, Apply(s, Finish(op)), op, e);
  }

  /** The last user erases the entry, and nobody else still refers to it. */
  lemma KeepErase(s: State, op: Op)
    requires Inv(s) && Enabled(s, Finish(op)) && s.ops[op].eid in s.tb.heap && s.tb.heap[s.ops[op].eid].refCount == 1
    ensures Inv(Apply(s, Finish(op)))
  {
    var id, e := s.ops[op].id, s.ops[op].eid;
    OpEntry(s, op);
    HeapFinish(s, op);
    ErasedShards(s.tb, id, e);
    ErasedOps(s, Apply(s, Finish(op)), op);
  }

  lemma ErasedOps(s: State, s': State, op: Op)
    requires |s.tb.shards| > 0 && |s'.tb.shards| > 0 && OpsOk(s) && op in s.ops && s'.ops == s.ops - {op}
    requires forall i, f :: Maps(s'.tb, i, f) <==> Maps(s.tb, i, f) && i != s.ops[op].id
    requires Users(s'.ops, s.ops[op].eid) == {}
    ensures OpsOk(s')
  {
    forall o <- s'.ops ensures Maps(s'.tb, s'.ops[o].id, s'.ops[o].eid) {
      assert Maps(s.tb, s.ops[o].id, s.ops[o].eid) && Maps(s.tb, s.ops[op].id, s.ops[op].eid);
      assert o !in Users(s'.ops, s.ops[op].eid);
    }
  }

  lemma KeepLeave(s: State, op: Op)
    requires Inv(s) && Enabled(s, Finish(op)) && s.ops[op].eid in s.tb.heap && s.tb.heap[s.ops[op].eid].refCount > 1
    ensures Inv(Apply(s, Finish(op)))
  {
    OpEntry(s, op);
    HeapFinish(s, op);
    SameMaps(s, Apply(s, Finish(op)), op);
  }

  lemma KeepApply(s: State, a: Action)
    requires Inv(s) && Enabled(s, a)
    ensures Inv(Apply(s, a))
  {
    match a
    case Begin(op, id, mode, addr) =>
      if id in s.tb.shards[ShardIndex(s.tb, id)] {
        KeepJoin(s, op, id, mode, addr);
      } else {
        KeepCreate(s, op, id, mode, addr);
      }
    case Finish(op) =>
      OpEntry(s, op);
      if s.tb.heap[s.ops[op].eid].refCount == 1 {
        KeepErase(s, op);
      } else {
        KeepLeave(s, op);
      }
    case _ => KeepMutex(s, a);
  }

  lemma {:induction false} RunInv(tr: seq<State>, acts: seq<Action>, i: nat)
    requires IsRun(tr, acts) && i < |tr|
    ensures Inv(tr[i])
  {
    if i == 0 {
      assert forall k :: 0 <= k < |tr[0].tb.shards| ==> tr[0].tb.shards[k] in tr[0].tb.shards;
    } else {
      RunInv(tr, acts, i - 1);
      KeepApply(tr[i - 1], acts[i - 1]);
    }
  }

  // ---------------------------------------------------------------- what every run guarantees

  /** No operation refers to an erased entry; its entry is the one the map holds for its id; ref_count is exact. */
  lemma EntriesAreLive(tr: seq<State>, acts: seq<Action>, i: nat, op: Op)
    requires IsRun(tr, acts) && i < |tr| && op in tr[i].ops
    ensures var u := tr[i].ops[op];
            |tr[i].tb.shards| > 0 && Maps(tr[i].tb, u.id, u.eid) && u.eid in tr[i].tb.heap &&
            tr[i].tb.heap[u.eid].refCount == |Users(tr[i].ops, u.eid)|
  {
    RunInv(tr, acts, i);
    OpEntry(tr[i], op);
  }

  /** Operations on the same id share one entry and operations on different ids never do. */
  lemma OneEntryPerId(tr: seq<State>, acts: seq<Action>, i: nat, o: Op, p: Op)
    requires IsRun(tr, acts) && i < |tr| && o in tr[i].ops && p in tr[i].ops
    ensures tr[i].ops[o].id == tr[i].ops[p].id <==> tr[i].ops[o].eid == tr[i].ops[p].eid
  {
    RunInv(tr, acts, i);
    OpEntry(tr[i], o);
    OpEntry(tr[i], p);
  }

  /** Mutual exclusion per id, across erasure and re-creation of entries. */
  lemma HoldersExclude(tr: seq<State>, acts: seq<Action>, i: nat, o: Op, p: Op)
    requires IsRun(tr, acts) && i < |tr| && o in tr[i].ops && p in tr[i].ops && o != p
    requires tr[i].ops[o].id == tr[i].ops[p].id
    requires tr[i].ops[o].stage.Holding? && tr[i].ops[p].stage.Holding?
    ensures tr[i].ops[o].stage.mode.Shared? && tr[i].ops[p].stage.mode.Shared?
  {
    var s := tr[i];
    RunInv(tr, acts, i);
    OneEntryPerId(tr, acts, i, o, p);
    OpEntry(s, o);
    var e := s.ops[o].eid;
    ExclusiveAlone(s.ops, e, s.tb.heap[e], o, p);
  }

  lemma ExclusiveAlone(ops: map<Op, Use>, e: Eid, x: LockEntry, o: Op, p: Op)
    requires EntryOk(ops, e, x) && o in ops && p in ops && o != p && ops[o].eid == ops[p].eid == e
    requires ops[o].stage.Holding? && ops[p].stage.Holding?
    ensures ops[o].stage.mode.Shared? && ops[p].stage.mode.Shared?
  {
    var w := Holders(ops, e, Exclusive);
    assert o in Holders(ops, e, ops[o].stage.mode) && p in Holders(ops, e, ops[p].stage.mode);
    if o in w && p in w {
      SubsetCard({o, p}, w);
    }
  }

  /** Operation p holds the id of operation op in a way that op cannot share. */
  predicate Excludes(s: State, p: Op, op: Op)
    requires p in s.ops && op in s.ops && s.ops[op].stage.Waiting?
  {
    s.ops[p].id == s.ops[op].id && s.ops[p].stage.Holding? &&
    (s.ops[p].stage.mode.Exclusive? || s.ops[op].stage.mode.Exclusive?)
  }

  /**
   In every reachable state a waiting operation can have its lock exactly if no operation holds the same id
   exclusively and, if it wants it exclusively, none holds it at all: holders share whatever can be shared.
   */
  lemma LockExactly(tr: seq<State>, acts: seq<Action>, i: nat, op: Op)
    requires IsRun(tr, acts) && i < |tr| && op in tr[i].ops && tr[i].ops[op].stage.Waiting?
    ensures Enabled(tr[i], Lock(op)) <==> forall p <- tr[i].ops :: !Excludes(tr[i], p, op)
  {
    var s := tr[i];
    RunInv(tr, acts, i);
    OpEntry(s, op);
    var e := s.ops[op].eid;
    AdmitsExactly(s.ops, e, s.tb.heap[e], s.ops[op].stage.mode);
    forall p | p in s.ops
      ensures Excludes(s, p, op) <==>
              p in Holders(s.ops, e, Exclusive) || (s.ops[op].stage.mode.Exclusive? && p in Holders(s.ops, e, Shared))
    {
      OneEntryPerId(tr, acts, i, p, op);
      HoldsAs(s.ops, e, p);
      assert s.ops[p].id == s.ops[op].id <==> s.ops[p].eid == e;
    }
    NoneExcludes(s, op, e);
  }

  lemma HoldsAs(ops: map<Op, Use>, e: Eid, p: Op)
    requires p in ops
    ensures p in Holders(ops, e, Exclusive) <==>
            ops[p].eid == e && ops[p].stage.Holding? && ops[p].stage.mode.Exclusive?
    ensures p in Holders(ops, e, Shared) <==> ops[p].eid == e && ops[p].stage.Holding? && ops[p].stage.mode.Shared?
  {
  }

  lemma NoneExcludes(s: State, op: Op, e: Eid)
    requires op in s.ops && s.ops[op].stage.Waiting?
    requires forall p <- s.ops :: Excludes(s, p, op) <==>
               p in Holders(s.ops, e, Exclusive) || (s.ops[op].stage.mode.Exclusive? && p in Holders(s.ops, e, Shared))
    ensures (forall p <- s.ops :: !Excludes(s, p, op)) <==>
            Holders(s.ops, e, Exclusive) == {} &&
            (s.ops[op].stage.mode.Exclusive? ==> Holders(s.ops, e, Shared) == {})
  {
    if p :| p in Holders(s.ops, e, Exclusive) {
      assert Excludes(s, p, op);
    }
    if p :| p in Holders(s.ops, e, Shared) && s.ops[op].stage.mode.Exclusive? {
      assert Excludes(s, p, op);
    }
  }

  lemma AdmitsExactly(ops: map<Op, Use>, e: Eid, x: LockEntry, mode: Mode)
    requires EntryOk(ops, e, x)
    ensures Admits(x, mode) <==>
            Holders(ops, e, Exclusive) == {} && (mode.Exclusive? ==> Holders(ops, e, Shared) == {})
  {
  }

  /**
   What becomes of an operation: it starts waiting for its id in its mode, then has its lock by a Lock or gives up,
   leaves a lock only by an Unlock, and is over with its Finish; no other operation changes it.
   */
  lemma LifeOf(tr: seq<State>, acts: seq<Action>, i: nat, op: Op)
    requires IsRun(tr, acts) && i < |acts|
    ensures op !in tr[i].ops && op in tr[i + 1].ops ==>
              acts[i].Begin? && acts[i].op == op &&
              tr[i + 1].ops[op].id == acts[i].id && tr[i + 1].ops[op].stage == Waiting(acts[i].mode)
    ensures op in tr[i].ops && op !in tr[i + 1].ops ==> acts[i] == Finish(op) && tr[i].ops[op].stage.Leaving?
    ensures op in tr[i].ops && op in tr[i + 1].ops ==>
              var u, v := tr[i].ops[op], tr[i + 1].ops[op];
              v.id == u.id && v.eid == u.eid &&
              (acts[i] == Lock(op) ==> u.stage.Waiting? && v.stage == Holding(u.stage.mode)) &&
              (acts[i] == GiveUp(op) ==> u.stage.Waiting? && v.stage == Leaving) &&
              (acts[i] == Unlock(op) ==> u.stage.Holding? && v.stage == Leaving) &&
              (acts[i] != Lock(op) && acts[i] != GiveUp(op) && acts[i] != Unlock(op) ==> v == u)
  {
    assert Enabled(tr[i], acts[i]) && tr[i + 1] == Apply(tr[i], acts[i]);
  }

  lemma InUse(s: State, id: Id)
    requires Inv(s)
    ensures id in s.tb.shards[ShardIndex(s.tb, id)] <==> exists op <- s.ops :: s.ops[op].id == id
  {
    var k := ShardIndex(s.tb, id);
    if id in s.tb.shards[k] {
      var e := s.tb.shards[k][id];
      assert Maps(s.tb, id, e);
      assert EntryOk(s.ops, e, s.tb.heap[e]);
      var op :| op in Users(s.ops, e);
      OpEntry(s, op);
    }
    if op :| op in s.ops && s.ops[op].id == id {
      OpEntry(s, op);
    }
  }

  /** Every entry in the map is in use: when no operation is under way all shards are empty. */
  lemma NoEntryLeaks(tr: seq<State>, acts: seq<Action>, i: nat, id: Id)
    requires IsRun(tr, acts) && i < |tr|
    ensures |tr[i].tb.shards| > 0
    ensures id in tr[i].tb.shards[ShardIndex(tr[i].tb, id)] <==> exists op <- tr[i].ops :: tr[i].ops[op].id == id
  {
    RunInv(tr, acts, i);
    InUse(tr[i], id);
  }

  function Keys(shards: seq<map<Id, Eid>>): set<Id>
  {
    if |shards| == 0 then {} else shards[0].Keys + Keys(shards[1..])
  }

  lemma {:induction false} KeysMembers(shards: seq<map<Id, Eid>>, id: Id)
    ensures id in Keys(shards) <==> exists k :: 0 <= k < |shards| && id in shards[k]
  {
    if |shards| > 0 {
      var rest := shards[1..];
      KeysMembers(rest, id);
      if id in Keys(rest) {
        var k :| 0 <= k < |rest| && id in rest[k];
        assert id in shards[k + 1];
      }
      if k :| 0 <= k < |shards| && id in shards[k] && k != 0 {
        assert id in rest[k - 1];
      }
    }
  }

  lemma {:induction false} KeysCount(shards: seq<map<Id, Eid>>)
    requires forall j, k :: 0 <= j < k < |shards| ==> shards[j].Keys !! shards[k].Keys
    ensures |Keys(shards)| == EntryCount(shards)
  {
    if |shards| > 0 {
      var rest := shards[1..];
      KeysCount(rest);
      forall id | id in shards[0] ensures id !in Keys(rest) {
        KeysMembers(rest, id);
      }
    }
  }

  function ActiveIds(ops: map<Op, Use>): set<Id>
  {
    set op | op in ops :: ops[op].id
  }

  /** The hash function and the number of shards never change. */
  lemma {:induction false} SameSharding(tr: seq<State>, acts: seq<Action>, i: nat)
    requires IsRun(tr, acts) && i < |tr|
    ensures tr[i].tb.hash == tr[0].tb.hash && |tr[i].tb.shards| == |tr[0].tb.shards|
  {
    if i > 0 {
      SameSharding(tr, acts, i - 1);
      assert tr[i - 1 + 1] == Apply(tr[i - 1], acts[i - 1]);
    }
  }

  /** seen[k] is shard k as it was in state at[k]. */
  ghost predicate SeenAt(tr: seq<State>, at: seq<nat>, seen: seq<map<Id, Eid>>)
    requires |tr| > 0
  {
    |seen| == |at| == |tr[0].tb.shards| &&
    forall k :: 0 <= k < |at| ==> at[k] < |tr| && k < |tr[at[k]].tb.shards| && seen[k] == tr[at[k]].tb.shards[k]
  }

  lemma SeenInShard(tr: seq<State>, acts: seq<Action>, at: seq<nat>, seen: seq<map<Id, Eid>>, k: nat, id: Id)
    requires IsRun(tr, acts) && SeenAt(tr, at, seen) && |seen| > 0 && k < |seen|
    ensures id in seen[k] <==> k == ShardIndex(tr[0].tb, id) && id in ActiveIds(tr[at[k]].ops)
  {
    var s := tr[at[k]];
    RunInv(tr, acts, at[k]);
    SameSharding(tr, acts, at[k]);
    InUse(s, id);
  }

  /**
   ActiveEntryCount while operations go on: the number of ids that had a holder or a waiter at the moment
   their own shard was counted.
   */
  lemma SeenCountIsActiveIds(tr: seq<State>, acts: seq<Action>, at: seq<nat>, seen: seq<map<Id, Eid>>)
    requires IsRun(tr, acts) && SeenAt(tr, at, seen) && |seen| > 0
    ensures EntryCount(seen) == |Keys(seen)|
    ensures forall id :: id in Keys(seen) <==> id in ActiveIds(tr[at[ShardIndex(tr[0].tb, id)]].ops)
  {
    forall j, k | 0 <= j < k < |seen| ensures seen[j].Keys !! seen[k].Keys {
      forall id | id in seen[j] ensures id !in seen[k] {
        SeenInShard(tr, acts, at, seen, j, id);
        SeenInShard(tr, acts, at, seen, k, id);
      }
    }
    KeysCount(seen);
    forall id ensures id in Keys(seen) <==> id in ActiveIds(tr[at[ShardIndex(tr[0].tb, id)]].ops) {
      var h := ShardIndex(tr[0].tb, id);
      SeenInShard(tr, acts, at, seen, h, id);
      KeysMembers(seen, id);
      if k :| 0 <= k < |seen| && id in seen[k] {
        SeenInShard(tr, acts, at, seen, k, id);
      }
    }
  }

  /** In one state: the number of ids that have a holder or a waiter. */
  lemma CountIsActiveIds(tr: seq<State>, acts: seq<Action>, i: nat)
    requires IsRun(tr, acts) && i < |tr|
    ensures EntryCount(tr[i].tb.shards) == |ActiveIds(tr[i].ops)|
  {
    RunInv(tr, acts, i);
    SameSharding(tr, acts, i);
    var at := seq(|tr[0].tb.shards|, _ => i);
    var keys, active := Keys(tr[i].tb.shards), ActiveIds(tr[i].ops);
    SeenCountIsActiveIds(tr, acts, at, tr[i].tb.shards);
    forall id ensures id in keys <==> id in active {
      assert at[ShardIndex(tr[0].tb, id)] == i;
    }
    assert keys == active;
  }
}
