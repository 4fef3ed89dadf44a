/**
 What a call of add or try_get achieves (yacul/concurrency/os_lockless_queue.h): alone among threads that are
 suspended anywhere, and in any run.
 */
module FreeListProgress {
  import opened FreeList

  // ---------------------------------------------------------------- a call that is not interrupted

  /** Only t moves from i to j. */
  predicate Alone(acts: seq<Action>, t: Tid, i: nat, j: nat)
  {
    j <= |acts| && forall k :: i <= k < j ==> acts[k] == Fire(t)
  }

  /** The head of the list can be taken: it is nobody's, and its count is the threads' plus the list's. */
  lemma HeadReady(s: State, g: Ghost)
    requires Inv(s, g) && s.head.At?
    ensures s.head.node in s.refs && s.head.node in s.next && s.head.node !in s.owned
    ensures 0 < s.refs[s.head.node] < FLAG
  {
    var n := s.head.node;
    assert g.list[0] == n && n in g.list;
    assert NodeOk(s, g, n);
    HoldersBound(s.pcs, n);
  }

  /** One step of t, with its program point kept apart from the rest of the state. */
  lemma OneStep(tr: seq<State>, acts: seq<Action>, k: nat, t: Tid, s: State, pc: Pc, s': State, pc': Pc)
    requires IsRun(tr, acts) && k < |acts| && acts[k] == Fire(t) && tr[k] == Goto(s, t, pc) && t in s.pcs
    requires Enabled(tr[k], Fire(t)) ==> Step(Goto(s, t, pc), t) == Goto(s'.(pcs := s.pcs[t := pc]), t, pc')
    requires s'.pcs == s.pcs
    ensures tr[k + 1] == Goto(s', t, pc')
  {
    assert s.pcs[t := pc][t := pc'] == s.pcs[t := pc'];
  }

  /** try_get on an empty list returns null after two steps and changes nothing. */
  lemma SoloTryGetEmpty(tr: seq<State>, acts: seq<Action>, i: nat, t: Tid)
    requires IsRun(tr, acts) && i < |acts| && acts[i] == CallGet(t) && Alone(acts, t, i + 1, i + 3)
    requires tr[i].head == Null
    ensures tr[i + 3] == tr[i]
  {
    var s := tr[i];
    assert tr[i + 1] == Goto(s, t, GetLoad);
    OneStep(tr, acts, i + 1, t, s, GetLoad, s, GetTest(Null));
    OneStep(tr, acts, i + 2, t, s, GetTest(Null), s, Idle);
    assert s.pcs[t := Idle] == s.pcs;
  }

  /**
   try_get on a list with head n, wherever the other threads are suspended, takes n: after seven steps n is the
   caller's, the list's reference is gone, the head is n's successor, and nothing else has changed.
   */
  lemma SoloTryGet(tr: seq<State>, acts: seq<Action>, i: nat, t: Tid, n: Node)
    requires IsRun(tr, acts) && i < |acts| && acts[i] == CallGet(t) && Alone(acts, t, i + 1, i + 8)
    requires tr[i].head == At(n)
    ensures var s := tr[i];
            n in s.refs && n in s.next && n !in s.owned && s.refs[n] > 0 &&
            tr[i + 8] == s.(head := s.next[n], refs := s.refs[n := s.refs[n] - 1], owned := s.owned + {n})
  {
    var s := tr[i];
    var g := RunInv(tr, acts, i);
    HeadReady(s, g);
    assert tr[i + 1] == Goto(s, t, GetLoad);
    CountHead(tr, acts, i + 1, t, s, n);
    TakeHead(tr, acts, i + 5, t, s.(refs := s.refs[n := s.refs[n] + 1]), n);
    assert s.pcs[t := Idle] == s.pcs;
    assert s.refs[n := s.refs[n] + 1][n := s.refs[n] - 1] == s.refs[n := s.refs[n] - 1];
  }

  /** From the load of the head to the reference on it. */
  lemma CountHead(tr: seq<State>, acts: seq<Action>, i: nat, t: Tid, s: State, n: Node)
    requires IsRun(tr, acts) && i < |tr| && Alone(acts, t, i, i + 4) && t in s.pcs && tr[i] == Goto(s, t, GetLoad)
    requires s.head == At(n) && n in s.refs && 0 < s.refs[n] < FLAG
    ensures tr[i + 4] == Goto(s.(refs := s.refs[n := s.refs[n] + 1]), t, GetNext(n))
  {
    var r := s.refs[n];
    OneStep(tr, acts, i, t, s, GetLoad, s, GetTest(At(n)));
    OneStep(tr, acts, i + 1, t, s, GetTest(At(n)), s, GetRefs(n));
    OneStep(tr, acts, i + 2, t, s, GetRefs(n), s, GetBump(n, r));
    OneStep(tr, acts, i + 3, t, s, GetBump(n, r), s.(refs := s.refs[n := r + 1]), GetNext(n));
  }

  /** From there to the return of the node. */
  lemma TakeHead(tr: seq<State>, acts: seq<Action>, i: nat, t: Tid, s: State, n: Node)
    requires IsRun(tr, acts) && i < |tr| && Alone(acts, t, i, i + 3) && t in s.pcs && tr[i] == Goto(s, t, GetNext(n))
    requires s.head == At(n) && n in s.refs && n in s.next && 2 <= s.refs[n]
    ensures tr[i + 3] ==
            Goto(s.(head := s.next[n], refs := s.refs[n := s.refs[n] - 2], owned := s.owned + {n}), t, Idle)
  {
    var taken := s.(head := s.next[n]);
    OneStep(tr, acts, i, t, s, GetNext(n), s, GetCas(n, s.next[n]));
    OneStep(tr, acts, i + 1, t, s, GetCas(n, s.next[n]), taken, GetTake(n));
    OneStep(tr, acts, i + 2, t, taken, GetTake(n),
            taken.(refs := s.refs[n := s.refs[n] - 2], owned := s.owned + {n}), Idle);
  }

  /** add of a node that no suspended thread has a reference to makes it the head of the list in five steps. */
  lemma SoloAdd(tr: seq<State>, acts: seq<Action>, i: nat, t: Tid, n: Node)
    requires IsRun(tr, acts) && i < |acts| && acts[i] == CallAdd(t, n) && Alone(acts, t, i + 1, i + 6)
    requires Holders(tr[i].pcs, n) == {}
    ensures var s := tr[i];
            tr[i + 6] == s.(head := At(n), next := s.next[n := s.head], refs := s.refs[n := 1],
                            owned := s.owned - {n})
  {
    var s := tr[i];
    var g := RunInv(tr, acts, i);
    assert NodeOk(s, g, n) && s.refs[n] == 0;
    var given := s.(owned := s.owned - {n});
    var flagged := given.(refs := s.refs[n := FLAG]);
    assert tr[i + 1] == Goto(given, t, AddFlag(n));
    OneStep(tr, acts, i + 1, t, given, AddFlag(n), flagged, InsLoad(n, ToCaller));
    InsertAlone(tr, acts, i + 2, t, flagged, n);
    assert s.pcs[t := Idle] == s.pcs;
    assert flagged.refs[n := 1] == s.refs[n := 1];
  }

  /** add_knowing_refcount_is_zero without interruption. */
  lemma InsertAlone(tr: seq<State>, acts: seq<Action>, i: nat, t: Tid, s: State, n: Node)
    requires IsRun(tr, acts) && i < |tr| && Alone(acts, t, i, i + 4) && t in s.pcs && n in s.refs && n in s.next
    requires tr[i] == Goto(s, t, InsLoad(n, ToCaller))
    ensures tr[i + 4] == Goto(s.(head := At(n), next := s.next[n := s.head], refs := s.refs[n := 1]), t, Idle)
  {
    var linked := s.(next := s.next[n := s.head]);
    var counted := linked.(refs := s.refs[n := 1]);
    OneStep(tr, acts, i, t, s, InsLoad(n, ToCaller), s, InsNext(n, s.head, ToCaller));
    OneStep(tr, acts, i + 1, t, s, InsNext(n, s.head, ToCaller), linked, InsRefs(n, s.head, ToCaller));
    OneStep(tr, acts, i + 2, t, linked, InsRefs(n, s.head, ToCaller), counted, InsCas(n, s.head, ToCaller));
    OneStep(tr, acts, i + 3, t, counted, InsCas(n, s.head, ToCaller), counted.(head := At(n)), Idle);
  }

  /** If some thread still has a reference, add only sets the flag: the insertion is left to whoever drops the last. */
  lemma SoloAddDeferred(tr: seq<State>, acts: seq<Action>, i: nat, t: Tid, n: Node)
    requires IsRun(tr, acts) && i < |acts| && acts[i] == CallAdd(t, n) && Alone(acts, t, i + 1, i + 2)
    requires Holders(tr[i].pcs, n) != {}
    ensures var s := tr[i];
            n in s.refs && s.refs[n] < FLAG &&
            tr[i + 2] == s.(refs := s.refs[n := s.refs[n] + FLAG], owned := s.owned - {n})
  {
    var s := tr[i];
    var g := RunInv(tr, acts, i);
    assert NodeOk(s, g, n);
    HoldersBound(s.pcs, n);
    var given := s.(owned := s.owned - {n});
    assert tr[i + 1] == Goto(given, t, AddFlag(n));
    OneStep(tr, acts, i + 1, t, given, AddFlag(n), given.(refs := s.refs[n := s.refs[n] + FLAG]), Idle);
    assert tr[i + 2].pcs == s.pcs;
  }

  // ---------------------------------------------------------------- a thread alone always finishes

  /** How many steps thread t still needs at most if nobody else runs; a pointer is stale unless it is the head. */
  function Rank(s: State, pc: Pc): nat
  {
    match pc
    case Idle => 0
    case GetTake(_) => 1
    case GetCas(n, _) => if s.head == At(n) then 2 else if Last(s, n) then 18 else 8
    case GetNext(n) => if s.head == At(n) then 3 else if Last(s, n) then 19 else 9
    case GetBump(n, r) => if s.head == At(n) && n in s.refs && s.refs[n] == r then 4 else 10
    case GetRefs(n) => if s.head == At(n) then 5 else 11
    case GetTest(h) => if h.Null? then 1 else if h == s.head then 6 else 12
    case GetLoad => 7
    case GetDrop(n, h) => if Last(s, n) then 17 else if h.Null? || h == s.head then 7 else 13
    case InsCas(_, h, _) => if h == s.head then 13 else 17
    case InsRefs(_, h, _) => if h == s.head then 14 else 18
    case InsNext(_, h, _) => if h == s.head then 15 else 19
    case InsUndo(_, h, _) => if h == s.head then 16 else 20
    case InsLoad(_, _) => 16
    case AddFlag(_) => 17
  }

  /** The reference about to be dropped is the last one of a node that waits to be inserted. */
  predicate Last(s: State, n: Node)
  {
    n in s.refs && s.refs[n] == FLAG + 1
  }

  lemma RankFalls(s: State, g: Ghost, t: Tid)
    requires Inv(s, g) && t in s.pcs && !s.pcs[t].Idle? && InBounds(s, s.pcs[t])
    ensures Rank(Step(s, t), Step(s, t).pcs[t]) < Rank(s, s.pcs[t])
  {
    assert PcOk(s.next, g.place, t, s.pcs[t]);
    if s.head.At? {
      HeadReady(s, g);
    }
    if Inserting(s.pcs[t]) {
      RankFallsInserting(s, t);
    } else {
      RankFallsLooking(s, t);
    }
  }

  predicate Inserting(pc: Pc)
  {
    pc.AddFlag? || pc.InsLoad? || pc.InsNext? || pc.InsRefs? || pc.InsCas? || pc.InsUndo?
  }

  lemma RankFallsInserting(s: State, t: Tid)
    requires t in s.pcs && Inserting(s.pcs[t]) && InBounds(s, s.pcs[t])
    ensures Rank(Step(s, t), Step(s, t).pcs[t]) < Rank(s, s.pcs[t])
  {
  }

  lemma RankFallsLooking(s: State, t: Tid)
    requires t in s.pcs && !s.pcs[t].Idle? && !Inserting(s.pcs[t]) && InBounds(s, s.pcs[t])
    requires s.head.At? ==> s.head.node in s.refs && 0 < s.refs[s.head.node] < FLAG
    requires s.pcs[t].GetBump? ==> Count(s.pcs[t].r) != 0
    ensures Rank(Step(s, t), Step(s, t).pcs[t]) < Rank(s, s.pcs[t])
  {
    if s.pcs[t].GetCas? || s.pcs[t].GetDrop? {
      RankFallsReleasing(s, t);
    }
  }

  lemma RankFallsReleasing(s: State, t: Tid)
    requires t in s.pcs && (s.pcs[t].GetCas? || s.pcs[t].GetDrop?) && InBounds(s, s.pcs[t])
    ensures Rank(Step(s, t), Step(s, t).pcs[t]) < Rank(s, s.pcs[t])
  {
  }

  lemma {:induction false} FinishesWithin(tr: seq<State>, acts: seq<Action>, i: nat, t: Tid, n: nat)
    requires IsRun(tr, acts) && i < |tr| && t in tr[i].pcs && Rank(tr[i], tr[i].pcs[t]) <= n && Alone(acts, t, i, i + n)
    ensures exists k :: i <= k <= i + n && t in tr[k].pcs && tr[k].pcs[t].Idle?
    decreases n
  {
    if !tr[i].pcs[t].Idle? {
      var g := RunInv(tr, acts, i);
      RankFalls(tr[i], g, t);
      assert tr[i + 1] == Apply(tr[i], acts[i]);
      FinishesWithin(tr, acts, i + 1, t, n - 1);
    }
  }

  /** From any reachable state, wherever all threads are, one that runs alone finishes its call within 20 steps. */
  lemma SoloFinishes(tr: seq<State>, acts: seq<Action>, i: nat, t: Tid)
    requires IsRun(tr, acts) && i < |tr| && t in tr[i].pcs && Alone(acts, t, i, i + 20)
    ensures exists k :: i <= k <= i + 20 && t in tr[k].pcs && tr[k].pcs[t].Idle?
  {
    FinishesWithin(tr, acts, i, t, 20);
  }

  // ---------------------------------------------------------------- what a call has seen when it returns

  /** Inside try_get. */
  predicate Looking(pc: Pc)
  {
    match pc
    case Idle => false
    case AddFlag(_) => false
    case InsLoad(_, ret) => ret.ToGetLoop?
    case InsNext(_, _, ret) => ret.ToGetLoop?
    case InsRefs(_, _, ret) => ret.ToGetLoop?
    case InsCas(_, _, ret) => ret.ToGetLoop?
    case InsUndo(_, _, ret) => ret.ToGetLoop?
    case _ => true
  }

  /** And carrying a head that was read as null. */
  predicate CarriesNull(pc: Pc)
  {
    match pc
    case GetTest(h) => h.Null?
    case GetDrop(_, h) => h.Null?
    case InsLoad(_, ret) => ret == ToGetLoop(Null)
    case InsNext(_, _, ret) => ret == ToGetLoop(Null)
    case InsRefs(_, _, ret) => ret == ToGetLoop(Null)
    case InsCas(_, _, ret) => ret == ToGetLoop(Null)
    case InsUndo(_, _, ret) => ret == ToGetLoop(Null)
    case _ => false
  }

  ghost predicate EmptyWithin(tr: seq<State>, c: nat, i: nat)
  {
    i < |tr| && exists k :: c < k <= i && tr[k].head == Null
  }

  ghost predicate Busy(tr: seq<State>, t: Tid, c: nat, i: nat)
  {
    i < |tr| && forall k :: c < k <= i ==> t in tr[k].pcs && !tr[k].pcs[t].Idle?
  }

  lemma LookingStep(s: State, a: Action, t: Tid)
    requires Enabled(s, a) && t in s.pcs && Looking(s.pcs[t]) && t in Apply(s, a).pcs && !Apply(s, a).pcs[t].Idle?
    ensures var pc := Apply(s, a).pcs[t];
            Looking(pc) && (CarriesNull(pc) ==> CarriesNull(s.pcs[t]) || s.head == Null)
  {
  }

  lemma {:induction false} InsideTryGet(tr: seq<State>, acts: seq<Action>, c: nat, i: nat, t: Tid)
    requires IsRun(tr, acts) && c < i < |tr| && acts[c] == CallGet(t) && Busy(tr, t, c, i)
    ensures t in tr[i].pcs && Looking(tr[i].pcs[t])
    ensures CarriesNull(tr[i].pcs[t]) ==> EmptyWithin(tr, c, i)
  {
    if i == c + 1 {
      assert tr[c + 1] == Apply(tr[c], acts[c]);
    } else {
      InsideTryGet(tr, acts, c, i - 1, t);
      RunLookingStep(tr, acts, i - 1, t);
    }
  }

  lemma RunLookingStep(tr: seq<State>, acts: seq<Action>, i: nat, t: Tid)
    requires IsRun(tr, acts) && i < |acts| && t in tr[i].pcs && Looking(tr[i].pcs[t])
    requires t in tr[i + 1].pcs && !tr[i + 1].pcs[t].Idle?
    ensures var pc := tr[i + 1].pcs[t];
            Looking(pc) && (CarriesNull(pc) ==> CarriesNull(tr[i].pcs[t]) || tr[i].head == Null)
  {
    LookingStep(tr[i], acts[i], t);
  }

  /**
   In every run, among any other threads: a try_get that returns hands a node over to its caller, or the list was
   empty at some moment during the call.
   */
  lemma TryGetReturns(tr: seq<State>, acts: seq<Action>, c: nat, j: nat, t: Tid)
    requires IsRun(tr, acts) && c < j < |acts| && acts[c] == CallGet(t) && Busy(tr, t, c, j)
    requires acts[j] == Fire(t) && t in tr[j + 1].pcs && tr[j + 1].pcs[t].Idle?
    ensures (exists n :: n !in tr[j].owned && tr[j + 1].owned == tr[j].owned + {n}) ||
            (EmptyWithin(tr, c, j) && tr[j + 1].owned == tr[j].owned)
  {
    InsideTryGet(tr, acts, c, j, t);
    if tr[j].pcs[t].GetTake? {
      TakenFromNobody(tr, acts, j, t, tr[j].pcs[t].n);
    }
  }

  /** The node an add is about. */
  function Added(pc: Pc): Ptr
  {
    match pc
    case AddFlag(n) => At(n)
    case InsLoad(n, ret) => if ret.ToCaller? then At(n) else Null
    case InsNext(n, _, ret) => if ret.ToCaller? then At(n) else Null
    case InsRefs(n, _, ret) => if ret.ToCaller? then At(n) else Null
    case InsCas(n, _, ret) => if ret.ToCaller? then At(n) else Null
    case InsUndo(n, _, ret) => if ret.ToCaller? then At(n) else Null
    case _ => Null
  }

  lemma {:induction false} InsideAdd(tr: seq<State>, acts: seq<Action>, c: nat, i: nat, t: Tid, n: Node)
    requires IsRun(tr, acts) && c < i < |tr| && acts[c] == CallAdd(t, n) && Busy(tr, t, c, i)
    ensures t in tr[i].pcs && Added(tr[i].pcs[t]) == At(n)
  {
    if i > c + 1 {
      InsideAdd(tr, acts, c, i - 1, t, n);
      assert tr[i - 1 + 1] == Apply(tr[i - 1], acts[i - 1]);
    }
  }

  /** An add that returns has just made its node the head, or leaves it flagged to threads that hold references. */
  lemma AddReturns(tr: seq<State>, acts: seq<Action>, c: nat, j: nat, t: Tid, n: Node)
    requires IsRun(tr, acts) && c < j < |acts| && acts[c] == CallAdd(t, n) && Busy(tr, t, c, j)
    requires acts[j] == Fire(t) && t in tr[j + 1].pcs && tr[j + 1].pcs[t].Idle?
    ensures tr[j + 1].head == At(n) ||
            (n in tr[j + 1].refs && Holders(tr[j + 1].pcs, n) != {} &&
             tr[j + 1].refs[n] == FLAG + |Holders(tr[j + 1].pcs, n)|)
  {
    InsideAdd(tr, acts, c, j, t, n);
    var g := RunInv(tr, acts, j);
    var g' := RunInv(tr, acts, j + 1);
    assert tr[j + 1] == Step(tr[j], t);
    if tr[j + 1].head != At(n) {
      DeferredNode(tr[j], g, tr[j + 1], g', t, n);
    }
  }

  lemma DeferredNode(s: State, g: Ghost, s': State, g': Ghost, t: Tid, n: Node)
    requires Inv(s, g) && Inv(s', g') && t in s.pcs && InBounds(s, s.pcs[t]) && s' == Step(s, t)
    requires Added(s.pcs[t]) == At(n) && s'.pcs[t].Idle? && s'.head != At(n)
    ensures n in s'.refs && Holders(s'.pcs, n) != {} && s'.refs[n] == FLAG + |Holders(s'.pcs, n)|
  {
    assert PcOk(s.next, g.place, t, s.pcs[t]);
    assert NodeOk(s, g, n) && NodeOk(s', g', n);
    HoldersBound(s.pcs, n);
    HoldersBound(s'.pcs, n);
  }
}
