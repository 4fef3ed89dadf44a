/**
 The CAS-based free list of the lock-free queue (yacul/concurrency/os_lockless_queue.h).

 Any number of threads run add and try_get; each atomic access to freeListHead,
 freeListRefs or freeListNext is one step, and steps interleave arbitrarily
 (sequential consistency).  freeListRefs is a 32-bit word: the low 31 bits count
 references and the top bit is SHOULD_BE_ON_FREELIST.
 */
module FreeList {
  import opened Counting

  type Node = nat
  type Tid = nat

  const FLAG := 0x8000_0000      // SHOULD_BE_ON_FREELIST
  const WORD := 0x1_0000_0000

  type Word = w: nat | w < WORD

  datatype Ptr = Null | At(node: Node)

  /** Where add_knowing_refcount_is_zero returns to: the end of add, or the loop head of try_get. */
  datatype Return = ToCaller | ToGetLoop(head: Ptr)

  /** Program points; the fields are the local variables that are still needed. */
  datatype Pc =
    | Idle
    | AddFlag(n: Node)                              // add: about to set the flag
    | InsLoad(n: Node, ret: Return)                 // add_knowing_refcount_is_zero: load the head
    | InsNext(n: Node, h: Ptr, ret: Return)         //   store freeListNext
    | InsRefs(n: Node, h: Ptr, ret: Return)         //   store refcount 1
    | InsCas(n: Node, h: Ptr, ret: Return)          //   publish on the head
    | InsUndo(n: Node, h: Ptr, ret: Return)         //   publication failed: set the flag, drop the count
    | GetLoad                                       // try_get: load the head
    | GetTest(hd: Ptr)                              //   loop guard
    | GetRefs(n: Node)                              //   read the reference word
    | GetBump(n: Node, r: Word)                     //   CAS the word from r to r + 1
    | GetNext(n: Node)                              //   read freeListNext
    | GetCas(n: Node, nx: Ptr)                      //   unlink with a CAS on the head
    | GetTake(n: Node)                              //   unlinked: drop two references and return n
    | GetDrop(n: Node, hd: Ptr)                     //   lost the race: drop our reference

  /** owned: the nodes that clients hold, whether never added or returned by try_get. */
  datatype State = State(head: Ptr, refs: map<Node, Word>, next: map<Node, Ptr>,
                         pcs: map<Tid, Pc>, owned: set<Node>)

  datatype Action = NewNode(node: Node) | CallAdd(tid: Tid, node: Node) | CallGet(tid: Tid) | Fire(tid: Tid)

  function Goto(s: State, t: Tid, pc: Pc): State
  {
    s.(pcs := s.pcs[t := pc])
  }

  function Resume(ret: Return): Pc
  {
    match ret
    case ToCaller => Idle
    case ToGetLoop(h) => GetTest(h)
  }

  /** fetch_add on a 32-bit word. */
  function Plus(w: Word, d: int): Word
    requires -WORD < d < WORD
  {
    if w + d >= WORD then w + d - WORD else if w + d < 0 then w + d + WORD else w + d
  }

  /** The count part of a reference word (REFS_MASK). */
  function Count(w: Word): nat
  {
    if w >= FLAG then w - FLAG else w
  }

  predicate InBounds(s: State, pc: Pc)
  {
    match pc
    case AddFlag(n) => n in s.refs
    case InsLoad(n, _) => n in s.refs
    case InsNext(n, _, _) => n in s.refs
    case InsRefs(n, _, _) => n in s.refs
    case InsCas(n, _, _) => n in s.refs
    case InsUndo(n, _, _) => n in s.refs
    case GetRefs(n) => n in s.refs
    case GetBump(n, _) => n in s.refs
    case GetNext(n) => n in s.next
    case GetCas(n, _) => n in s.refs
    case GetTake(n) => n in s.refs
    case GetDrop(n, _) => n in s.refs
    case _ => true
  }

  /** One atomic step of thread t. */
  function Step(s: State, t: Tid): State
    requires t in s.pcs && InBounds(s, s.pcs[t])
  {
    match s.pcs[t]
    case Idle => s
    case AddFlag(n) =>
      var was := s.refs[n];
      Goto(s.(refs := s.refs[n := Plus(was, FLAG)]), t, if was == 0 then InsLoad(n, ToCaller) else Idle)
    case InsLoad(n, ret) => Goto(s, t, InsNext(n, s.head, ret))
    case InsNext(n, h, ret) => Goto(s.(next := s.next[n := h]), t, InsRefs(n, h, ret))
    case InsRefs(n, h, ret) => Goto(s.(refs := s.refs[n := 1]), t, InsCas(n, h, ret))
    case InsCas(n, h, ret) =>
      if s.head == h then Goto(s.(head := At(n)), t, Resume(ret))
      else Goto(s, t, InsUndo(n, s.head, ret))
    case InsUndo(n, h, ret) =>
      var was := s.refs[n];
      Goto(s.(refs := s.refs[n := Plus(was, FLAG - 1)]), t, if was == 1 then InsNext(n, h, ret) else Resume(ret))
    case GetLoad => Goto(s, t, GetTest(s.head))
    case GetTest(h) => Goto(s, t, if h.Null? then Idle else GetRefs(h.node))
    case GetRefs(n) =>
      var r := s.refs[n];
      Goto(s, t, if Count(r) == 0 then GetLoad else GetBump(n, r))
    case GetBump(n, r) =>
      if s.refs[n] == r then Goto(s.(refs := s.refs[n := Plus(r, 1)]), t, GetNext(n))
      else Goto(s, t, GetLoad)
    case GetNext(n) => Goto(s, t, GetCas(n, s.next[n]))
    case GetCas(n, nx) =>
      if s.head == At(n) then Goto(s.(head := nx), t, GetTake(n))
      else Goto(s, t, GetDrop(n, s.head))
    case GetTake(n) =>
      Goto(s.(refs := s.refs[n := Plus(s.refs[n], -2)], owned := s.owned + {n}), t, Idle)
    case GetDrop(n, h) =>
      var was := s.refs[n];
      Goto(s.(refs := s.refs[n := Plus(was, -1)]), t,
           if was == FLAG + 1 then InsLoad(n, ToGetLoop(h)) else GetTest(h))
  }

  /** Clients may create nodes, add a node they own, and call try_get; nothing else is assumed of them. */
  predicate Enabled(s: State, a: Action)
  {
    match a
    case NewNode(n) => n !in s.refs && n !in s.next
    case CallAdd(t, n) => t in s.pcs && s.pcs[t].Idle? && n in s.owned
    case CallGet(t) => t in s.pcs && s.pcs[t].Idle?
    case Fire(t) => t in s.pcs && InBounds(s, s.pcs[t])
  }

  function Apply(s: State, a: Action): State
    requires Enabled(s, a)
  {
    match a
    case NewNode(n) => s.(refs := s.refs[n := 0], next := s.next[n := Null], owned := s.owned + {n})
    case CallAdd(t, n) => Goto(s.(owned := s.owned - {n}), t, AddFlag(n))
    case CallGet(t) => Goto(s, t, GetLoad)
    case Fire(t) => Step(s, t)
  }

  predicate Init(s: State)
  {
    s.head.Null? && s.refs == map[] && s.next == map[] && s.owned == {} &&
    (forall t <- s.pcs :: s.pcs[t].Idle?) &&
    |s.pcs| < FLAG - 1
  }

  /** A run: every state follows from the one before by an action. */
  ghost predicate IsRun(tr: seq<State>, acts: seq<Action>)
  {
    |tr| == |acts| + 1 && Init(tr[0]) &&
    forall i :: 0 <= i < |acts| ==> Enabled(tr[i], acts[i]) && tr[i + 1] == Apply(tr[i], acts[i])
  }

  // ---------------------------------------------------------------- what a state means

  /** l is the list that starts at p and follows freeListNext to null. */
  ghost predicate Chain(next: map<Node, Ptr>, p: Ptr, l: seq<Node>)
    decreases |l|
  {
    if |l| == 0 then p == Null
    else p == At(l[0]) && l[0] in next && Chain(next, next[l[0]], l[1..])
  }

  ghost predicate NoDup(l: seq<Node>)
  {
    forall i, j :: 0 <= i < j < |l| ==> l[i] != l[j]
  }

  /** Thread at pc has counted itself in n's reference count. */
  predicate Holds(pc: Pc, n: Node)
  {
    (pc.GetNext? || pc.GetCas? || pc.GetTake? || pc.GetDrop?) && pc.n == n
  }

  function Holders(pcs: map<Tid, Pc>, n: Node): set<Tid>
  {
    set t | t in pcs && Holds(pcs[t], n)
  }

  // ---------------------------------------------------------------- the invariant

  /** Who is responsible for a node. */
  datatype Place =
    | Owned               // a client
    | Adding(t: Tid)      // a thread that is about to set the flag
    | Deferred            // flag set; whoever drops the last reference re-inserts it
    | Readying(t: Tid)    // flag set, no references: t alone may write freeListNext
    | Offering(t: Tid)    // count back at one: t tries to publish it
    | Listed
    | Taking(t: Tid)      // unlinked by t, which will return it

  datatype Ghost = Ghost(place: map<Node, Place>, list: seq<Node>)

  function Bonus(p: Place): nat
  {
    match p
    case Owned => 0
    case Adding(_) => 0
    case Deferred => FLAG
    case Readying(_) => FLAG
    case Offering(_) => 1
    case Listed => 1
    case Taking(_) => 1
  }

  ghost predicate KeysOk(s: State, g: Ghost)
  {
    s.refs.Keys == s.next.Keys == g.place.Keys && |s.pcs| < FLAG - 1
  }

  predicate Known(next: map<Node, Ptr>, p: Ptr)
  {
    p.At? ==> p.node in next
  }

  predicate KnownRet(next: map<Node, Ptr>, r: Return)
  {
    r.ToGetLoop? ==> Known(next, r.head)
  }

  predicate PcOk(next: map<Node, Ptr>, place: map<Node, Place>, t: Tid, pc: Pc)
    requires next.Keys == place.Keys
  {
    match pc
    case Idle => true
    case GetLoad => true
    case GetTest(h) => Known(next, h)
    case GetRefs(n) => n in next
    case GetBump(n, r) => n in next && Count(r) != 0
    case GetNext(n) => n in next
    case GetCas(n, nx) => n in next && next[n] == nx
    case GetTake(n) => n in next && place[n] == Taking(t)
    case GetDrop(n, h) => n in next && Known(next, h)
    case AddFlag(n) => n in next && place[n] == Adding(t)
    case InsLoad(n, ret) => n in next && place[n] == Readying(t) && KnownRet(next, ret)
    case InsNext(n, h, ret) => n in next && place[n] == Readying(t) && Known(next, h) && KnownRet(next, ret)
    case InsRefs(n, h, ret) =>
      n in next && place[n] == Readying(t) && Known(next, h) && KnownRet(next, ret) && next[n] == h
    case InsCas(n, h, ret) =>
      n in next && place[n] == Offering(t) && Known(next, h) && KnownRet(next, ret) && next[n] == h
    case InsUndo(n, h, ret) => n in next && place[n] == Offering(t) && Known(next, h) && KnownRet(next, ret)
  }

  /** The thread a place names is really at a program point for that node. */
  predicate Backed(pcs: map<Tid, Pc>, n: Node, p: Place)
  {
    match p
    case Adding(t) => t in pcs && pcs[t] == AddFlag(n)
    case Readying(t) => t in pcs && (pcs[t].InsLoad? || pcs[t].InsNext? || pcs[t].InsRefs?) && pcs[t].n == n
    case Offering(t) => t in pcs && (pcs[t].InsCas? || pcs[t].InsUndo?) && pcs[t].n == n
    case Taking(t) => t in pcs && pcs[t] == GetTake(n)
    case _ => true
  }

  ghost predicate NodeOk(s: State, g: Ghost, n: Node)
    requires KeysOk(s, g) && n in s.refs
  {
    var p := g.place[n];
    var c := |Holders(s.pcs, n)|;
    s.refs[n] == c + Bonus(p) &&
    Known(s.next, s.next[n]) &&
    Backed(s.pcs, n, p) &&
    (p.Owned? <==> n in s.owned) &&
    (p.Listed? <==> n in g.list) &&
    (p.Deferred? ==> c > 0) &&
    (p.Readying? ==> c == 0)
  }

  ghost predicate ThreadsOk(s: State, g: Ghost)
    requires KeysOk(s, g)
  {
    forall t <- s.pcs :: PcOk(s.next, g.place, t, s.pcs[t])
  }

  ghost predicate NodesOk(s: State, g: Ghost)
    requires KeysOk(s, g)
  {
    s.owned <= s.refs.Keys && forall n <- s.refs :: NodeOk(s, g, n)
  }

  ghost predicate ListOk(s: State, g: Ghost)
    requires KeysOk(s, g)
  {
    NoDup(g.list) && Chain(s.next, s.head, g.list)
  }

  ghost predicate Inv(s: State, g: Ghost)
  {
    KeysOk(s, g) && ThreadsOk(s, g) && NodesOk(s, g) && ListOk(s, g)
  }

  lemma {:induction false} ChainFrame(next: map<Node, Ptr>, next': map<Node, Ptr>, p: Ptr, l: seq<Node>)
    requires Chain(next, p, l)
    requires forall m :: m in l && m in next ==> m in next' && next'[m] == next[m]
    ensures Chain(next', p, l)
    decreases |l|
  {
    if |l| > 0 {
      ChainFrame(next, next', next[l[0]], l[1..]);
    }
  }

  lemma {:induction false} ChainIn(next: map<Node, Ptr>, p: Ptr, l: seq<Node>)
    requires Chain(next, p, l)
    ensures forall m <- l :: m in next
    decreases |l|
  {
    if |l| > 0 {
      ChainIn(next, next[l[0]], l[1..]);
      assert l == [l[0]] + l[1..];
    }
  }

  // ---------------------------------------------------------------- counting holders

  lemma HoldersBound(pcs: map<Tid, Pc>, n: Node)
    ensures |Holders(pcs, n)| <= |pcs|
  {
    assert Holders(pcs, n) <= pcs.Keys;
    SubsetCard(Holders(pcs, n), pcs.Keys);
  }

  lemma HoldersUpdate(pcs: map<Tid, Pc>, t: Tid, pc: Pc, n: Node)
    requires t in pcs
    ensures |pcs[t := pc]| == |pcs|
    ensures |Holders(pcs[t := pc], n)| ==
            |Holders(pcs, n)| - (if Holds(pcs[t], n) then 1 else 0) + (if Holds(pc, n) then 1 else 0)
  {
    assert pcs[t := pc].Keys == pcs.Keys;
    CardSwap(Holders(pcs, n), Holders(pcs[t := pc], n), t);
  }

  /** No thread other than t is responsible for a node at p. */
  predicate Free(p: Place, t: Tid)
  {
    p.Adding? || p.Readying? || p.Offering? || p.Taking? ==> p.t == t
  }

  /** The only node that pc counts, inserts or hands over, if any, is n. */
  predicate About(pc: Pc, n: Node)
  {
    match pc
    case AddFlag(m) => m == n
    case InsLoad(m, _) => m == n
    case InsNext(m, _, _) => m == n
    case InsRefs(m, _, _) => m == n
    case InsCas(m, _, _) => m == n
    case InsUndo(m, _, _) => m == n
    case GetNext(m) => m == n
    case GetCas(m, _) => m == n
    case GetTake(m) => m == n
    case GetDrop(m, _) => m == n
    case _ => true
  }

  ghost predicate SameElsewhere(s: State, g: Ghost, s': State, g': Ghost, n: Node)
    requires KeysOk(s, g) && KeysOk(s', g')
  {
    s'.refs.Keys == s.refs.Keys &&
    forall m <- s.refs :: m != n ==>
      s'.refs[m] == s.refs[m] && s'.next[m] == s.next[m] && g'.place[m] == g.place[m] &&
      (m in s'.owned <==> m in s.owned) && (m in g'.list <==> m in g.list)
  }

  lemma OtherThread(s: State, g: Ghost, s': State, g': Ghost, t: Tid, n: Node, u: Tid)
    requires KeysOk(s, g) && KeysOk(s', g') && n in s.refs && NodeOk(s, g, n)
    requires u in s.pcs && u != t && PcOk(s.next, g.place, u, s.pcs[u])
    requires SameElsewhere(s, g, s', g', n)
    requires s'.next[n] == s.next[n] || g.place[n] == Readying(t)
    requires g.place[n] != g'.place[n] ==> Free(g.place[n], t)
    ensures PcOk(s'.next, g'.place, u, s.pcs[u])
  {
    if s.pcs[u].GetCas? && s.pcs[u].n == n {
      assert u in Holders(s.pcs, n);
    }
  }

  /** A node that the step does not touch keeps its clause when t moves between points that are not about it. */
  lemma OtherNode(s: State, g: Ghost, s': State, g': Ghost, t: Tid, n: Node, m: Node)
    requires KeysOk(s, g) && KeysOk(s', g') && s'.refs.Keys == s.refs.Keys && m in s.refs && NodeOk(s, g, m) && m != n
    requires t in s.pcs && t in s'.pcs && s'.pcs == s.pcs[t := s'.pcs[t]] && About(s.pcs[t], n) && About(s'.pcs[t], n)
    requires s'.refs[m] == s.refs[m] && s'.next[m] == s.next[m] && g'.place[m] == g.place[m]
    requires (m in s'.owned <==> m in s.owned) && (m in g'.list <==> m in g.list)
    ensures NodeOk(s', g', m)
  {
    HoldersUpdate(s.pcs, t, s'.pcs[t], m);
  }

  /** What a step of t about node n has to establish; the rest of Inv then follows. */
  ghost predicate Local(s: State, g: Ghost, s': State, g': Ghost, t: Tid, n: Node)
    requires KeysOk(s, g) && t in s.pcs && n in s.refs
  {
    KeysOk(s', g') && t in s'.pcs && s'.pcs == s.pcs[t := s'.pcs[t]] && About(s.pcs[t], n) && About(s'.pcs[t], n) &&
    SameElsewhere(s, g, s', g', n) &&
    (s'.next[n] == s.next[n] || g.place[n] == Readying(t)) &&
    (g.place[n] != g'.place[n] ==> Free(g.place[n], t)) &&
    s'.owned <= s.refs.Keys &&
    PcOk(s'.next, g'.place, t, s'.pcs[t]) && NodeOk(s', g', n) && ListOk(s', g')
  }

  lemma Reestablish(s: State, g: Ghost, s': State, g': Ghost, t: Tid, n: Node)
    requires Inv(s, g) && t in s.pcs && n in s.refs && Local(s, g, s', g', t, n)
    ensures Inv(s', g')
  {
    forall u <- s'.pcs ensures PcOk(s'.next, g'.place, u, s'.pcs[u]) {
      if u != t {
        OtherThread(s, g, s', g', t, n, u);
      }
    }
    forall m <- s'.refs ensures NodeOk(s', g', m) {
      if m != n {
        OtherNode(s, g, s', g', t, n, m);
      }
    }
  }

  // ---------------------------------------------------------------- every step keeps it

  predicate Neutral(pc: Pc)
  {
    pc.Idle? || pc.GetLoad? || pc.GetTest? || pc.GetRefs? || pc.GetBump?
  }

  /** A step that only moves a thread between points that are about no node. */
  lemma MoveOnly(s: State, g: Ghost, t: Tid, pc: Pc)
    requires Inv(s, g) && t in s.pcs && Neutral(s.pcs[t]) && Neutral(pc) && PcOk(s.next, g.place, t, pc)
    ensures Inv(Goto(s, t, pc), g)
  {
    var s' := Goto(s, t, pc);
    HoldersUpdate(s.pcs, t, pc, 0);
    forall u <- s'.pcs ensures PcOk(s'.next, g.place, u, s'.pcs[u]) {
      if u != t {
        assert PcOk(s.next, g.place, u, s.pcs[u]);
      }
    }
    forall n <- s'.refs ensures NodeOk(s', g, n) {
      OtherNode(s, g, s', g, t, n + 1, n);
    }
  }

  lemma KeepNeutral(s: State, g: Ghost, t: Tid)
    requires Inv(s, g) && t in s.pcs && InBounds(s, s.pcs[t])
    requires s.pcs[t].GetLoad? || s.pcs[t].GetTest? || s.pcs[t].GetRefs?
    ensures Inv(Step(s, t), g)
  {
    assert PcOk(s.next, g.place, t, s.pcs[t]);
    MoveOnly(s, g, t, Step(s, t).pcs[t]);
  }

  /** The part of Inv that a step of t about node n looks at. */
  ghost predicate Scope(s: State, g: Ghost, t: Tid, n: Node)
  {
    KeysOk(s, g) && t in s.pcs && InBounds(s, s.pcs[t]) && n in s.refs && About(s.pcs[t], n) &&
    PcOk(s.next, g.place, t, s.pcs[t]) && NodeOk(s, g, n) && ListOk(s, g) && s.owned <= s.refs.Keys
  }

  /** add sets the flag: with no other references it goes on to insert, otherwise the insertion is deferred. */
  lemma KeepAddFlag(s: State, g: Ghost, t: Tid, n: Node) returns (g': Ghost)
    requires Scope(s, g, t, n) && s.pcs[t] == AddFlag(n)
    ensures Local(s, g, Step(s, t), g', t, n)
  {
    g' := g.(place := g.place[n := if s.refs[n] == 0 then Readying(t) else Deferred]);
    HoldersBound(s.pcs, n);
    HoldersUpdate(s.pcs, t, Step(s, t).pcs[t], n);
  }

  lemma KeepInsLoad(s: State, g: Ghost, t: Tid, n: Node)
    requires Scope(s, g, t, n) && s.pcs[t].InsLoad?
    ensures Local(s, g, Step(s, t), g, t, n)
  {
    HoldersUpdate(s.pcs, t, Step(s, t).pcs[t], n);
  }

  /** Only the thread that is readying a node writes its next pointer, and nobody else then holds it. */
  lemma KeepInsNext(s: State, g: Ghost, t: Tid, n: Node)
    requires Scope(s, g, t, n) && s.pcs[t].InsNext?
    ensures Local(s, g, Step(s, t), g, t, n)
  {
    HoldersUpdate(s.pcs, t, Step(s, t).pcs[t], n);
    ChainFrame(s.next, Step(s, t).next, s.head, g.list);
  }

  lemma KeepInsRefs(s: State, g: Ghost, t: Tid, n: Node) returns (g': Ghost)
    requires Scope(s, g, t, n) && s.pcs[t].InsRefs?
    ensures Local(s, g, Step(s, t), g', t, n)
  {
    HoldersUpdate(s.pcs, t, Step(s, t).pcs[t], n);
    g' := g.(place := g.place[n := Offering(t)]);
  }

  /** Publication: on success the node becomes the head of the list. */
  lemma KeepInsCas(s: State, g: Ghost, t: Tid, n: Node) returns (g': Ghost)
    requires Scope(s, g, t, n) && s.pcs[t].InsCas?
    ensures Local(s, g, Step(s, t), g', t, n)
  {
    HoldersUpdate(s.pcs, t, Step(s, t).pcs[t], n);
    if s.head == s.pcs[t].h {
      g' := Ghost(g.place[n := Listed], [n] + g.list);
      assert g'.list[1..] == g.list;
    } else {
      g' := g;
    }
  }

  lemma KeepInsUndo(s: State, g: Ghost, t: Tid, n: Node) returns (g': Ghost)
    requires Scope(s, g, t, n) && s.pcs[t].InsUndo?
    ensures Local(s, g, Step(s, t), g', t, n)
  {
    HoldersBound(s.pcs, n);
    HoldersUpdate(s.pcs, t, Step(s, t).pcs[t], n);
    g' := g.(place := g.place[n := if s.refs[n] == 1 then Readying(t) else Deferred]);
  }

  /** The count can only be raised from a non-zero value, so never while a node is being readied. */
  lemma KeepGetBump(s: State, g: Ghost, t: Tid, n: Node)
    requires Scope(s, g, t, n) && s.pcs[t].GetBump? && s.pcs[t].n == n
    ensures Local(s, g, Step(s, t), g, t, n)
  {
    HoldersBound(s.pcs, n);
    HoldersUpdate(s.pcs, t, Step(s, t).pcs[t], n);
  }

  lemma KeepGetNext(s: State, g: Ghost, t: Tid, n: Node)
    requires Scope(s, g, t, n) && s.pcs[t].GetNext?
    ensures Local(s, g, Step(s, t), g, t, n)
  {
    HoldersUpdate(s.pcs, t, Step(s, t).pcs[t], n);
  }

  /** Unlinking: next was read while the count was held, so it is still the successor of the head. */
  lemma KeepGetCas(s: State, g: Ghost, t: Tid, n: Node) returns (g': Ghost)
    requires Scope(s, g, t, n) && s.pcs[t].GetCas?
    ensures Local(s, g, Step(s, t), g', t, n)
  {
    HoldersUpdate(s.pcs, t, Step(s, t).pcs[t], n);
    if s.head == At(n) {
      g' := Ghost(g.place[n := Taking(t)], g.list[1..]);
      assert g.list == [n] + g'.list;
    } else {
      g' := g;
    }
  }

  lemma KeepGetTake(s: State, g: Ghost, t: Tid, n: Node) returns (g': Ghost)
    requires Scope(s, g, t, n) && s.pcs[t].GetTake?
    ensures Local(s, g, Step(s, t), g', t, n)
  {
    HoldersBound(s.pcs, n);
    HoldersUpdate(s.pcs, t, Step(s, t).pcs[t], n);
    g' := g.(place := g.place[n := Owned]);
  }

  /** Whoever drops the last reference of a flagged node takes over its insertion. */
  lemma KeepLastDrop(s: State, g: Ghost, t: Tid, n: Node) returns (g': Ghost)
    requires Scope(s, g, t, n) && s.pcs[t].GetDrop? && s.refs[n] == FLAG + 1
    ensures Local(s, g, Step(s, t), g', t, n)
  {
    HoldersBound(s.pcs, n);
    assert g.place[n] == Deferred;
    HoldersUpdate(s.pcs, t, Step(s, t).pcs[t], n);
    g' := g.(place := g.place[n := Readying(t)]);
  }

  lemma KeepOtherDrop(s: State, g: Ghost, t: Tid, n: Node)
    requires Scope(s, g, t, n) && s.pcs[t].GetDrop? && s.refs[n] != FLAG + 1
    ensures Local(s, g, Step(s, t), g, t, n)
  {
    DroppedNode(s, g, t, n);
  }

  lemma DroppedNode(s: State, g: Ghost, t: Tid, n: Node)
    requires Scope(s, g, t, n) && s.pcs[t].GetDrop? && s.refs[n] != FLAG + 1
    ensures KeysOk(Step(s, t), g) && NodeOk(Step(s, t), g, n)
  {
    assert t in Holders(s.pcs, n);
    HoldersUpdate(s.pcs, t, Step(s, t).pcs[t], n);
  }

  lemma KeepAbout(s: State, g: Ghost, t: Tid, n: Node) returns (g': Ghost)
    requires Scope(s, g, t, n) && (!Neutral(s.pcs[t]) || (s.pcs[t].GetBump? && s.pcs[t].n == n))
    ensures Local(s, g, Step(s, t), g', t, n)
  {
    g' := g;
    match s.pcs[t]
    case GetBump(_, _) => KeepGetBump(s, g, t, n);
    case GetNext(_) => KeepGetNext(s, g, t, n);
    case GetCas(_, _) => g' := KeepGetCas(s, g, t, n);
    case GetTake(_) => g' := KeepGetTake(s, g, t, n);
    case GetDrop(_, _) =>
      if s.refs[n] == FLAG + 1 {
        g' := KeepLastDrop(s, g, t, n);
      } else {
        KeepOtherDrop(s, g, t, n);
      }
    case AddFlag(_) => g' := KeepAddFlag(s, g, t, n);
    case InsLoad(_, _) => KeepInsLoad(s, g, t, n);
    case InsNext(_, _, _) => KeepInsNext(s, g, t, n);
    case InsRefs(_, _, _) => g' := KeepInsRefs(s, g, t, n);
    case InsCas(_, _, _) => g' := KeepInsCas(s, g, t, n);
    case InsUndo(_, _, _) => g' := KeepInsUndo(s, g, t, n);
  }

  lemma KeepFire(s: State, g: Ghost, t: Tid) returns (g': Ghost)
    requires Inv(s, g) && Enabled(s, Fire(t))
    ensures Inv(Step(s, t), g')
  {
    assert PcOk(s.next, g.place, t, s.pcs[t]);
    if s.pcs[t].Idle? {
      g' := g;
    } else if s.pcs[t].GetLoad? || s.pcs[t].GetTest? || s.pcs[t].GetRefs? {
      KeepNeutral(s, g, t);
      g' := g;
    } else {
      var n := s.pcs[t].n;
      assert NodeOk(s, g, n);
      g' := KeepAbout(s, g, t, n);
      Reestablish(s, g, Step(s, t), g', t, n);
    }
  }

  lemma KeepCallAdd(s: State, g: Ghost, t: Tid, n: Node) returns (g': Ghost)
    requires Scope(s, g, t, n) && Enabled(s, CallAdd(t, n))
    ensures Local(s, g, Apply(s, CallAdd(t, n)), g', t, n)
  {
    HoldersUpdate(s.pcs, t, AddFlag(n), n);
    g' := g.(place := g.place[n := Adding(t)]);
  }

  lemma KeepNewNode(s: State, g: Ghost, n: Node) returns (g': Ghost)
    requires Inv(s, g) && Enabled(s, NewNode(n))
    ensures Inv(Apply(s, NewNode(n)), g')
  {
    g' := g.(place := g.place[n := Owned]);
    NewNodeThreads(s, g, n, g');
    NewNodeNodes(s, g, n, g');
  }

  lemma NewNodeThreads(s: State, g: Ghost, n: Node, g': Ghost)
    requires KeysOk(s, g) && ThreadsOk(s, g) && Enabled(s, NewNode(n)) && g' == g.(place := g.place[n := Owned])
    ensures KeysOk(Apply(s, NewNode(n)), g') && ThreadsOk(Apply(s, NewNode(n)), g')
    ensures Holders(s.pcs, n) == {}
  {
    var s' := Apply(s, NewNode(n));
    forall u <- s'.pcs ensures PcOk(s'.next, g'.place, u, s'.pcs[u]) && !Holds(s'.pcs[u], n) {
      StillPcOk(s.next, g.place, s'.next, g'.place, u, s.pcs[u]);
    }
  }

  lemma NewNodeNodes(s: State, g: Ghost, n: Node, g': Ghost)
    requires KeysOk(s, g) && NodesOk(s, g) && ListOk(s, g) && Enabled(s, NewNode(n)) && Holders(s.pcs, n) == {}
    requires g' == g.(place := g.place[n := Owned]) && KeysOk(Apply(s, NewNode(n)), g')
    ensures NodesOk(Apply(s, NewNode(n)), g') && ListOk(Apply(s, NewNode(n)), g')
  {
    var s' := Apply(s, NewNode(n));
    ChainIn(s.next, s.head, g.list);
    ChainFrame(s.next, s'.next, s.head, g.list);
    forall m <- s'.refs ensures NodeOk(s', g', m) {
      if m != n {
        StillNodeOk(s, g, s', g', m);
      }
    }
  }

  lemma StillPcOk(next: map<Node, Ptr>, place: map<Node, Place>, next': map<Node, Ptr>, place': map<Node, Place>,
                  u: Tid, pc: Pc)
    requires next.Keys == place.Keys && next'.Keys == place'.Keys && PcOk(next, place, u, pc)
    requires forall m <- next :: m in next' && next'[m] == next[m] && place'[m] == place[m]
    ensures PcOk(next', place', u, pc)
    ensures forall m :: Holds(pc, m) ==> m in next
  {
  }

  lemma StillNodeOk(s: State, g: Ghost, s': State, g': Ghost, m: Node)
    requires KeysOk(s, g) && KeysOk(s', g') && m in s.refs && m in s'.refs && NodeOk(s, g, m)
    requires s'.refs[m] == s.refs[m] && s'.next[m] == s.next[m] && g'.place[m] == g.place[m]
    requires s'.pcs == s.pcs && s.next.Keys <= s'.next.Keys && g'.list == g.list
    requires m in s'.owned <==> m in s.owned
    ensures NodeOk(s', g', m)
  {
  }

  lemma KeepApply(s: State, g: Ghost, a: Action) returns (g': Ghost)
    requires Inv(s, g) && Enabled(s, a)
    ensures Inv(Apply(s, a), g')
  {
    match a
    case NewNode(n) => g' := KeepNewNode(s, g, n);
    case CallAdd(t, n) =>
      assert NodeOk(s, g, n);
      g' := KeepCallAdd(s, g, t, n);
      Reestablish(s, g, Apply(s, a), g', t, n);
    case CallGet(t) =>
      MoveOnly(s, g, t, GetLoad);
      g' := g;
    case Fire(t) => g' := KeepFire(s, g, t);
  }

  lemma {:induction false} RunInv(tr: seq<State>, acts: seq<Action>, i: nat) returns (g: Ghost)
    requires IsRun(tr, acts) && i < |tr|
    ensures Inv(tr[i], g)
  {
    if i == 0 {
      g := Ghost(map[], []);
    } else {
      var g0 := RunInv(tr, acts, i - 1);
      g := KeepApply(tr[i - 1], g0, acts[i - 1]);
    }
  }

  // ---------------------------------------------------------------- what every run guarantees

  /** No thread ever touches a node that does not exist: its next step is always enabled. */
  lemma AccessesInBounds(tr: seq<State>, acts: seq<Action>, i: nat, t: Tid)
    requires IsRun(tr, acts) && i < |tr| && t in tr[i].pcs
    ensures InBounds(tr[i], tr[i].pcs[t]) && Enabled(tr[i], Fire(t))
  {
    var g := RunInv(tr, acts, i);
    assert PcOk(tr[i].next, g.place, t, tr[i].pcs[t]);
  }

  /** Some thread is publishing n (InsCas, InsUndo) or has just unlinked it (GetTake). */
  predicate InTransit(s: State, n: Node)
  {
    exists t <- s.pcs :: (s.pcs[t].InsCas? || s.pcs[t].InsUndo? || s.pcs[t].GetTake?) && s.pcs[t].n == n
  }

  /** The pointers form one acyclic list without repetition, made of nodes no client owns. */
  lemma ListIsSound(tr: seq<State>, acts: seq<Action>, i: nat)
    requires IsRun(tr, acts) && i < |tr|
    ensures exists l :: NoDup(l) && Chain(tr[i].next, tr[i].head, l) &&
                        forall n <- l :: n in tr[i].refs && n !in tr[i].owned && tr[i].refs[n] < FLAG
  {
    var g := RunInv(tr, acts, i);
    var s := tr[i];
    ChainIn(s.next, s.head, g.list);
    forall n <- g.list ensures n in s.refs && n !in s.owned && s.refs[n] < FLAG {
      assert NodeOk(s, g, n);
      HoldersBound(s.pcs, n);
    }
  }

  /** The count is the references threads hold, plus one for the list or for a thread moving the node on or off it. */
  lemma CountIsExact(tr: seq<State>, acts: seq<Action>, i: nat, n: Node)
    requires IsRun(tr, acts) && i < |tr| && n in tr[i].refs
    ensures exists l :: NoDup(l) && Chain(tr[i].next, tr[i].head, l) &&
                        Count(tr[i].refs[n]) ==
                        |Holders(tr[i].pcs, n)| + if n in l || InTransit(tr[i], n) then 1 else 0
  {
    var g := RunInv(tr, acts, i);
    var s := tr[i];
    assert NodeOk(s, g, n);
    HoldersBound(s.pcs, n);
    if InTransit(s, n) {
      var t :| t in s.pcs && (s.pcs[t].InsCas? || s.pcs[t].InsUndo? || s.pcs[t].GetTake?) && s.pcs[t].n == n;
      assert PcOk(s.next, g.place, t, s.pcs[t]);
    }
  }

  /** A node that try_get is about to return belongs to nobody, is off the list, and has its flag clear. */
  lemma TakenFromNobody(tr: seq<State>, acts: seq<Action>, i: nat, t: Tid, n: Node)
    requires IsRun(tr, acts) && i < |tr| && t in tr[i].pcs && tr[i].pcs[t] == GetTake(n)
    ensures n in tr[i].refs && n !in tr[i].owned && tr[i].refs[n] < FLAG
    ensures forall u <- tr[i].pcs :: tr[i].pcs[u] == GetTake(n) ==> u == t
    ensures exists l :: NoDup(l) && Chain(tr[i].next, tr[i].head, l) && n !in l
  {
    var g := RunInv(tr, acts, i);
    var s := tr[i];
    assert PcOk(s.next, g.place, t, s.pcs[t]);
    assert NodeOk(s, g, n);
    HoldersBound(s.pcs, n);
    forall u <- s.pcs | s.pcs[u] == GetTake(n) ensures u == t {
      assert PcOk(s.next, g.place, u, s.pcs[u]);
    }
  }

  predicate Returns(s: State, a: Action, n: Node)
  {
    a.Fire? && a.tid in s.pcs && s.pcs[a.tid] == GetTake(n)
  }

  lemma {:induction false} OwnedUntilAdded(tr: seq<State>, acts: seq<Action>, i: nat, j: nat, n: Node)
    requires IsRun(tr, acts) && i <= j < |tr| && n in tr[i].owned
    requires forall k :: i <= k < j ==> !(acts[k].CallAdd? && acts[k].node == n)
    ensures n in tr[j].owned
  {
    if i < j {
      OwnedUntilAdded(tr, acts, i, j - 1, n);
      assert tr[j - 1 + 1] == Apply(tr[j - 1], acts[j - 1]);
    }
  }

  /** Between two returns of the same node somebody added it back. */
  lemma NeverTakenTwice(tr: seq<State>, acts: seq<Action>, i: nat, j: nat, n: Node)
    requires IsRun(tr, acts) && i < j < |acts|
    requires Returns(tr[i], acts[i], n) && Returns(tr[j], acts[j], n)
    ensures exists k :: i < k < j && acts[k].CallAdd? && acts[k].node == n
  {
    if forall k :: i + 1 <= k < j ==> !(acts[k].CallAdd? && acts[k].node == n) {
      assert tr[i + 1] == Apply(tr[i], acts[i]);
      OwnedUntilAdded(tr, acts, i + 1, j, n);
      TakenFromNobody(tr, acts, j, acts[j].tid, n);
      assert false;
    }
  }

  /** When no thread is inside add or try_get, the list holds exactly the nodes no client owns: none is lost. */
  lemma QuiescentListIsComplete(tr: seq<State>, acts: seq<Action>, i: nat)
    requires IsRun(tr, acts) && i < |tr|
    requires forall t <- tr[i].pcs :: tr[i].pcs[t].Idle?
    ensures exists l :: NoDup(l) && Chain(tr[i].next, tr[i].head, l) &&
                        forall n <- tr[i].refs ::
                          (n in l <==> n !in tr[i].owned) && tr[i].refs[n] == if n in l then 1 else 0
  {
    var g := RunInv(tr, acts, i);
    var s := tr[i];
    forall n <- s.refs ensures (n in g.list <==> n !in s.owned) && s.refs[n] == if n in g.list then 1 else 0 {
      assert NodeOk(s, g, n);
      assert Holders(s.pcs, n) == {};
    }
  }
}
