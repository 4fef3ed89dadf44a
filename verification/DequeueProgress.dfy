/**
 What consumers get that race for the same elements (yacul/concurrency/os_lockless_queue.h): however their steps
 interleave, together they get all they asked for or all there is.
 */
module DequeueProgress {
  import opened DequeueProtocol

  // ---------------------------------------------------------------- sums over the consumers

  /** ids names every consumer once. */
  ghost predicate Names(ids: seq<Tid>, pcs: map<Tid, Pc>)
  {
    (forall t :: t in ids <==> t in pcs) && forall i, j :: 0 <= i < j < |ids| ==> ids[i] != ids[j]
  }

  function Total(f: Pc -> int, pcs: map<Tid, Pc>, ids: seq<Tid>): int
  {
    if |ids| == 0 then 0
    else Total(f, pcs, ids[1..]) + if ids[0] in pcs then f(pcs[ids[0]]) else 0
  }

  lemma {:induction false} TotalUpdate(f: Pc -> int, pcs: map<Tid, Pc>, ids: seq<Tid>, t: Tid, pc: Pc)
    requires t in pcs && forall i, j :: 0 <= i < j < |ids| ==> ids[i] != ids[j]
    ensures Total(f, pcs[t := pc], ids) == Total(f, pcs, ids) + if t in ids then f(pc) - f(pcs[t]) else 0
  {
    if |ids| > 0 {
      TotalUpdate(f, pcs, ids[1..], t, pc);
      assert ids == [ids[0]] + ids[1..];
    }
  }

  lemma {:induction false} TotalZero(f: Pc -> int, pcs: map<Tid, Pc>, ids: seq<Tid>)
    requires forall t <- pcs :: f(pcs[t]) == 0
    ensures Total(f, pcs, ids) == 0
  {
    if |ids| > 0 {
      TotalZero(f, pcs, ids[1..]);
    }
  }

  /** What the consumers ask for. */
  function Asked(asks: map<Tid, nat>, ids: seq<Tid>): nat
  {
    if |ids| == 0 then 0 else Asked(asks, ids[1..]) + if ids[0] in asks then asks[ids[0]] else 0
  }

  // ---------------------------------------------------------------- the loads

  predicate Loading(pc: Pc)
  {
    pc.LoadTail? || pc.LoadOver? || pc.LoadOpt?
  }

  /** A call by one of those who ask, or one of its loads. */
  predicate LoadStep(s: State, a: Action, asks: map<Tid, nat>)
  {
    match a
    case Publish(_) => false
    case Call(t, max) => t in asks && asks[t] == max
    case Fire(t) => t in s.pcs && (Loading(s.pcs[t]) || s.pcs[t].Idle?)
  }

  /** How far a consumer has come that started when the counters were those of s. */
  predicate Loads(s: State, asks: map<Tid, nat>, t: Tid, pc: Pc)
  {
    pc.Idle? ||
    (t in asks &&
     match pc
     case LoadTail(max) => max == asks[t]
     case LoadOver(max, tail) => max == asks[t] && tail == s.tail
     case LoadOpt(max, tail, over) => max == asks[t] && tail == s.tail && over == s.overcommit
     case Claim(over, want) =>
       over == s.overcommit && 0 < s.tail - (s.optimistic - over) &&
       want == Min(s.tail - (s.optimistic - over), asks[t])
     case _ => false)
  }

  ghost predicate AllLoad(s: State, asks: map<Tid, nat>, r: State)
  {
    r == s.(pcs := r.pcs) && r.pcs.Keys == s.pcs.Keys && forall t <- r.pcs :: Loads(s, asks, t, r.pcs[t])
  }

  lemma {:induction false} LoadsOnly(tr: seq<State>, acts: seq<Action>, c: nat, i: nat, asks: map<Tid, nat>)
    requires IsRun(tr, acts) && c <= i < |tr| && forall t <- tr[c].pcs :: tr[c].pcs[t].Idle?
    requires forall k :: c <= k < i ==> LoadStep(tr[k], acts[k], asks)
    ensures AllLoad(tr[c], asks, tr[i])
  {
    if i > c {
      LoadsOnly(tr, acts, c, i - 1, asks);
      LoadKeeps(tr[c], asks, tr[i - 1], acts[i - 1]);
    }
  }

  lemma LoadKeeps(s: State, asks: map<Tid, nat>, r: State, a: Action)
    requires AllLoad(s, asks, r) && Enabled(r, a) && LoadStep(r, a, asks)
    ensures AllLoad(s, asks, Apply(r, a))
  {
    assert Loads(s, asks, a.tid, r.pcs[a.tid]);
  }

  // ---------------------------------------------------------------- the race

  /** What is still to be claimed. */
  function Claims(pc: Pc): int
  {
    if pc.Claim? then pc.want else 0
  }

  /** What has been claimed and will be taken. */
  function Coming(tail: int): Pc -> int
  {
    (pc: Pc) =>
      match pc
      case Decide(over, mine, want) =>
        var actual := tail - (mine - over);
        if actual <= 0 then 0 else Min(actual, want)
      case Give(_, take) => take
      case Take(take) => take
      case _ => 0
  }

  /** s is where the race began, with size elements there; r is where it has come to. */
  ghost predicate Race(s: State, size: int, ids: seq<Tid>, r: State)
  {
    r.tail == s.tail && Names(ids, r.pcs) && s.optimistic <= r.optimistic &&
    (forall t <- r.pcs :: !Loading(r.pcs[t]) && (r.pcs[t].Claim? ==> r.pcs[t].over == s.overcommit)) &&
    r.head + Total(Coming(s.tail), r.pcs, ids) == s.head + Min(r.optimistic - s.optimistic, size) &&
    r.optimistic - s.optimistic + Total(Claims, r.pcs, ids) == Total(Claims, s.pcs, ids)
  }

  /** One step of a consumer, apart from the others. */
  lemma StepShare(s: State, size: int, r: State, t: Tid)
    requires t in r.pcs && !Loading(r.pcs[t]) && r.tail == s.tail && s.optimistic <= r.optimistic
    requires r.pcs[t].Claim? ==> r.pcs[t].over == s.overcommit
    requires size >= 0 && size == s.tail - (s.optimistic - s.overcommit)
    ensures var r' := Step(r, t);
            var pc, pc' := r.pcs[t], r'.pcs[t];
            !Loading(pc') && !pc'.Claim? && s.optimistic <= r'.optimistic &&
            r'.head + Coming(s.tail)(pc') - Min(r'.optimistic - s.optimistic, size) ==
              r.head + Coming(s.tail)(pc) - Min(r.optimistic - s.optimistic, size) &&
            r'.optimistic + Claims(pc') == r.optimistic + Claims(pc)
  {
  }

  /** Whatever the next step is, what is taken and what will be add up to the part of the claims that is there. */
  lemma RaceStep(s: State, size: int, ids: seq<Tid>, r: State, t: Tid)
    requires Race(s, size, ids, r) && t in r.pcs && size >= 0 && size == s.tail - (s.optimistic - s.overcommit)
    ensures Race(s, size, ids, Step(r, t))
  {
    var pc := Step(r, t).pcs[t];
    if !r.pcs[t].Idle? {
      StepShare(s, size, r, t);
      assert Step(r, t).pcs == r.pcs[t := pc] && Step(r, t).tail == r.tail;
      TotalUpdate(Coming(s.tail), r.pcs, ids, t, pc);
      TotalUpdate(Claims, r.pcs, ids, t, pc);
    }
  }

  lemma {:induction false} RaceOn(tr: seq<State>, acts: seq<Action>, i: nat, j: nat, size: int, ids: seq<Tid>)
    requires IsRun(tr, acts) && i <= j < |tr| && forall k :: i <= k < j ==> acts[k].Fire?
    requires size >= 0 && size == tr[i].tail - (tr[i].optimistic - tr[i].overcommit)
    requires Race(tr[i], size, ids, tr[i])
    ensures Race(tr[i], size, ids, tr[j])
  {
    if j > i {
      RaceOn(tr, acts, i, j - 1, size, ids);
      assert tr[j - 1 + 1] == Apply(tr[j - 1], acts[j - 1]);
      RaceStep(tr[i], size, ids, tr[j - 1], acts[j - 1].tid);
    }
  }

  /** Claims are cut at the size; the sum of the claims then reaches the size exactly if that of the requests does. */
  lemma {:induction false} ClaimsAsked(s: State, asks: map<Tid, nat>, size: int, ids: seq<Tid>)
    requires size > 0
    requires forall t <- s.pcs :: if t in asks then s.pcs[t].Claim? && s.pcs[t].want == Min(size, asks[t])
                                  else s.pcs[t].Idle?
    requires forall t <- asks :: t in s.pcs
    ensures Total(Claims, s.pcs, ids) >= 0
    ensures Min(Total(Claims, s.pcs, ids), size) == Min(Asked(asks, ids), size)
  {
    if |ids| > 0 {
      ClaimsAsked(s, asks, size, ids[1..]);
    }
  }

  /**
   Any number of consumers call dequeue_bulk on a queue at rest and read the counters before the first of them
   claims anything.  In whatever order they then claim, find out, give back and take, when all are done headIndex
   has advanced by the sum of their maxima, or by all there was if that is less.
   */
  lemma SharedOut(tr: seq<State>, acts: seq<Action>, c: nat, i: nat, j: nat, asks: map<Tid, nat>, ids: seq<Tid>)
    requires IsRun(tr, acts) && c <= i <= j < |tr| && Names(ids, tr[c].pcs)
    requires forall t <- tr[c].pcs :: tr[c].pcs[t].Idle?
    requires forall k :: c <= k < i ==> LoadStep(tr[k], acts[k], asks)
    requires forall t <- tr[i].pcs :: !Loading(tr[i].pcs[t])
    requires tr[c].head < tr[c].tail ==> forall t <- asks :: t in tr[i].pcs && tr[i].pcs[t].Claim?
    requires forall k :: i <= k < j ==> acts[k].Fire?
    requires forall t <- tr[j].pcs :: tr[j].pcs[t].Idle?
    ensures tr[j].tail == tr[c].tail && tr[j].optimistic - tr[j].overcommit == tr[j].head
    ensures tr[j].head == tr[c].head + Min(Asked(asks, ids), tr[c].tail - tr[c].head)
  {
    var s := tr[i];
    var size := tr[c].tail - tr[c].head;
    RaceStarts(tr, acts, c, i, asks, ids);
    RaceOn(tr, acts, i, j, size, ids);
    QuiescentCountsAgree(tr, acts, j);
    TotalZero(Coming(s.tail), tr[j].pcs, ids);
    TotalZero(Claims, tr[j].pcs, ids);
  }

  /** The counters are still those at rest, and the claims add up to what is asked for or there. */
  lemma RaceStarts(tr: seq<State>, acts: seq<Action>, c: nat, i: nat, asks: map<Tid, nat>, ids: seq<Tid>)
    requires IsRun(tr, acts) && c <= i < |tr| && Names(ids, tr[c].pcs)
    requires forall t <- tr[c].pcs :: tr[c].pcs[t].Idle?
    requires forall k :: c <= k < i ==> LoadStep(tr[k], acts[k], asks)
    requires forall t <- tr[i].pcs :: !Loading(tr[i].pcs[t])
    requires tr[c].head < tr[c].tail ==> forall t <- asks :: t in tr[i].pcs && tr[i].pcs[t].Claim?
    ensures var s, size := tr[i], tr[c].tail - tr[c].head;
            s.tail == tr[c].tail && s.head == tr[c].head && size >= 0 &&
            size == s.tail - (s.optimistic - s.overcommit) && Race(s, size, ids, s) &&
            Min(Total(Claims, s.pcs, ids), size) == Min(Asked(asks, ids), size)
  {
    var s := tr[i];
    HeadWithinTail(tr, acts, c);
    QuiescentCountsAgree(tr, acts, c);
    LoadsOnly(tr, acts, c, i, asks);
    forall t <- s.pcs ensures Loads(tr[c], asks, t, s.pcs[t]) {
    }
    TotalZero(Coming(s.tail), s.pcs, ids);
    NothingWanted(tr[c], asks, s, ids);
  }

  /** What the claims add up to once everybody has read the counters. */
  lemma NothingWanted(s: State, asks: map<Tid, nat>, r: State, ids: seq<Tid>)
    requires AllLoad(s, asks, r) && s.head <= s.tail && s.optimistic - s.overcommit == s.head
    requires forall t <- r.pcs :: !Loading(r.pcs[t])
    requires s.head < s.tail ==> forall t <- asks :: t in r.pcs && r.pcs[t].Claim?
    ensures var size := s.tail - s.head;
            Min(Total(Claims, r.pcs, ids), size) == Min(Asked(asks, ids), size)
  {
    forall t <- r.pcs ensures Loads(s, asks, t, r.pcs[t]) {
    }
    if s.head < s.tail {
      ClaimsAsked(r, asks, s.tail - s.head, ids);
    } else {
      TotalZero(Claims, r.pcs, ids);
    }
  }
}
