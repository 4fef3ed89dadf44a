/**
 The per-producer dequeue protocol of the lock-free queue
 (ExplicitProducer::dequeue and dequeue_bulk in yacul/concurrency/os_lockless_queue.h).

 One enqueuer publishes elements by advancing tailIndex.  Any number of consumers claim
 elements optimistically: they take a ticket on dequeueOptimisticCount, compare it with
 tailIndex, give what they cannot have back through dequeueOvercommit, and fetch their
 indices from headIndex.  Every atomic access is one step.  Counters are unbounded here;
 CircularLess and CountWraps show that the 64-bit comparisons decide the same way.
 */
module DequeueProtocol {

  type Tid = nat

  /** dequeue is dequeue_bulk with max == 1: it claims one element exactly when one seems available. */
  datatype Pc =
    | Idle
    | LoadTail(max: nat)
    | LoadOver(max: nat, tail: int)
    | LoadOpt(max: nat, tail: int, over: int)
    | Claim(over: int, want: nat)                 // fetch_add on dequeueOptimisticCount
    | Decide(over: int, mine: int, want: nat)     // reload tailIndex and compare
    | Give(back: nat, take: nat)                  // fetch_add on dequeueOvercommit
    | Take(take: nat)                             // fetch_add on headIndex

  datatype Range = Range(lo: int, hi: int)

  /** handed: the index ranges returned to consumers so far, in the order headIndex was advanced. */
  datatype State = State(tail: int, head: int, optimistic: int, overcommit: int,
                         pcs: map<Tid, Pc>, handed: seq<Range>)

  datatype Action = Publish(count: nat) | Call(tid: Tid, max: nat) | Fire(tid: Tid)

  function Min(a: int, b: int): int
  {
    if a < b then a else b
  }

  function Goto(s: State, t: Tid, pc: Pc): State
  {
    s.(pcs := s.pcs[t := pc])
  }

  function Step(s: State, t: Tid): State
    requires t in s.pcs
  {
    match s.pcs[t]
    case Idle => s
    case LoadTail(max) => Goto(s, t, LoadOver(max, s.tail))
    case LoadOver(max, tail) => Goto(s, t, LoadOpt(max, tail, s.overcommit))
    case LoadOpt(max, tail, over) =>
      var desired := tail - (s.optimistic - over);
      Goto(s, t, if desired > 0 then Claim(over, Min(desired, max)) else Idle)
    case Claim(over, want) =>
      Goto(s.(optimistic := s.optimistic + want), t, Decide(over, s.optimistic, want))
    case Decide(over, mine, want) =>
      var actual := s.tail - (mine - over);
      Goto(s, t, if actual <= 0 then Give(want, 0)
                 else if actual < want then Give(want - actual, actual)
                 else Take(want))
    case Give(back, take) =>
      Goto(s.(overcommit := s.overcommit + back), t, if take == 0 then Idle else Take(take))
    case Take(take) =>
      Goto(s.(head := s.head + take, handed := s.handed + [Range(s.head, s.head + take)]), t, Idle)
  }

  predicate Enabled(s: State, a: Action)
  {
    match a
    case Publish(_) => true
    case Call(t, _) => t in s.pcs && s.pcs[t].Idle?
    case Fire(t) => t in s.pcs
  }

  function Apply(s: State, a: Action): State
    requires Enabled(s, a)
  {
    match a
    case Publish(k) => s.(tail := s.tail + k)
    case Call(t, max) => Goto(s, t, LoadTail(max))
    case Fire(t) => Step(s, t)
  }

  predicate Init(s: State)
  {
    s.tail == 0 && s.head == 0 && s.optimistic == 0 && s.overcommit == 0 && s.handed == [] &&
    forall t <- s.pcs :: s.pcs[t].Idle?
  }

  ghost predicate IsRun(tr: seq<State>, acts: seq<Action>)
  {
    |tr| == |acts| + 1 && Init(tr[0]) &&
    forall i :: 0 <= i < |acts| ==> Enabled(tr[i], acts[i]) && tr[i + 1] == Apply(tr[i], acts[i])
  }

  // ---------------------------------------------------------------- tickets

  /** A claim on the optimistic counter: what it will take, give back, and how much of that is done. */
  datatype Ticket = Ticket(want: nat, take: nat, give: nat, done: nat, paid: nat)

  function Want(k: Ticket): int { k.want }
  function Taken(k: Ticket): int { k.take }
  function Given(k: Ticket): int { k.give }
  function Done(k: Ticket): int { k.done }
  function Paid(k: Ticket): int { k.paid }
  function Both(k: Ticket): int { k.take + k.give }

  function Sum(f: Ticket -> int, ts: seq<Ticket>): int
  {
    if |ts| == 0 then 0 else Sum(f, ts[..|ts| - 1]) + f(ts[|ts| - 1])
  }

  lemma {:induction false} SumLe(f: Ticket -> int, h: Ticket -> int, ts: seq<Ticket>)
    requires forall k <- ts :: f(k) <= h(k)
    ensures Sum(f, ts) <= Sum(h, ts)
  {
    if |ts| > 0 {
      SumLe(f, h, ts[..|ts| - 1]);
    }
  }

  lemma {:induction false} SumBoth(ts: seq<Ticket>)
    ensures Sum(Both, ts) == Sum(Taken, ts) + Sum(Given, ts)
  {
    if |ts| > 0 {
      SumBoth(ts[..|ts| - 1]);
    }
  }

  lemma {:induction false} SumUpdate(f: Ticket -> int, ts: seq<Ticket>, j: nat, k: Ticket)
    requires j < |ts|
    ensures Sum(f, ts[j := k]) == Sum(f, ts) - f(ts[j]) + f(k)
  {
    var n := |ts| - 1;
    if j < n {
      assert ts[j := k][..n] == ts[..n][j := k];
      SumUpdate(f, ts[..n], j, k);
    } else {
      assert ts[j := k][..n] == ts[..n];
    }
  }

  lemma SumUpdatePrefix(f: Ticket -> int, ts: seq<Ticket>, j: nat, k: Ticket, n: nat)
    requires j < |ts| && n <= |ts|
    ensures Sum(f, ts[j := k][..n]) == Sum(f, ts[..n]) + if j < n then f(k) - f(ts[j]) else 0
  {
    if j < n {
      assert ts[j := k][..n] == ts[..n][j := k];
      SumUpdate(f, ts[..n], j, k);
    } else {
      assert ts[j := k][..n] == ts[..n];
    }
  }

  lemma SumAppend(f: Ticket -> int, ts: seq<Ticket>, k: Ticket)
    ensures Sum(f, ts + [k]) == Sum(f, ts) + f(k)
  {
    assert (ts + [k])[..|ts|] == ts;
  }

  // ---------------------------------------------------------------- the invariant

  /** tickets in the order of the optimistic counter; at: the ticket each active consumer works on. */
  datatype Ghost = Ghost(tickets: seq<Ticket>, at: map<Tid, nat>)

  predicate Active(pc: Pc)
  {
    pc.Decide? || pc.Give? || pc.Take?
  }

  predicate TicketOk(k: Ticket)
  {
    k.take + k.give <= k.want && k.paid <= k.give && k.done <= k.take
  }

  predicate Settled(k: Ticket)
  {
    k.take + k.give == k.want && k.paid == k.give && k.done == k.take
  }

  /** The test that let ticket j take something: its own position, less what smaller tickets gave back, fits in tail. */
  ghost predicate Fits(tail: int, ts: seq<Ticket>, j: nat)
    requires j < |ts|
  {
    ts[j].take > 0 ==> Sum(Want, ts[..j]) - Sum(Given, ts[..j]) + ts[j].take <= tail
  }

  ghost predicate PcOk(s: State, g: Ghost, t: Tid, pc: Pc)
  {
    (t in g.at <==> Active(pc)) &&
    match pc
    case LoadOver(_, tail) => tail <= s.tail
    case LoadOpt(_, tail, over) => tail <= s.tail && over <= s.overcommit
    case Claim(over, _) => over <= s.overcommit
    case Decide(over, mine, want) =>
      var j := g.at[t];
      j < |g.tickets| && g.tickets[j] == Ticket(want, 0, 0, 0, 0) &&
      mine == Sum(Want, g.tickets[..j]) && over <= Sum(Paid, g.tickets[..j])
    case Give(back, take) =>
      var j := g.at[t];
      j < |g.tickets| && g.tickets[j] == Ticket(back + take, take, back, 0, 0)
    case Take(take) =>
      var j := g.at[t];
      j < |g.tickets| &&
      var k := g.tickets[j];
      k.take == take && k.done == 0 && k.paid == k.give && k.take + k.give == k.want
    case _ => true
  }

  ghost predicate TicketsOk(s: State, g: Ghost)
  {
    (forall j :: 0 <= j < |g.tickets| ==> TicketOk(g.tickets[j])) &&
    (forall j :: 0 <= j < |g.tickets| ==> Fits(s.tail, g.tickets, j)) &&
    (forall j :: 0 <= j < |g.tickets| ==> j in g.at.Values || Settled(g.tickets[j]))
  }

  ghost predicate CountersOk(s: State, g: Ghost)
  {
    s.tail >= 0 &&
    s.optimistic == Sum(Want, g.tickets) && s.overcommit == Sum(Paid, g.tickets) && s.head == Sum(Done, g.tickets)
  }

  ghost predicate ThreadsOk(s: State, g: Ghost)
  {
    g.at.Keys <= s.pcs.Keys &&
    (forall t <- s.pcs :: PcOk(s, g, t, s.pcs[t])) &&
    (forall t, u :: t in g.at && u in g.at && t != u ==> g.at[t] != g.at[u])
  }

  /** The ranges handed out cover [0, head) in order without gap or overlap. */
  ghost predicate Tiles(h: seq<Range>, head: int)
  {
    if |h| == 0 then head == 0
    else var r := h[|h| - 1]; r.lo <= r.hi == head && Tiles(h[..|h| - 1], r.lo)
  }

  ghost predicate Inv(s: State, g: Ghost)
  {
    CountersOk(s, g) && TicketsOk(s, g) && ThreadsOk(s, g) && Tiles(s.handed, s.head)
  }

  // ---------------------------------------------------------------- every step keeps it

  lemma KeepPublish(s: State, g: Ghost, k: nat)
    requires Inv(s, g)
    ensures Inv(s.(tail := s.tail + k), g)
  {
    var s' := s.(tail := s.tail + k);
    forall j | 0 <= j < |g.tickets| ensures Fits(s'.tail, g.tickets, j) {
      assert Fits(s.tail, g.tickets, j);
    }
    forall t <- s'.pcs ensures PcOk(s', g, t, s'.pcs[t]) {
      assert PcOk(s, g, t, s.pcs[t]);
    }
  }

  /** A consumer without a ticket only moves. */
  lemma KeepMove(s: State, g: Ghost, t: Tid, pc: Pc)
    requires Inv(s, g) && t in s.pcs && !Active(s.pcs[t]) && !Active(pc) && PcOk(s, g, t, pc)
    ensures Inv(Goto(s, t, pc), g)
  {
    var s' := Goto(s, t, pc);
    forall u <- s'.pcs ensures PcOk(s', g, u, s'.pcs[u]) {
      if u != t {
        assert PcOk(s, g, u, s.pcs[u]);
      }
    }
  }

  lemma KeepPassive(s: State, g: Ghost, t: Tid)
    requires Inv(s, g) && t in s.pcs
    requires s.pcs[t].LoadTail? || s.pcs[t].LoadOver? || s.pcs[t].LoadOpt?
    ensures Inv(Step(s, t), g)
  {
    assert PcOk(s, g, t, s.pcs[t]);
    KeepMove(s, g, t, Step(s, t).pcs[t]);
  }

  lemma ClaimTickets(tail: int, ts: seq<Ticket>, k: Ticket)
    requires k.take == 0
    requires forall j :: 0 <= j < |ts| ==> Fits(tail, ts, j)
    ensures forall j :: 0 <= j < |ts + [k]| ==> Fits(tail, ts + [k], j)
  {
    forall j | 0 <= j < |ts + [k]| ensures Fits(tail, ts + [k], j) {
      if j < |ts| {
        assert (ts + [k])[..j] == ts[..j];
        assert Fits(tail, ts, j);
      }
    }
  }

  lemma ClaimOther(s: State, g: Ghost, s': State, g': Ghost, t: Tid, k: Ticket, u: Tid)
    requires u != t && u in s.pcs && PcOk(s, g, u, s.pcs[u])
    requires s'.tail == s.tail && s'.overcommit == s.overcommit
    requires g' == Ghost(g.tickets + [k], g.at[t := |g.tickets|])
    ensures PcOk(s', g', u, s.pcs[u])
  {
    if s.pcs[u].Decide? {
      var j := g.at[u];
      assert (g.tickets + [k])[..j] == g.tickets[..j];
    }
  }

  /** Taking a ticket: the overcommit read before it can only count smaller tickets. */
  lemma KeepClaim(s: State, g: Ghost, t: Tid) returns (g': Ghost)
    requires Inv(s, g) && t in s.pcs && s.pcs[t].Claim?
    ensures Inv(Step(s, t), g')
  {
    var s' := Step(s, t);
    var k := Ticket(s.pcs[t].want, 0, 0, 0, 0);
    var n := |g.tickets|;
    g' := Ghost(g.tickets + [k], g.at[t := n]);
    assert PcOk(s, g, t, s.pcs[t]);
    SumAppend(Want, g.tickets, k);
    SumAppend(Paid, g.tickets, k);
    SumAppend(Done, g.tickets, k);
    assert g'.tickets[..n] == g.tickets;
    ClaimTickets(s.tail, g.tickets, k);
    forall j | 0 <= j < |g'.tickets| ensures j in g'.at.Values || Settled(g'.tickets[j]) {
      if j < n && j in g.at.Values {
        var u :| u in g.at && g.at[u] == j;
        assert u != t && u in g'.at && g'.at[u] == j;
      } else if j == n {
        assert g'.at[t] == n;
      }
    }
    forall u <- s'.pcs ensures PcOk(s', g', u, s'.pcs[u]) {
      if u != t {
        ClaimOther(s, g, s', g', t, k, u);
      }
    }
    forall u, v | u in g'.at && v in g'.at && u != v ensures g'.at[u] != g'.at[v] {
      assert PcOk(s, g, u, s.pcs[u]) && PcOk(s, g, v, s.pcs[v]);
    }
  }

  /** Changes to ticket j that never weaken what other tickets rely on. */
  ghost predicate Advances(tail: int, ts: seq<Ticket>, j: nat, k: Ticket)
    requires j < |ts|
  {
    TicketOk(k) && k.want == ts[j].want && k.give >= ts[j].give && k.paid >= ts[j].paid &&
    (k.take > 0 ==> Sum(Want, ts[..j]) - Sum(Given, ts[..j]) + k.take <= tail)
  }

  lemma AdvanceFits(tail: int, ts: seq<Ticket>, j: nat, k: Ticket, ts': seq<Ticket>)
    requires j < |ts| && Advances(tail, ts, j, k) && ts' == ts[j := k]
    requires forall i :: 0 <= i < |ts| ==> Fits(tail, ts, i)
    ensures forall i :: 0 <= i < |ts| ==> Fits(tail, ts', i)
  {
    forall i | 0 <= i < |ts| ensures Fits(tail, ts', i) {
      assert Fits(tail, ts, i);
      SumUpdatePrefix(Want, ts, j, k, i);
      SumUpdatePrefix(Given, ts, j, k, i);
    }
  }

  lemma AdvanceOther(s: State, g: Ghost, s': State, g': Ghost, t: Tid, j: nat, k: Ticket, u: Tid)
    requires u != t && u in s.pcs && PcOk(s, g, u, s.pcs[u])
    requires t in g.at && g.at[t] == j && (u in g.at ==> g.at[u] != j)
    requires s'.tail == s.tail && s'.overcommit >= s.overcommit
    requires j < |g.tickets| && Advances(s.tail, g.tickets, j, k)
    requires g'.tickets == g.tickets[j := k] && (u in g'.at <==> u in g.at) && (u in g.at ==> g'.at[u] == g.at[u])
    ensures PcOk(s', g', u, s.pcs[u])
  {
    if s.pcs[u].Decide? {
      SumUpdatePrefix(Want, g.tickets, j, k, g.at[u]);
      SumUpdatePrefix(Paid, g.tickets, j, k, g.at[u]);
    }
  }

  /** A step of t that changes only its own ticket, and lets go of it when it is settled. */
  lemma KeepAdvance(s: State, g: Ghost, s': State, t: Tid, k: Ticket) returns (g': Ghost)
    requires Inv(s, g) && t in g.at && g.at[t] < |g.tickets| && Advances(s.tail, g.tickets, g.at[t], k)
    requires t in s.pcs && t in s'.pcs && s'.pcs == s.pcs[t := s'.pcs[t]] && s'.tail == s.tail
    requires s'.optimistic == s.optimistic
    requires s'.overcommit == s.overcommit + k.paid - g.tickets[g.at[t]].paid
    requires s'.head == s.head + k.done - g.tickets[g.at[t]].done
    requires Tiles(s'.handed, s'.head)
    requires !Active(s'.pcs[t]) ==> s'.pcs[t].Idle? && Settled(k)
    requires Active(s'.pcs[t]) ==> PcOk(s', Ghost(g.tickets[g.at[t] := k], g.at), t, s'.pcs[t])
    ensures Inv(s', g')
  {
    var j := g.at[t];
    g' := Ghost(g.tickets[j := k], if Active(s'.pcs[t]) then g.at else g.at - {t});
    SumUpdate(Want, g.tickets, j, k);
    SumUpdate(Paid, g.tickets, j, k);
    SumUpdate(Done, g.tickets, j, k);
    AdvanceFits(s.tail, g.tickets, j, k, g'.tickets);
    StillAccounted(g, g', t, j, k);
    forall u <- s'.pcs ensures PcOk(s', g', u, s'.pcs[u]) {
      if u != t {
        AdvanceOther(s, g, s', g', t, j, k, u);
      }
    }
  }

  lemma StillAccounted(g: Ghost, g': Ghost, t: Tid, j: nat, k: Ticket)
    requires forall i :: 0 <= i < |g.tickets| ==> i in g.at.Values || Settled(g.tickets[i])
    requires t in g.at && g.at[t] == j < |g.tickets| && g'.tickets == g.tickets[j := k]
    requires g'.at == g.at || (g'.at == g.at - {t} && Settled(k))
    ensures forall i :: 0 <= i < |g'.tickets| ==> i in g'.at.Values || Settled(g'.tickets[i])
  {
    forall i | 0 <= i < |g'.tickets| ensures i in g'.at.Values || Settled(g'.tickets[i]) {
      if i != j && i in g.at.Values {
        var u :| u in g.at && g.at[u] == i;
        assert u in g'.at && g'.at[u] == i;
      } else if i == j && g'.at == g.at {
        assert g'.at[t] == j;
      }
    }
  }

  lemma KeepDecide(s: State, g: Ghost, t: Tid) returns (g': Ghost)
    requires Inv(s, g) && t in s.pcs && s.pcs[t].Decide?
    ensures Inv(Step(s, t), g')
  {
    assert PcOk(s, g, t, s.pcs[t]);
    var j := g.at[t];
    var Decide(over, mine, want) := s.pcs[t];
    var actual := s.tail - (mine - over);
    var take := if actual <= 0 then 0 else Min(actual, want);
    var k := Ticket(want, take, want - take, 0, 0);
    PaidWithinGiven(g.tickets, j);
    g' := KeepAdvance(s, g, Step(s, t), t, k);
  }

  lemma PaidWithinGiven(ts: seq<Ticket>, j: nat)
    requires j <= |ts| && forall i :: 0 <= i < |ts| ==> TicketOk(ts[i])
    ensures Sum(Paid, ts[..j]) <= Sum(Given, ts[..j])
    ensures Sum(Given, ts[..j]) + Sum(Taken, ts[..j]) <= Sum(Want, ts[..j])
    ensures Sum(Done, ts[..j]) <= Sum(Taken, ts[..j])
  {
    SumLe(Paid, Given, ts[..j]);
    SumLe(Done, Taken, ts[..j]);
    SumLe(Both, Want, ts[..j]);
    SumBoth(ts[..j]);
  }

  lemma KeepGive(s: State, g: Ghost, t: Tid) returns (g': Ghost)
    requires Inv(s, g) && t in s.pcs && s.pcs[t].Give?
    ensures Inv(Step(s, t), g')
  {
    assert PcOk(s, g, t, s.pcs[t]);
    var k := g.tickets[g.at[t]];
    assert Fits(s.tail, g.tickets, g.at[t]);
    g' := KeepAdvance(s, g, Step(s, t), t, k.(paid := k.give));
  }

  lemma KeepTake(s: State, g: Ghost, t: Tid) returns (g': Ghost)
    requires Inv(s, g) && t in s.pcs && s.pcs[t].Take?
    ensures Inv(Step(s, t), g')
  {
    assert PcOk(s, g, t, s.pcs[t]);
    var k := g.tickets[g.at[t]];
    assert Fits(s.tail, g.tickets, g.at[t]);
    TilesExtend(s.handed, s.head, k.take);
    g' := KeepAdvance(s, g, Step(s, t), t, k.(done := k.take));
  }

  lemma TilesExtend(h: seq<Range>, head: int, take: nat)
    requires Tiles(h, head)
    ensures Tiles(h + [Range(head, head + take)], head + take)
  {
    assert (h + [Range(head, head + take)])[..|h|] == h;
  }

  lemma KeepApply(s: State, g: Ghost, a: Action) returns (g': Ghost)
    requires Inv(s, g) && Enabled(s, a)
    ensures Inv(Apply(s, a), g')
  {
    g' := g;
    match a
    case Publish(k) => KeepPublish(s, g, k);
    case Call(t, max) =>
      assert PcOk(s, g, t, s.pcs[t]);
      KeepMove(s, g, t, LoadTail(max));
    case Fire(t) =>
      match s.pcs[t]
      case Idle =>
      case Claim(_, _) => g' := KeepClaim(s, g, t);
      case Decide(_, _, _) => g' := KeepDecide(s, g, t);
      case Give(_, _) => g' := KeepGive(s, g, t);
      case Take(_) => g' := KeepTake(s, g, t);
      case _ => KeepPassive(s, g, t);
  }

  lemma {:induction false} RunInv(tr: seq<State>, acts: seq<Action>, i: nat) returns (g: Ghost)
    requires IsRun(tr, acts) && i < |tr|
    ensures Inv(tr[i], g)
  {
    if i == 0 {
      g := Ghost([], map[]);
    } else {
      var g0 := RunInv(tr, acts, i - 1);
      g := KeepApply(tr[i - 1], g0, acts[i - 1]);
    }
  }

  // ---------------------------------------------------------------- what every run guarantees

  /** What all tickets together may take: look at the largest ticket that takes anything. */
  lemma {:induction false} TakesFit(tail: int, ts: seq<Ticket>, n: nat)
    requires n <= |ts| && tail >= 0
    requires forall i :: 0 <= i < |ts| ==> TicketOk(ts[i])
    requires forall i :: 0 <= i < |ts| ==> Fits(tail, ts, i)
    ensures Sum(Taken, ts[..n]) <= tail
  {
    if n > 0 {
      assert ts[..n][..n - 1] == ts[..n - 1];
      if ts[n - 1].take == 0 {
        TakesFit(tail, ts, n - 1);
      } else {
        assert Fits(tail, ts, n - 1);
        PaidWithinGiven(ts, n - 1);
      }
    }
  }

  /** headIndex never passes tailIndex, and the overcommit counter never passes the optimistic one. */
  lemma HeadWithinTail(tr: seq<State>, acts: seq<Action>, i: nat)
    requires IsRun(tr, acts) && i < |tr|
    ensures 0 <= tr[i].head <= tr[i].tail
    ensures 0 <= tr[i].overcommit <= tr[i].optimistic
    ensures tr[i].head <= tr[i].optimistic - tr[i].overcommit
  {
    var g := RunInv(tr, acts, i);
    var n := |g.tickets|;
    assert g.tickets[..n] == g.tickets;
    TakesFit(tr[i].tail, g.tickets, n);
    PaidWithinGiven(g.tickets, n);
    SumNonNegative(g.tickets);
  }

  lemma {:induction false} SumNonNegative(ts: seq<Ticket>)
    ensures Sum(Done, ts) >= 0 && Sum(Paid, ts) >= 0 && Sum(Taken, ts) >= 0
  {
    if |ts| > 0 {
      SumNonNegative(ts[..|ts| - 1]);
    }
  }

  /** The assertion inside both dequeue functions: the overcommit value read is at most the ticket obtained after it. */
  lemma OvercommitWithinTicket(tr: seq<State>, acts: seq<Action>, i: nat, t: Tid)
    requires IsRun(tr, acts) && i < |tr| && t in tr[i].pcs && tr[i].pcs[t].Decide?
    ensures tr[i].pcs[t].over <= tr[i].pcs[t].mine
  {
    var g := RunInv(tr, acts, i);
    assert PcOk(tr[i], g, t, tr[i].pcs[t]);
    PaidWithinGiven(g.tickets, g.at[t]);
    SumNonNegative(g.tickets[..g.at[t]]);
  }

  lemma {:induction false} TilesBounds(h: seq<Range>, head: int, i: nat)
    requires Tiles(h, head) && i < |h|
    ensures 0 <= h[i].lo <= h[i].hi <= head
  {
    var n := |h| - 1;
    if i < n {
      TilesBounds(h[..n], h[n].lo, i);
    } else if n > 0 {
      TilesBounds(h[..n], h[n].lo, n - 1);
    }
  }

  lemma {:induction false} TilesOrdered(h: seq<Range>, head: int, i: nat, j: nat)
    requires Tiles(h, head) && i < j < |h|
    ensures h[i].hi <= h[j].lo
  {
    var n := |h| - 1;
    if j < n {
      TilesOrdered(h[..n], h[n].lo, i, j);
    } else {
      TilesBounds(h[..n], h[n].lo, i);
    }
  }

  /** The ranges handed to consumers tile [0, head), and each is already published. */
  lemma HandedRangesArePublished(tr: seq<State>, acts: seq<Action>, i: nat)
    requires IsRun(tr, acts) && i < |tr|
    ensures Tiles(tr[i].handed, tr[i].head) && tr[i].head <= tr[i].tail
    ensures forall a :: 0 <= a < |tr[i].handed| ==> 0 <= tr[i].handed[a].lo <= tr[i].handed[a].hi <= tr[i].tail
  {
    var g := RunInv(tr, acts, i);
    HeadWithinTail(tr, acts, i);
    forall a | 0 <= a < |tr[i].handed| ensures 0 <= tr[i].handed[a].lo <= tr[i].handed[a].hi <= tr[i].tail {
      TilesBounds(tr[i].handed, tr[i].head, a);
    }
  }

  /** No two ranges handed to consumers overlap. */
  lemma HandedRangesAreDisjoint(tr: seq<State>, acts: seq<Action>, i: nat, a: nat, b: nat)
    requires IsRun(tr, acts) && i < |tr| && a < b < |tr[i].handed|
    ensures tr[i].handed[a].hi <= tr[i].handed[b].lo
  {
    HandedRangesArePublished(tr, acts, i);
    TilesOrdered(tr[i].handed, tr[i].head, a, b);
  }

  lemma {:induction false} SumSettled(ts: seq<Ticket>)
    requires forall j :: 0 <= j < |ts| ==> Settled(ts[j])
    ensures Sum(Want, ts) == Sum(Done, ts) + Sum(Paid, ts)
  {
    if |ts| > 0 {
      assert Settled(ts[|ts| - 1]);
      SumSettled(ts[..|ts| - 1]);
    }
  }

  /** With no consumer inside a dequeue the optimistic count, less the overcommit, is exactly headIndex. */
  lemma QuiescentCountsAgree(tr: seq<State>, acts: seq<Action>, i: nat)
    requires IsRun(tr, acts) && i < |tr|
    requires forall t <- tr[i].pcs :: !Active(tr[i].pcs[t])
    ensures tr[i].optimistic - tr[i].overcommit == tr[i].head
  {
    var s := tr[i];
    var g := RunInv(tr, acts, i);
    forall t <- s.pcs ensures t !in g.at {
      assert PcOk(s, g, t, s.pcs[t]);
    }
    assert g.at == map[];
    SumSettled(g.tickets);
  }

  function Fires(s: State, t: Tid, n: nat): State
    requires t in s.pcs
    ensures t in Fires(s, t, n).pcs
  {
    if n == 0 then s else Step(Fires(s, t, n - 1), t)
  }

  /** A consumer running alone gets min(max, size) elements: nothing that is published becomes unreachable. */
  lemma SoloDequeue(tr: seq<State>, acts: seq<Action>, i: nat, t: Tid, max: nat)
    requires IsRun(tr, acts) && i < |tr| && t in tr[i].pcs && max > 0
    requires forall u <- tr[i].pcs :: tr[i].pcs[u].Idle?
    ensures var s := tr[i];
            var r := Fires(Goto(s, t, LoadTail(max)), t, 6);
            r.pcs[t].Idle? && r.head == s.head + Min(max, s.tail - s.head) &&
            (s.head < s.tail ==> r.handed == s.handed + [Range(s.head, r.head)]) &&
            (s.head == s.tail ==> r.handed == s.handed)
  {
    HeadWithinTail(tr, acts, i);
    QuiescentCountsAgree(tr, acts, i);
    var s0 := Goto(tr[i], t, LoadTail(max));
    var s3 := Fires(s0, t, 3);
    assert Fires(s0, t, 1) == Step(s0, t);
    assert Fires(s0, t, 2) == Step(Fires(s0, t, 1), t);
    assert s3 == Step(Fires(s0, t, 2), t);
    var s4 := Fires(s0, t, 4);
    assert s4 == Step(s3, t);
    var s5 := Fires(s0, t, 5);
    assert s5 == Step(s4, t);
    assert Fires(s0, t, 6) == Step(s5, t);
  }

  // ---------------------------------------------------------------- 64-bit indices

  const M := 0x1_0000_0000_0000_0000
  const HALF := 0x8000_0000_0000_0000

  type Word = w: nat | w < M

  /** a - b in 64-bit unsigned arithmetic. */
  function Minus(a: Word, b: Word): Word
  {
    if a >= b then a - b else a - b + M
  }

  /** details::circular_less_than for a 64-bit type. */
  predicate CircularLessThan(a: Word, b: Word)
  {
    Minus(a, b) > HALF
  }

  /** On wrapped counters that are less than 2^63 apart circular_less_than is the comparison of the counters. */
  lemma CircularLess(a: nat, b: nat)
    requires -HALF < a - b < HALF
    ensures CircularLessThan(a % M, b % M) <==> a < b
  {
    var qa, qb := a / M, b / M;
    assert a == qa * M + a % M && b == qb * M + b % M;
    assert -2 < qa - qb < 2;
  }

  /** Whatever the distance, the answer is whether b is less than half a turn ahead of a. */
  lemma CircularLessExactly(a: nat, b: nat)
    ensures CircularLessThan(a % M, b % M) <==> 0 < (b - a) % M < HALF
  {
    var qa, qb, qc := a / M, b / M, (b - a) / M;
    assert a == qa * M + a % M && b == qb * M + b % M && b - a == qc * M + (b - a) % M;
    assert (qb - qa - qc) * M == (b - a) % M - (b % M - a % M);
    assert 0 <= qb - qa - qc + 1 <= 2;
  }

  /** The wrapped element count of dequeue_bulk is positive exactly when the true count is, and then equal to it. */
  lemma CountWraps(tail: nat, optimistic: nat, over: nat)
    requires over <= optimistic && -HALF < tail - (optimistic - over) < HALF
    ensures var d := Minus(tail % M, Minus(optimistic % M, over % M));
            (CircularLessThan(0, d) <==> tail - (optimistic - over) > 0) &&
            (tail - (optimistic - over) > 0 ==> d == tail - (optimistic - over))
  {
    var e := optimistic - over;
    MinusWraps(optimistic, over);
    CircularLess(e, tail);
    var qe, qt := e / M, tail / M;
    assert e == qe * M + e % M && tail == qt * M + tail % M;
    assert -2 < qe - qt < 2;
  }

  lemma MinusWraps(a: nat, b: nat)
    requires b <= a
    ensures Minus(a % M, b % M) == (a - b) % M
  {
    var qa, qb, qc := a / M, b / M, (a - b) / M;
    assert a == qa * M + a % M && b == qb * M + b % M && a - b == qc * M + (a - b) % M;
    assert (qa - qb - qc) * M == (a - b) % M - (a % M - b % M);
    assert -1 <= qa - qb - qc <= 1;
  }
}
