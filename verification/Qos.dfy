/**
 QOS (yacul/qos/qos.cc): prioritised queues with admission control, eviction and expiry.

 Each Enqueue and Dequeue is one step and each sub-queue is first in, first out.  Clock readings,
 an item's own IsExpired and whether memory for an insertion is available are parameters.
 */
module Qos {
  import opened Options
  import TB = TokenBucket

  const LEVELS := 6

  /** What the scheduler knows of an item; times are in nanoseconds. */
  datatype Item = Item(id: nat, enqueueTime: int, hasDeadline: bool, deadline: int, cost: real)

  /** What IsExpired meets when it examines an item: the item's own answer and two clock readings. */
  datatype Reading = Reading(self: bool, first: int, second: int)

  datatype Policy = Drop | DropOldest | Block

  datatype Config = Config(maxQueueDepth: nat, maxTotalDepth: nat, policy: Policy, quanta: seq<nat>, ttlMs: int)

  /** A sub-queue with its depth counter and statistics. */
  datatype Level = Level(queue: seq<Item>, depth: nat, enqueued: nat, dequeued: nat, dropped: nat, expired: nat)

  /** Milliseconds, cut off toward zero. */
  function Milliseconds(ns: int): int
  {
    if ns >= 0 then ns / 1000000 else -(-ns / 1000000)
  }

  predicate IsExpired(item: Item, r: Reading, ttlMs: int)
  {
    r.self || (item.hasDeadline && r.first > item.deadline) ||
    (ttlMs > 0 && Milliseconds(r.second - item.enqueueTime) >= ttlMs)
  }

  /** The cut to milliseconds does not matter: the time to live is over once that many nanoseconds have passed. */
  lemma ExpiredExactly(item: Item, r: Reading, ttlMs: int)
    ensures IsExpired(item, r, ttlMs) <==>
            r.self || (item.hasDeadline && item.deadline < r.first) ||
            (ttlMs > 0 && item.enqueueTime + 1000000 * ttlMs <= r.second)
  {
  }

  /** An expired item stays expired. */
  lemma StaysExpired(item: Item, r: Reading, later: Reading, ttlMs: int)
    requires IsExpired(item, r, ttlMs) && (r.self ==> later.self) && r.first <= later.first && r.second <= later.second
    ensures IsExpired(item, later, ttlMs)
  {
    ExpiredExactly(item, r, ttlMs);
    ExpiredExactly(item, later, ttlMs);
  }

  // ---------------------------------------------------------------- history

  /** How an item left its queue. */
  datatype Fate = Evicted | Expired(r: Reading) | Delivered(r: Reading)

  datatype Exit = Exit(item: Item, fate: Fate)

  /** All that entered a level, all that left it, in order, and how many requests were refused. */
  datatype History = History(entered: seq<Item>, left: seq<Exit>, refused: nat)

  datatype Kind = Eviction | Expiry | Delivery

  function KindOf(f: Fate): Kind
  {
    match f
    case Evicted => Eviction
    case Expired(_) => Expiry
    case Delivered(_) => Delivery
  }

  function Count(left: seq<Exit>, k: Kind): nat
  {
    if |left| == 0 then 0
    else Count(left[..|left| - 1], k) + (if KindOf(left[|left| - 1].fate) == k then 1 else 0)
  }

  function Items(left: seq<Exit>): (r: seq<Item>)
    ensures |r| == |left|
  {
    if |left| == 0 then [] else Items(left[..|left| - 1]) + [left[|left| - 1].item]
  }

  /** An item was discarded as expired only if it was, and delivered only if it was not. */
  predicate Honest(e: Exit, ttlMs: int)
  {
    match e.fate
    case Evicted => true
    case Expired(r) => IsExpired(e.item, r, ttlMs)
    case Delivered(r) => !IsExpired(e.item, r, ttlMs)
  }

  predicate Older(a: History, b: History)
  {
    a.entered <= b.entered && a.left <= b.left && a.refused <= b.refused
  }

  /** History is only added to. */
  ghost predicate Grows(a: seq<History>, b: seq<History>)
  {
    |a| == |b| && forall p {:trigger Older(a[p], b[p])} :: 0 <= p < |a| ==> Older(a[p], b[p])
  }

  lemma GrowsSelf(a: seq<History>)
    ensures Grows(a, a)
  {
  }

  lemma GrowsTrans(a: seq<History>, b: seq<History>, c: seq<History>)
    requires Grows(a, b) && Grows(b, c)
    ensures Grows(a, c)
  {
    forall q | 0 <= q < |a| ensures Older(a[q], c[q]) {
      assert Older(a[q], b[q]) && Older(b[q], c[q]);
    }
  }

  /** The counters of a level agree with its history, and nothing was lost, added or reordered. */
  predicate Balanced(v: Level, h: History, ttlMs: int)
  {
    h.entered == Items(h.left) + v.queue && v.depth == |v.queue| &&
    v.enqueued == |h.entered| && v.expired == Count(h.left, Expiry) &&
    v.dequeued == Count(h.left, Expiry) + Count(h.left, Delivery) &&
    v.dropped == Count(h.left, Eviction) + h.refused &&
    forall e <- h.left :: Honest(e, ttlMs)
  }

  lemma {:induction false} Fates(left: seq<Exit>)
    ensures Count(left, Eviction) + Count(left, Expiry) + Count(left, Delivery) == |left|
  {
    if |left| > 0 {
      Fates(left[..|left| - 1]);
    }
  }

  /** The ledger: what came in was dequeued, evicted or is still there; what was dequeued expired or was delivered. */
  lemma LedgerBalances(v: Level, h: History, ttlMs: int)
    requires Balanced(v, h, ttlMs)
    ensures v.enqueued == v.dequeued + Count(h.left, Eviction) + v.depth
    ensures v.dequeued == v.expired + Count(h.left, Delivery)
  {
    Fates(h.left);
  }

  lemma LeftAppend(left: seq<Exit>, e: Exit)
    ensures Items(left + [e]) == Items(left) + [e.item]
    ensures forall k :: Count(left + [e], k) == Count(left, k) + if KindOf(e.fate) == k then 1 else 0
  {
    assert (left + [e])[..|left|] == left;
  }

  function DepthSum(levels: seq<Level>): nat
  {
    if |levels| == 0 then 0 else DepthSum(levels[..|levels| - 1]) + levels[|levels| - 1].depth
  }

  lemma {:induction false} DepthSumUpdate(levels: seq<Level>, p: nat, v: Level)
    requires p < |levels|
    ensures DepthSum(levels[p := v]) == DepthSum(levels) - levels[p].depth + v.depth
    ensures DepthSum(levels) >= levels[p].depth
  {
    var n := |levels| - 1;
    if p < n {
      DepthSumUpdate(levels[..n], p, v);
      assert levels[p := v][..n] == levels[..n][p := v];
    } else {
      assert levels[p := v][..n] == levels[..n];
    }
  }

  function DeliverySum(hs: seq<History>): nat
  {
    if |hs| == 0 then 0 else DeliverySum(hs[..|hs| - 1]) + Count(hs[|hs| - 1].left, Delivery)
  }

  lemma {:induction false} DeliverySumUpdate(hs: seq<History>, p: nat, h: History)
    requires p < |hs|
    ensures DeliverySum(hs[p := h]) == DeliverySum(hs) - Count(hs[p].left, Delivery) + Count(h.left, Delivery)
    ensures DeliverySum(hs) >= Count(hs[p].left, Delivery)
  {
    var n := |hs| - 1;
    if p < n {
      DeliverySumUpdate(hs[..n], p, h);
      assert hs[p := h][..n] == hs[..n][p := h];
    } else {
      assert hs[p := h][..n] == hs[..n];
    }
  }

  lemma {:induction false} NoDeliveries(hs: seq<History>)
    requires forall p :: 0 <= p < |hs| ==> hs[p].left == []
    ensures DeliverySum(hs) == 0
  {
    if |hs| > 0 {
      NoDeliveries(hs[..|hs| - 1]);
    }
  }

  /** Every level is balanced and the totals are the sums over the levels. */
  ghost predicate Ledger(levels: seq<Level>, hs: seq<History>, ttlMs: int, totalDepth: nat, delivered: nat)
  {
    |levels| == |hs| && totalDepth == DepthSum(levels) && delivered == DeliverySum(hs) &&
    (forall p :: 0 <= p < |levels| ==> levels[p].depth == |levels[p].queue|) &&
    forall p {:trigger Balanced(levels[p], hs[p], ttlMs)} :: 0 <= p < |levels| ==> Balanced(levels[p], hs[p], ttlMs)
  }

  /** One level changes. */
  lemma LedgerUpdate(levels: seq<Level>, hs: seq<History>, ttlMs: int, totalDepth: nat, delivered: nat,
                     p: nat, v: Level, h: History)
    requires Ledger(levels, hs, ttlMs, totalDepth, delivered) && p < |levels|
    requires Balanced(v, h, ttlMs) && Older(hs[p], h)
    ensures levels[p].depth <= totalDepth && Count(hs[p].left, Delivery) <= delivered && Grows(hs, hs[p := h])
    ensures Ledger(levels[p := v], hs[p := h], ttlMs, totalDepth - levels[p].depth + v.depth,
                   delivered - Count(hs[p].left, Delivery) + Count(h.left, Delivery))
  {
    DepthSumUpdate(levels, p, v);
    DeliverySumUpdate(hs, p, h);
    forall q | 0 <= q < |levels|
      ensures Balanced(levels[p := v][q], hs[p := h][q], ttlMs) && Older(hs[q], hs[p := h][q])
    {
      assert Balanced(levels[q], hs[q], ttlMs);
    }
  }

  // ---------------------------------------------------------------- steps on one level

  /** The level once its head has left. */
  function Left(v: Level, fate: Fate): Level
    requires |v.queue| > 0 && v.depth > 0
  {
    var w := v.(queue := v.queue[1..], depth := v.depth - 1);
    match fate
    case Evicted => w.(dropped := w.dropped + 1)
    case Expired(_) => w.(dequeued := w.dequeued + 1, expired := w.expired + 1)
    case Delivered(_) => w.(dequeued := w.dequeued + 1)
  }

  function Parted(h: History, item: Item, fate: Fate): History
  {
    h.(left := h.left + [Exit(item, fate)])
  }

  lemma PopKeepsBalance(v: Level, h: History, ttlMs: int, fate: Fate)
    requires Balanced(v, h, ttlMs) && |v.queue| > 0 && Honest(Exit(v.queue[0], fate), ttlMs)
    ensures Balanced(Left(v, fate), Parted(h, v.queue[0], fate), ttlMs)
  {
    LeftAppend(h.left, Exit(v.queue[0], fate));
    assert v.queue == [v.queue[0]] + v.queue[1..];
  }

  function Refused(v: Level): Level
  {
    v.(dropped := v.dropped + 1)
  }

  function Entered(v: Level, item: Item): Level
  {
    v.(queue := v.queue + [item], depth := v.depth + 1, enqueued := v.enqueued + 1)
  }

  lemma EnterKeepsBalance(v: Level, h: History, ttlMs: int, item: Item)
    requires Balanced(v, h, ttlMs)
    ensures Balanced(Entered(v, item), h.(entered := h.entered + [item]), ttlMs)
  {
  }

  // ---------------------------------------------------------------- admission

  predicate Full(v: Level, c: Config)
  {
    c.maxQueueDepth > 0 && v.depth >= c.maxQueueDepth
  }

  /** The oldest item makes room, and does so even if the new one is turned away afterwards. */
  predicate Evicts(v: Level, c: Config)
  {
    Full(v, c) && c.policy.DropOldest?
  }

  function Roomy(levels: seq<Level>, p: nat, c: Config): seq<Level>
    requires p < |levels| && |levels[p].queue| == levels[p].depth
  {
    if Evicts(levels[p], c) then levels[p := Left(levels[p], Evicted)] else levels
  }

  predicate DepthsWithin(levels: seq<Level>, c: Config)
  {
    c.maxQueueDepth > 0 ==> forall p :: 0 <= p < |levels| ==> |levels[p].queue| <= c.maxQueueDepth
  }

  /** The levels after a request for p was accepted with this item, or refused. */
  function Outcome(levels: seq<Level>, p: nat, c: Config, item: Option<Item>): seq<Level>
    requires p < |levels| && |levels[p].queue| == levels[p].depth
  {
    var room := Roomy(levels, p, c);
    room[p := if item.Some? then Entered(room[p], item.value) else Refused(room[p])]
  }

  lemma OutcomeWithin(levels: seq<Level>, p: nat, c: Config, item: Option<Item>)
    requires p < |levels| && |levels[p].queue| == levels[p].depth && DepthsWithin(levels, c)
    requires item.Some? && Full(levels[p], c) ==> c.policy.DropOldest?
    ensures DepthsWithin(Outcome(levels, p, c, item), c)
  {
  }

  datatype Admission = Accepted | Rejected | Waiting

  /** The wait of the blocking policy: until there is room or a stop is requested. */
  predicate MustWait(v: Level, c: Config, stop: bool)
  {
    c.policy.Block? && Full(v, c) && !stop
  }

  /** The item as it goes in. */
  function Stamped(r: Admission, item: Item, id: nat, now: int): Option<Item>
  {
    if r.Accepted? then Some(item.(id := id, enqueueTime := now)) else None
  }

  /** Turned away before any limiter is asked. */
  predicate NoRoom(levels: seq<Level>, p: nat, c: Config, totalDepth: nat)
    requires p < |levels| && |levels[p].queue| == levels[p].depth
  {
    (Full(levels[p], c) && c.policy.Drop?) ||
    (c.maxTotalDepth > 0 && totalDepth - (if Evicts(levels[p], c) then 1 else 0) >= c.maxTotalDepth)
  }

  // ---------------------------------------------------------------- the limits, told by the queues alone

  predicate DepthsRight(levels: seq<Level>)
  {
    forall p :: 0 <= p < |levels| ==> levels[p].depth == |levels[p].queue|
  }

  /** The number of queued items. */
  function Backlog(levels: seq<Level>): nat
  {
    if |levels| == 0 then 0 else Backlog(levels[..|levels| - 1]) + |levels[|levels| - 1].queue|
  }

  lemma {:induction false} BacklogIsDepth(levels: seq<Level>)
    requires DepthsRight(levels)
    ensures Backlog(levels) == DepthSum(levels)
  {
    if |levels| > 0 {
      BacklogIsDepth(levels[..|levels| - 1]);
    }
  }

  lemma {:induction false} BacklogShrinks(before: seq<Level>, after: seq<Level>)
    requires |before| == |after| && forall l :: 0 <= l < |after| ==> |after[l].queue| <= |before[l].queue|
    ensures Backlog(after) <= Backlog(before)
  {
    if |after| > 0 {
      BacklogShrinks(before[..|before| - 1], after[..|after| - 1]);
    }
  }

  predicate TotalWithin(levels: seq<Level>, c: Config)
  {
    c.maxTotalDepth > 0 ==> Backlog(levels) <= c.maxTotalDepth
  }

  predicate AtLimit(q: seq<Item>, c: Config)
  {
    0 < c.maxQueueDepth <= |q|
  }

  /** The queue once the oldest item has made room, if it has to. */
  function Room(q: seq<Item>, c: Config): seq<Item>
  {
    if AtLimit(q, c) && c.policy.DropOldest? then q[1..] else q
  }

  /**
   Who is turned away for want of room: under the drop policy a request whose queue is at its limit, and any
   request that finds the total at its limit after an eviction.  Who waits: under the blocking policy a request
   whose queue is at its limit.
   */
  lemma TurnedAwayExactly(levels: seq<Level>, p: nat, c: Config)
    requires p < |levels| && DepthsRight(levels)
    ensures Roomy(levels, p, c)[p].queue == Room(levels[p].queue, c)
    ensures NoRoom(levels, p, c, DepthSum(levels)) <==>
            (AtLimit(levels[p].queue, c) && c.policy.Drop?) ||
            (c.maxTotalDepth > 0 && c.maxTotalDepth <= Backlog(Roomy(levels, p, c)))
    ensures MustWait(levels[p], c, false) <==> AtLimit(levels[p].queue, c) && c.policy.Block?
    ensures !MustWait(levels[p], c, true)
  {
    RoomyDepths(levels, p, c);
    TotalAfter(levels, p, c);
    BacklogIsDepth(Roomy(levels, p, c));
  }

  /**
   What any request that does not wait leaves in the queues: the oldest item goes if it has to make room, even when
   the new one is then turned away; the new one comes last; other queues stay.
   */
  lemma OutcomeQueues(levels: seq<Level>, p: nat, c: Config, item: Option<Item>)
    requires p < |levels| && DepthsRight(levels)
    ensures var r := Outcome(levels, p, c, item);
            |r| == |levels| && (forall l :: 0 <= l < |levels| && l != p ==> r[l] == levels[l]) &&
            r[p].queue == Room(levels[p].queue, c) + if item.Some? then [item.value] else []
  {
  }

  lemma RoomyDepths(levels: seq<Level>, p: nat, c: Config)
    requires p < |levels| && DepthsRight(levels)
    ensures DepthsRight(Roomy(levels, p, c))
  {
  }

  /** No request, whatever becomes of it, makes the queues together longer than the total limit. */
  lemma OutcomeWithinTotal(levels: seq<Level>, p: nat, c: Config, item: Option<Item>)
    requires p < |levels| && DepthsRight(levels) && TotalWithin(levels, c)
    requires item.Some? ==> !NoRoom(levels, p, c, DepthSum(levels))
    ensures TotalWithin(Outcome(levels, p, c, item), c)
  {
    var room, after := Roomy(levels, p, c), Outcome(levels, p, c, item);
    RoomyDepths(levels, p, c);
    TurnedAwayExactly(levels, p, c);
    BacklogShrinks(levels, room);
    BacklogIsDepth(room);
    BacklogIsDepth(after);
    DepthSumUpdate(room, p, after[p]);
  }

  /** And no dequeue does. */
  lemma DequeueWithinTotal(before: seq<Level>, after: seq<Level>, c: Config, env: Item -> Reading,
                           p: int, r: Option<Item>)
    requires |before| == |after| == |c.quanta| && DequeueOutcome(before, after, c, env, p, r) && TotalWithin(before, c)
    ensures TotalWithin(after, c)
  {
    forall l | 0 <= l < |after| ensures |after[l].queue| <= |before[l].queue| {
      assert l > p ==> Drained(before[l].queue, c.quanta[l], after[l].queue, env, c.ttlMs);
    }
    BacklogShrinks(before, after);
  }

  // ---------------------------------------------------------------- what a dequeue does to a level

  function Window(q: seq<Item>, quota: nat): (w: nat)
    ensures w <= |q| && w <= quota
  {
    if quota < |q| then quota else |q|
  }

  predicate ExpiredUpTo(q: seq<Item>, k: nat, env: Item -> Reading, ttlMs: int)
    requires k <= |q|
  {
    forall i :: 0 <= i < k ==> IsExpired(q[i], env(q[i]), ttlMs)
  }

  /** The whole quota window was expired and is gone. */
  predicate Drained(q: seq<Item>, quota: nat, q': seq<Item>, env: Item -> Reading, ttlMs: int)
  {
    ExpiredUpTo(q, Window(q, quota), env, ttlMs) && q' == q[Window(q, quota)..]
  }

  /** The first unexpired item of the window was delivered; only expired ones before it are gone with it. */
  ghost predicate Delivers(q: seq<Item>, quota: nat, q': seq<Item>, item: Item, env: Item -> Reading, ttlMs: int)
  {
    exists k :: 0 <= k < Window(q, quota) && ExpiredUpTo(q, k, env, ttlMs) && !IsExpired(q[k], env(q[k]), ttlMs) &&
                item == q[k] && q' == q[k + 1..]
  }

  /** The first k items of q, all expired, are gone and rest is left. */
  predicate Consumed(q: seq<Item>, k: nat, quota: nat, rest: seq<Item>, env: Item -> Reading, ttlMs: int)
  {
    k <= Window(q, quota) && rest == q[k..] && ExpiredUpTo(q, k, env, ttlMs)
  }

  lemma ConsumeOne(q: seq<Item>, k: nat, quota: nat, rest: seq<Item>, env: Item -> Reading, ttlMs: int)
    requires Consumed(q, k, quota, rest, env, ttlMs) && k < quota && |rest| > 0
    ensures IsExpired(rest[0], env(rest[0]), ttlMs) ==> Consumed(q, k + 1, quota, rest[1..], env, ttlMs)
    ensures !IsExpired(rest[0], env(rest[0]), ttlMs) ==> Delivers(q, quota, rest[1..], rest[0], env, ttlMs)
  {
    assert rest[0] == q[k] && rest[1..] == q[k + 1..];
  }

  /** Level by level from the top, until p delivers; p is -1 if none does. */
  ghost predicate DequeueOutcome(before: seq<Level>, after: seq<Level>, c: Config, env: Item -> Reading,
                                 p: int, r: Option<Item>)
    requires |before| == |after| == |c.quanta|
  {
    -1 <= p < |before| &&
    (forall l :: p < l < |before| ==> Drained(before[l].queue, c.quanta[l], after[l].queue, env, c.ttlMs)) &&
    (forall l :: 0 <= l < p ==> after[l] == before[l]) &&
    (p == -1 ==> r == None) &&
    (p >= 0 ==> r.Some? && Delivers(before[p].queue, c.quanta[p], after[p].queue, r.value, env, c.ttlMs))
  }

  /** The levels above level have been drained and the others not touched. */
  ghost predicate Scanned(before: seq<Level>, now: seq<Level>, c: Config, env: Item -> Reading, level: int)
  {
    |before| == |now| == |c.quanta| && -1 <= level < |now| && now[..level + 1] == before[..level + 1] &&
    forall l :: level < l < |now| ==> Drained(before[l].queue, c.quanta[l], now[l].queue, env, c.ttlMs)
  }

  lemma ScanStep(before: seq<Level>, now: seq<Level>, next: seq<Level>, c: Config, env: Item -> Reading,
                 level: int, r: Option<Item>)
    requires Scanned(before, now, c, env, level) && level >= 0 && |next| == |now| && next == now[level := next[level]]
    requires r == None ==> Drained(now[level].queue, c.quanta[level], next[level].queue, env, c.ttlMs)
    requires r.Some? ==> Delivers(now[level].queue, c.quanta[level], next[level].queue, r.value, env, c.ttlMs)
    ensures r == None ==> Scanned(before, next, c, env, level - 1)
    ensures r.Some? ==> DequeueOutcome(before, next, c, env, level, r)
  {
    assert now[..level + 1][level] == before[..level + 1][level];
    assert next[..level] == now[..level + 1][..level] && before[..level] == before[..level + 1][..level];
    assert forall l :: 0 <= l < level ==> next[l] == next[..level][l] && before[l] == before[..level][l];
    assert forall l :: level < l < |now| ==> next[l] == now[l];
  }

  /** No unexpired item is in any window. */
  predicate NothingToDeliver(levels: seq<Level>, c: Config, env: Item -> Reading)
    requires |levels| == |c.quanta|
  {
    forall l :: 0 <= l < |levels| ==> ExpiredUpTo(levels[l].queue, Window(levels[l].queue, c.quanta[l]), env, c.ttlMs)
  }

  /** The outcome is determined: null exactly when no window has an unexpired item. */
  lemma NullExactly(before: seq<Level>, after: seq<Level>, c: Config, env: Item -> Reading, p: int, r: Option<Item>)
    requires |before| == |after| == |c.quanta| && DequeueOutcome(before, after, c, env, p, r)
    ensures r == None <==> NothingToDeliver(before, c, env)
  {
    if p >= 0 {
      var q := before[p].queue;
      var k :| 0 <= k < Window(q, c.quanta[p]) && !IsExpired(q[k], env(q[k]), c.ttlMs);
      assert !ExpiredUpTo(q, Window(q, c.quanta[p]), env, c.ttlMs);
    }
  }

  /** A dequeue keeps every queue within the limit. */
  lemma DequeueWithin(before: seq<Level>, after: seq<Level>, c: Config, env: Item -> Reading, p: int, r: Option<Item>)
    requires |before| == |after| == |c.quanta| && DequeueOutcome(before, after, c, env, p, r) && DepthsWithin(before, c)
    ensures DepthsWithin(after, c)
  {
    forall l | 0 <= l < |after| ensures |after[l].queue| <= |before[l].queue| {
      assert l > p ==> Drained(before[l].queue, c.quanta[l], after[l].queue, env, c.ttlMs);
    }
  }

  /** Two outcomes of one dequeue are the same outcome. */
  lemma OutcomeIsUnique(before: seq<Level>, a: seq<Level>, b: seq<Level>, c: Config, env: Item -> Reading,
                        p: int, r: Option<Item>, p': int, r': Option<Item>)
    requires |before| == |a| == |b| == |c.quanta|
    requires DequeueOutcome(before, a, c, env, p, r) && DequeueOutcome(before, b, c, env, p', r')
    ensures p == p' && r == r' && forall l :: 0 <= l < |a| ==> a[l].queue == b[l].queue
  {
    if p < p' {
      NotBoth(before[p'].queue, c.quanta[p'], a[p'].queue, b[p'].queue, r'.value, env, c.ttlMs);
    } else if p' < p {
      NotBoth(before[p].queue, c.quanta[p], b[p].queue, a[p].queue, r.value, env, c.ttlMs);
    } else if p >= 0 {
      SameDelivery(before[p].queue, c.quanta[p], a[p].queue, r.value, b[p].queue, r'.value, env, c.ttlMs);
    }
  }

  lemma NotBoth(q: seq<Item>, quota: nat, a: seq<Item>, b: seq<Item>, item: Item, env: Item -> Reading, ttlMs: int)
    ensures !Drained(q, quota, a, env, ttlMs) || !Delivers(q, quota, b, item, env, ttlMs)
  {
  }

  lemma SameDelivery(q: seq<Item>, quota: nat, a: seq<Item>, x: Item, b: seq<Item>, y: Item,
                     env: Item -> Reading, ttlMs: int)
    requires Delivers(q, quota, a, x, env, ttlMs) && Delivers(q, quota, b, y, env, ttlMs)
    ensures a == b && x == y
  {
    var j :| 0 <= j < Window(q, quota) && ExpiredUpTo(q, j, env, ttlMs) &&
             !IsExpired(q[j], env(q[j]), ttlMs) && x == q[j] && a == q[j + 1..];
    var k :| 0 <= k < Window(q, quota) && ExpiredUpTo(q, k, env, ttlMs) &&
             !IsExpired(q[k], env(q[k]), ttlMs) && y == q[k] && b == q[k + 1..];
    assert j == k;
  }

  /** What a null result leaves behind. */
  predicate AllEmptied(levels: seq<Level>, c: Config)
    requires |levels| == |c.quanta|
  {
    forall l :: 0 <= l < |levels| ==> levels[l].queue[Window(levels[l].queue, c.quanta[l])..] == []
  }

  /** "Null means all queues are empty" holds whatever has expired exactly if every queue fits its quantum. */
  lemma NullMeansEmpty(levels: seq<Level>, c: Config)
    requires |levels| == |c.quanta|
    ensures (forall env :: NothingToDeliver(levels, c, env) ==> AllEmptied(levels, c)) <==>
            forall l :: 0 <= l < |levels| ==> |levels[l].queue| <= c.quanta[l]
  {
    if l :| 0 <= l < |levels| && |levels[l].queue| > c.quanta[l] {
      var env := (i: Item) => Reading(true, 0, 0);
      assert NothingToDeliver(levels, c, env);
      assert |levels[l].queue[Window(levels[l].queue, c.quanta[l])..]| > 0;
      assert !AllEmptied(levels, c);
    } else {
      assert AllEmptied(levels, c);
    }
  }

  // ---------------------------------------------------------------- item numbers

  /** Items in different places have different numbers. */
  predicate Apart(levels: seq<Level>, l: nat, i: nat, l': nat, i': nat)
    requires l < |levels| && i < |levels[l].queue| && l' < |levels| && i' < |levels[l'].queue|
  {
    (l == l' && i == i') || levels[l].queue[i].id != levels[l'].queue[i'].id
  }

  ghost predicate AllApart(levels: seq<Level>)
  {
    forall l: nat, i: nat, l': nat, i': nat {:trigger Apart(levels, l, i, l', i')} ::
      l < |levels| && i < |levels[l].queue| && l' < |levels| && i' < |levels[l'].queue| ==> Apart(levels, l, i, l', i')
  }

  /** Queued items have different numbers, all given out already. */
  ghost predicate Numbered(levels: seq<Level>, nextId: nat)
  {
    AllApart(levels) &&
    forall l: nat, i: nat :: l < |levels| && i < |levels[l].queue| ==> levels[l].queue[i].id < nextId
  }

  /** Each queue lost some of its oldest items, or none. */
  ghost predicate Shorter(before: seq<Level>, after: seq<Level>)
  {
    |before| == |after| && forall l: nat :: l < |after| ==> Suffix(before[l].queue, after[l].queue)
  }

  predicate Suffix(q: seq<Item>, q': seq<Item>)
  {
    |q'| <= |q| && q' == q[|q| - |q'|..]
  }

  lemma ShorterNumbered(before: seq<Level>, after: seq<Level>, nextId: nat, nextId': nat)
    requires Numbered(before, nextId) && Shorter(before, after) && nextId <= nextId'
    ensures Numbered(after, nextId')
  {
    forall l: nat, i: nat, l': nat, i': nat |
      l < |after| && i < |after[l].queue| && l' < |after| && i' < |after[l'].queue|
      ensures Apart(after, l, i, l', i')
    {
      var k, k' := |before[l].queue| - |after[l].queue|, |before[l'].queue| - |after[l'].queue|;
      assert Suffix(before[l].queue, after[l].queue) && Suffix(before[l'].queue, after[l'].queue);
      assert Apart(before, l, k + i, l', k' + i');
    }
    forall l: nat, i: nat | l < |after| && i < |after[l].queue| ensures after[l].queue[i].id < nextId' {
      assert Suffix(before[l].queue, after[l].queue);
    }
  }

  lemma EnteredNumbered(levels: seq<Level>, p: nat, item: Item, nextId: nat)
    requires Numbered(levels, nextId) && p < |levels| && item.id == nextId
    ensures Numbered(levels[p := Entered(levels[p], item)], nextId + 1)
  {
    var after := levels[p := Entered(levels[p], item)];
    forall l: nat, i: nat, l': nat, i': nat |
      l < |after| && i < |after[l].queue| && l' < |after| && i' < |after[l'].queue|
      ensures Apart(after, l, i, l', i')
    {
      if i < |levels[l].queue| && i' < |levels[l'].queue| {
        assert Apart(levels, l, i, l', i');
      }
    }
  }

  /** A request, accepted or not, keeps the numbers apart. */
  lemma OutcomeNumbered(levels: seq<Level>, p: nat, c: Config, item: Option<Item>, nextId: nat, nextId': nat)
    requires p < |levels| && |levels[p].queue| == levels[p].depth && Numbered(levels, nextId) && nextId <= nextId'
    requires item.Some? ==> item.value.id == nextId && nextId' == nextId + 1
    ensures Numbered(Outcome(levels, p, c, item), nextId')
  {
    var room := Roomy(levels, p, c);
    assert Shorter(levels, room);
    if item.Some? {
      ShorterNumbered(levels, room, nextId, nextId);
      EnteredNumbered(room, p, item.value, nextId);
    } else {
      ShorterNumbered(levels, Outcome(levels, p, c, item), nextId, nextId');
    }
  }

  lemma TakenSuffix(q: seq<Item>, quota: nat, q': seq<Item>, item: Item, env: Item -> Reading, ttlMs: int)
    requires Drained(q, quota, q', env, ttlMs) || Delivers(q, quota, q', item, env, ttlMs)
    ensures Suffix(q, q')
  {
    if Drained(q, quota, q', env, ttlMs) {
      DropIsSuffix(q, Window(q, quota));
    } else {
      var k :| 0 <= k < Window(q, quota) && q' == q[k + 1..];
      DropIsSuffix(q, k + 1);
    }
  }

  lemma DropIsSuffix(q: seq<Item>, k: nat)
    requires k <= |q|
    ensures Suffix(q, q[k..])
  {
  }

  /** And so does a dequeue. */
  lemma DequeueNumbered(before: seq<Level>, after: seq<Level>, c: Config, env: Item -> Reading, p: int,
                        r: Option<Item>, nextId: nat)
    requires |before| == |after| == |c.quanta| && DequeueOutcome(before, after, c, env, p, r)
    requires Numbered(before, nextId)
    ensures Numbered(after, nextId)
  {
    forall l: nat | l < |after| ensures Suffix(before[l].queue, after[l].queue) {
      if l >= p {
        var item := if r.Some? then r.value else Item(0, 0, false, 0, 0.0);
        TakenSuffix(before[l].queue, c.quanta[l], after[l].queue, item, env, c.ttlMs);
      }
    }
    ShorterNumbered(before, after, nextId, nextId);
  }

  // ---------------------------------------------------------------- the highest priority first

  /** p is the highest level with an unexpired item in its window. */
  predicate Serving(levels: seq<Level>, c: Config, env: Item -> Reading, p: nat)
    requires |levels| == |c.quanta|
  {
    p < |levels| && !ExpiredUpTo(levels[p].queue, Window(levels[p].queue, c.quanta[p]), env, c.ttlMs) &&
    forall l :: p < l < |levels| ==> ExpiredUpTo(levels[l].queue, Window(levels[l].queue, c.quanta[l]), env, c.ttlMs)
  }

  /** It is the level that a dequeue delivers from. */
  lemma ServingDelivers(before: seq<Level>, after: seq<Level>, c: Config, env: Item -> Reading, p: int,
                        r: Option<Item>, l: nat)
    requires |before| == |after| == |c.quanta| && DequeueOutcome(before, after, c, env, p, r)
    ensures Serving(before, c, env, l) <==> r.Some? && p == l
  {
    if p >= 0 {
      var q := before[p].queue;
      var k :| 0 <= k < Window(q, c.quanta[p]) && !IsExpired(q[k], env(q[k]), c.ttlMs);
      assert !ExpiredUpTo(q, Window(q, c.quanta[p]), env, c.ttlMs);
    }
    assert forall k :: p < k < |before| ==> Drained(before[k].queue, c.quanta[k], after[k].queue, env, c.ttlMs);
  }

  /** No level above p holds any unexpired item, in its window or behind it. */
  predicate NoneAbove(levels: seq<Level>, c: Config, env: Item -> Reading, p: nat)
  {
    forall l :: p < l < |levels| ==> ExpiredUpTo(levels[l].queue, |levels[l].queue|, env, c.ttlMs)
  }

  /**
   "The highest-priority non-expired item" comes out, whatever has expired, exactly if every queue fits its
   quantum or has only queues below it that a dequeue takes nothing from.
   */
  lemma HighestFirst(levels: seq<Level>, c: Config, nextId: nat)
    requires |levels| == |c.quanta| && Numbered(levels, nextId)
    ensures (forall env, p: nat {:trigger Serving(levels, c, env, p)} ::
               Serving(levels, c, env, p) ==> NoneAbove(levels, c, env, p)) <==>
            forall l, p :: 0 <= p < l < |levels| ==> |levels[l].queue| <= c.quanta[l] ||
                                                     Window(levels[p].queue, c.quanta[p]) == 0
  {
    if l, p :| 0 <= p < l < |levels| && |levels[l].queue| > c.quanta[l] && Window(levels[p].queue, c.quanta[p]) > 0 {
      var env := PassingOver(levels, c, nextId, l, p);
      assert Serving(levels, c, env, p);
    }
  }

  function FreshReading(i: Item): (r: Reading)
    ensures forall ttlMs :: !IsExpired(i, r, ttlMs)
  {
    Reading(false, i.deadline, i.enqueueTime)
  }

  /** Readings that deliver from p although l above it has an unexpired item behind its window. */
  lemma PassingOver(levels: seq<Level>, c: Config, nextId: nat, l: nat, p: nat) returns (env: Item -> Reading)
    requires |levels| == |c.quanta| && Numbered(levels, nextId) && p < l < |levels|
    requires |levels[l].queue| > c.quanta[l] && Window(levels[p].queue, c.quanta[p]) > 0
    ensures Serving(levels, c, env, p) && !NoneAbove(levels, c, env, p)
  {
    var behind := c.quanta[l];
    var x, y := levels[l].queue[behind], levels[p].queue[0];
    env := (i: Item) => if i == x || i == y then FreshReading(i) else Reading(true, 0, 0);
    forall k: nat, i: nat | p < k < |levels| && i < Window(levels[k].queue, c.quanta[k])
      ensures IsExpired(levels[k].queue[i], env(levels[k].queue[i]), c.ttlMs)
    {
      assert Apart(levels, k, i, l, behind) && Apart(levels, k, i, p, 0);
    }
    assert !IsExpired(x, env(x), c.ttlMs) && !IsExpired(y, env(y), c.ttlMs);
    assert !ExpiredUpTo(levels[l].queue, |levels[l].queue|, env, c.ttlMs);
  }

  /** The calls of a bulk dequeue: call i met states[i] and left states[i + 1]; only the last may return null. */
  ghost predicate BulkOutcome(states: seq<seq<Level>>, ps: seq<int>, out: seq<Item>, c: Config,
                              envs: nat -> Item -> Reading)
  {
    |states| == |ps| + 1 && |out| <= |ps| <= |out| + 1 &&
    (forall i :: 0 <= i < |states| ==> |states[i]| == |c.quanta|) &&
    (forall i: nat {:trigger ps[i]} :: i < |ps| ==>
      DequeueOutcome(states[i], states[i + 1], c, envs(i), ps[i], if i < |out| then Some(out[i]) else None))
  }

  lemma BulkStep(states: seq<seq<Level>>, ps: seq<int>, out: seq<Item>, c: Config, envs: nat -> Item -> Reading,
                 next: seq<Level>, p: int, r: Option<Item>)
    requires BulkOutcome(states, ps, out, c, envs) && |ps| == |out| && |next| == |c.quanta|
    requires DequeueOutcome(states[|ps|], next, c, envs(|ps|), p, r)
    ensures BulkOutcome(states + [next], ps + [p], if r.Some? then out + [r.value] else out, c, envs)
  {
    var states', ps', out' := states + [next], ps + [p], if r.Some? then out + [r.value] else out;
    forall i: nat | i < |ps'|
      ensures DequeueOutcome(states'[i], states'[i + 1], c, envs(i), ps'[i], if i < |out'| then Some(out'[i]) else None)
    {
      if i < |ps| {
        assert ps'[i] == ps[i] && states'[i + 1] == states[i + 1] && out'[i] == out[i];
      }
    }
  }

  // ---------------------------------------------------------------- the scheduler

  /** Would TryConsume of a bucket in this state succeed? */
  predicate Grants(b: TB.Bucket, cost: real, now: int)
  {
    cost <= 0.0 || TB.Filled(b, now).tokens >= cost
  }

  /** The bucket after a request for cost, if it was asked at all. */
  function Charged(b: TB.Bucket, asked: bool, cost: real, now: int): TB.Bucket
  {
    if asked then TB.After(b, TB.Consume(cost, now)) else b
  }

  function Charge(cost: real): real
  {
    if cost > 0.0 then cost else 0.0
  }

  /** A limiter grants a cost exactly if it is taken out of its bucket. */
  lemma GrantsExactly(b: TB.Bucket, cost: real, now: int)
    requires TB.Sane(b)
    ensures Grants(b, cost, now) <==> TB.Taken(b, TB.Consume(cost, now)) == Charge(cost)
  {
  }

  class Scheduler {
    const config: Config
    const globalLimiter: TB.Limiter?
    const limiters: seq<TB.Limiter?>
    var levels: seq<Level>
    var totalDepth: nat
    var nextId: nat
    ghost var histories: seq<History>
    /** Everything dequeues have returned, in order. */
    ghost var delivered: seq<Item>

    ghost predicate Valid()
      reads this
    {
      |levels| == |config.quanta| == |limiters| == LEVELS &&
      Ledger(levels, histories, config.ttlMs, totalDepth, |delivered|)
    }

    /** With a drop policy no queue is ever longer than the limit. */
    ghost predicate WithinLimit()
      requires Valid()
      reads this
    {
      DepthsWithin(levels, config)
    }

    /** And never are the queues together longer than the total limit. */
    ghost predicate WithinTotal()
      reads this`levels
    {
      TotalWithin(levels, config)
    }

    /** Queued items have different numbers. */
    ghost predicate NumbersApart()
      reads this`levels, this`nextId
    {
      Numbered(levels, nextId)
    }

    ghost predicate LimitersOk()
      reads if globalLimiter == null then {} else {globalLimiter}, set l: TB.Limiter | l in limiters :: l
    {
      (globalLimiter != null ==> TB.Sane(globalLimiter.Value()) && globalLimiter !in limiters) &&
      (forall l: TB.Limiter :: l in limiters ==> TB.Sane(l.Value()))
    }

    constructor (config: Config, globalLimiter: TB.Limiter?, limiters: seq<TB.Limiter?>)
      requires |config.quanta| == |limiters| == LEVELS
      ensures Valid() && WithinLimit() && WithinTotal() && NumbersApart()
      ensures totalDepth == 0 && nextId == 1 && delivered == []
      ensures this.config == config && this.globalLimiter == globalLimiter && this.limiters == limiters
      ensures forall p :: 0 <= p < LEVELS ==> levels[p] == Level([], 0, 0, 0, 0, 0)
    {
      this.config, this.globalLimiter, this.limiters := config, globalLimiter, limiters;
      totalDepth, nextId := 0, 1;
      levels := seq(LEVELS, _ => Level([], 0, 0, 0, 0, 0));
      histories, delivered := seq(LEVELS, _ => History([], [], 0)), [];
      new;
      NoDepth(levels);
      BacklogIsDepth(levels);
      NoDeliveries(histories);
      assert forall p :: 0 <= p < LEVELS ==> Balanced(levels[p], histories[p], config.ttlMs);
    }

    /** stats.dropped for a request that is turned away. */
    method Refuse(p: nat)
      requires Valid() && p < LEVELS
      modifies this`levels, this`histories
      ensures Valid() && Grows(old(histories), histories)
      ensures levels == old(levels)[p := Refused(old(levels)[p])]
    {
      ghost var h := histories[p].(refused := histories[p].refused + 1);
      assert Balanced(levels[p], histories[p], config.ttlMs);
      LedgerUpdate(levels, histories, config.ttlMs, totalDepth, |delivered|, p, Refused(levels[p]), h);
      histories := histories[p := h];
      levels := levels[p := Refused(levels[p])];
    }

    /** The item goes in. */
    method Admit(p: nat, item: Item)
      requires Valid() && p < LEVELS
      modifies this`levels, this`totalDepth, this`histories
      ensures Valid() && levels == old(levels)[p := Entered(old(levels)[p], item)] && Grows(old(histories), histories)
      ensures histories[p].entered == old(histories)[p].entered + [item]
    {
      ghost var h := histories[p].(entered := histories[p].entered + [item]);
      assert Balanced(levels[p], histories[p], config.ttlMs);
      EnterKeepsBalance(levels[p], histories[p], config.ttlMs, item);
      LedgerUpdate(levels, histories, config.ttlMs, totalDepth, |delivered|, p, Entered(levels[p], item), h);
      histories := histories[p := h];
      levels := levels[p := Entered(levels[p], item)];
      totalDepth := totalDepth + 1;
    }

    /** The capacity checks. */
    method MakeRoom(p: nat) returns (ok: bool)
      requires Valid() && p < LEVELS
      modifies this`levels, this`totalDepth, this`histories, this`delivered
      ensures Valid() && delivered == old(delivered) && ok == !NoRoom(old(levels), p, config, old(totalDepth))
      ensures levels == Roomy(old(levels), p, config)
      ensures Grows(old(histories), histories)
    {
      GrowsSelf(histories);
      if config.maxQueueDepth > 0 && levels[p].depth >= config.maxQueueDepth {
        if config.policy.Drop? {
          return false;
        } else if config.policy.DropOldest? {
          Leave(p, Left(levels[p], Evicted), Evicted);
        }
      }
      TotalAfter(old(levels), p, config);
      ok := !(config.maxTotalDepth > 0 && totalDepth >= config.maxTotalDepth);
    }

    /** The two rate limits; the global one is charged even if the level's then refuses. */
    method CheckLimits(p: nat, cost: real, now: int, now': int) returns (ok: bool)
      requires |limiters| == LEVELS && p < LEVELS && LimitersOk()
      modifies globalLimiter, limiters[p]
      ensures LimitersOk()
      ensures globalLimiter != null ==>
        globalLimiter.Value() == Charged(old(globalLimiter.Value()), true, cost, now)
      ensures ok == ((globalLimiter == null || Grants(old(globalLimiter.Value()), cost, now)) &&
                     (limiters[p] == null || Grants(old(limiters[p].Value()), cost, now')))
      ensures limiters[p] != null ==>
        limiters[p].Value() ==
          Charged(old(limiters[p].Value()), globalLimiter == null || Grants(old(globalLimiter.Value()), cost, now),
                  cost, now')
    {
      if globalLimiter != null {
        ok := globalLimiter.TryConsume(cost, now);
        if !ok {
          return;
        }
      }
      ok := true;
      if limiters[p] != null {
        ok := limiters[p].TryConsume(cost, now');
      }
    }

    /**
     EnqueueInternal.  A caller that has to wait for room is told so, with nothing changed, and calls again when
     woken.  memory says whether the insertion finds memory.
     */
    method Enqueue(item: Item, p: nat, now: int, first: int, second: int, stop: bool, memory: bool)
      returns (r: Admission)
      requires Valid() && p < LEVELS && LimitersOk()
      modifies this, globalLimiter, limiters[p]
      ensures Valid() && LimitersOk() && Grows(old(histories), histories) && delivered == old(delivered)
      ensures r.Waiting? <==> MustWait(old(levels)[p], config, stop)
      ensures r.Waiting? ==> levels == old(levels) && totalDepth == old(totalDepth) && nextId == old(nextId)
      ensures r.Accepted? ==> !NoRoom(old(levels), p, config, old(totalDepth)) && memory && nextId == old(nextId) + 1
      ensures !r.Waiting? && !NoRoom(old(levels), p, config, old(totalDepth)) ==>
        (r.Accepted? <==>
          memory && (globalLimiter == null || Grants(old(globalLimiter.Value()), item.cost, first)) &&
          (limiters[p] == null || Grants(old(limiters[p].Value()), item.cost, second)))
      ensures globalLimiter != null ==>
        globalLimiter.Value() == Charged(old(globalLimiter.Value()),
                                         !r.Waiting? && !NoRoom(old(levels), p, config, old(totalDepth)),
                                         item.cost, first)
      ensures limiters[p] != null ==>
        limiters[p].Value() ==
          Charged(old(limiters[p].Value()),
                  !r.Waiting? && !NoRoom(old(levels), p, config, old(totalDepth)) &&
                  (globalLimiter == null || Grants(old(globalLimiter.Value()), item.cost, first)),
                  item.cost, second)
      ensures !r.Waiting? ==> levels == Outcome(old(levels), p, config, Stamped(r, item, old(nextId), now))
      ensures old(WithinLimit()) && !(config.policy.Block? && stop) ==> WithinLimit()
      ensures nextId >= old(nextId) && (old(NumbersApart()) ==> NumbersApart())
      ensures old(WithinTotal()) ==> WithinTotal()
      ensures r.Accepted? ==>
        (globalLimiter != null ==>
           TB.Taken(old(globalLimiter.Value()), TB.Consume(item.cost, first)) == Charge(item.cost)) &&
        (limiters[p] != null ==>
           TB.Taken(old(limiters[p].Value()), TB.Consume(item.cost, second)) == Charge(item.cost))
    {
      if MustWait(levels[p], config, stop) {
        GrowsSelf(histories);
        return Waiting;
      }
      var ok := Decide(item, p, now, first, second, memory);
      r := if ok then Accepted else Rejected;
      if old(WithinLimit()) && !(config.policy.Block? && stop) {
        OutcomeWithin(old(levels), p, config, Stamped(r, item, old(nextId), now));
      }
      if old(WithinTotal()) {
        OutcomeWithinTotal(old(levels), p, config, Stamped(r, item, old(nextId), now));
      }
      if old(NumbersApart()) {
        OutcomeNumbered(old(levels), p, config, Stamped(r, item, old(nextId), now), old(nextId), nextId);
      }
    }

    /** The part of EnqueueInternal after the wait. */
    method Decide(item: Item, p: nat, now: int, first: int, second: int, memory: bool) returns (ok: bool)
      requires Valid() && p < LEVELS && LimitersOk()
      modifies this, globalLimiter, limiters[p]
      ensures Valid() && LimitersOk() && Grows(old(histories), histories) && delivered == old(delivered)
      ensures ok ==> !NoRoom(old(levels), p, config, old(totalDepth)) && memory && nextId == old(nextId) + 1
      ensures nextId >= old(nextId)
      ensures !NoRoom(old(levels), p, config, old(totalDepth)) ==>
        (ok <==> memory && (globalLimiter == null || Grants(old(globalLimiter.Value()), item.cost, first)) &&
                 (limiters[p] == null || Grants(old(limiters[p].Value()), item.cost, second)))
      ensures globalLimiter != null ==>
        globalLimiter.Value() == Charged(old(globalLimiter.Value()), !NoRoom(old(levels), p, config, old(totalDepth)),
                                         item.cost, first)
      ensures limiters[p] != null ==>
        limiters[p].Value() ==
          Charged(old(limiters[p].Value()),
                  !NoRoom(old(levels), p, config, old(totalDepth)) &&
                  (globalLimiter == null || Grants(old(globalLimiter.Value()), item.cost, first)),
                  item.cost, second)
      ensures levels == Outcome(old(levels), p, config,
                                Stamped(if ok then Accepted else Rejected, item, old(nextId), now))
    {
      ok := MakeRoom(p);
      if ok {
        ok := CheckLimits(p, item.cost, first, second);
      }
      ghost var hs := histories;
      if ok {
        ok := Stamp(item, p, now, memory);
      } else {
        Refuse(p);
      }
      GrowsTrans(old(histories), hs, histories);
    }

    /** Stamp the metadata and insert. */
    method Stamp(item: Item, p: nat, now: int, memory: bool) returns (ok: bool)
      requires Valid() && p < LEVELS
      modifies this
      ensures Valid() && ok == memory && nextId == old(nextId) + 1
      ensures Grows(old(histories), histories) && delivered == old(delivered)
      ensures levels == old(levels)[p := if ok
                                         then Entered(old(levels)[p], item.(id := old(nextId), enqueueTime := now))
                                         else Refused(old(levels)[p])]
    {
      var stamped := item.(id := nextId, enqueueTime := now);
      nextId := nextId + 1;
      ok := memory;
      if ok {
        Admit(p, stamped);
      } else {
        Refuse(p);
      }
    }

    /** The inner loop of DequeueInternal: up to a quantum of items of level l, expired ones discarded. */
    method TakeFrom(l: nat, env: Item -> Reading) returns (r: Option<Item>)
      requires Valid() && l < LEVELS
      modifies this`levels, this`totalDepth, this`histories, this`delivered
      ensures Valid() && Grows(old(histories), histories)
      ensures levels == old(levels)[l := levels[l]] && delivered == old(delivered) + if r.Some? then [r.value] else []
      ensures r == None ==> Drained(old(levels)[l].queue, config.quanta[l], levels[l].queue, env, config.ttlMs)
      ensures r.Some? ==> Delivers(old(levels)[l].queue, config.quanta[l], levels[l].queue, r.value, env, config.ttlMs)
    {
      ghost var queue := levels[l].queue;
      GrowsSelf(histories);
      var q := 0;
      while q < config.quanta[l]
        invariant Valid() && Grows(old(histories), histories)
        invariant levels == old(levels)[l := levels[l]] && delivered == old(delivered)
        invariant Consumed(queue, q, config.quanta[l], levels[l].queue, env, config.ttlMs)
      {
        if |levels[l].queue| == 0 {
          break;
        }
        ghost var hs := histories;
        ConsumeOne(queue, q, config.quanta[l], levels[l].queue, env, config.ttlMs);
        var item, expired := TakeOne(l, env);
        GrowsTrans(old(histories), hs, histories);
        if !expired {
          return Some(item);
        }
        q := q + 1;
      }
      return None;
    }

    /** The head of queue l, counted as dequeued, and as expired if it is. */
    method TakeOne(l: nat, env: Item -> Reading) returns (item: Item, expired: bool)
      requires Valid() && l < LEVELS && |levels[l].queue| > 0
      modifies this`levels, this`totalDepth, this`histories, this`delivered
      ensures Valid() && Grows(old(histories), histories)
      ensures item == old(levels)[l].queue[0] && expired == IsExpired(item, env(item), config.ttlMs)
      ensures levels == old(levels)[l := levels[l]] && levels[l].queue == old(levels)[l].queue[1..]
      ensures delivered == old(delivered) + if expired then [] else [item]
    {
      item := levels[l].queue[0];
      var reading := env(item);
      expired := IsExpired(item, reading, config.ttlMs);
      var fate := if expired then Expired(reading) else Delivered(reading);
      Leave(l, Left(levels[l], fate), fate);
    }

    /** DequeueInternal: levels from the highest down, each up to its quantum. */
    method Dequeue(env: Item -> Reading) returns (r: Option<Item>, ghost p: int)
      requires Valid()
      modifies this`levels, this`totalDepth, this`histories, this`delivered
      ensures Valid() && Grows(old(histories), histories)
      ensures DequeueOutcome(old(levels), levels, config, env, p, r)
      ensures old(NumbersApart()) ==> NumbersApart()
      ensures old(WithinTotal()) ==> WithinTotal()
      ensures old(WithinLimit()) ==> WithinLimit()
      ensures delivered == old(delivered) + if r.Some? then [r.value] else []
    {
      ghost var before := levels;
      GrowsSelf(histories);
      var level := LEVELS - 1;
      r, p := None, -1;
      while level >= 0
        invariant r == None && p == -1
        invariant Valid() && Grows(old(histories), histories) && delivered == old(delivered)
        invariant Scanned(before, levels, config, env, level)
      {
        ghost var hs, now := histories, levels;
        r := TakeFrom(level, env);
        GrowsTrans(old(histories), hs, histories);
        ScanStep(before, now, levels, config, env, level, r);
        if r.Some? {
          p := level;
          break;
        }
        level := level - 1;
      }
      if old(WithinLimit()) {
        DequeueWithin(before, levels, config, env, p, r);
      }
      if old(WithinTotal()) {
        DequeueWithinTotal(before, levels, config, env, p, r);
      }
      if old(NumbersApart()) {
        DequeueNumbered(before, levels, config, env, p, r, nextId);
      }
    }

    /**
     TryDequeueBulk: dequeue until max items are out or one call returns null.  states and ps record the levels
     before and after each call and the level that delivered.
     */
    method DequeueBulk(max: nat, envs: nat -> Item -> Reading)
      returns (out: seq<Item>, ghost states: seq<seq<Level>>, ghost ps: seq<int>)
      requires Valid()
      modifies this`levels, this`totalDepth, this`histories, this`delivered
      ensures Valid() && Grows(old(histories), histories) && |out| <= max && delivered == old(delivered) + out
      ensures BulkOutcome(states, ps, out, config, envs) && |ps| == if |out| < max then |out| + 1 else |out|
      ensures states[0] == old(levels) && states[|ps|] == levels && (old(NumbersApart()) ==> NumbersApart())
      ensures (old(WithinTotal()) ==> WithinTotal()) && (old(WithinLimit()) ==> WithinLimit())
    {
      out, states, ps := [], [levels], [];
      GrowsSelf(histories);
      while |out| < max
        invariant Valid() && Grows(old(histories), histories) && |out| <= max && delivered == old(delivered) + out
        invariant BulkOutcome(states, ps, out, config, envs) && |ps| == |out|
        invariant states[0] == old(levels) && states[|ps|] == levels && (old(NumbersApart()) ==> NumbersApart())
        invariant (old(WithinTotal()) ==> WithinTotal()) && (old(WithinLimit()) ==> WithinLimit())
        decreases max - |out|
      {
        ghost var hs, now := histories, levels;
        var item, p := Dequeue(envs(|out|));
        GrowsTrans(old(histories), hs, histories);
        BulkStep(states, ps, out, config, envs, levels, p, item);
        states, ps := states + [levels], ps + [p];
        if item == None {
          break;
        }
        out := out + [item.value];
      }
    }

    /** Take the head of queue p out, with the counters that go with its fate. */
    method Leave(p: nat, v: Level, ghost fate: Fate)
      requires Valid() && p < LEVELS && |levels[p].queue| > 0 && v == Left(levels[p], fate)
      requires Honest(Exit(levels[p].queue[0], fate), config.ttlMs)
      modifies this`levels, this`totalDepth, this`histories, this`delivered
      ensures Valid() && levels == old(levels)[p := v] && Grows(old(histories), histories)
      ensures histories[p].left == old(histories)[p].left + [Exit(old(levels)[p].queue[0], fate)]
      ensures delivered == old(delivered) + if fate.Delivered? then [old(levels)[p].queue[0]] else []
    {
      ghost var item := levels[p].queue[0];
      ghost var h := Parted(histories[p], item, fate);
      assert Balanced(levels[p], histories[p], config.ttlMs);
      PopKeepsBalance(levels[p], histories[p], config.ttlMs, fate);
      LeftAppend(histories[p].left, Exit(item, fate));
      LedgerUpdate(levels, histories, config.ttlMs, totalDepth, |delivered|, p, v, h);
      histories := histories[p := h];
      levels := levels[p := v];
      totalDepth := totalDepth - 1;
      delivered := delivered + if fate.Delivered? then [item] else [];
    }
  }

  lemma TotalAfter(levels: seq<Level>, p: nat, c: Config)
    requires p < |levels| && |levels[p].queue| == levels[p].depth
    ensures DepthSum(Roomy(levels, p, c)) == DepthSum(levels) - if Evicts(levels[p], c) then 1 else 0
  {
    if Evicts(levels[p], c) {
      DepthSumUpdate(levels, p, Left(levels[p], Evicted));
    }
  }

  lemma {:induction false} NoDepth(levels: seq<Level>)
    requires forall p :: 0 <= p < |levels| ==> levels[p].depth == 0
    ensures DepthSum(levels) == 0
  {
    if |levels| > 0 {
      NoDepth(levels[..|levels| - 1]);
    }
  }

  /** The default quanta. */
  const QUANTA: seq<nat> := [1, 2, 4, 8, 16, 32]

  /** Two items of the lowest priority, both past their deadline: a dequeue returns null and leaves one behind. */
  method NullWithItemLeft() returns (s: Scheduler, r: Option<Item>)
    ensures fresh(s) && s.Valid() && r == None && |s.levels[0].queue| == 1
  {
    s := new Scheduler(Config(4096, 0, Drop, QUANTA, 0), null, [null, null, null, null, null, null]);
    var item := Item(0, 0, true, 5, 1.0);
    var first := s.Enqueue(item, 0, 1, 1, 1, false, true);
    var second := s.Enqueue(item, 0, 2, 2, 2, false, true);
    ghost var before := s.levels;
    assert before[0].queue == [item.(id := 1, enqueueTime := 1), item.(id := 2, enqueueTime := 2)];
    ghost var p;
    var env := (i: Item) => Reading(false, 10, 10);
    r, p := s.Dequeue(env);
    assert NothingToDeliver(before, s.config, env);
    NullExactly(before, s.levels, s.config, env, p, r);
    assert Drained(before[0].queue, 1, s.levels[0].queue, env, 0);
  }

  /** An item enters a scheduler without limits. */
  method Put(s: Scheduler, item: Item, p: nat, now: int)
    requires s.Valid() && p < LEVELS && s.globalLimiter == null && s.limiters == NOLIMITERS && s.config == UNLIMITED
    modifies s
    ensures s.Valid() && s.nextId == old(s.nextId) + 1 && |s.levels| == |old(s.levels)|
    ensures s.levels[p].queue == old(s.levels)[p].queue + [item.(id := old(s.nextId), enqueueTime := now)]
    ensures forall l :: 0 <= l < LEVELS && l != p ==> s.levels[l] == old(s.levels)[l]
  {
    var r := s.Enqueue(item, p, now, now, now, false, true);
  }

  const NOLIMITERS: seq<TB.Limiter?> := [null, null, null, null, null, null]
  const UNLIMITED := Config(0, 0, Drop, [1, 1, 1, 1, 1, 1], 0)

  /**
   An expired and a fresh item of priority 1 and a fresh one of priority 0, with quanta of one: a dequeue passes
   over the fresh item of priority 1.
   */
  method LowerFirst() returns (s: Scheduler, r: Option<Item>)
    ensures fresh(s) && s.Valid() && |s.levels[1].queue| == 1 && r.Some? && r.value.id == 3
    ensures !IsExpired(s.levels[1].queue[0], Reading(false, 10, 10), 0)
  {
    s := new Scheduler(UNLIMITED, null, NOLIMITERS);
    Put(s, Item(0, 0, true, 5, 1.0), 1, 1);
    Put(s, Item(0, 0, true, 50, 1.0), 1, 2);
    Put(s, Item(0, 0, true, 50, 1.0), 0, 3);
    r := TakeAt(s, 10);
  }

  method TakeAt(s: Scheduler, now: int) returns (r: Option<Item>)
    requires s.Valid() && s.config == UNLIMITED && |s.levels[1].queue| == 2 && |s.levels[0].queue| == 1
    requires forall l :: 2 <= l < LEVELS ==> s.levels[l].queue == []
    requires IsExpired(s.levels[1].queue[0], Reading(false, now, now), 0)
    requires !IsExpired(s.levels[0].queue[0], Reading(false, now, now), 0)
    modifies s
    ensures s.Valid() && s.levels[1].queue == old(s.levels)[1].queue[1..]
    ensures r == Some(old(s.levels)[0].queue[0])
  {
    ghost var before, p := s.levels, -1;
    var env := (i: Item) => Reading(false, now, now);
    r, p := s.Dequeue(env);
    assert !ExpiredUpTo(before[0].queue, 1, env, 0);
    assert Serving(before, UNLIMITED, env, 0);
    ServingDelivers(before, s.levels, UNLIMITED, env, p, r, 0);
    assert Drained(before[1].queue, 1, s.levels[1].queue, env, 0);
  }
}
