/**
 The implicit producer's block index as a value (yacul/concurrency/os_lockless_queue.h): what its
 entries hold, next to the plain map from block number to block that it stands for.
 */
module BlockLog {
  import opened BlockKeys

  type Block = nat        // a block's address
  const NULL: Block := 0

  /** What an entry holds. */
  datatype Cell = Cell(key: nat, value: Block)

  /**
   nb is the next block to insert: the entry at tail is block nb - 1's.  Blocks klo..khi - 1 are
   keyed; those from nb on were rewound.  cells are the entries' contents, oldest first, ending
   with block khi - 1's.  live is what a plain map from block number to block would hold.
   */
  datatype Log = Log(nb: int, klo: int, khi: int, cells: seq<Cell>, live: map<int, Block>)

  /** The cell of block m: keyed from klo on, with the block the plain map gives, or null. */
  predicate Holds(c: Cell, m: int, klo: int, key: int -> nat, live: map<int, Block>)
  {
    if m < klo then c.key == INVALID
    else c.key == key(m) && c.value == if m in live then live[m] else NULL
  }

  ghost predicate Agrees(s: Log, key: int -> nat)
  {
    s.klo <= s.nb <= s.khi <= s.klo + |s.cells| && |s.cells| > 0 &&
    (forall p {:trigger HoldsAt(s, p, key)} :: 0 <= p < |s.cells| ==> HoldsAt(s, p, key)) &&
    (forall m :: m in s.live ==> s.klo <= m < s.khi && s.live[m] != NULL)
  }

  predicate HoldsAt(s: Log, p: int, key: int -> nat)
    requires 0 <= p < |s.cells|
  {
    Holds(s.cells[p], s.khi - |s.cells| + p, s.klo, key, s.live)
  }

  /** No rewound entry still holds a block. */
  ghost predicate Settled(s: Log)
  {
    Older(s.live, s.nb)
  }

  ghost predicate Older(live: map<int, Block>, first: int)
  {
    forall m :: m in live ==> m < first
  }

  /** An index without blocks. */
  lemma EmptyAgrees(cells: seq<Cell>, first: int, key: int -> nat)
    requires |cells| > 0 && forall i :: 0 <= i < |cells| ==> cells[i].key == INVALID
    ensures Agrees(Log(first, first, first, cells, map[]), key)
  {
    var s := Log(first, first, first, cells, map[]);
    forall p | 0 <= p < |cells| ensures HoldsAt(s, p, key) {
    }
  }

  /** Where the cell of block m is. */
  function Position(s: Log, m: int): int
  {
    m - s.khi + |s.cells|
  }

  /** Where the next tail cell is. */
  function NextPosition(s: Log): (p: int)
  {
    if s.khi == s.nb then 0 else Position(s, s.nb)
  }

  /** The next tail entry is not in use. */
  predicate CanAdvance(s: Log)
  {
    s.khi > s.nb || s.nb - |s.cells| !in s.live
  }

  /** The first element moved to the end. */
  function Turned<T>(s: seq<T>): (r: seq<T>)
    requires |s| > 0
    ensures |r| == |s|
  {
    s[1..] + [s[0]]
  }

  /** live with block m present unless the pointer is null. */
  function Noted(live: map<int, Block>, m: int, b: Block): (r: map<int, Block>)
    ensures forall x :: x != m && x in live ==> x in r && r[x] == live[x]
    ensures forall x :: x in r && x != m ==> x in live
    ensures m in r <==> b != NULL
    ensures m in r ==> r[m] == b
  {
    if b == NULL then live - {m} else live[m := b]
  }

  /** Block nb keyed; its value is what the entry had. */
  function Advanced(s: Log, key: int -> nat): (r: Log)
    requires 0 <= NextPosition(s) < |s.cells|
  {
    var p := NextPosition(s);
    var cells := s.cells[p := Cell(key(s.nb), s.cells[p].value)];
    var khi := Max(s.khi, s.nb + 1);
    Log(s.nb + 1, Max(s.klo, khi - |cells|), khi, if s.khi == s.nb then Turned(cells) else cells,
        Noted(s.live, s.nb, s.cells[p].value))
  }

  lemma AdvanceAgrees(s: Log, key: int -> nat)
    requires Agrees(s, key) && Settled(s) && CanAdvance(s)
    ensures Agrees(Advanced(s, key), key) && Settled(Advanced(s, key))
  {
    var n, r := |s.cells|, Advanced(s, key);
    var shift := r.khi - s.khi;
    forall q | 0 <= q < n ensures HoldsAt(r, q, key) {
      if r.khi - n + q != s.nb {
        assert r.cells[q] == s.cells[q + shift];
        assert HoldsAt(s, q + shift, key);
      }
    }
  }

  /** Block m's value replaced. */
  function Stored(s: Log, m: int, b: Block): (r: Log)
    requires 0 <= Position(s, m) < |s.cells|
  {
    var p := Position(s, m);
    s.(cells := s.cells[p := Cell(s.cells[p].key, b)], live := Noted(s.live, m, b))
  }

  lemma StoreAgrees(s: Log, key: int -> nat, m: int, b: Block)
    requires Agrees(s, key) && s.klo <= m < s.khi
    ensures Agrees(Stored(s, m, b), key)
  {
    var n, r := |s.cells|, Stored(s, m, b);
    forall q | 0 <= q < n ensures HoldsAt(r, q, key) {
      assert HoldsAt(s, q, key);
    }
  }

  /** Block nb - 1 is no longer the tail's; it stays keyed. */
  function Rewound(s: Log): (r: Log)
  {
    s.(nb := s.nb - 1)
  }

  lemma RewindAgrees(s: Log, key: int -> nat)
    requires Agrees(s, key) && s.nb > s.klo
    ensures Agrees(Rewound(s), key)
  {
    forall p | 0 <= p < |s.cells| ensures HoldsAt(Rewound(s), p, key) {
      assert HoldsAt(s, p, key);
    }
  }

  /** Unkeyed cells put in front. */
  function Grown(s: Log, more: seq<Cell>): (r: Log)
  {
    s.(cells := more + s.cells)
  }

  lemma GrowAgrees(s: Log, key: int -> nat, more: seq<Cell>)
    requires Agrees(s, key) && s.klo == s.khi - |s.cells|
    requires forall i :: 0 <= i < |more| ==> more[i].key == INVALID
    ensures Agrees(Grown(s, more), key)
  {
    var n, k, r := |s.cells|, |more|, Grown(s, more);
    forall q | 0 <= q < n + k ensures HoldsAt(r, q, key) {
      if q >= k {
        assert HoldsAt(s, q - k, key);
      }
    }
  }

  /** s became r by keying block s.nb with value v, with or without growth. */
  ghost predicate Inserted(s: Log, r: Log, v: Block)
  {
    r.nb == s.nb + 1 && r.khi == Max(s.khi, r.nb) && r.klo >= s.klo && r.live == Noted(s.live, s.nb, v)
  }

  function Without(live: map<int, Block>, lo: int, hi: int): (r: map<int, Block>)
  {
    map m | m in live && !(lo <= m < hi) :: live[m]
  }

  lemma WithoutNext(live: map<int, Block>, lo: int, hi: int)
    requires lo <= hi
    ensures Noted(Without(live, lo, hi), hi, NULL) == Without(live, lo, hi + 1)
  {
  }

  /** A key that was not there, noted and overwritten. */
  lemma NotedOver(live: map<int, Block>, m: int, v: Block, b: Block)
    requires m !in live
    ensures Noted(Noted(live, m, v), m, b) == if b == NULL then live else live[m := b]
  {
  }

  /** The block just keyed given its value b, or taken back if that is null. */
  lemma Filled(before: Log, s: Log, v: Block, b: Block)
    requires Inserted(before, s, v) && Settled(before) && 0 <= Position(s, s.nb - 1) < |s.cells|
    ensures var r := if b == NULL then Stored(Rewound(s), s.nb - 1, NULL) else Stored(s, s.nb - 1, b);
            Settled(r) && r.nb == before.nb + (if b == NULL then 0 else 1) &&
            r.klo == s.klo && r.khi == s.khi && |r.cells| == |s.cells| &&
            r.live == if b == NULL then before.live else before.live[before.nb := b]
  {
    NotedOver(before.live, before.nb, v, b);
  }

  /** A consumer is done with block m, the one that the element index belongs to. */
  datatype Release = Release(index: nat, m: int)

  /** What one round of enqueue_bulk's allocation loop meets; the releases come before it. */
  datatype Step = Step(full: bool, malloc: nat -> bool, garbage: nat -> Block, block: Block, releases: seq<Release>)

  function Blocks(rs: seq<Release>): set<int>
  {
    set r | r in rs :: r.m
  }

  /** live without what is released before and during the steps. */
  function Remaining(live: map<int, Block>, steps: seq<Step>): map<int, Block>
  {
    if |steps| == 0 then live
    else Remaining(live, steps[..|steps| - 1]) - Blocks(steps[|steps| - 1].releases)
  }

  lemma RemainingNext(live: map<int, Block>, steps: seq<Step>, i: nat)
    requires i < |steps|
    ensures Remaining(live, steps[..i + 1]) == Remaining(live, steps[..i]) - Blocks(steps[i].releases)
  {
    assert steps[..i + 1][..i] == steps[..i];
  }

  lemma {:induction false} RemainingWithin(live: map<int, Block>, steps: seq<Step>)
    ensures forall m :: m in Remaining(live, steps) ==> m in live
  {
    if |steps| > 0 {
      RemainingWithin(live, steps[..|steps| - 1]);
    }
  }

  /** The releases are of different blocks that are there, older than first, and named by an element index. */
  ghost predicate Releasable(live: map<int, Block>, first: int, rs: seq<Release>, blockSize: nat)
  {
    blockSize <= W &&
    (forall r <- rs :: r.m in live && r.m < first && BlockStart(r.index, blockSize) == Key(r.m, blockSize)) &&
    forall i, j :: 0 <= i < j < |rs| ==> rs[i].m != rs[j].m
  }

  predicate Works(s: Step)
  {
    !s.full && s.block != NULL
  }


  /** live with the steps' blocks as blocks first and up. */
  function WithAll(live: map<int, Block>, first: int, steps: seq<Step>): (r: map<int, Block>)
  {
    if |steps| == 0 then live
    else WithAll(live, first, steps[..|steps| - 1])[first + |steps| - 1 := steps[|steps| - 1].block]
  }

  /** The map that round i of the loop begun at s meets, the rounds before it having gone well. */
  function LiveAt(s: Log, steps: seq<Step>, i: nat): map<int, Block>
    requires i < |steps|
  {
    WithAll(Remaining(s.live, steps[..i + 1]), s.nb, steps[..i])
  }

  /** Round i finds a free entry in an index of size cap. */
  predicate RoomAt(s: Log, steps: seq<Step>, i: nat, cap: nat)
    requires i < |steps|
  {
    s.khi > s.nb + i || s.nb + i - cap !in LiveAt(s, steps, i)
  }

  /** The size of the index that round i meets. */
  function CapAt(s: Log, steps: seq<Step>, i: nat): nat
    requires i <= |steps|
  {
    if i == 0 then |s.cells|
    else
      var cap := CapAt(s, steps, i - 1);
      if RoomAt(s, steps, i - 1, cap) then cap else 2 * cap
  }

  /** Round i goes well, told by where the loop began and what its rounds meet. */
  predicate Succeeds(s: Log, steps: seq<Step>, i: nat)
    requires i < |steps|
  {
    var cap := CapAt(s, steps, i);
    Works(steps[i]) && (RoomAt(s, steps, i, cap) || steps[i].malloc(2 * cap))
  }

  /** The block that was inserted a whole turn of the index before round i has been released by then. */
  predicate ReleasedInTime(s: Log, steps: seq<Step>, i: nat)
    requires i < |steps|
  {
    s.nb + i - |s.cells| !in LiveAt(s, steps, i)
  }

  lemma ReleasedMeansRoom(s: Log, steps: seq<Step>, i: nat)
    requires i < |steps| && ReleasedInTime(s, steps, i)
    ensures RoomAt(s, steps, i, |s.cells|)
  {
  }

  /** While consumers keep up, the index never grows and asks for no memory. */
  lemma {:induction false} SteadyState(s: Log, steps: seq<Step>, i: nat)
    requires i <= |steps| && forall j: nat :: j < |steps| ==> ReleasedInTime(s, steps, j)
    ensures CapAt(s, steps, i) == |s.cells|
    ensures i < |steps| ==> (Succeeds(s, steps, i) <==> Works(steps[i]))
  {
    if i > 0 {
      SteadyState(s, steps, i - 1);
      ReleasedMeansRoom(s, steps, i - 1);
    }
    if i < |steps| {
      ReleasedMeansRoom(s, steps, i);
    }
  }

  /** The first round that does not go well. */
  predicate FirstFailure(s: Log, steps: seq<Step>, i: int)
  {
    0 <= i < |steps| && !Succeeds(s, steps, i) && forall j :: 0 <= j < i ==> Succeeds(s, steps, j)
  }

  /** The size of the index after an attempt to insert. */
  function SizeAfter(s: Log, malloc: nat -> bool): nat
  {
    if !CanAdvance(s) && malloc(2 * |s.cells|) then 2 * |s.cells| else |s.cells|
  }

  /** r is where the loop begun at s has come to before the releases of round i. */
  ghost predicate Reached(s: Log, steps: seq<Step>, i: nat, r: Log)
    requires i <= |steps|
  {
    r.nb == s.nb + i && r.khi == Max(s.khi, r.nb) && |r.cells| == CapAt(s, steps, i) &&
    r.live == WithAll(Remaining(s.live, steps[..i]), s.nb, steps[..i]) &&
    forall j :: 0 <= j < i ==> Succeeds(s, steps, j)
  }

  /** And after them. */
  ghost predicate Facing(s: Log, steps: seq<Step>, i: nat, r: Log)
    requires i < |steps|
  {
    r.nb == s.nb + i && r.khi == Max(s.khi, r.nb) && |r.cells| == CapAt(s, steps, i) &&
    r.live == LiveAt(s, steps, i) && forall j :: 0 <= j < i ==> Succeeds(s, steps, j)
  }

  /** The loop is over, after round i failed or all rounds went well. */
  ghost predicate Stopped(s: Log, steps: seq<Step>, i: nat, r: Log)
  {
    if i < |steps| then FirstFailure(s, steps, i) && r.nb == s.nb + i && r.live == LiveAt(s, steps, i)
    else i == |steps| && Reached(s, steps, i, r)
  }

  /** How far the loop has come: before round i, or stopped by it. */
  ghost predicate Progress(s: Log, steps: seq<Step>, i: nat, r: Log, ok: bool)
  {
    i <= |steps| && if ok then Reached(s, steps, i, r) else Stopped(s, steps, i, r)
  }

  /** Every round went well: their blocks are there, and the index has grown whenever a round found it full. */
  ghost predicate AddedAll(s: Log, steps: seq<Step>, r: Log)
  {
    (forall i :: 0 <= i < |steps| ==> Succeeds(s, steps, i)) && r.nb == s.nb + |steps| &&
    |r.cells| == CapAt(s, steps, |steps|) && r.live == WithAll(Remaining(s.live, steps), s.nb, steps)
  }

  /** A round failed: only what was released until then has changed. */
  ghost predicate AddedNone(s: Log, steps: seq<Step>, r: Log)
  {
    r.nb == s.nb && exists i :: FirstFailure(s, steps, i) && r.live == Remaining(s.live, steps[..i + 1])
  }

  lemma StartReached(s: Log, steps: seq<Step>)
    requires s.nb <= s.khi
    ensures Reached(s, steps, 0, s)
  {
  }

  lemma AllAdded(s: Log, steps: seq<Step>, r: Log)
    requires Stopped(s, steps, |steps|, r)
    ensures AddedAll(s, steps, r)
  {
    assert steps[..|steps|] == steps;
  }

  /** What Revert needs to know of the failing round. */
  lemma NoneAdded(s: Log, steps: seq<Step>, i: nat)
    requires Settled(s) && FirstFailure(s, steps, i)
    ensures Older(Remaining(s.live, steps[..i + 1]), s.nb)
  {
    RemainingWithin(s.live, steps[..i + 1]);
  }

  lemma FacingAdvances(s: Log, steps: seq<Step>, i: nat, r: Log)
    requires i < |steps| && Facing(s, steps, i, r)
    ensures CanAdvance(r) == RoomAt(s, steps, i, |r.cells|)
    ensures Succeeds(s, steps, i) == (Works(steps[i]) && (CanAdvance(r) || steps[i].malloc(2 * |r.cells|)))
  {
  }

  lemma FacingReaches(s: Log, steps: seq<Step>, i: nat, r: Log, r': Log)
    requires i < |steps| && Facing(s, steps, i, r) && Succeeds(s, steps, i)
    requires r'.nb == r.nb + 1 && r'.khi == Max(r.khi, r'.nb) && |r'.cells| == SizeAfter(r, steps[i].malloc)
    requires r'.live == r.live[r.nb := steps[i].block]
    ensures Reached(s, steps, i + 1, r')
  {
    FacingAdvances(s, steps, i, r);
    WithAllNext(Remaining(s.live, steps[..i + 1]), s.nb, steps, i);
  }

  /** A block that no round releases is still there after the loop, with or without the undo. */
  lemma StillLive(s: Log, r: Log, steps: seq<Step>, m: int)
    requires m in s.live && m < s.nb && forall x <- steps :: m !in Blocks(x.releases)
    requires AddedAll(s, steps, r) || AddedNone(s, steps, r)
    ensures m in r.live && r.live[m] == s.live[m]
  {
    if AddedAll(s, steps, r) {
      RemainingKeeps(s.live, steps, m);
      WithAllKeeps(Remaining(s.live, steps), s.nb, steps, m);
    } else {
      var i :| FirstFailure(s, steps, i) && r.live == Remaining(s.live, steps[..i + 1]);
      RemainingKeeps(s.live, steps[..i + 1], m);
    }
  }

  lemma {:induction false} RemainingKeeps(live: map<int, Block>, steps: seq<Step>, m: int)
    requires m in live && forall x <- steps :: m !in Blocks(x.releases)
    ensures m in Remaining(live, steps) && Remaining(live, steps)[m] == live[m]
  {
    if |steps| > 0 {
      RemainingKeeps(live, steps[..|steps| - 1], m);
      assert steps[|steps| - 1] in steps;
    }
  }

  lemma {:induction false} WithAllKeeps(live: map<int, Block>, first: int, steps: seq<Step>, m: int)
    requires m in live && m < first
    ensures var r := WithAll(live, first, steps); m in r && r[m] == live[m]
  {
    if |steps| > 0 {
      WithAllKeeps(live, first, steps[..|steps| - 1], m);
    }
  }

  /** Releasing an older block commutes with adding new ones. */
  lemma {:induction false} WithAllLess(live: map<int, Block>, first: int, steps: seq<Step>, m: int)
    requires m < first
    ensures m in live ==> m in WithAll(live, first, steps)
    ensures WithAll(live, first, steps) - {m} == WithAll(live - {m}, first, steps)
  {
    if |steps| > 0 {
      WithAllLess(live, first, steps[..|steps| - 1], m);
    }
  }

  lemma WithAllNext(live: map<int, Block>, first: int, steps: seq<Step>, i: nat)
    requires i < |steps|
    ensures WithAll(live, first, steps[..i + 1]) == WithAll(live, first, steps[..i])[first + i := steps[i].block]
  {
    assert steps[..i + 1][..i] == steps[..i];
  }

  lemma {:induction false} WithAllContents(live: map<int, Block>, first: int, steps: seq<Step>)
    requires Older(live, first)
    ensures var r := WithAll(live, first, steps);
            (forall m :: first <= m < first + |steps| ==> m in r && r[m] == steps[m - first].block) &&
            Without(r, first, first + |steps|) == live
  {
    if |steps| > 0 {
      var n := |steps| - 1;
      WithAllContents(live, first, steps[..n]);
      var s, r := WithAll(live, first, steps[..n]), WithAll(live, first, steps);
      assert Without(r, first, first + n + 1) == Without(s, first, first + n);
      forall m | first <= m < first + n ensures m in r && r[m] == steps[m - first].block {
        assert steps[..n][m - first] == steps[m - first];
      }
    }
  }

  /** What the cell of a keyed block says. */
  lemma KeyedCell(s: Log, key: int -> nat, m: int)
    requires Agrees(s, key) && s.klo <= m < s.khi
    ensures 0 <= Position(s, m) < |s.cells|
    ensures var c := s.cells[Position(s, m)];
            c.key == key(m) && c.value == if m in s.live then s.live[m] else NULL
  {
    assert HoldsAt(s, Position(s, m), key);
  }

  /** The test for a free entry decides whether the tail can advance. */
  lemma NextCell(s: Log, key: int -> nat)
    requires Agrees(s, key) && Settled(s) && key(s.nb - |s.cells|) != INVALID
    ensures 0 <= NextPosition(s) < |s.cells|
    ensures var c := s.cells[NextPosition(s)];
            (c.key == INVALID || c.value == NULL) <==> CanAdvance(s)
  {
    assert HoldsAt(s, NextPosition(s), key);
  }

  function Max(a: int, b: int): (r: int)
    ensures r >= a && r >= b && (r == a || r == b)
  {
    if a > b then a else b
  }
}
