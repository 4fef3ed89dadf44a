/**
 The implicit producer's block index (yacul/concurrency/os_lockless_queue.h): a circular array of
 entries, each keyed by the first element index of a block, with the newest block at tail.  A full
 index is replaced by one of twice the size; consumers may still be using the old one.
 */
module BlockIndex {
  import opened Masks
  import opened BlockKeys
  import opened BlockLog

  class Entry {
    var key: nat
    var value: Block

    constructor (key: nat, value: Block)
      ensures this.key == key && this.value == value
    {
      this.key, this.value := key, value;
    }
  }

  /** The arrays are filled before the header is published and never written again. */
  class Header {
    const capacity: nat
    const index: seq<Entry>
    var tail: nat

    constructor (index: seq<Entry>, tail: nat)
      ensures this.index == index && capacity == |index| && this.tail == tail
    {
      this.index, capacity, this.tail := index, |index|, tail;
    }
  }

  // ---------------------------------------------------------------- the circular array

  /** The slot after that of the block rewound entries from the tail. */
  function EndSlot(tail: nat, rewound: int, n: nat): int
  {
    var k := tail + 1 + rewound;
    if k > n then k - n else k
  }

  /** ring is index read all the way round from that slot on. */
  predicate Rotated(index: seq<Entry>, tail: nat, rewound: int, ring: seq<Entry>)
  {
    tail < |index| && 0 <= rewound <= |index| &&
    var k := EndSlot(tail, rewound, |index|);
    ring == index[k..] + index[..k]
  }

  predicate Differ(ring: seq<Entry>, i: int, j: int)
    requires 0 <= i < |ring| && 0 <= j < |ring|
  {
    i != j ==> ring[i] != ring[j]
  }

  ghost predicate Distinct(ring: seq<Entry>)
  {
    forall i, j {:trigger Differ(ring, i, j)} :: 0 <= i < |ring| && 0 <= j < |ring| ==> Differ(ring, i, j)
  }

  /** The slot of position p. */
  function SlotOf(index: seq<Entry>, tail: nat, rewound: int, p: nat): int
  {
    var k := EndSlot(tail, rewound, |index|);
    if k + p < |index| then k + p else k + p - |index|
  }

  lemma RingAt(index: seq<Entry>, tail: nat, rewound: int, ring: seq<Entry>, p: nat)
    requires Rotated(index, tail, rewound, ring) && p < |ring|
    ensures |ring| == |index| && 0 <= SlotOf(index, tail, rewound, p) < |index|
    ensures ring[p] == index[SlotOf(index, tail, rewound, p)]
  {
  }

  /** The position of slot i. */
  function PositionOf(index: seq<Entry>, tail: nat, rewound: int, i: nat): int
  {
    var k := EndSlot(tail, rewound, |index|);
    if k <= i then i - k else i - k + |index|
  }

  lemma PositionRight(index: seq<Entry>, tail: nat, rewound: int, ring: seq<Entry>, i: nat)
    requires Rotated(index, tail, rewound, ring) && i < |index|
    ensures var p := PositionOf(index, tail, rewound, i);
            0 <= p < |ring| == |index| && SlotOf(index, tail, rewound, p) == i && ring[p] == index[i]
  {
    RingAt(index, tail, rewound, ring, PositionOf(index, tail, rewound, i));
  }

  lemma RingAtTail(index: seq<Entry>, tail: nat, rewound: nat, ring: seq<Entry>)
    requires Rotated(index, tail, rewound, ring) && rewound < |ring|
    ensures |ring| == |index| && tail < |index| && index[tail] == ring[|ring| - 1 - rewound]
  {
    RingAt(index, tail, rewound, ring, |ring| - 1 - rewound);
  }

  function NextOf(tail: nat, n: nat): nat
  {
    if tail + 1 == n then 0 else tail + 1
  }

  function PreviousOf(tail: nat, n: nat): nat
    requires n > 0
  {
    if tail == 0 then n - 1 else tail - 1
  }

  lemma WholeRing(index: seq<Entry>)
    requires |index| > 0
    ensures Rotated(index, |index| - 1, 0, index)
  {
    assert index[|index|..] + index[..|index|] == index;
  }

  /** Moving the tail on: the ring turns unless the tail moves onto a rewound entry. */
  lemma RingAdvances(index: seq<Entry>, tail: nat, rewound: int, ring: seq<Entry>)
    requires Rotated(index, tail, rewound, ring)
    ensures |ring| > 0
    ensures Rotated(index, NextOf(tail, |index|), Max(rewound - 1, 0), if rewound == 0 then Turned(ring) else ring)
  {
    if rewound == 0 {
      RingTurns(index, tail, ring);
    } else {
      assert EndSlot(NextOf(tail, |index|), rewound - 1, |index|) == EndSlot(tail, rewound, |index|);
    }
  }

  lemma RingTurns(index: seq<Entry>, tail: nat, ring: seq<Entry>)
    requires tail < |index| && ring == index[tail + 1..] + index[..tail + 1]
    ensures var k := NextOf(tail, |index|) + 1; Turned(ring) == index[k..] + index[..k]
  {
    if tail + 1 == |index| {
      assert ring == index;
    } else {
      var k := tail + 2;
      assert ring[0] == index[tail + 1] && ring[1..] == index[k..] + index[..tail + 1];
      assert index[..k] == index[..tail + 1] + [index[tail + 1]];
    }
  }

  lemma TurnedDistinct(ring: seq<Entry>)
    requires |ring| > 0 && Distinct(ring)
    ensures Distinct(Turned(ring))
  {
    var t, n := Turned(ring), |ring|;
    forall i, j | 0 <= i < n && 0 <= j < n ensures Differ(t, i, j) {
      assert Differ(ring, if i + 1 < n then i + 1 else 0, if j + 1 < n then j + 1 else 0);
    }
  }

  lemma RingRewinds(index: seq<Entry>, tail: nat, rewound: int, ring: seq<Entry>)
    requires Rotated(index, tail, rewound, ring) && rewound < |index|
    ensures Rotated(index, PreviousOf(tail, |index|), rewound + 1, ring)
  {
    var k, k' := EndSlot(tail, rewound, |index|), EndSlot(PreviousOf(tail, |index|), rewound + 1, |index|);
    assert k == k' || (k == |index| && k' == 0) || (k == 0 && k' == |index|);
    assert index[|index|..] + index[..|index|] == index[0..] + index[..0];
  }

  lemma RingGrows(ring: seq<Entry>, made: seq<Entry>)
    requires |ring| > 0 && Distinct(ring) && Distinct(made) && forall e :: e in made ==> e !in ring
    ensures Rotated(ring + made, |ring| - 1, 0, made + ring) && Distinct(made + ring)
  {
    var all, turned := ring + made, made + ring;
    assert all[|ring|..] == made && all[..|ring|] == ring;
    var k := |made|;
    forall i, j | 0 <= i < |turned| && 0 <= j < |turned| ensures Differ(turned, i, j) {
      if i < k && j < k {
        assert Differ(made, i, j);
      } else if i >= k && j >= k {
        assert Differ(ring, i - k, j - k);
      } else {
        assert turned[if i < k then i else j] in made && turned[if i < k then j else i] in ring;
      }
    }
  }

  // ---------------------------------------------------------------- headers that were replaced

  /** A header that was full when it was replaced, its tail then at block t. */
  datatype Retired = Retired(header: Header, tail: nat, t: int, logCap: nat)

  /** Equal modulo n. */
  predicate Congruent(a: int, b: int, n: nat)
    requires n > 0
  {
    (a - b) % n == 0
  }

  lemma CongruentShift(a: int, b: int, n: nat, k: int)
    requires n > 0 && Congruent(a, b, n)
    ensures Congruent(a + n * k, b, n)
  {
    ShiftedRemainder(a - b, n, k);
    assert a + n * k - b == a - b + n * k;
  }

  /** The entry at old slot i is now at position q, for a keyed block with the same remainder as then. */
  ghost predicate StaleAt(r: Retired, i: int, q: int, ring: seq<Entry>, khi: int, klo: int)
    requires |r.header.index| > 0 && 0 <= i < |r.header.index|
  {
    0 <= q < |ring| && ring[q] == r.header.index[i] && klo <= khi - |ring| + q &&
    Congruent(khi - |ring| + q, r.t + i - r.tail, |r.header.index|)
  }

  ghost predicate Somewhere(r: Retired, i: int, ring: seq<Entry>, khi: int, klo: int)
    requires |r.header.index| > 0 && 0 <= i < |r.header.index|
  {
    exists q :: StaleAt(r, i, q, ring, khi, klo)
  }

  /** Every entry of an old header is still on the ring, and stands for a block of the old remainder. */
  ghost predicate StaleOk(r: Retired, ring: seq<Entry>, khi: int, klo: int)
  {
    r.tail < |r.header.index| && |ring| % |r.header.index| == 0 &&
    forall i :: 0 <= i < |r.header.index| ==> Somewhere(r, i, ring, khi, klo)
  }

  lemma StaleTurns(r: Retired, ring: seq<Entry>, khi: int, klo: int)
    requires StaleOk(r, ring, khi, klo) && |ring| > 0
    ensures StaleOk(r, Turned(ring), khi + 1, Max(klo, khi + 1 - |ring|))
  {
    var n, c := |ring|, |r.header.index|;
    var turned, khi', klo' := Turned(ring), khi + 1, Max(klo, khi + 1 - n);
    forall i | 0 <= i < c ensures Somewhere(r, i, turned, khi', klo') {
      assert Somewhere(r, i, ring, khi, klo);
      var q :| StaleAt(r, i, q, ring, khi, klo);
      if q > 0 {
        assert StaleAt(r, i, q - 1, turned, khi', klo');
      } else {
        CongruentShift(khi - n, r.t + i - r.tail, c, n / c);
        assert n == c * (n / c);
        assert StaleAt(r, i, n - 1, turned, khi', klo');
      }
    }
  }

  lemma StaleGrows(r: Retired, ring: seq<Entry>, khi: int, klo: int, made: seq<Entry>)
    requires StaleOk(r, ring, khi, klo) && |made| == |ring|
    ensures StaleOk(r, made + ring, khi, klo)
  {
    var n, c, all := |ring|, |r.header.index|, made + ring;
    ShiftedRemainder(n, c, n / c);
    assert n == c * (n / c);
    forall i | 0 <= i < c ensures Somewhere(r, i, all, khi, klo) {
      assert Somewhere(r, i, ring, khi, klo);
      var q :| StaleAt(r, i, q, ring, khi, klo);
      assert StaleAt(r, i, q + n, all, khi, klo);
    }
  }

  /** The header just replaced. */
  lemma NewlyStale(r: Retired, ring: seq<Entry>, khi: int, klo: int, made: seq<Entry>)
    requires Rotated(r.header.index, r.tail, 0, ring) && r.t == khi - 1 && klo <= khi - |ring| && |made| == |ring|
    ensures StaleOk(r, made + ring, khi, klo)
  {
    var n, all := |ring|, made + ring;
    UniqueRemainder(n + n, n, 2, 0);
    forall i | 0 <= i < n ensures Somewhere(r, i, all, khi, klo) {
      var q := if i > r.tail then i - r.tail - 1 else i - r.tail - 1 + n;
      RingAt(r.header.index, r.tail, 0, ring, q);
      UniqueRemainder(khi - n + q - (r.t + i - r.tail), n, if i > r.tail then -1 else 0, 0);
      assert StaleAt(r, i, q + n, all, khi, klo);
    }
  }

  /**
   A lookup in a header, anchored at any slot x and whatever block u its entry stands for by now, finds the
   entry of a block m that the header has.
   */
  lemma StaleSlot(r: Retired, ring: seq<Entry>, khi: int, klo: int, m: int, i: int, u: int, x: int,
                  blockSize: nat, logSize: nat)
    requires 0 <= i < |r.header.index| && 0 <= x < |r.header.index|
    requires Dims(blockSize, logSize, |r.header.index|, r.logCap)
    requires StaleAt(r, i, m - khi + |ring|, ring, khi, klo) && StaleAt(r, x, u - khi + |ring|, ring, khi, klo)
    ensures blockSize > 0
    ensures ComputedSlot(Key(m, blockSize), x, Key(u, blockSize), blockSize, |r.header.index|) == i
  {
    var c := |r.header.index|;
    SizesOf(blockSize, logSize, c, r.logCap);
    SlotIsExact(m, u, x, blockSize, Pow2(64 - logSize), c, r.logCap);
    SameRemainder(r.t - r.tail, i, x, m, u, c);
  }

  lemma SameRemainder(d: int, i: nat, x: nat, m: int, u: int, c: nat)
    requires i < c && Congruent(m, d + i, c) && Congruent(u, d + x, c)
    ensures (x + m - u) % c == i
  {
    var a, b := (m - (d + i)) / c, (u - (d + x)) / c;
    assert m - (d + i) == c * a && u - (d + x) == c * b;
    assert c * a - c * b == c * (a - b);
    UniqueRemainder(x + m - u, c, a - b, i);
  }

  /** The present header, its tail at block nb - 1, has its keyed entries in their places too. */
  lemma PresentAt(r: Retired, ring: seq<Entry>, khi: int, klo: int, nb: int, q: int)
    requires Rotated(r.header.index, r.tail, khi - nb, ring) && r.t == nb - 1
    requires 0 <= q < |ring| && klo <= khi - |ring| + q
    ensures var i := SlotOf(r.header.index, r.tail, khi - nb, q);
            0 <= i < |r.header.index| && StaleAt(r, i, q, ring, khi, klo)
  {
    var n, i := |r.header.index|, SlotOf(r.header.index, r.tail, khi - nb, q);
    RingAt(r.header.index, r.tail, khi - nb, ring, q);
    var a := khi - n + q - (r.t + i - r.tail);
    assert a == 0 || a == n || a == -n;
    UniqueRemainder(a, n, if a == 0 then 0 else if a == n then 1 else -1, 0);
  }

  // ---------------------------------------------------------------- all that is known of the index

  /** log, with its cells' entries in order and as a set, and the headers replaced so far. */
  datatype Spec = Spec(log: Log, ring: seq<Entry>, entries: set<Entry>, logCap: nat, retired: seq<Retired>)

  ghost predicate StalesOk(g: Spec)
  {
    forall i {:trigger g.retired[i]} :: 0 <= i < |g.retired| ==> StaleOk(g.retired[i], g.ring, g.log.khi, g.log.klo)
  }

  ghost predicate Sound(g: Spec, key: int -> nat, index: seq<Entry>, tail: nat)
  {
    Agrees(g.log, key) && |g.ring| == |g.log.cells| && Distinct(g.ring) &&
    Rotated(index, tail, g.log.khi - g.log.nb, g.ring) && StalesOk(g)
  }

  /** An index without blocks, the next being block first. */
  function Start(made: seq<Entry>, cells: seq<Cell>, first: int, logCap: nat): Spec
  {
    Spec(Log(first, first, first, cells, map[]), made, (set e | e in made), logCap, [])
  }

  lemma SoundStart(made: seq<Entry>, cells: seq<Cell>, first: int, key: int -> nat, logCap: nat)
    requires |made| == |cells| > 0 && Distinct(made) && forall i :: 0 <= i < |cells| ==> cells[i].key == INVALID
    ensures Sound(Start(made, cells, first, logCap), key, made, |made| - 1)
  {
    WholeRing(made);
    EmptyAgrees(cells, first, key);
  }

  function Advance(g: Spec, key: int -> nat): (r: Spec)
    requires 0 <= NextPosition(g.log) < |g.log.cells| == |g.ring|
  {
    g.(log := Advanced(g.log, key), ring := if g.log.khi == g.log.nb then Turned(g.ring) else g.ring)
  }

  lemma SoundAdvance(g: Spec, key: int -> nat, index: seq<Entry>, tail: nat)
    requires Sound(g, key, index, tail) && Settled(g.log) && CanAdvance(g.log)
    ensures 0 <= NextPosition(g.log) < |g.ring|
    ensures Sound(Advance(g, key), key, index, NextOf(tail, |index|)) && Settled(Advanced(g.log, key))
  {
    AdvanceAgrees(g.log, key);
    RotatedAdvance(g, key, index, tail);
    StalesAdvance(g, key);
  }

  lemma RotatedAdvance(g: Spec, key: int -> nat, index: seq<Entry>, tail: nat)
    requires Rotated(index, tail, g.log.khi - g.log.nb, g.ring) && Distinct(g.ring)
    requires |g.ring| == |g.log.cells| && 0 <= NextPosition(g.log) < |g.ring|
    ensures var g' := Advance(g, key);
            Rotated(index, NextOf(tail, |index|), g'.log.khi - g'.log.nb, g'.ring) && Distinct(g'.ring) &&
            |g'.ring| == |g'.log.cells|
  {
    var g' := Advance(g, key);
    assert g'.log.khi - g'.log.nb == Max(g.log.khi - g.log.nb - 1, 0) && |g'.log.cells| == |g.log.cells|;
    RingAdvances(index, tail, g.log.khi - g.log.nb, g.ring);
    if g.log.khi == g.log.nb {
      TurnedDistinct(g.ring);
    }
  }

  lemma StalesAdvance(g: Spec, key: int -> nat)
    requires StalesOk(g) && g.log.nb <= g.log.khi && 0 <= NextPosition(g.log) < |g.log.cells| == |g.ring|
    requires g.log.khi <= g.log.klo + |g.ring|
    ensures StalesOk(Advance(g, key))
  {
    var s, r := g.log, Advanced(g.log, key);
    var g' := Advance(g, key);
    forall i | 0 <= i < |g'.retired| ensures StaleOk(g'.retired[i], g'.ring, r.khi, r.klo) {
      assert g'.retired[i] == g.retired[i];
      if s.khi == s.nb {
        StaleTurns(g.retired[i], g.ring, s.khi, s.klo);
      }
    }
  }

  lemma SoundRewind(g: Spec, key: int -> nat, index: seq<Entry>, tail: nat)
    requires Sound(g, key, index, tail) && g.log.nb > g.log.klo
    ensures |index| > 0 && Sound(g.(log := Rewound(g.log)), key, index, PreviousOf(tail, |index|))
  {
    RewindAgrees(g.log, key);
    RingRewinds(index, tail, g.log.khi - g.log.nb, g.ring);
  }

  lemma SoundStore(g: Spec, key: int -> nat, index: seq<Entry>, tail: nat, m: int, b: Block)
    requires Sound(g, key, index, tail) && g.log.klo <= m < g.log.khi
    ensures Sound(g.(log := Stored(g.log, m, b)), key, index, tail)
  {
    StoreAgrees(g.log, key, m, b);
  }

  /** The entries made for a larger index go in front, and the old header retires. */
  function Enlarge(g: Spec, made: seq<Entry>, more: seq<Cell>, header: Header, tail: nat): (r: Spec)
  {
    Spec(Grown(g.log, more), made + g.ring, g.entries + (set e | e in made), g.logCap + 1,
         g.retired + [Retired(header, tail, g.log.nb - 1, g.logCap)])
  }

  lemma SoundGrow(g: Spec, key: int -> nat, header: Header, tail: nat, made: seq<Entry>, more: seq<Cell>)
    requires Sound(g, key, header.index, tail) && !CanAdvance(g.log) && |made| == |more| == |g.ring|
    requires Distinct(made) && (forall e :: e in made ==> e !in g.ring)
    requires forall i :: 0 <= i < |more| ==> more[i].key == INVALID
    ensures Sound(Enlarge(g, made, more, header, tail), key, g.ring + made, |g.ring| - 1)
    ensures CanAdvance(Grown(g.log, more))
  {
    GrowAgrees(g.log, key, more);
    RingGrows(g.ring, made);
    var g' := Enlarge(g, made, more, header, tail);
    forall i | 0 <= i < |g'.retired| ensures StaleOk(g'.retired[i], g'.ring, g.log.khi, g.log.klo) {
      if i < |g.retired| {
        StaleGrows(g.retired[i], g.ring, g.log.khi, g.log.klo, made);
      } else {
        NewlyStale(g'.retired[i], g.ring, g.log.khi, g.log.klo, made);
      }
    }
  }

  // ---------------------------------------------------------------- what never goes away

  /** e has been keyed. */
  ghost predicate InUse(g: Spec, e: Entry)
  {
    exists q :: UsedAt(g, e, q)
  }

  /** So has the entry at position q, and it still is in g'. */
  ghost predicate UseKept(g: Spec, g': Spec, q: int)
    requires 0 <= q < |g.ring|
  {
    g.log.klo <= g.log.khi - |g.ring| + q ==> InUse(g', g.ring[q])
  }

  ghost predicate UsedAt(g: Spec, e: Entry, q: int)
  {
    0 <= q < |g.ring| && g.ring[q] == e && g.log.klo <= g.log.khi - |g.ring| + q
  }

  /** Block m has the same entry in both. */
  ghost predicate SameEntry(g: Spec, g': Spec, m: int)
  {
    var q, q' := m - g.log.khi + |g.ring|, m - g'.log.khi + |g'.ring|;
    0 <= q < |g.ring| && 0 <= q' < |g'.ring| && g.ring[q] == g'.ring[q']
  }

  /** A keyed entry of a replaced header is in its place. */
  lemma RetiredInPlace(r: Retired, g: Spec, i: nat, p: int)
    requires StaleOk(r, g.ring, g.log.khi, g.log.klo) && Distinct(g.ring)
    requires i < |r.header.index| && UsedAt(g, r.header.index[i], p)
    ensures StaleAt(r, i, p, g.ring, g.log.khi, g.log.klo)
  {
    assert Somewhere(r, i, g.ring, g.log.khi, g.log.klo);
    var q :| StaleAt(r, i, q, g.ring, g.log.khi, g.log.klo);
    assert Differ(g.ring, p, q);
  }

  /** And of the present one. */
  lemma PresentInPlace(r: Retired, g: Spec, i: nat, p: int)
    requires Rotated(r.header.index, r.tail, g.log.khi - g.log.nb, g.ring) && Distinct(g.ring) && r.t == g.log.nb - 1
    requires i < |r.header.index| && UsedAt(g, r.header.index[i], p)
    ensures StaleAt(r, i, p, g.ring, g.log.khi, g.log.klo)
  {
    var rewound := g.log.khi - g.log.nb;
    PositionRight(r.header.index, r.tail, rewound, g.ring, i);
    assert Differ(g.ring, p, PositionOf(r.header.index, r.tail, rewound, i));
    PresentAt(r, g.ring, g.log.khi, g.log.klo, g.log.nb, p);
  }

  /** What a consumer relies on while the index goes from g and header to g' and header'. */
  ghost predicate Kept(g: Spec, header: Header, g': Spec, header': Header)
  {
    g.log.klo <= g'.log.klo && g.log.khi <= g'.log.khi && HeadersKept(g, header, g', header') &&
    (forall m {:trigger SameEntry(g, g', m)} :: g'.log.klo <= m < g.log.khi ==> SameEntry(g, g', m)) &&
    (forall q {:trigger UseKept(g, g', q)} :: 0 <= q < |g.ring| ==> UseKept(g, g', q))
  }

  /** A replaced header is kept, and so are those replaced before. */
  ghost predicate HeadersKept(g: Spec, header: Header, g': Spec, header': Header)
  {
    g.retired <= g'.retired && Published(g', header', header)
  }

  /** h is the header or was it. */
  ghost predicate Published(g: Spec, header: Header, h: Header)
  {
    h == header || exists i :: 0 <= i < |g.retired| && g.retired[i].header == h
  }

  lemma PublishedOn(g: Spec, header: Header, g': Spec, header': Header, h: Header)
    requires HeadersKept(g, header, g', header') && Published(g, header, h)
    ensures Published(g', header', h)
  {
    if h != header {
      var i :| 0 <= i < |g.retired| && g.retired[i].header == h;
      assert g'.retired[i] == g.retired[i];
    }
  }

  lemma UseOn(g: Spec, g': Spec, e: Entry)
    requires InUse(g, e) && forall q {:trigger UseKept(g, g', q)} :: 0 <= q < |g.ring| ==> UseKept(g, g', q)
    ensures InUse(g', e)
  {
    var q :| UsedAt(g, e, q);
    assert UseKept(g, g', q);
  }

  lemma KeptOn(g: Spec, h: Header, g': Spec, h': Header, g'': Spec, h'': Header)
    requires Kept(g, h, g', h') && Kept(g', h', g'', h'')
    ensures Kept(g, h, g'', h'')
  {
    PublishedOn(g', h', g'', h'', h);
    forall m | g''.log.klo <= m < g.log.khi ensures SameEntry(g, g'', m) {
      assert SameEntry(g, g', m) && SameEntry(g', g'', m);
    }
    forall q | 0 <= q < |g.ring| ensures UseKept(g, g'', q) {
      assert UseKept(g, g', q);
      if g.log.klo <= g.log.khi - |g.ring| + q {
        UseOn(g', g'', g.ring[q]);
      }
    }
  }

  lemma KeptSame(g: Spec, g': Spec, header: Header)
    requires g' == g.(log := g'.log) && g'.log.klo == g.log.klo && g'.log.khi == g.log.khi
    requires g.log.khi <= g.log.klo + |g.ring|
    ensures Kept(g, header, g', header)
  {
    forall q | 0 <= q < |g.ring| ensures UseKept(g, g', q) {
      assert g.log.klo <= g.log.khi - |g.ring| + q ==> UsedAt(g', g.ring[q], q);
    }
  }

  lemma KeptAdvance(g: Spec, key: int -> nat, header: Header)
    requires g.log.nb <= g.log.khi <= g.log.klo + |g.ring| && g.log.klo <= g.log.nb
    requires 0 <= NextPosition(g.log) < |g.log.cells| == |g.ring|
    ensures Kept(g, header, Advance(g, key), header)
  {
    var g' := Advance(g, key);
    forall q | 0 <= q < |g.ring| ensures UseKept(g, g', q) {
      var turned := if q == 0 then |g.ring| - 1 else q - 1;
      var q' := if g.log.khi == g.log.nb then turned else q;
      assert g.log.klo <= g.log.khi - |g.ring| + q ==> UsedAt(g', g.ring[q], q');
    }
  }

  lemma KeptEnlarge(g: Spec, made: seq<Entry>, more: seq<Cell>, header: Header, tail: nat, header': Header)
    requires g.log.khi <= g.log.klo + |g.ring|
    ensures Kept(g, header, Enlarge(g, made, more, header, tail), header')
  {
    var g' := Enlarge(g, made, more, header, tail);
    assert g'.retired[|g.retired|].header == header;
    forall q | 0 <= q < |g.ring| ensures UseKept(g, g', q) {
      assert g.log.klo <= g.log.khi - |g.ring| + q ==> UsedAt(g', g.ring[q], q + |made|);
    }
  }

  /** A consumer that has h can look block m up in it. */
  ghost predicate Serves(g: Spec, header: Header, h: Header, m: int)
  {
    Published(g, header, h) && g.log.klo <= m < g.log.khi && 0 <= m - g.log.khi + |g.ring| < |g.ring| &&
    g.ring[m - g.log.khi + |g.ring|] in h.index
  }

  /** A consumer can use slot x of h as its tail. */
  ghost predicate Anchors(g: Spec, header: Header, h: Header, x: nat)
  {
    Published(g, header, h) && x < |h.index| && InUse(g, h.index[x])
  }

  /** The header that a consumer loads serves every keyed block. */
  lemma HeaderServes(g: Spec, key: int -> nat, header: Header, tail: nat, m: int)
    requires Sound(g, key, header.index, tail) && g.log.klo <= m < g.log.khi
    ensures Serves(g, header, header, m)
  {
    RingAt(header.index, tail, g.log.khi - g.log.nb, g.ring, m - g.log.khi + |g.ring|);
  }

  /** And it goes on serving them, whatever happens to the index, as long as they are keyed. */
  lemma ServesOn(g: Spec, header: Header, g': Spec, header': Header, h: Header, m: int)
    requires Kept(g, header, g', header') && Serves(g, header, h, m) && g'.log.klo <= m
    ensures Serves(g', header', h, m) && SameEntry(g, g', m)
  {
    assert SameEntry(g, g', m);
    PublishedOn(g, header, g', header', h);
  }

  /** So does a tail that it has loaded. */
  lemma AnchorsOn(g: Spec, header: Header, g': Spec, header': Header, h: Header, x: nat)
    requires Kept(g, header, g', header') && Anchors(g, header, h, x)
    ensures Anchors(g', header', h, x)
  {
    PublishedOn(g, header, g', header', h);
    UseOn(g, g', h.index[x]);
  }

  // ---------------------------------------------------------------- entries in memory

  ghost predicate Mirror(e: Entry, c: Cell)
    reads e
  {
    e.key == c.key && e.value == c.value
  }

  /** cells is what the ring's entries hold. */
  ghost predicate Mirrored(ring: seq<Entry>, cells: seq<Cell>, entries: set<Entry>)
    reads entries
  {
    |ring| == |cells| && (forall p {:trigger ring[p]} :: 0 <= p < |ring| ==> ring[p] in entries) &&
    forall p {:trigger Mirror(ring[p], cells[p])} :: 0 <= p < |ring| ==> Mirror(ring[p], cells[p])
  }

  method StoreKey(e: Entry, k: nat, ghost ring: seq<Entry>, ghost cells: seq<Cell>, ghost entries: set<Entry>,
                  ghost p: int)
    requires Mirrored(ring, cells, entries) && Distinct(ring) && 0 <= p < |ring| && e == ring[p]
    modifies e`key
    ensures Mirrored(ring, cells[p := Cell(k, cells[p].value)], entries)
  {
    assert Mirror(ring[p], cells[p]);
    e.key := k;
    ghost var after := cells[p := Cell(k, cells[p].value)];
    forall q | 0 <= q < |ring| ensures Mirror(ring[q], after[q]) {
      assert Differ(ring, p, q);
      assert old(Mirror(ring[q], cells[q]));
    }
  }

  method StoreBlock(e: Entry, b: Block, ghost ring: seq<Entry>, ghost cells: seq<Cell>, ghost entries: set<Entry>,
                    ghost p: int)
    requires Mirrored(ring, cells, entries) && Distinct(ring) && 0 <= p < |ring| && e == ring[p]
    modifies e`value
    ensures Mirrored(ring, cells[p := Cell(cells[p].key, b)], entries)
  {
    assert Mirror(ring[p], cells[p]);
    e.value := b;
    ghost var after := cells[p := Cell(cells[p].key, b)];
    forall q | 0 <= q < |ring| ensures Mirror(ring[q], after[q]) {
      assert Differ(ring, p, q);
      assert old(Mirror(ring[q], cells[q]));
    }
  }

  lemma MirroredTurned(ring: seq<Entry>, cells: seq<Cell>, entries: set<Entry>)
    requires Mirrored(ring, cells, entries) && |ring| > 0
    ensures Mirrored(Turned(ring), Turned(cells), entries)
  {
    var n := |ring|;
    forall p | 0 <= p < n ensures Turned(ring)[p] in entries && Mirror(Turned(ring)[p], Turned(cells)[p]) {
      var q := if p + 1 < n then p + 1 else 0;
      assert ring[q] in entries && Mirror(ring[q], cells[q]);
    }
  }

  lemma MirroredMore(ring: seq<Entry>, cells: seq<Cell>, entries: set<Entry>, made: seq<Entry>, more: seq<Cell>)
    requires Mirrored(ring, cells, entries) && |made| == |more|
    requires forall i {:trigger Mirror(made[i], more[i])} :: 0 <= i < |made| ==> Mirror(made[i], more[i])
    ensures Mirrored(made + ring, more + cells, entries + (set e | e in made))
  {
    var r, c, n := made + ring, more + cells, |made|;
    forall p | 0 <= p < |r| ensures r[p] in entries + (set e | e in made) && Mirror(r[p], c[p]) {
      if p < n {
        assert r[p] == made[p] && Mirror(made[p], more[p]);
      } else {
        assert r[p] == ring[p - n] && ring[p - n] in entries && Mirror(ring[p - n], cells[p - n]);
      }
    }
  }

  /** The entries new_block_index constructs: the key is stored, the value is whatever it was. */
  method FreshEntries(n: nat, garbage: nat -> Block) returns (made: seq<Entry>, ghost cells: seq<Cell>)
    ensures |made| == |cells| == n && fresh(made) && Distinct(made)
    ensures forall i {:trigger Mirror(made[i], cells[i])} :: 0 <= i < n ==> Mirror(made[i], cells[i])
    ensures forall i :: 0 <= i < n ==> cells[i].key == INVALID
  {
    made, cells := [], [];
    for i := 0 to n
      invariant |made| == |cells| == i && fresh(made) && Distinct(made)
      invariant forall j {:trigger Mirror(made[j], cells[j])} :: 0 <= j < i ==> Mirror(made[j], cells[j])
      invariant forall j :: 0 <= j < i ==> cells[j].key == INVALID
    {
      var e := new Entry(INVALID, garbage(i));
      DistinctMore(made, e);
      made, cells := made + [e], cells + [Cell(INVALID, e.value)];
    }
  }

  lemma DistinctMore(made: seq<Entry>, e: Entry)
    requires Distinct(made) && e !in made
    ensures Distinct(made + [e])
  {
    var m := made + [e];
    forall i, j | 0 <= i < |m| && 0 <= j < |m| ensures Differ(m, i, j) {
      if i < |made| && j < |made| {
        assert Differ(made, i, j);
      }
    }
  }

  // ---------------------------------------------------------------- the producer's index

  class ImplicitIndex {
    const blockSize: nat
    ghost const logSize: nat
    /** The keys by block number. */
    ghost const key: int -> nat
    var header: Header
    var nextCapacity: nat
    ghost var g: Spec

    /** The trigger keeps the multiplication out of proofs that do not ask for it. */
    ghost predicate Keyed()
    {
      forall m {:trigger Key(m, blockSize)} :: key(m) == Key(m, blockSize)
    }

    ghost predicate Sized()
      reads this`header, this`nextCapacity, this`g
    {
      Dims(blockSize, logSize, header.capacity, g.logCap) && nextCapacity == 2 * header.capacity &&
      header.capacity == |header.index|
    }

    /** Headers that were replaced keep their tail. */
    ghost predicate TailsKept()
      reads this`header, this`g, set r | r in g.retired :: r.header
    {
      forall r <- g.retired :: r.header != header && r.header.tail == r.tail &&
                               r.header.capacity == |r.header.index| &&
                               Dims(blockSize, logSize, |r.header.index|, r.logCap)
    }

    ghost predicate Valid()
      reads this, header, g.entries, set r | r in g.retired :: r.header
    {
      Keyed() && Sized() && Sound(g, key, header.index, header.tail) &&
      Mirrored(g.ring, g.log.cells, g.entries) && TailsKept()
    }

    /** The entry of a keyed block. */
    ghost function EntryOf(m: int): Entry
      requires 0 <= Position(g.log, m) < |g.ring|
      reads this`g
    {
      g.ring[Position(g.log, m)]
    }

    /** ImplicitProducer's constructor, with the first new_block_index; the first block is number first. */
    constructor (blockSize: nat, capacity: nat, garbage: nat -> Block, ghost logSize: nat, ghost logCap: nat,
                 ghost first: int)
      requires Dims(blockSize, logSize, capacity, logCap) && logCap > 0
      ensures Valid() && Settled(g.log) && g.log.live == map[] && g.log.nb == g.log.klo == g.log.khi == first
      ensures this.blockSize == blockSize && this.logSize == logSize && header.capacity == capacity
      ensures fresh(header) && fresh(g.entries) && g.retired == []
    {
      PreviousTail(0, blockSize, logSize, capacity, logCap);
      ghost var unkeyed;
      var made;
      made, unkeyed := FreshEntries(capacity, garbage);
      var tail := BitAnd((0 - 1) % W, capacity - 1);
      SoundStart(made, unkeyed, first, m => Key(m, blockSize), logCap);
      header := new Header(made, tail);
      this.blockSize, this.logSize := blockSize, logSize;
      key := m => Key(m, blockSize);
      nextCapacity := 2 * capacity;
      g := Start(made, unkeyed, first, logCap);
    }

    /** get_block_index_entry_for_index, for an element index of block m. */
    method Lookup(index: nat, ghost m: int) returns (entry: Entry)
      requires Valid() && g.log.klo < g.log.nb && g.log.klo <= m < g.log.khi
      requires blockSize <= W && BlockStart(index, blockSize) == Key(m, blockSize)
      ensures entry == EntryOf(m) && entry.key == Key(m, blockSize)
      ensures entry.value == if m in g.log.live then g.log.live[m] else NULL
    {
      Loaded(m);
      entry := LookupFrom(header, header.tail, index, m);
    }

    /**
     The rest of it for a consumer that loaded header h and tail x some time ago.  The header may have been
     replaced and the entry at x keyed again; the entry of a block that h serves is found all the same.
     */
    method LookupFrom(h: Header, x: nat, index: nat, ghost m: int) returns (entry: Entry)
      requires Valid() && Serves(g, header, h, m) && Anchors(g, header, h, x)
      requires blockSize <= W && BlockStart(index, blockSize) == Key(m, blockSize)
      ensures entry == EntryOf(m) && entry.key == Key(m, blockSize)
      ensures entry.value == if m in g.log.live then g.log.live[m] else NULL
    {
      var start := BlockStart(index, blockSize);
      CellOf(m);
      FoundFrom(h, x, m);
      var tailBase := h.index[x].key;
      entry := h.index[ComputedSlot(start, x, tailBase, blockSize, h.capacity)];
    }

    /** What a consumer has that has just loaded header and tail. */
    lemma Loaded(m: int)
      requires Valid() && g.log.klo < g.log.nb && g.log.klo <= m < g.log.khi
      ensures Serves(g, header, header, m) && Anchors(g, header, header, header.tail)
      ensures 0 <= Position(g.log, m) < |g.ring| && EntryOf(m) == g.ring[m - g.log.khi + |g.ring|]
    {
      HeaderServes(g, key, header, header.tail, m);
      TailAnchors(header);
      CellOf(m);
    }

    /** The tail of a header, present or past, is one to look up from. */
    lemma TailAnchors(h: Header)
      requires Valid() && Published(g, header, h) && g.log.klo < g.log.nb
      ensures Anchors(g, header, h, h.tail)
    {
      if h == header {
        RingAtTail(header.index, header.tail, g.log.khi - g.log.nb, g.ring);
        assert UsedAt(g, h.index[h.tail], |g.ring| - 1 - (g.log.khi - g.log.nb));
      } else {
        var r := RetiredAs(h);
        assert Somewhere(r, r.tail, g.ring, g.log.khi, g.log.klo);
        var q :| StaleAt(r, r.tail, q, g.ring, g.log.khi, g.log.klo);
        assert UsedAt(g, h.index[h.tail], q);
      }
    }

    lemma RetiredAs(h: Header) returns (r: Retired)
      requires StalesOk(g) && TailsKept() && Published(g, header, h) && h != header
      ensures r in g.retired && r.header == h && StaleOk(r, g.ring, g.log.khi, g.log.klo)
    {
      var i :| 0 <= i < |g.retired| && g.retired[i].header == h;
      r := g.retired[i];
    }

    /** What the entry of a keyed block holds. */
    lemma CellOf(m: int)
      requires Keyed() && Agrees(g.log, key) && Mirrored(g.ring, g.log.cells, g.entries) && g.log.klo <= m < g.log.khi
      ensures 0 <= Position(g.log, m) < |g.ring| && EntryOf(m).key == Key(m, blockSize)
      ensures EntryOf(m).value == if m in g.log.live then g.log.live[m] else NULL
    {
      KeyedCell(g.log, key, m);
      assert Mirror(EntryOf(m), g.log.cells[Position(g.log, m)]);
      assert key(m) == Key(m, blockSize);
    }

    /** The slot computed from slot x of h is block m's. */
    lemma FoundFrom(h: Header, x: nat, m: int)
      requires Valid() && Serves(g, header, h, m) && Anchors(g, header, h, x)
      ensures blockSize > 0 && h.capacity == |h.index| && 0 <= Position(g.log, m) < |g.ring|
      ensures var slot := ComputedSlot(Key(m, blockSize), x, h.index[x].key, blockSize, |h.index|);
              h.index[slot] == EntryOf(m)
    {
      var r := AsRetired(h);
      var p := Position(g.log, m);
      var i :| 0 <= i < |h.index| && h.index[i] == g.ring[p];
      var q :| UsedAt(g, h.index[x], q);
      var u := g.log.khi - |g.ring| + q;
      CellOf(u);
      InPlace(r, i, p);
      InPlace(r, x, q);
      StaleSlot(r, g.ring, g.log.khi, g.log.klo, m, i, u, x, blockSize, logSize);
    }

    /** A published header, with where its tail was if it was replaced and where it is if not. */
    ghost predicate Placed(r: Retired)
      reads this`header, this`g, header
    {
      (r in g.retired && StaleOk(r, g.ring, g.log.khi, g.log.klo)) ||
      (r.header == header && r.tail == header.tail && r.t == g.log.nb - 1)
    }

    lemma AsRetired(h: Header) returns (r: Retired)
      requires Valid() && Published(g, header, h)
      ensures r.header == h && Placed(r) && h.capacity == |h.index| && Dims(blockSize, logSize, |h.index|, r.logCap)
    {
      if h == header {
        r := Retired(header, header.tail, g.log.nb - 1, g.logCap);
      } else {
        r := RetiredAs(h);
      }
    }

    /** The keyed entry at slot i of a header and position p of the ring is in step with the header's tail. */
    lemma InPlace(r: Retired, i: nat, p: int)
      requires Placed(r) && Sound(g, key, header.index, header.tail)
      requires i < |r.header.index| && UsedAt(g, r.header.index[i], p)
      ensures StaleAt(r, i, p, g.ring, g.log.khi, g.log.klo)
    {
      if r in g.retired && StaleOk(r, g.ring, g.log.khi, g.log.klo) {
        RetiredInPlace(r, g, i, p);
      } else {
        PresentInPlace(r, g, i, p);
      }
    }

    /** (tail + 1) & (capacity - 1). */
    method NextTail() returns (newTail: nat)
      requires Sized() && header.tail < header.capacity
      ensures newTail == NextOf(header.tail, header.capacity)
    {
      NextSlot(header.tail, header.capacity, g.logCap);
      newTail := BitAnd(header.tail + 1, header.capacity - 1);
    }

    /** The test in insert_block_index_entry: is the entry after the tail free? */
    method Probe(newTail: nat) returns (free: bool, entry: Entry)
      requires Valid() && Settled(g.log) && newTail == NextOf(header.tail, header.capacity)
      ensures 0 <= NextPosition(g.log) < |g.ring| && entry == g.ring[NextPosition(g.log)] && free == CanAdvance(g.log)
    {
      ghost var m, p := g.log.nb - |g.ring|, NextPosition(g.log);
      ValidKey(m, blockSize, logSize);
      assert key(m) == Key(m, blockSize);
      NextCell(g.log, key);
      RingAt(header.index, header.tail, g.log.khi - g.log.nb, g.ring, p);
      assert Mirror(g.ring[p], g.log.cells[p]);
      entry := header.index[newTail];
      free := entry.key == INVALID || entry.value == NULL;
    }

    /** The stores that follow: the key, then the tail. */
    method Take(entry: Entry, start: nat, newTail: nat)
      requires Valid() && Settled(g.log) && CanAdvance(g.log) && start == key(g.log.nb)
      requires newTail == NextOf(header.tail, header.capacity)
      requires 0 <= NextPosition(g.log) < |g.ring| && entry == g.ring[NextPosition(g.log)]
      modifies this`g, header`tail, entry`key
      ensures Valid() && Settled(g.log) && g == Advance(old(g), key)
      ensures g.log.klo < g.log.nb && entry == EntryOf(g.log.nb - 1)
    {
      SoundAdvance(g, key, header.index, header.tail);
      StoreKey(entry, start, g.ring, g.log.cells, g.entries, NextPosition(g.log));
      header.tail := newTail;
      if g.log.khi == g.log.nb {
        ghost var p := NextPosition(g.log);
        MirroredTurned(g.ring, g.log.cells[p := Cell(start, g.log.cells[p].value)], g.entries);
      }
      g := Advance(g, key);
    }

    /** One attempt of insert_block_index_entry, with the present header. */
    method InsertHere(start: nat) returns (ok: bool, entry: Entry)
      requires Valid() && Settled(g.log) && start == key(g.log.nb)
      modifies this`g, header`tail, g.entries
      ensures Valid() && Settled(g.log) && ok == CanAdvance(old(g.log))
      ensures Kept(old(g), header, g, header) && |g.log.cells| == |old(g.log).cells|
      ensures !ok ==> g == old(g)
      ensures ok ==> g == Advance(old(g), key) && Inserted(old(g.log), g.log, entry.value) &&
                     g.log.klo < g.log.nb && entry == EntryOf(g.log.nb - 1)
    {
      var newTail := NextTail();
      ok, entry := Probe(newTail);
      if ok {
        assert Mirror(entry, g.log.cells[NextPosition(g.log)]);
        KeptAdvance(g, key, header);
        Take(entry, start, newTail);
      } else {
        KeptSame(g, g, header);
      }
    }

    /** new_block_index over an existing one, when every entry is in use. */
    method NewBlockIndex(malloc: nat -> bool, garbage: nat -> Block) returns (ok: bool)
      requires Valid() && !CanAdvance(g.log) && forall n: nat :: malloc(n) ==> n <= Pow2(64 - logSize)
      modifies this`header, this`nextCapacity, this`g
      ensures Valid() && ok == malloc(2 * old(header).capacity) && Kept(old(g), old(header), g, header)
      ensures !ok ==> header == old(header) && g == old(g)
      ensures ok ==> fresh(header) && header.capacity == 2 * old(header).capacity && CanAdvance(g.log)
      ensures ok ==> g.log == Grown(old(g).log, g.log.cells[..old(header).capacity]) &&
                     g.ring[old(header).capacity..] == old(g).ring && fresh(g.entries - old(g).entries) &&
                     |g.retired| == |old(g).retired| + 1 && g.retired[..|old(g).retired|] == old(g).retired &&
                     g.retired[|old(g).retired|].header == old(header)
    {
      ok := malloc(nextCapacity);
      if !ok {
        KeptSame(g, g, header);
        return;
      }
      var copied := CopyFromTail();
      ghost var unkeyed;
      var made;
      made, unkeyed := FreshEntries(header.capacity, garbage);
      DoubledDims(blockSize, logSize, header.capacity, g.logCap);
      Publish(copied, made, BitAnd(header.capacity - 1, nextCapacity - 1), unkeyed);
    }

    /** The new header takes over. */
    method Publish(copied: seq<Entry>, made: seq<Entry>, tail: nat, ghost more: seq<Cell>)
      requires Valid() && !CanAdvance(g.log) && copied == g.ring && tail == |copied| - 1 && |made| == |more| == |copied|
      requires Distinct(made) && (forall e :: e in made ==> e !in g.entries)
      requires forall i :: 0 <= i < |more| ==> more[i].key == INVALID
      requires forall i {:trigger Mirror(made[i], more[i])} :: 0 <= i < |made| ==> Mirror(made[i], more[i])
      requires Dims(blockSize, logSize, 2 * header.capacity, g.logCap + 1)
      modifies this`header, this`nextCapacity, this`g
      ensures Valid() && fresh(header) && header.capacity == 2 * |copied| && CanAdvance(g.log)
      ensures g == Enlarge(old(g), made, more, old(header), old(header.tail)) && Kept(old(g), old(header), g, header)
    {
      OnRing(g.ring, g.log.cells, g.entries);
      SoundGrow(g, key, header, header.tail, made, more);
      MirroredMore(g.ring, g.log.cells, g.entries, made, more);
      g := Enlarge(g, made, more, header, header.tail);
      header := new Header(copied + made, tail);
      KeptEnlarge(old(g), made, more, old(header), old(header.tail), header);
      nextCapacity := 2 * nextCapacity;
    }

    /** The copy loop of new_block_index: once round, from the entry after the tail to the tail. */
    method CopyFromTail() returns (copied: seq<Entry>)
      requires Sized() && Rotated(header.index, header.tail, 0, g.ring)
      ensures copied == g.ring
    {
      copied := [];
      var pos := header.tail;
      while true
        invariant |copied| < |g.ring| && copied == g.ring[..|copied|]
        invariant pos == if header.tail + |copied| < |g.ring| then header.tail + |copied|
                         else header.tail + |copied| - |g.ring|
        decreases |g.ring| - |copied|
      {
        NextSlot(pos, header.capacity, g.logCap);
        RingAt(header.index, header.tail, 0, g.ring, |copied|);
        pos := BitAnd(pos + 1, header.capacity - 1);
        copied := copied + [header.index[pos]];
        if pos == header.tail {
          break;
        }
      }
    }

    /** insert_block_index_entry. */
    method Insert(start: nat, malloc: nat -> bool, garbage: nat -> Block) returns (ok: bool, entry: Entry)
      requires Valid() && Settled(g.log) && start == key(g.log.nb)
      requires forall n: nat :: malloc(n) ==> n <= Pow2(64 - logSize)
      modifies this, header`tail, g.entries
      ensures Valid() && Settled(g.log) && ok == (CanAdvance(old(g.log)) || malloc(2 * old(header).capacity))
      ensures ok ==> Inserted(old(g.log), g.log, entry.value) && g.log.klo < g.log.nb && entry == EntryOf(g.log.nb - 1)
      ensures !ok ==> g == old(g)
      ensures |g.log.cells| == SizeAfter(old(g.log), malloc) && Kept(old(g), old(header), g, header)
      ensures (header == old(header) || fresh(header)) && fresh(g.entries - old(g.entries))
    {
      CapacityOf();
      ok, entry := InsertHere(start);
      if !ok {
        ok, entry := GrowAndInsert(start, malloc, garbage);
      }
    }

    lemma CapacityOf()
      requires Sized() && Sound(g, key, header.index, header.tail)
      ensures |g.log.cells| == header.capacity
    {
    }

    method GrowAndInsert(start: nat, malloc: nat -> bool, garbage: nat -> Block) returns (ok: bool, entry: Entry)
      requires Valid() && Settled(g.log) && !CanAdvance(g.log) && start == key(g.log.nb)
      requires forall n: nat :: malloc(n) ==> n <= Pow2(64 - logSize)
      modifies this, g.entries
      ensures Valid() && Settled(g.log) && ok == malloc(2 * old(header).capacity)
      ensures ok ==> Inserted(old(g.log), g.log, entry.value) && g.log.klo < g.log.nb &&
                     entry == EntryOf(g.log.nb - 1) && fresh(header)
      ensures !ok ==> g == old(g) && header == old(header)
      ensures |g.log.cells| == SizeAfter(old(g.log), malloc) && Kept(old(g), old(header), g, header)
      ensures fresh(g.entries - old(g.entries))
    {
      CapacityOf();
      ok := NewBlockIndex(malloc, garbage);
      if ok {
        CapacityOf();
        ghost var grown := g;
        ok, entry := InsertHere(start);
        KeptOn(old(g), old(header), grown, header, g, header);
      } else {
        entry := header.index[header.tail];
      }
    }

    /** rewind_block_index_tail. */
    method RewindTail()
      requires Valid() && g.log.nb > g.log.klo
      modifies this`g, header`tail
      ensures Valid() && g == old(g).(log := Rewound(old(g.log)))
    {
      var newTail := TailBefore();
      SoundRewind(g, key, header.index, header.tail);
      header.tail := newTail;
      g := g.(log := Rewound(g.log));
    }

    /** (tail - 1) & (capacity - 1). */
    method TailBefore() returns (newTail: nat)
      requires Sized() && header.tail < header.capacity
      ensures newTail == PreviousOf(header.tail, header.capacity)
    {
      PreviousTail(header.tail, blockSize, logSize, header.capacity, g.logCap);
      newTail := BitAnd((header.tail - 1) % W, header.capacity - 1);
    }

    /** entry->value.store(b) for the entry of block m: a new block, or null when it is released. */
    method StoreValue(entry: Entry, b: Block, ghost m: int)
      requires Valid() && g.log.klo <= m < g.log.khi && entry == EntryOf(m)
      modifies entry`value, this`g
      ensures Valid() && g == old(g).(log := Stored(old(g.log), m, b))
    {
      SoundStore(g, key, header.index, header.tail, m, b);
      StoreBlock(entry, b, g.ring, g.log.cells, g.entries, Position(g.log, m));
      g := g.(log := Stored(g.log, m, b));
    }

    /** The index part of enqueue at a block boundary; block is what requisition_block returned. */
    method AddBlock(start: nat, malloc: nat -> bool, garbage: nat -> Block, block: Block) returns (ok: bool)
      requires Valid() && Settled(g.log) && start == key(g.log.nb)
      requires forall n: nat :: malloc(n) ==> n <= Pow2(64 - logSize)
      modifies this, header`tail, g.entries
      ensures Valid() && Settled(g.log)
      ensures ok == (block != NULL && (CanAdvance(old(g.log)) || malloc(2 * old(header).capacity)))
      ensures ok ==> g.log.nb == old(g.log).nb + 1 && g.log.live == old(g.log).live[old(g.log).nb := block]
      ensures !ok ==> g.log.nb == old(g.log).nb && g.log.live == old(g.log).live
      ensures ok ==> g.log.khi == Max(old(g.log).khi, g.log.nb)
      ensures |g.log.cells| == SizeAfter(old(g.log), malloc) && Kept(old(g), old(header), g, header)
      ensures (header == old(header) || fresh(header)) && fresh(g.entries - old(g.entries))
    {
      var entry;
      CapacityOf();
      ok, entry := Insert(start, malloc, garbage);
      if ok {
        ghost var keyed := g;
        ok := Fill(entry, block, old(g.log));
        KeptOn(old(g), old(header), keyed, header, g, header);
      }
    }

    /** After a successful insertion: store the block or take the entry back. */
    method Fill(entry: Entry, block: Block, ghost before: Log) returns (ok: bool)
      requires Valid() && Settled(g.log) && Settled(before) && g.log.klo < g.log.nb && entry == EntryOf(g.log.nb - 1)
      requires Inserted(before, g.log, entry.value)
      modifies this`g, header`tail, entry`value
      ensures Valid() && Settled(g.log) && ok == (block != NULL) && g == old(g).(log := g.log)
      ensures Kept(old(g), header, g, header) && g.log.khi == old(g.log).khi && |g.log.cells| == |old(g.log).cells|
      ensures g.log.nb == before.nb + (if ok then 1 else 0)
      ensures g.log.live == if ok then before.live[before.nb := block] else before.live
    {
      CellOf(g.log.nb - 1);
      Filled(before, g.log, entry.value, block);
      if block == NULL {
        Cancel(entry);
      } else {
        StoreValue(entry, block, g.log.nb - 1);
      }
      KeptSame(old(g), g, header);
      return block != NULL;
    }

    /** Taking back the block just keyed: the tail, then the value. */
    method Cancel(entry: Entry)
      requires Valid() && g.log.nb > g.log.klo && entry == EntryOf(g.log.nb - 1)
      modifies this`g, header`tail, entry`value
      ensures Valid() && g == old(g).(log := Stored(Rewound(old(g.log)), old(g.log).nb - 1, NULL))
    {
      RewindTail();
      StoreValue(entry, NULL, g.log.nb);
    }

    /** currentTailIndex += BLOCK_SIZE, from block m - 1 to block m. */
    method NextStart(current: nat, ghost m: int) returns (start: nat)
      requires Keyed() && current == key(m - 1)
      ensures start == key(m)
    {
      KeyStep(m - 1, blockSize);
      assert key(m - 1) == Key(m - 1, blockSize) && key(m) == Key(m, blockSize);
      start := (current + blockSize) % W;
    }

    /** The value of block m, then the tail. */
    method UndoOne(start: nat, ghost m: int)
      requires Valid() && g.log.klo < g.log.nb && g.log.klo <= m < g.log.khi && start == key(m)
      modifies this`g, header`tail, g.entries
      ensures Valid() && g == old(g).(log := g.log)
      ensures g.log.nb == old(g.log).nb - 1 && g.log.klo == old(g.log).klo && g.log.khi == old(g.log).khi
      ensures g.log.live == Noted(old(g.log).live, m, NULL)
    {
      ValidKey(m, blockSize, logSize);
      assert key(m) == Key(m, blockSize);
      var entry := Lookup(start, m);
      StoreValue(entry, NULL, m);
      RewindTail();
    }

    /** The undo loop of enqueue_bulk: base is the key of the block before the n that were added. */
    method Undo(base: nat, n: nat)
      requires Valid() && Settled(g.log) && base == key(g.log.nb - n - 1) && g.log.klo <= g.log.nb - n
      modifies this`g, header`tail, g.entries
      ensures Valid() && Settled(g.log) && g == old(g).(log := g.log) && Kept(old(g), header, g, header)
      ensures g.log.nb == old(g.log).nb - n
      ensures g.log.live == Without(old(g.log).live, g.log.nb, old(g.log).nb)
    {
      var current := base;
      ghost var live, first := g.log.live, g.log.nb - n;
      for i := 0 to n
        invariant Valid() && g == old(g).(log := g.log) && g.log.nb == first + n - i && current == key(first + i - 1)
        invariant g.log.live == Without(live, first, first + i)
        invariant g.log.khi == old(g.log).khi && g.log.klo == old(g.log).klo
      {
        current := UndoRound(current, live, first, first + i);
      }
      KeptSame(old(g), g, header);
    }

    /** One round of the undo loop, that of block m. */
    method UndoRound(current: nat, ghost live: map<int, Block>, ghost first: int, ghost m: int) returns (next: nat)
      requires Valid() && g.log.klo < g.log.nb && g.log.klo <= m < g.log.khi && current == key(m - 1)
      requires first <= m && g.log.live == Without(live, first, m)
      modifies this`g, header`tail, g.entries
      ensures Valid() && g == old(g).(log := g.log) && next == key(m)
      ensures g.log.nb == old(g.log).nb - 1 && g.log.klo == old(g.log).klo && g.log.khi == old(g.log).khi
      ensures g.log.live == Without(live, first, m + 1)
    {
      next := NextStart(current, m);
      UndoOne(next, m);
      WithoutNext(live, first, m);
    }

    method Revert(base: nat, n: nat, ghost live: map<int, Block>, ghost added: seq<Step>)
      requires Valid() && Settled(g.log) && base == key(g.log.nb - n - 1) && |added| == n
      requires Older(live, g.log.nb - n) && g.log.live == WithAll(live, g.log.nb - n, added)
      modifies this`g, header`tail, g.entries
      ensures Valid() && Settled(g.log) && g.log.nb == old(g.log).nb - n && g.log.live == live
      ensures Kept(old(g), header, g, header)
    {
      WithAllContents(live, g.log.nb - n, added);
      assert n > 0 ==> g.log.nb - n in g.log.live;
      Undo(base, n);
    }

    /** One round of the allocation loop. */
    method AddStep(start: nat, step: Step) returns (ok: bool)
      requires Valid() && Settled(g.log) && start == key(g.log.nb)
      requires forall n: nat :: step.malloc(n) ==> n <= Pow2(64 - logSize)
      modifies this, header`tail, g.entries
      ensures Valid() && Settled(g.log) && g.log.nb == old(g.log).nb + (if ok then 1 else 0)
      ensures g.log.live == if ok then old(g.log).live[old(g.log).nb := step.block] else old(g.log).live
      ensures ok == (Works(step) && (CanAdvance(old(g.log)) || step.malloc(2 * |old(g.log).cells|)))
      ensures ok ==> g.log.khi == Max(old(g.log).khi, g.log.nb) && |g.log.cells| == SizeAfter(old(g.log), step.malloc)
      ensures Kept(old(g), old(header), g, header)
      ensures (header == old(header) || fresh(header)) && fresh(g.entries - old(g.entries))
    {
      ok := false;
      CapacityOf();
      KeptSame(g, g, header);
      if !step.full {
        ok := AddBlock(start, step.malloc, step.garbage, step.block);
      }
    }

    /** A consumer that has emptied block m takes it out of the index. */
    method ReleaseBlock(index: nat, ghost m: int)
      requires Valid() && m in g.log.live && m < g.log.nb
      requires blockSize <= W && BlockStart(index, blockSize) == Key(m, blockSize)
      modifies this`g, g.entries
      ensures Valid() && g == old(g).(log := g.log) && g.log.nb == old(g.log).nb && g.log.live == old(g.log).live - {m}
      ensures g.log.klo == old(g.log).klo && g.log.khi == old(g.log).khi && Kept(old(g), header, g, header)
    {
      var entry := Lookup(index, m);
      StoreValue(entry, NULL, m);
      KeptSame(old(g), g, header);
    }

    /** Consumers release blocks older than first while added are being added. */
    method ReleaseBlocks(rs: seq<Release>, ghost live: map<int, Block>, ghost first: int, ghost added: seq<Step>)
      requires Valid() && Settled(g.log) && first <= g.log.nb && g.log.live == WithAll(live, first, added)
      requires Releasable(live, first, rs, blockSize)
      modifies this`g, g.entries
      ensures Valid() && Settled(g.log) && g == old(g).(log := g.log) && g.log.nb == old(g.log).nb
      ensures g.log.klo == old(g.log).klo && g.log.khi == old(g.log).khi && Kept(old(g), header, g, header)
      ensures g.log.live == WithAll(live - Blocks(rs), first, added)
    {
      ghost var left := live;
      assert live - Blocks(rs[..0]) == live;
      for i := 0 to |rs|
        invariant Valid() && Settled(g.log) && g == old(g).(log := g.log) && g.log.nb == old(g.log).nb
        invariant g.log.klo == old(g.log).klo && g.log.khi == old(g.log).khi
        invariant left == live - Blocks(rs[..i]) && g.log.live == WithAll(left, first, added)
      {
        ghost var m := rs[i].m;
        assert rs[i] in rs && m !in Blocks(rs[..i]);
        WithAllLess(left, first, added, m);
        ReleaseBlock(rs[i].index, m);
        assert Blocks(rs[..i + 1]) == Blocks(rs[..i]) + {m};
        left := left - {m};
      }
      assert rs[..|rs|] == rs;
      KeptSame(old(g), g, header);
    }

    /**
     The allocation loop of enqueue_bulk, with consumers releasing blocks in between: all blocks are added or
     none is, and apart from the releases nothing else changes.
     */
    method AddBlocks(base: nat, steps: seq<Step>) returns (ok: bool)
      requires Valid() && Settled(g.log) && base == key(g.log.nb - 1) && WellFormed(g.log, steps)
      modifies this, header`tail, g.entries
      ensures Valid() && Settled(g.log) && Kept(old(g), old(header), g, header) && header.capacity == |g.log.cells|
      ensures ok <==> forall i :: 0 <= i < |steps| ==> Succeeds(old(g.log), steps, i)
      ensures if ok then AddedAll(old(g.log), steps, g.log) else AddedNone(old(g.log), steps, g.log)
    {
      var i := AddUntilFailure(base, steps);
      ok := i == |steps|;
      if ok {
        AllAdded(old(g.log), steps, g.log);
      } else {
        ghost var added := g;
        NoneAdded(old(g.log), steps, i);
        Revert(base, i, Remaining(old(g.log).live, steps[..i + 1]), steps[..i]);
        KeptOn(old(g), old(header), added, header, g, header);
      }
      CapacityOf();
    }

    /** What is assumed of the rounds: malloc is bounded, and blocks are released once each. */
    ghost predicate WellFormed(s: Log, steps: seq<Step>)
      requires logSize <= 64
    {
      forall i :: 0 <= i < |steps| ==> WellFormedAt(s, steps, i)
    }

    ghost predicate WellFormedAt(s: Log, steps: seq<Step>, i: int)
      requires 0 <= i < |steps| && logSize <= 64
    {
      (forall n: nat :: steps[i].malloc(n) ==> n <= Pow2(64 - logSize)) &&
      Releasable(Remaining(s.live, steps[..i]), s.nb, steps[i].releases, blockSize)
    }

    /** The loop without the undo; i rounds went well. */
    method AddUntilFailure(base: nat, steps: seq<Step>) returns (i: nat)
      requires Valid() && Settled(g.log) && base == key(g.log.nb - 1) && WellFormed(g.log, steps)
      modifies this, header`tail, g.entries
      ensures Valid() && Settled(g.log) && Stopped(old(g.log), steps, i, g.log)
      ensures (header == old(header) || fresh(header)) && fresh(g.entries - old(g.entries))
      ensures Kept(old(g), old(header), g, header)
    {
      var current, ok := base, true;
      KeptSame(g, g, header);
      StartReached(g.log, steps);
      i := 0;
      while ok && i < |steps|
        invariant Valid() && Settled(g.log) && Progress(old(g.log), steps, i, g.log, ok)
        invariant ok ==> current == key(g.log.nb - 1)
        invariant (header == old(header) || fresh(header)) && fresh(g.entries - old(g.entries))
        invariant Kept(old(g), old(header), g, header)
        decreases ok, |steps| - i
      {
        assert WellFormedAt(old(g.log), steps, i);
        current, ok := MeetRound(current, steps, i, old(g), old(header));
        if ok {
          i := i + 1;
        }
      }
    }

    /** Round i of the loop with the releases before it; g0 and h0 are where the loop started. */
    method MeetRound(current: nat, steps: seq<Step>, i: nat, ghost g0: Spec, ghost h0: Header)
      returns (next: nat, ok: bool)
      requires Valid() && Settled(g.log) && i < |steps| && current == key(g.log.nb - 1)
      requires Reached(g0.log, steps, i, g.log) && WellFormedAt(g0.log, steps, i) && Kept(g0, h0, g, header)
      modifies this, header`tail, g.entries
      ensures Valid() && Settled(g.log) && (header == old(header) || fresh(header)) && fresh(g.entries - old(g.entries))
      ensures Kept(g0, h0, g, header)
      ensures ok ==> next == key(g.log.nb - 1) && Reached(g0.log, steps, i + 1, g.log)
      ensures !ok ==> Stopped(g0.log, steps, i, g.log)
    {
      ghost var s, before := g0.log, g;
      ReleaseBlocks(steps[i].releases, Remaining(s.live, steps[..i]), s.nb, steps[..i]);
      RemainingNext(s.live, steps, i);
      KeptOn(g0, h0, before, header, g, header);
      ghost var released := g;
      next, ok := Round(current, steps, i, s);
      KeptOn(g0, h0, released, old(header), g, header);
    }

    /** The round itself. */
    method Round(current: nat, steps: seq<Step>, i: nat, ghost s: Log) returns (next: nat, ok: bool)
      requires Valid() && Settled(g.log) && i < |steps| && current == key(g.log.nb - 1)
      requires Facing(s, steps, i, g.log) && forall n: nat :: steps[i].malloc(n) ==> n <= Pow2(64 - logSize)
      modifies this, header`tail, g.entries
      ensures Valid() && Settled(g.log) && (header == old(header) || fresh(header)) && fresh(g.entries - old(g.entries))
      ensures Kept(old(g), old(header), g, header)
      ensures ok ==> next == key(g.log.nb - 1) && Reached(s, steps, i + 1, g.log)
      ensures !ok ==> Stopped(s, steps, i, g.log)
    {
      next := NextStart(current, g.log.nb);
      FacingAdvances(s, steps, i, g.log);
      ok := AddStep(next, steps[i]);
      if ok {
        FacingReaches(s, steps, i, old(g.log), g.log);
      }
    }

    /**
     A consumer that loaded header h and tail x when the index was g0 and h0, and goes on now, when it may have been
     inserted into, grown, rewound and released from: a block that h served then is found where it was.
     */
    method LookupLater(h: Header, x: nat, index: nat, ghost m: int, ghost g0: Spec, ghost h0: Header)
      returns (entry: Entry)
      requires Valid() && Serves(g0, h0, h, m) && Anchors(g0, h0, h, x) && Kept(g0, h0, g, header)
      requires m in g.log.live && blockSize <= W && BlockStart(index, blockSize) == Key(m, blockSize)
      ensures entry == g0.ring[m - g0.log.khi + |g0.ring|] && entry.key == Key(m, blockSize)
      ensures entry.value == g.log.live[m]
    {
      ServesOn(g0, h0, g, header, h, m);
      AnchorsOn(g0, h0, g, header, h, x);
      entry := LookupFrom(h, x, index, m);
    }

    /** In particular one that loaded them before a bulk insertion and goes on after it. */
    method LookupAcross(base: nat, steps: seq<Step>, index: nat, ghost m: int) returns (entry: Entry)
      requires Valid() && Settled(g.log) && base == key(g.log.nb - 1) && WellFormed(g.log, steps)
      requires m in g.log.live && forall s <- steps :: m !in Blocks(s.releases)
      requires blockSize <= W && BlockStart(index, blockSize) == Key(m, blockSize)
      modifies this, header`tail, g.entries
      ensures Valid() && 0 <= Position(old(g.log), m) < |old(g).ring| && entry == old(EntryOf(m))
      ensures entry.key == Key(m, blockSize) && entry.value == old(g.log).live[m]
    {
      var h, x := header, header.tail;
      Loaded(m);
      ghost var g0, was := g, EntryOf(m);
      var ok := AddBlocks(base, steps);
      StillLive(g0.log, g.log, steps, m);
      entry := LookupLater(h, x, index, m, g0, h);
      assert entry == was;
    }
  }

  lemma OnRing(ring: seq<Entry>, cells: seq<Cell>, entries: set<Entry>)
    requires Mirrored(ring, cells, entries)
    ensures forall e :: e in ring ==> e in entries
  {
  }
}
