/**
 Arena (yacul/memory/arena.h, arena.cc): a bump allocator over a singly linked list of blocks,
 newest first, with marks that rewind it.

 malloc is a parameter: the caller supplies an address that malloc could return.  Layout
 constants are those of a 64-bit platform: alignof(max_align_t) is 16, the AllocHeader slot
 takes 16 bytes and the Block header 32.
 */
module Arena {
  import opened Masks

  const MAX_ALIGN := 16
  const OVERHEAD := 16
  const HEADER := 32
  const BLOCK_SIZE := 24      // sizeof(Block)

  function AlignUp(v: nat, align: nat): (r: nat)
    requires align > 0
    ensures r % align == 0 && v <= r < v + align
  {
    AlignUpFacts(v, align);
    (v + align - 1) / align * align
  }

  lemma AlignUpFacts(v: nat, align: nat)
    requires align > 0
    ensures var r := (v + align - 1) / align * align; r % align == 0 && v <= r < v + align
  {
    var q := (v + align - 1) / align;
    assert v + align - 1 == align * q + (v + align - 1) % align;
    UniqueRemainder(q * align, align, q, 0);
  }

  function Greater(a: nat, b: nat): (r: nat)
    ensures r >= a && r >= b && (r == a || r == b)
  {
    if a > b then a else b
  }

  /** CheckAlignment: a power of two up to 4096. */
  predicate GoodAlignment(align: nat)
  {
    align in {1, 2, 4, 8, 16, 32, 64, 128, 256, 512, 1024, 2048, 4096}
  }

  /** An allocation that has been handed out and not rewound or reset. */
  datatype Span = Span(addr: nat, size: nat, align: nat)

  class Block {
    const base: nat          // address of data()
    const capacity: nat
    const next: Block?
    var used: nat

    /** MakeBlock: raw is what malloc returned for OVERHEAD + HEADER + capacity bytes. */
    constructor (raw: nat, capacity: nat, next: Block?)
      ensures base == raw + OVERHEAD + HEADER && this.capacity == capacity && this.next == next && used == 0
    {
      base, this.capacity, this.next, used := raw + OVERHEAD + HEADER, capacity, next, 0;
    }

    /** Block::TryAlloc. */
    method TryAlloc(size: nat, align: nat) returns (ptr: nat, ok: bool)
      requires align > 0 && used <= capacity
      modifies this
      ensures ok <==> AlignUp(base + old(used), align) + size <= base + capacity
      ensures ok ==> ptr == AlignUp(base + old(used), align) && base + used == ptr + size
      ensures !ok ==> used == old(used)
    {
      var p := base + used;
      var padding := AlignUp(p, align) - p;
      var total := padding + size;
      if total > capacity - used {
        return 0, false;
      }
      used := used + total;
      return p + padding, true;
    }
  }

  /** A block and the allocations in it, in address order. */
  datatype Slab = Slab(block: Block, used: nat, spans: seq<Span>)
  {
    function Base(): nat { block.base }
    function Capacity(): nat { block.capacity }
  }

  /** The spans are aligned, non-empty, in order, and lie in [lo, hi). */
  predicate Packed(spans: seq<Span>, lo: nat, hi: nat)
  {
    if |spans| == 0 then lo <= hi
    else
      var s := spans[|spans| - 1];
      s.size > 0 && s.align > 0 && s.addr % s.align == 0 && s.addr + s.size <= hi &&
      Packed(spans[..|spans| - 1], lo, s.addr)
  }

  predicate SlabOk(b: Slab)
  {
    b.used <= b.Capacity() && Packed(b.spans, b.Base(), b.Base() + b.used)
  }

  /** The two malloc regions, headers included, do not meet. */
  predicate Apart(a: Slab, b: Slab)
  {
    a.Base() + a.Capacity() + OVERHEAD + HEADER <= b.Base() || b.Base() + b.Capacity() + OVERHEAD + HEADER <= a.Base()
  }

  /** Blocks are packed and occupy disjoint memory. */
  predicate Sound(c: seq<Slab>)
  {
    |c| > 0 && (forall i :: 0 <= i < |c| ==> SlabOk(c[i])) && c[|c| - 1].block.next == null &&
    (forall i :: 0 <= i < |c| - 1 ==> c[i].block.next == c[i + 1].block) &&
    (forall i, j :: 0 <= i < j < |c| ==> Apart(c[i], c[j]) && c[i].block != c[j].block)
  }

  /** b is a plus later allocations: newer blocks in front, more spans in a's newest block. */
  predicate Extends(a: seq<Slab>, b: seq<Slab>)
  {
    0 < |a| <= |b| &&
    var k := |b| - |a|;
    b[k + 1..] == a[1..] && b[k].block == a[0].block &&
    a[0].used <= b[k].used && a[0].spans <= b[k].spans
  }

  lemma ExtendsTrans(a: seq<Slab>, b: seq<Slab>, c: seq<Slab>)
    requires Extends(a, b) && Extends(b, c)
    ensures Extends(a, c)
  {
    var k, m := |b| - |a|, |c| - |b|;
    assert c[m + 1..] == b[1..];
    if k == 0 {
      assert c[m + 1..] == a[1..];
    } else {
      assert c[m + k] == b[k];
      assert c[m + k + 1..] == c[m + 1..][k..];
      assert b[k + 1..] == b[1..][k..];
    }
  }

  lemma {:induction false} PackedBounds(spans: seq<Span>, lo: nat, hi: nat, i: nat)
    requires Packed(spans, lo, hi) && i < |spans|
    ensures spans[i].size > 0 && spans[i].align > 0 && spans[i].addr % spans[i].align == 0
    ensures lo <= spans[i].addr && spans[i].addr + spans[i].size <= hi
  {
    var n := |spans| - 1;
    if i < n {
      PackedBounds(spans[..n], lo, spans[n].addr, i);
    } else {
      PackedOrder(spans[..n], lo, spans[n].addr);
    }
  }

  lemma {:induction false} PackedOrder(spans: seq<Span>, lo: nat, hi: nat)
    requires Packed(spans, lo, hi)
    ensures lo <= hi
  {
    var n := |spans| - 1;
    if n >= 0 {
      PackedOrder(spans[..n], lo, spans[n].addr);
    }
  }

  lemma {:induction false} PackedDisjoint(spans: seq<Span>, lo: nat, hi: nat, i: nat, j: nat)
    requires Packed(spans, lo, hi) && i < j < |spans|
    ensures spans[i].addr + spans[i].size <= spans[j].addr
  {
    var n := |spans| - 1;
    if j < n {
      PackedDisjoint(spans[..n], lo, spans[n].addr, i, j);
    } else {
      PackedBounds(spans[..n], lo, spans[n].addr, i);
    }
  }

  lemma {:induction false} PackedPrefix(spans: seq<Span>, lo: nat, hi: nat, hi': nat)
    requires Packed(spans, lo, hi) && hi <= hi'
    ensures Packed(spans, lo, hi')
  {
  }

  /** Live allocations are aligned and lie inside one block. */
  lemma SpanInBlock(c: seq<Slab>, i: nat, p: nat)
    requires Sound(c) && i < |c| && p < |c[i].spans|
    ensures var s := c[i].spans[p];
            s.align > 0 && s.addr % s.align == 0 && c[i].Base() <= s.addr && s.addr + s.size <= c[i].Base() + c[i].used
  {
    PackedBounds(c[i].spans, c[i].Base(), c[i].Base() + c[i].used, p);
  }

  /** Any two different live allocations are disjoint in memory. */
  lemma SpansDisjoint(c: seq<Slab>, i: nat, p: nat, j: nat, q: nat)
    requires Sound(c) && i < |c| && p < |c[i].spans| && j < |c| && q < |c[j].spans| && (i != j || p != q)
    ensures var s, t := c[i].spans[p], c[j].spans[q]; s.addr + s.size <= t.addr || t.addr + t.size <= s.addr
  {
    SpanInBlock(c, i, p);
    SpanInBlock(c, j, q);
    if i == j && p < q {
      PackedDisjoint(c[i].spans, c[i].Base(), c[i].Base() + c[i].used, p, q);
    } else if i == j {
      PackedDisjoint(c[i].spans, c[i].Base(), c[i].Base() + c[i].used, q, p);
    } else if i < j {
      assert Apart(c[i], c[j]);
    } else {
      assert Apart(c[j], c[i]);
    }
  }

  function Bytes(spans: seq<Span>): nat
  {
    if |spans| == 0 then 0 else Bytes(spans[..|spans| - 1]) + spans[|spans| - 1].size
  }

  function LiveBytes(c: seq<Slab>): nat
  {
    if |c| == 0 then 0 else Bytes(c[0].spans) + LiveBytes(c[1..])
  }

  function Reserved(c: seq<Slab>): nat
  {
    if |c| == 0 then 0 else c[0].Capacity() + Reserved(c[1..])
  }

  lemma {:induction false} BytesFit(spans: seq<Span>, lo: nat, hi: nat)
    requires Packed(spans, lo, hi)
    ensures lo + Bytes(spans) <= hi
  {
    var n := |spans| - 1;
    if n >= 0 {
      BytesFit(spans[..n], lo, spans[n].addr);
    }
  }

  /** What is handed out never exceeds what is reserved. */
  lemma {:induction false} LiveWithinReserved(c: seq<Slab>)
    requires forall i :: 0 <= i < |c| ==> SlabOk(c[i])
    ensures LiveBytes(c) <= Reserved(c)
  {
    if |c| > 0 {
      BytesFit(c[0].spans, c[0].Base(), c[0].Base() + c[0].used);
      LiveWithinReserved(c[1..]);
    }
  }

  lemma {:induction false} BytesPrefix(a: seq<Span>, b: seq<Span>)
    requires a <= b
    ensures Bytes(a) <= Bytes(b)
  {
    if |a| < |b| {
      BytesPrefix(a, b[..|b| - 1]);
    } else {
      assert a == b;
    }
  }

  lemma {:induction false} LiveGrows(a: seq<Slab>, b: seq<Slab>)
    requires Extends(a, b)
    ensures LiveBytes(a) <= LiveBytes(b)
  {
    var k := |b| - |a|;
    if k == 0 {
      BytesPrefix(a[0].spans, b[0].spans);
    } else {
      assert b[1..][k - 1 + 1..] == b[k + 1..];
      LiveGrows(a, b[1..]);
    }
  }

  /** s added to the newest block's spans. */
  function Bumped(b: Slab, s: Span): (r: Slab)
    requires s.addr + s.size >= b.Base()
  {
    b.(used := s.addr + s.size - b.Base(), spans := b.spans + [s])
  }

  /** The request fits the block's free tail. */
  predicate Fits(b: Slab, size: nat, align: nat)
    requires align > 0
  {
    AlignUp(b.Base() + b.used, align) + size <= b.Base() + b.Capacity()
  }

  /** The block list after an allocation in the newest block. */
  function BumpedList(c: seq<Slab>, size: nat, align: nat): (d: seq<Slab>)
    requires |c| > 0 && align > 0
    ensures |d| == |c| && d[1..] == c[1..]
  {
    [Bumped(c[0], Span(AlignUp(c[0].Base() + c[0].used, align), size, align))] + c[1..]
  }

  lemma BumpedSlab(b: Slab, size: nat, align: nat)
    requires SlabOk(b) && size > 0 && align > 0 && Fits(b, size, align)
    ensures SlabOk(Bumped(b, Span(AlignUp(b.Base() + b.used, align), size, align)))
  {
    var s := Span(AlignUp(b.Base() + b.used, align), size, align);
    assert Bumped(b, s).spans[..|b.spans|] == b.spans;
    PackedPrefix(b.spans, b.Base(), b.Base() + b.used, s.addr);
  }

  lemma BumpedBytes(b: Slab, size: nat, align: nat)
    requires align > 0
    ensures Bytes(Bumped(b, Span(AlignUp(b.Base() + b.used, align), size, align)).spans) == Bytes(b.spans) + size
  {
    var s := Span(AlignUp(b.Base() + b.used, align), size, align);
    assert (b.spans + [s])[..|b.spans|] == b.spans;
  }

  /** The newest block with one more allocation in it. */
  lemma {:induction false} FirstReplaced(c: seq<Slab>, b: Slab, s: Span)
    requires Sound(c) && SlabOk(b) && b.block == c[0].block && c[0].used <= b.used && b.spans == c[0].spans + [s]
    ensures Sound([b] + c[1..]) && Extends(c, [b] + c[1..])
  {
    var d := [b] + c[1..];
    assert d[1..] == c[1..] && forall i :: 1 <= i < |c| ==> d[i] == c[i];
    forall i, j | 0 <= i < j < |d| ensures Apart(d[i], d[j]) && d[i].block != d[j].block {
      assert Apart(c[i], c[j]) && c[i].block != c[j].block;
    }
  }

  lemma {:induction false} BumpKeepsSound(c: seq<Slab>, size: nat, align: nat)
    requires Sound(c) && size > 0 && align > 0 && Fits(c[0], size, align)
    ensures var d := BumpedList(c, size, align);
            Sound(d) && Extends(c, d) && LiveBytes(d) == LiveBytes(c) + size
  {
    var s := Span(AlignUp(c[0].Base() + c[0].used, align), size, align);
    BumpedSlab(c[0], size, align);
    BumpedBytes(c[0], size, align);
    FirstReplaced(c, Bumped(c[0], s), s);
  }

  lemma {:induction false} GrowKeepsSound(c: seq<Slab>, b: Slab)
    requires Sound(c) && b.used == 0 && b.spans == [] && b.block.next == c[0].block
    requires forall i :: 0 <= i < |c| ==> Apart(b, c[i]) && b.block != c[i].block
    ensures Sound([b] + c) && Extends(c, [b] + c) && LiveBytes([b] + c) == LiveBytes(c)
  {
    var d := [b] + c;
    assert d[1..] == c;
    assert d[2..] == c[1..];
    forall i, j | 0 <= i < j < |d| ensures Apart(d[i], d[j]) && d[i].block != d[j].block {
      assert d[j] == c[j - 1];
      if i > 0 {
        assert d[i] == c[i - 1];
        assert Apart(c[i - 1], c[j - 1]);
      }
    }
  }

  /** [raw, raw + n) meets no live block. */
  predicate Clear(raw: nat, n: nat, c: seq<Slab>)
  {
    forall i :: 0 <= i < |c| ==> raw + n + OVERHEAD + HEADER <= c[i].Base() || c[i].Base() + c[i].Capacity() <= raw
  }

  /** What malloc guarantees: an aligned region that is not in use. */
  ghost predicate Mallocs(malloc: nat -> nat, c: seq<Slab>)
  {
    forall n: nat :: Clear(malloc(n), n, c) && malloc(n) % MAX_ALIGN == 0
  }

  /** Every outstanding mark is a list the current one extends, and so are later marks. */
  ghost predicate MarksOk(marks: seq<seq<Slab>>, c: seq<Slab>)
  {
    (forall i :: 0 <= i < |marks| ==> Sound(marks[i]) && Extends(marks[i], c)) &&
    (forall i, j :: 0 <= i < j < |marks| ==> Extends(marks[i], marks[j]))
  }

  lemma MarksExtend(marks: seq<seq<Slab>>, a: seq<Slab>, b: seq<Slab>)
    requires Extends(a, b) && MarksOk(marks, a)
    ensures MarksOk(marks, b)
  {
    forall i | 0 <= i < |marks| ensures Extends(marks[i], b) {
      ExtendsTrans(marks[i], a, b);
    }
  }

  lemma ExtendsSelf(c: seq<Slab>)
    requires |c| > 0
    ensures Extends(c, c)
  {
    assert c[0].spans <= c[0].spans;
  }

  lemma MarkPushed(marks: seq<seq<Slab>>, c: seq<Slab>)
    requires MarksOk(marks, c) && Sound(c)
    ensures MarksOk(marks + [c], c)
  {
    ExtendsSelf(c);
    var m := marks + [c];
    forall i | 0 <= i < |m| ensures Sound(m[i]) && Extends(m[i], c) {
      assert m[i] == if i < |marks| then marks[i] else c;
    }
    forall i, j | 0 <= i < j < |m| ensures Extends(m[i], m[j]) {
      assert m[i] == marks[i] && m[j] == if j < |marks| then marks[j] else c;
      assert j < |marks| ==> Extends(marks[i], marks[j]);
    }
  }

  lemma MarksBelow(marks: seq<seq<Slab>>, c: seq<Slab>, k: nat)
    requires MarksOk(marks, c) && k < |marks|
    ensures MarksOk(marks[..k], marks[k])
  {
  }

  /** The block's bump offset is the one recorded. */
  ghost predicate Tied(b: Slab)
    reads b.block
  {
    b.block.used == b.used
  }

  ghost predicate AllTied(c: seq<Slab>)
    reads set b | b in c :: b.block
  {
    forall i {:trigger Tied(c[i])} :: 0 <= i < |c| ==> Tied(c[i])
  }

  /** A rewind point.  arena_ is the arena whose Mark returned it. */
  class ArenaMark {
    const block: Block
    const used: nat
    var valid: bool

    constructor (block: Block, used: nat)
      ensures this.block == block && this.used == used && valid
    {
      this.block, this.used, valid := block, used, true;
    }
  }

  class Arena {
    var current: Block
    const initialBlockSize: nat
    var growth: nat
    var totalAllocated: nat
    /** The block list with the live allocations, newest block first. */
    ghost var slabs: seq<Slab>
    /** The lists at the times of the outstanding marks, oldest first. */
    ghost var marks: seq<seq<Slab>>

    ghost predicate Linked()
      reads this, set b | b in slabs :: b.block
    {
      Sound(slabs) && current == slabs[0].block && AllTied(slabs)
    }

    ghost predicate Valid()
      reads this, set b | b in slabs :: b.block
    {
      Linked() && MarksOk(marks, slabs) && growth >= 1 && LiveBytes(slabs) <= totalAllocated
    }

    constructor (initialSize: nat, malloc: nat -> nat)
      requires initialSize > 0
      ensures Valid() && marks == [] && totalAllocated == 0 && growth == 2
      ensures |slabs| == 1 && slabs[0].spans == [] && slabs[0].used == 0 && slabs[0].Capacity() == initialBlockSize
      ensures initialBlockSize == if initialSize > 2 * BLOCK_SIZE then initialSize else 2 * BLOCK_SIZE
      ensures fresh(slabs[0].block)
      ensures slabs[0].Base() == malloc(initialBlockSize + OVERHEAD + HEADER) + OVERHEAD + HEADER
    {
      var size := if initialSize > 2 * BLOCK_SIZE then initialSize else 2 * BLOCK_SIZE;
      var b := new Block(malloc(size + OVERHEAD + HEADER), size, null);
      initialBlockSize := size;
      current := b;
      growth, totalAllocated := 2, 0;
      slabs, marks := [Slab(b, 0, [])], [];
    }

    /** TryAlloc on the current block, and the accounting that follows when it succeeds. */
    method AllocInCurrent(size: nat, align: nat) returns (ptr: nat, ok: bool)
      requires Valid() && size > 0 && align > 0
      modifies this`totalAllocated, this`slabs, current
      ensures Valid() && ok == Fits(old(slabs)[0], size, align)
      ensures ok ==> totalAllocated == old(totalAllocated) + size &&
                     ptr == AlignUp(old(slabs)[0].Base() + old(slabs)[0].used, align) &&
                     slabs == [Bumped(old(slabs)[0], Span(ptr, size, align))] + old(slabs)[1..]
      ensures !ok ==> totalAllocated == old(totalAllocated) && slabs == old(slabs)
    {
      ghost var before := slabs;
      assert SlabOk(before[0]) && Tied(before[0]);
      ptr, ok := current.TryAlloc(size, align);
      if ok {
        totalAllocated := totalAllocated + size;
        slabs := BumpedList(slabs, size, align);
        BumpKeepsSound(before, size, align);
        MarksExtend(marks, before, slabs);
      }
    }

    /** MakeBlock and its linking in front of the list. */
    method Grow(cap: nat, malloc: nat -> nat)
      requires Valid() && Mallocs(malloc, slabs)
      modifies this`current, this`slabs
      ensures Valid() && fresh(current) && |slabs| == |old(slabs)| + 1 && slabs[1..] == old(slabs)
      ensures slabs[0] == Slab(current, 0, []) && current.capacity == cap
      ensures current.base == malloc(OVERHEAD + HEADER + cap) + OVERHEAD + HEADER
    {
      ghost var before := slabs;
      var total := OVERHEAD + HEADER + cap;
      var b := new Block(malloc(total), cap, current);
      assert Clear(malloc(total), total, before);
      current := b;
      GrowKeepsSound(before, Slab(b, 0, []));
      slabs := [Slab(b, 0, [])] + before;
      MarksExtend(marks, before, slabs);
    }

    /** AllocBytes.  A null result is 0. */
    method AllocBytes(size: nat, align: nat, malloc: nat -> nat) returns (ptr: nat)
      requires Valid() && Mallocs(malloc, slabs)
      requires size > 0 ==> GoodAlignment(align)
      modifies this`current, this`totalAllocated, this`slabs, current
      ensures Valid() && totalAllocated == old(totalAllocated) + size
      ensures size == 0 ==> ptr == 0 && slabs == old(slabs)
      ensures size > 0 && Fits(old(slabs)[0], size, align) ==>
        ptr == AlignUp(old(slabs)[0].Base() + old(slabs)[0].used, align) &&
        slabs == [Bumped(old(slabs)[0], Span(ptr, size, align))] + old(slabs)[1..]
      ensures size > 0 && !Fits(old(slabs)[0], size, align) ==>
        |slabs| == |old(slabs)| + 1 && slabs[1..] == old(slabs) && slabs[0].spans == [Span(ptr, size, align)] &&
        fresh(current) && ptr == AlignUp(slabs[0].Base(), align) &&
        slabs[0].Capacity() == Greater(old(current.capacity) * growth, AlignUp(size + HEADER, align) + align)
    {
      if size == 0 {
        return 0;
      }
      var ok;
      ptr, ok := AllocInCurrent(size, align);
      if !ok {
        ptr := GrowAndAlloc(size, align, malloc);
      }
    }

    /** A fresh block, which always satisfies the allocation. */
    method GrowAndAlloc(size: nat, align: nat, malloc: nat -> nat) returns (ptr: nat)
      requires Valid() && Mallocs(malloc, slabs) && size > 0 && GoodAlignment(align)
      modifies this`current, this`totalAllocated, this`slabs
      ensures Valid() && totalAllocated == old(totalAllocated) + size
      ensures |slabs| == |old(slabs)| + 1 && slabs[1..] == old(slabs) && slabs[0].spans == [Span(ptr, size, align)]
      ensures fresh(current) && ptr == AlignUp(slabs[0].Base(), align)
      ensures slabs[0].Capacity() == Greater(old(current.capacity) * growth, AlignUp(size + HEADER, align) + align)
    {
      var ok;
      Grow(Greater(current.capacity * growth, AlignUp(size + HEADER, align) + align), malloc);
      ptr, ok := AllocInCurrent(size, align);
      assert ok;      // the CHECK on the fresh block
    }

    method SetGrowthFactor(factor: nat)
      requires Valid()
      modifies this`growth
      ensures Valid() && growth == if factor < 1 then 1 else factor
    {
      growth := if factor < 1 then 1 else factor;
    }

    /** reserved_bytes and block_count: the same walk over the list. */
    method ReservedBytes() returns (total: nat, count: nat)
      requires Valid()
      ensures total == Reserved(slabs) && count == |slabs| && LiveBytes(slabs) <= total
    {
      var b: Block? := current;
      total, count := 0, 0;
      while b != null
        invariant count <= |slabs| && total + Reserved(slabs[count..]) == Reserved(slabs)
        invariant b == if count < |slabs| then slabs[count].block else null
        decreases |slabs| - count
      {
        assert slabs[count..][1..] == slabs[count + 1..];
        total := total + b.capacity;
        b := b.next;
        count := count + 1;
      }
      LiveWithinReserved(slabs);
    }

    method Mark() returns (m: ArenaMark)
      requires Valid()
      modifies this`marks
      ensures Valid() && fresh(m) && m.valid && marks == old(marks) + [slabs]
      ensures m.block == slabs[0].block && m.used == slabs[0].used
    {
      assert Tied(slabs[0]);
      m := new ArenaMark(current, current.used);
      MarkPushed(marks, slabs);
      marks := marks + [slabs];
    }

    /**
     ArenaMark::Rewind of the mark that Mark() put at position k of the stack; marks above it are
     gone with it.  Whatever was allocated since, the arena is back to the list at Mark time, and
     the totals keep counting.
     */
    method Rewind(m: ArenaMark, ghost k: nat)
      requires Valid()
      requires m.valid ==> k < |marks| && m.block == marks[k][0].block && m.used == marks[k][0].used
      modifies this`current, this`slabs, this`marks, m`valid, m.block
      ensures Valid() && !m.valid
      ensures old(m.valid) ==> slabs == old(marks)[k] && marks == old(marks)[..k]
      ensures !old(m.valid) ==> slabs == old(slabs) && marks == old(marks) && m.block.used == old(m.block.used)
    {
      if m.valid {
        var freed := RewindTo(m.block, m.used, k);
        m.valid := false;
      }
    }

    /** RewindTo; the blocks newer than the mark's are freed, in order, and no other. */
    method RewindTo(block: Block, used: nat, ghost k: nat) returns (freed: seq<Block>)
      requires Valid() && k < |marks| && block == marks[k][0].block && used == marks[k][0].used
      modifies this`current, this`slabs, this`marks, block
      ensures Valid() && slabs == old(marks)[k] && marks == old(marks)[..k]
      ensures |freed| == |old(slabs)| - |slabs| && forall i :: 0 <= i < |freed| ==> freed[i] == old(slabs)[i].block
    {
      freed := FreeNewer(block, marks[k]);
      SetUsed(block, used, marks[k]);
      GoBack(k);
    }

    ghost method GoBack(k: nat)
      requires MarksOk(marks, slabs) && k < |marks| && AllTied(marks[k]) && current == marks[k][0].block
      requires growth >= 1 && LiveBytes(slabs) <= totalAllocated
      modifies this`slabs, this`marks
      ensures Valid() && slabs == old(marks)[k] && marks == old(marks)[..k]
    {
      LiveGrows(marks[k], slabs);
      MarksBelow(marks, slabs, k);
      marks, slabs := marks[..k], marks[k];
    }

    /** The loop: walk to the mark's block, freeing what is passed. */
    method FreeNewer(block: Block, ghost target: seq<Slab>) returns (freed: seq<Block>)
      requires Linked() && Extends(target, slabs) && block == target[0].block
      modifies this`current
      ensures current == block && |freed| == |slabs| - |target|
      ensures forall i :: 0 <= i < |freed| ==> freed[i] == slabs[i].block
    {
      freed := [];
      ghost var d := |slabs| - |target|;
      while current != block
        invariant |freed| <= d && current == slabs[|freed|].block
        invariant forall i :: 0 <= i < |freed| ==> freed[i] == slabs[i].block
        decreases d - |freed|
      {
        ghost var i := |freed|;
        assert i != d && slabs[i].block.next == slabs[i + 1].block;
        freed := freed + [current];
        current := current.next;
      }
    }

    /** The mark's offset put back: every block of target is as it was. */
    method SetUsed(block: Block, used: nat, ghost target: seq<Slab>)
      requires AllTied(slabs) && Sound(target) && Extends(target, slabs)
      requires block == target[0].block && used == target[0].used
      modifies block
      ensures AllTied(target)
    {
      ghost var d := |slabs| - |target|;
      assert forall j :: 1 <= j < |target| ==> target[j] == slabs[d + 1..][j - 1];
      assert forall j :: 1 <= j < |target| ==> Tied(slabs[d + j]) && target[j].block != block;
      block.used := used;
    }

    /** FreeAllBlocks: every block of the list is freed, once. */
    method FreeAllBlocks() returns (freed: seq<Block>)
      requires Valid()
      ensures |freed| == |slabs| && forall i :: 0 <= i < |freed| ==> freed[i] == slabs[i].block
    {
      freed := [];
      var b: Block? := current;
      while b != null
        invariant |freed| <= |slabs| && forall i :: 0 <= i < |freed| ==> freed[i] == slabs[i].block
        invariant b == if |freed| < |slabs| then slabs[|freed|].block else null
        decreases |slabs| - |freed|
      {
        freed := freed + [b];
        b := b.next;
      }
    }

    /** Reset frees every block and starts over with one of the initial size. */
    method Reset(malloc: nat -> nat)
      requires Valid() && marks == []
      modifies this`current, this`slabs, this`totalAllocated
      ensures Valid() && totalAllocated == 0 && fresh(current)
      ensures slabs == [Slab(current, 0, [])] && current.capacity == initialBlockSize
      ensures current.base == malloc(OVERHEAD + HEADER + initialBlockSize) + OVERHEAD + HEADER
    {
      var freed := FreeAllBlocks();
      var b := new Block(malloc(OVERHEAD + HEADER + initialBlockSize), initialBlockSize, null);
      current, totalAllocated := b, 0;
      slabs := [Slab(b, 0, [])];
    }
  }
}
