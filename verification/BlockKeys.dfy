/**
 Index arithmetic of the implicit producer's block index (yacul/concurrency/os_lockless_queue.h).

 Element indices are 64-bit and wrap.  The model numbers blocks without wrapping: block m holds
 the elements m * blockSize and up, and its key is that number modulo 2^64.
 */
module BlockKeys {
  import opened Masks

  const W: nat := 0x1_0000_0000_0000_0000
  const INVALID: nat := 1

  /** The key of block m. */
  function Key(m: int, blockSize: nat): (k: nat)
    ensures k < W
  {
    m * blockSize % W
  }

  /** index & ~(BLOCK_SIZE - 1). */
  function BlockStart(index: nat, blockSize: nat): (r: nat)
    requires blockSize <= W
  {
    BitAnd(index, W - blockSize)
  }

  /** For a power-of-two block size that rounds down to a multiple of it. */
  lemma BlockStartRounds(index: nat, blockSize: nat, logSize: nat)
    requires index < W && blockSize == Pow2(logSize) && logSize <= 64
    ensures 0 < blockSize <= W && BlockStart(index, blockSize) == index - index % blockSize
  {
    Pow64();
    MaskRoundsDown(index, logSize, 64);
  }

  /**
   The slot of get_block_index_index_for_index.  BLOCK_SIZE is a size_t, so the signed difference
   is converted back and the division is unsigned.
   */
  function ComputedSlot(start: nat, tail: nat, tailBase: nat, blockSize: nat, capacity: nat): (r: nat)
    requires blockSize > 0 && capacity > 0
    ensures r < capacity
  {
    BitAnd((tail + (start - tailBase) % W / blockSize) % W, capacity - 1)
  }

  /** blockSize times blocks is 2^64 and the capacity is a power of two that divides blocks. */
  ghost predicate Sizes(blockSize: nat, blocks: nat, capacity: nat, logCap: nat)
  {
    blockSize > 1 && blocks > 0 && blockSize * blocks == W &&
    capacity == Pow2(logCap) && capacity > 0 && blocks % capacity == 0
  }

  lemma CapacityDividesW(blockSize: nat, blocks: nat, capacity: nat, logCap: nat)
    requires Sizes(blockSize, blocks, capacity, logCap)
    ensures W % capacity == 0
  {
    var q := blocks / capacity;
    assert blockSize * (capacity * q) == capacity * (blockSize * q);
    UniqueRemainder(W, capacity, blockSize * q, 0);
  }

  /** Masking after a wrap at 2^64. */
  lemma MaskWrapped(x: int, blockSize: nat, blocks: nat, capacity: nat, logCap: nat)
    requires Sizes(blockSize, blocks, capacity, logCap)
    ensures BitAnd(x % W, capacity - 1) == x % capacity
  {
    CapacityDividesW(blockSize, blocks, capacity, logCap);
    MaskIsRemainder(x % W, logCap);
    NestedRemainder(0, x, W, capacity);
  }

  /** The wrapped difference of two keys, divided, is the difference of the block numbers modulo blocks. */
  lemma KeyDifference(m: int, t: int, blockSize: nat, blocks: nat)
    requires blockSize > 0 && blocks > 0 && blockSize * blocks == W
    ensures (Key(m, blockSize) - Key(t, blockSize)) % W / blockSize == (m - t) % blocks
  {
    var qm, qt := m * blockSize / W, t * blockSize / W;
    var d, r := (m - t) / blocks, (m - t) % blocks;
    assert m - t == blocks * d + r;
    assert (m - t) * blockSize == (blockSize * blocks) * d + r * blockSize by {
      assert (blocks * d + r) * blockSize == (blockSize * blocks) * d + r * blockSize;
    }
    assert m * blockSize == W * qm + Key(m, blockSize);
    assert t * blockSize == W * qt + Key(t, blockSize);
    assert (m - t) * blockSize == m * blockSize - t * blockSize;
    assert r * blockSize < W by {
      assert r * blockSize <= (blocks - 1) * blockSize;
    }
    UniqueRemainder(Key(m, blockSize) - Key(t, blockSize), W, d - qm + qt, r * blockSize);
    UniqueRemainder(r * blockSize, blockSize, r, 0);
  }

  /**
   Anchored at any slot whose key is block t's, the computation finds the slot (m - t) steps away
   on the circle, before or after it, although the division is unsigned and the difference wraps.
   */
  lemma SlotIsExact(m: int, t: int, tail: nat, blockSize: nat, blocks: nat, capacity: nat, logCap: nat)
    requires Sizes(blockSize, blocks, capacity, logCap)
    ensures ComputedSlot(Key(m, blockSize), tail, Key(t, blockSize), blockSize, capacity) == (tail + m - t) % capacity
  {
    KeyDifference(m, t, blockSize, blocks);
    MaskWrapped(tail + (m - t) % blocks, blockSize, blocks, capacity, logCap);
    NestedRemainder(tail, m - t, blocks, capacity);
  }

  /** So the tail that anchors the computation does not matter: a stale one gives the same slot. */
  lemma AnyAnchor(m: int, t: int, u: int, tail: nat, stale: nat,
                  blockSize: nat, blocks: nat, capacity: nat, logCap: nat)
    requires Sizes(blockSize, blocks, capacity, logCap)
    requires stale == (tail + u - t) % capacity
    ensures ComputedSlot(Key(m, blockSize), stale, Key(u, blockSize), blockSize, capacity) ==
            ComputedSlot(Key(m, blockSize), tail, Key(t, blockSize), blockSize, capacity)
  {
    SlotIsExact(m, t, tail, blockSize, blocks, capacity, logCap);
    SlotIsExact(m, u, stale, blockSize, blocks, capacity, logCap);
    UniqueRemainder(capacity, capacity, 1, 0);
    NestedRemainder(m - u, tail + u - t, capacity, capacity);
  }

  /** Distinct blocks fewer than blocks apart have distinct keys, and none is INVALID. */
  lemma KeysDiffer(m: int, t: int, blockSize: nat, blocks: nat)
    requires blockSize > 1 && blocks > 0 && blockSize * blocks == W && 0 < m - t < blocks
    ensures Key(m, blockSize) != Key(t, blockSize)
  {
    KeyDifference(m, t, blockSize, blocks);
    UniqueRemainder(m - t, blocks, 0, m - t);
    UniqueRemainder(0, W, 0, 0);
    assert 0 / blockSize == 0;
  }

  lemma KeyIsValid(m: int, blockSize: nat)
    requires blockSize > 1 && W % blockSize == 0
    ensures Key(m, blockSize) != INVALID && Key(m, blockSize) % blockSize == 0
  {
    NestedRemainder(0, m * blockSize, W, blockSize);
    UniqueRemainder(m * blockSize, blockSize, m, 0);
    UniqueRemainder(INVALID, blockSize, 0, INVALID);
  }

  lemma NextSlot(tail: nat, capacity: nat, logCap: nat)
    requires capacity == Pow2(logCap) && tail < capacity
    ensures BitAnd(tail + 1, capacity - 1) == if tail + 1 == capacity then 0 else tail + 1
  {
    MaskIsRemainder(tail + 1, logCap);
    if tail + 1 == capacity {
      UniqueRemainder(tail + 1, capacity, 1, 0);
    } else {
      UniqueRemainder(tail + 1, capacity, 0, tail + 1);
    }
  }

  lemma PreviousSlot(tail: nat, blockSize: nat, blocks: nat, capacity: nat, logCap: nat)
    requires Sizes(blockSize, blocks, capacity, logCap) && tail < capacity
    ensures BitAnd((tail - 1) % W, capacity - 1) == if tail == 0 then capacity - 1 else tail - 1
  {
    MaskWrapped(tail - 1, blockSize, blocks, capacity, logCap);
    if tail == 0 {
      UniqueRemainder(-1, capacity, -1, capacity - 1);
    } else {
      UniqueRemainder(tail - 1, capacity, 0, tail - 1);
    }
  }

  /** The next block's key, and the element indices that belong to a block. */
  lemma KeyStep(m: int, blockSize: nat)
    ensures (Key(m, blockSize) + blockSize) % W == Key(m + 1, blockSize)
  {
    UniqueRemainder(W, W, 1, 0);
    NestedRemainder(blockSize, m * blockSize, W, W);
    assert (m + 1) * blockSize == m * blockSize + blockSize;
  }

  /** The elements e of block e / blockSize. */
  lemma ElementInBlock(e: int, blockSize: nat, logSize: nat)
    requires 1 <= logSize <= 64 && blockSize == Pow2(logSize)
    ensures 0 < blockSize <= W && BlockStart(e % W, blockSize) == Key(e / blockSize, blockSize)
  {
    BlockStartRounds(e % W, blockSize, logSize);
    SizesOf(blockSize, logSize, 1, 0);
    UniqueRemainder(W, blockSize, Pow2(64 - logSize), 0);
    NestedRemainder(0, e, W, blockSize);
    WholeBlocks(e, blockSize);
    UniqueRemainder(e - e % blockSize, W, e / W, e % W - e % blockSize);
  }

  lemma WholeBlocks(e: int, blockSize: nat)
    requires blockSize > 0
    ensures e / blockSize * blockSize == e - e % blockSize
  {
  }

  /** The sizes by their logarithms. */
  ghost predicate Dims(blockSize: nat, logSize: nat, capacity: nat, logCap: nat)
  {
    1 <= logSize <= 64 && blockSize == Pow2(logSize) && capacity == Pow2(logCap) && logCap <= 64 - logSize
  }

  lemma Pow64()
    ensures Pow2(64) == W
  {
    assert Pow2(4) == 16;
    PowersAdd(4, 4);
    PowersAdd(8, 8);
    PowersAdd(16, 16);
    PowersAdd(32, 32);
  }

  lemma SizesOf(blockSize: nat, logSize: nat, capacity: nat, logCap: nat)
    requires Dims(blockSize, logSize, capacity, logCap)
    ensures Sizes(blockSize, Pow2(64 - logSize), capacity, logCap)
  {
    Pow64();
    PowersAdd(logSize, 64 - logSize);
    PowersGrow(0, logSize);
    PowPositive(64 - logSize);
    if logCap < 64 - logSize {
      PowersGrow(logCap, 64 - logSize);
    }
    PowersDivide(logCap, 64 - logSize);
  }

  lemma PreviousTail(tail: nat, blockSize: nat, logSize: nat, capacity: nat, logCap: nat)
    requires Dims(blockSize, logSize, capacity, logCap) && tail <= capacity
    ensures capacity > 0
    ensures tail < capacity ==> BitAnd((tail - 1) % W, capacity - 1) == if tail == 0 then capacity - 1 else tail - 1
  {
    SizesOf(blockSize, logSize, capacity, logCap);
    if tail < capacity {
      PreviousSlot(tail, blockSize, Pow2(64 - logSize), capacity, logCap);
    }
  }

  /** A key is not INVALID_BLOCK_BASE, and is its own block start. */
  lemma ValidKey(m: int, blockSize: nat, logSize: nat)
    requires 1 <= logSize <= 64 && blockSize == Pow2(logSize)
    ensures Key(m, blockSize) != INVALID && 0 < blockSize <= W
    ensures BlockStart(Key(m, blockSize), blockSize) == Key(m, blockSize)
  {
    SizesOf(blockSize, logSize, 1, 0);
    UniqueRemainder(W, blockSize, Pow2(64 - logSize), 0);
    KeyIsValid(m, blockSize);
    BlockStartRounds(Key(m, blockSize), blockSize, logSize);
  }

  /** Doubling the capacity, within the number of keys. */
  lemma DoubledDims(blockSize: nat, logSize: nat, capacity: nat, logCap: nat)
    requires Dims(blockSize, logSize, capacity, logCap) && 2 * capacity <= Pow2(64 - logSize)
    ensures Dims(blockSize, logSize, 2 * capacity, logCap + 1) && capacity > 0
    ensures BitAnd(capacity - 1, 2 * capacity - 1) == capacity - 1
  {
    if logCap == 64 - logSize {
      PowPositive(logCap);
    }
    PowPositive(logCap);
    MaskIsRemainder(capacity - 1, logCap + 1);
    UniqueRemainder(capacity - 1, 2 * capacity, 0, capacity - 1);
  }

  /** The lookup is right for all blocks and tails exactly if the capacity is at most 2^64 / BLOCK_SIZE. */
  lemma ExactNeedsDivisor(blockSize: nat, logSize: nat, capacity: nat, logCap: nat)
    requires 1 <= logSize <= 64 && blockSize == Pow2(logSize) && capacity == Pow2(logCap)
    ensures blockSize > 0 && capacity > 0
    ensures (forall m: int, t: int, tail: nat :: SlotRight(m, t, tail, blockSize, capacity)) <==>
            capacity <= Pow2(64 - logSize)
  {
    PowPositive(logSize);
    PowPositive(logCap);
    if capacity <= Pow2(64 - logSize) {
      if logCap > 64 - logSize {
        PowersGrow(64 - logSize, logCap);
      }
      SizesOf(blockSize, logSize, capacity, logCap);
      forall m: int, t: int, tail: nat ensures SlotRight(m, t, tail, blockSize, capacity) {
        SlotIsExact(m, t, tail, blockSize, Pow2(64 - logSize), capacity, logCap);
      }
    } else {
      SlotBeforeTail(blockSize, logSize, capacity, logCap);
    }
  }

  ghost predicate SlotRight(m: int, t: int, tail: nat, blockSize: nat, capacity: nat)
    requires blockSize > 0 && capacity > 0
  {
    ComputedSlot(Key(m, blockSize), tail, Key(t, blockSize), blockSize, capacity) == (tail + m - t) % capacity
  }

  /** A larger capacity misses the block before the tail's. */
  lemma SlotBeforeTail(blockSize: nat, logSize: nat, capacity: nat, logCap: nat)
    requires 1 <= logSize <= 64 && blockSize == Pow2(logSize) && capacity == Pow2(logCap) > Pow2(64 - logSize)
    ensures blockSize > 0 && capacity > 0 && !SlotRight(0, 1, 1, blockSize, capacity)
  {
    SizesOf(blockSize, logSize, 1, 0);
    var blocks := Pow2(64 - logSize);
    KeyDifference(0, 1, blockSize, blocks);
    UniqueRemainder(-1, blocks, -1, blocks - 1);
    assert blocks < W by {
      assert blockSize * blocks >= 2 * blocks;
    }
    UniqueRemainder(blocks, W, 0, blocks);
    FullMask(blocks, logCap);
    UniqueRemainder(0, capacity, 0, 0);
  }
}
