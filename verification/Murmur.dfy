/**
 MurmurHash3_x86_32 (yacul/hashing/os_murmur_hash3.cc) and the chained hash of a pair of
 integers (yacul/hashing/hash.h), on a little-endian machine.

 A uint32_t is a number below 2^32: products wrap, shifts and rotations are written out as
 division and remainder, and ^ is BitXor.
 */
module Murmur {
  import opened Counting
  import opened Masks

  const W32: nat := 0x1_0000_0000
  type Word = x: nat | x < W32
  type Byte = x: nat | x < 256

  // ---------------------------------------------------------------- exclusive or

  function BitXor(x: nat, y: nat): nat
  {
    if x == 0 && y == 0 then 0 else 2 * BitXor(x / 2, y / 2) + (x + y) % 2
  }

  /** The recursion without its base case. */
  lemma XorStep(x: nat, y: nat)
    ensures BitXor(x, y) / 2 == BitXor(x / 2, y / 2) && BitXor(x, y) % 2 == (x + y) % 2
    ensures BitXor(x, y) == 2 * BitXor(x / 2, y / 2) + (x + y) % 2
  {
  }

  lemma {:induction false} XorBounded(x: nat, y: nat, n: nat)
    requires x < Pow2(n) && y < Pow2(n)
    ensures BitXor(x, y) < Pow2(n)
  {
    if n > 0 && (x != 0 || y != 0) {
      XorBounded(x / 2, y / 2, n - 1);
    }
  }

  /** x >> i. */
  function Shr(x: nat, i: nat): nat
  {
    if i == 0 then x else Shr(x / 2, i - 1)
  }

  function Bit(x: nat, i: nat): bool
  {
    Shr(x, i) % 2 == 1
  }

  lemma {:induction false} ShrTwice(x: nat, i: nat, j: nat)
    ensures Shr(Shr(x, i), j) == Shr(x, i + j)
  {
    if i > 0 {
      ShrTwice(x / 2, i - 1, j);
    }
  }

  lemma {:induction false} ShrToZero(x: nat, n: nat)
    requires x < Pow2(n)
    ensures Shr(x, n) == 0
  {
    if n > 0 {
      ShrToZero(x / 2, n - 1);
    }
  }

  lemma {:induction false} XorBit(x: nat, y: nat, i: nat)
    ensures Bit(BitXor(x, y), i) == (Bit(x, i) != Bit(y, i))
  {
    XorStep(x, y);
    if i > 0 {
      XorBit(x / 2, y / 2, i - 1);
      HigherBit(x, y, BitXor(x, y), i);
    } else {
      LowestBit(x, y, BitXor(x, y));
    }
  }

  lemma HigherBit(x: nat, y: nat, z: nat, i: nat)
    requires i > 0 && Bit(z / 2, i - 1) == (Bit(x / 2, i - 1) != Bit(y / 2, i - 1))
    ensures Bit(z, i) == (Bit(x, i) != Bit(y, i))
  {
  }

  lemma LowestBit(x: nat, y: nat, z: nat)
    requires z % 2 == (x + y) % 2
    ensures Bit(z, 0) == (Bit(x, 0) != Bit(y, 0))
  {
  }

  /** Numbers with the same bits are the same. */
  lemma {:induction false} SameBits(x: nat, y: nat, n: nat)
    requires x < Pow2(n) && y < Pow2(n) && forall i: nat :: i < n ==> Bit(x, i) == Bit(y, i)
    ensures x == y
  {
    if n > 0 {
      forall i: nat | i < n - 1 ensures Bit(x / 2, i) == Bit(y / 2, i) {
        assert Bit(x, i + 1) == Bit(y, i + 1);
      }
      SameBits(x / 2, y / 2, n - 1);
      assert Bit(x, 0) == Bit(y, 0);
    }
  }

  function Xor(x: Word, y: Word): Word
  {
    PowersOfTwo();
    XorBounded(x, y, 32);
    BitXor(x, y)
  }

  lemma PowersOfTwo()
    ensures Pow2(8) == 0x100 && Pow2(13) == 0x2000 && Pow2(16) == 0x1_0000 && Pow2(32) == W32
  {
    assert Pow2(8) == 0x100;
    assert Pow2(5) == 32;
    PowersAdd(8, 5);
    PowersAdd(8, 8);
    PowersAdd(16, 16);
  }

  /** What is xored twice is gone. */
  lemma XorCancels(x: Word, k: Word)
    ensures Xor(Xor(x, k), k) == x && Xor(Xor(k, x), k) == x
  {
    var a, b := Xor(x, k), Xor(k, x);
    forall i: nat | i < 32 ensures Bit(Xor(a, k), i) == Bit(x, i) && Bit(Xor(b, k), i) == Bit(x, i) {
      XorBit(x, k, i);
      XorBit(k, x, i);
      XorBit(a, k, i);
      XorBit(b, k, i);
    }
    PowersOfTwo();
    SameBits(Xor(a, k), x, 32);
    SameBits(Xor(b, k), x, 32);
  }

  /** h ^ (h >> 16) and h ^ (h >> 13) can be undone. */
  function Shift(h: Word, k: nat): Word
  {
    ShrSmaller(h, k);
    Xor(h, Shr(h, k))
  }

  lemma {:induction false} ShrSmaller(h: nat, k: nat)
    ensures Shr(h, k) <= h
  {
    if k > 0 {
      ShrSmaller(h / 2, k - 1);
    }
  }

  lemma ShiftBit(h: Word, k: nat, i: nat)
    ensures Bit(Shift(h, k), i) == (Bit(h, i) != Bit(h, i + k))
  {
    ShrSmaller(h, k);
    XorBit(h, Shr(h, k), i);
    ShrTwice(h, k, i);
  }

  lemma HighBit(h: Word, i: nat)
    requires i >= 32
    ensures !Bit(h, i)
  {
    PowersOfTwo();
    if i > 32 {
      PowersGrow(32, i);
    }
    ShrToZero(h, i);
  }

  lemma Shift16Inverse(h: Word)
    ensures Shift(Shift(h, 16), 16) == h
  {
    var y := Shift(h, 16);
    forall i: nat | i < 32 ensures Bit(Shift(y, 16), i) == Bit(h, i) {
      ShiftBit(y, 16, i);
      ShiftBit(h, 16, i);
      ShiftBit(h, 16, i + 16);
      HighBit(h, i + 16 + 16);
    }
    PowersOfTwo();
    SameBits(Shift(y, 16), h, 32);
  }

  function Unshift13(h: Word): Word
  {
    ShrSmaller(h, 26);
    Xor(Shift(h, 13), Shr(h, 26))
  }

  lemma Shift13Inverse(h: Word)
    ensures Unshift13(Shift(h, 13)) == h
  {
    var y := Shift(h, 13);
    ShrSmaller(y, 26);
    forall i: nat | i < 32 ensures Bit(Unshift13(y), i) == Bit(h, i) {
      XorBit(Shift(y, 13), Shr(y, 26), i);
      ShrTwice(y, 26, i);
      ShiftBit(y, 13, i);
      ShiftBit(h, 13, i);
      ShiftBit(h, 13, i + 13);
      ShiftBit(h, 13, i + 26);
      HighBit(h, i + 26 + 13);
    }
    PowersOfTwo();
    SameBits(Unshift13(y), h, 32);
  }

  /** x << i, without the wrap. */
  function Shl(x: nat, i: nat): nat
  {
    if i == 0 then x else 2 * Shl(x, i - 1)
  }

  lemma {:induction false} XorZero(x: nat)
    ensures BitXor(0, x) == x
  {
    if x != 0 {
      XorZero(x / 2);
      XorStep(0, x);
    }
  }

  /** High bits over low bits: xor is sum. */
  lemma {:induction false} XorDisjoint(a: nat, b: nat, k: nat)
    requires b < Pow2(k)
    ensures BitXor(Shl(a, k), b) == Shl(a, k) + b
  {
    if k > 0 {
      XorDisjoint(a, b / 2, k - 1);
      XorDouble(Shl(a, k - 1), b);
    } else {
      XorZero(a);
      XorCommutes(0, a);
    }
  }

  lemma XorDouble(m: nat, b: nat)
    ensures BitXor(2 * m, b) == 2 * BitXor(m, b / 2) + b % 2
  {
    var x := 2 * m;
    assert x / 2 == m && (x + b) % 2 == b % 2;
    XorStep(x, b);
  }

  lemma {:induction false} XorCommutes(x: nat, y: nat)
    ensures BitXor(x, y) == BitXor(y, x)
  {
    if x != 0 || y != 0 {
      XorCommutes(x / 2, y / 2);
    }
  }

  lemma {:induction false} ShlIsProduct(x: nat, i: nat)
    ensures Shl(x, i) == x * Pow2(i)
  {
    if i > 0 {
      ShlIsProduct(x, i - 1);
      assert 2 * (x * Pow2(i - 1)) == x * (2 * Pow2(i - 1));
    }
  }

  /** A byte below a number shifted by 8, and one shifted by 8 below one shifted by 16. */
  lemma ByteBelow(h: nat, b: Byte)
    ensures Shl(h, 8) == 0x100 * h && BitXor(0x100 * h, b) == 0x100 * h + b
  {
    PowersOfTwo();
    ShlIsProduct(h, 8);
    XorDisjoint(h, b, 8);
  }

  lemma BytesBelow(h: nat, b: Byte)
    ensures Shl(h, 16) == 0x1_0000 * h && BitXor(0x1_0000 * h, 0x100 * b) == 0x1_0000 * h + 0x100 * b
  {
    PowersOfTwo();
    ShlIsProduct(h, 16);
    XorDisjoint(h, 0x100 * b, 16);
  }

  /** The bytes of the tail put together with shifts and exclusive or. */
  lemma TailParts(b0: Byte, b1: Byte, b2: Byte)
    ensures Shl(b1, 8) == 0x100 * b1 && Shl(b2, 16) == 0x1_0000 * b2
    ensures Xor(Xor(Shl(b2, 16), Shl(b1, 8)), b0) == b0 + 0x100 * b1 + 0x1_0000 * b2
    ensures Xor(Shl(b1, 8), b0) == b0 + 0x100 * b1
    ensures Xor(0, Shl(b2, 16)) == Shl(b2, 16) && Xor(0, Shl(b1, 8)) == Shl(b1, 8) && Xor(0, b0) == b0
  {
    XorZero(b0);
    XorZero(Shl(b1, 8));
    XorZero(Shl(b2, 16));
    BytesBelow(b2, b1);
    ByteBelow(b1, b0);
    var high := b1 + 0x100 * b2;
    ByteBelow(high, b0);
    assert 0x100 * high == 0x1_0000 * b2 + 0x100 * b1;
  }

  // ---------------------------------------------------------------- products and rotations

  function Mul(x: Word, c: Word): Word
  {
    x * c % W32
  }

  /** An odd factor c has an inverse d: c * d is 1 more than a multiple e of 2^32. */
  lemma MulInverse(x: Word, c: Word, d: Word, e: nat)
    requires c * d == 1 + W32 * e
    ensures Mul(Mul(x, c), d) == x
  {
    var q, r := x * c / W32, x * c % W32;
    assert x * c == W32 * q + r;
    assert r * d == (x * c) * d - (W32 * q) * d;
    assert (x * c) * d == x * (c * d);
    assert x * (c * d) == x + W32 * (x * e);
    assert (W32 * q) * d == W32 * (q * d);
    assert r * d == W32 * (x * e - q * d) + x;
    UniqueRemainder(r * d, W32, x * e - q * d, x);
  }

  /** rotl32 by 13 and 15 and back, as remainder and quotient. */
  function Rotl13(x: Word): Word { x % 0x8_0000 * 0x2000 + x / 0x8_0000 }
  function Rotl15(x: Word): Word { x % 0x2_0000 * 0x8000 + x / 0x2_0000 }
  function Rotr13(x: Word): Word { x % 0x2000 * 0x8_0000 + x / 0x2000 }
  function Rotr15(x: Word): Word { x % 0x8000 * 0x2_0000 + x / 0x8000 }

  function BitOr(x: nat, y: nat): nat
  {
    if x == 0 && y == 0 then 0 else 2 * BitOr(x / 2, y / 2) + (if x % 2 == 1 || y % 2 == 1 then 1 else 0)
  }

  lemma {:induction false} OrZero(x: nat)
    ensures BitOr(x, 0) == x
  {
    if x != 0 {
      OrZero(x / 2);
    }
  }

  lemma OrDouble(m: nat, b: nat)
    ensures BitOr(2 * m, b) == 2 * BitOr(m, b / 2) + b % 2
  {
    var x := 2 * m;
    assert x / 2 == m && x % 2 == 0;
  }

  /** High bits over low bits: or is sum. */
  lemma {:induction false} OrDisjoint(a: nat, b: nat, k: nat)
    requires b < Pow2(k)
    ensures BitOr(Shl(a, k), b) == Shl(a, k) + b
  {
    if k > 0 {
      OrDisjoint(a, b / 2, k - 1);
      OrDouble(Shl(a, k - 1), b);
    } else {
      OrZero(a);
    }
  }

  lemma {:induction false} ShrIsQuotient(x: nat, i: nat)
    ensures Pow2(i) > 0 && Shr(x, i) == x / Pow2(i)
  {
    PowPositive(i);
    if i > 0 {
      ShrIsQuotient(x / 2, i - 1);
      DivideTwice(x, Pow2(i - 1));
    }
  }

  lemma DivideTwice(x: nat, p: nat)
    requires p > 0
    ensures x / 2 / p == x / (2 * p)
  {
    HalveRemainder(x, p);
    var q := x / 2 / p;
    assert x / 2 == p * q + x / 2 % p;
    assert x == (2 * p) * q + x % (2 * p);
    UniqueRemainder(x, 2 * p, q, x % (2 * p));
  }

  /** rotl32(x, r) is (x << r) | (x >> (32 - r)). */
  lemma RotlIsShiftOr(x: Word)
    ensures Rotl13(x) == BitOr(Shl(x, 13) % W32, Shr(x, 19)) && Rotl15(x) == BitOr(Shl(x, 15) % W32, Shr(x, 17))
  {
    PowersOfTwo();
    MorePowers();
    ShlIsProduct(x, 13);
    ShlIsProduct(x, 15);
    UniqueRemainder(x * 0x2000, W32, x / 0x8_0000, x % 0x8_0000 * 0x2000);
    UniqueRemainder(x * 0x8000, W32, x / 0x2_0000, x % 0x2_0000 * 0x8000);
    ShrIsQuotient(x, 19);
    ShrIsQuotient(x, 17);
    ShlIsProduct(x % 0x8_0000, 13);
    ShlIsProduct(x % 0x2_0000, 15);
    OrDisjoint(x % 0x8_0000, x / 0x8_0000, 13);
    OrDisjoint(x % 0x2_0000, x / 0x2_0000, 15);
  }

  lemma MorePowers()
    ensures Pow2(15) == 0x8000 && Pow2(17) == 0x2_0000 && Pow2(19) == 0x8_0000
  {
    PowersOfTwo();
    assert Pow2(16) == 2 * Pow2(15) && Pow2(17) == 2 * Pow2(16) && Pow2(18) == 2 * Pow2(17) && Pow2(19) == 2 * Pow2(18);
  }

  lemma Rotations(x: Word)
    ensures Rotr13(Rotl13(x)) == x && Rotr15(Rotl15(x)) == x
  {
    UniqueRemainder(Rotl13(x), 0x2000, x % 0x8_0000, x / 0x8_0000);
    UniqueRemainder(Rotl15(x), 0x8000, x % 0x2_0000, x / 0x2_0000);
  }

  // ---------------------------------------------------------------- the mixing steps and their inverses

  /** What a block goes through before it meets the hash. */
  function Scramble(k: Word): Word
  {
    Mul(Rotl15(Mul(k, 0xcc9e2d51)), 0x1b873593)
  }

  function Unscramble(k: Word): Word
  {
    Mul(Rotr15(Mul(k, 0x56ed309b)), 0xdee13bb1)
  }

  lemma ScrambleInverse(k: Word)
    ensures Unscramble(Scramble(k)) == k
  {
    var a := Mul(k, 0xcc9e2d51);
    MulInverse(Rotl15(a), 0x1b873593, 0x56ed309b, 156822886);
    Rotations(a);
    MulInverse(k, 0xcc9e2d51, 0xdee13bb1, 2988782088);
  }

  /** h * 5 + 0xe6546b64. */
  function Spread(h: Word): Word
  {
    (h * 5 + 0xe6546b64) % W32
  }

  function Unspread(h: Word): Word
  {
    Mul((h - 0xe6546b64) % W32, 0xcccccccd)
  }

  lemma SpreadInverse(h: Word)
    ensures Unspread(Spread(h)) == h
  {
    assert (Spread(h) - 0xe6546b64) % W32 == Mul(h, 5);
    MulInverse(h, 5, 0xcccccccd, 4);
  }

  /** What the hash goes through after a block: the rotation, then h * 5 + 0xe6546b64. */
  function Stir(h: Word): Word
  {
    Spread(Rotl13(h))
  }

  function Unstir(h: Word): Word
  {
    Rotr13(Unspread(h))
  }

  lemma StirInverse(h: Word)
    ensures Unstir(Stir(h)) == h
  {
    SpreadInverse(Rotl13(h));
    Rotations(h);
  }

  /** fmix32. */
  function Finish(h: Word): Word
  {
    Shift(Mul(Shift(Mul(Shift(h, 16), 0x85ebca6b), 13), 0xc2b2ae35), 16)
  }

  function Unfinish(h: Word): Word
  {
    Shift(Mul(Unshift13(Mul(Shift(h, 16), 0x7ed1b41d)), 0xa5cb9243), 16)
  }

  lemma FinishInverse(h: Word)
    ensures Unfinish(Finish(h)) == h
  {
    var a := Mul(Shift(h, 16), 0x85ebca6b);
    var b := Mul(Shift(a, 13), 0xc2b2ae35);
    Shift16Inverse(b);
    MulInverse(Shift(a, 13), 0xc2b2ae35, 0x7ed1b41d, 1618177690);
    Shift13Inverse(a);
    MulInverse(Shift(h, 16), 0x85ebca6b, 0xa5cb9243, 1455126516);
    Shift16Inverse(h);
  }

  lemma XorInjective(x: Word, k: Word, x': Word, k': Word)
    requires Xor(x, k) == Xor(x', k')
    ensures x == x' <==> k == k'
  {
    XorCancels(x, k);
    XorCancels(x', k');
    XorCancels(k, x);
    XorCancels(k', x');
  }

  /** The three steps of the hash, each with a candidate for its inverse. */
  datatype Mixer = Mixer(scramble: Word -> Word, unscramble: Word -> Word, stir: Word -> Word, unstir: Word -> Word,
                         finish: Word -> Word, unfinish: Word -> Word)

  ghost predicate Invertible(m: Mixer)
  {
    (forall x :: m.unscramble(m.scramble(x)) == x) && (forall x :: m.unstir(m.stir(x)) == x) &&
    (forall x :: m.unfinish(m.finish(x)) == x)
  }

  /** The steps of MurmurHash3_x86_32. */
  function Murmur3(): Mixer
  {
    Mixer(Scramble, Unscramble, Stir, Unstir, Finish, Unfinish)
  }

  /** Every step of MurmurHash3_x86_32 is a bijection, so all that follows for invertible mixers holds of it. */
  lemma Murmur3Invertible()
    ensures Invertible(Murmur3())
  {
    forall x ensures Unscramble(Scramble(x)) == x && Unstir(Stir(x)) == x && Unfinish(Finish(x)) == x {
      ScrambleInverse(x);
      StirInverse(x);
      FinishInverse(x);
    }
  }

  /** The values of f below n. */
  function Image(f: Word -> Word, n: nat): set<Word>
  {
    set x: Word | x < n :: f(x)
  }

  lemma {:induction false} ImageSize(f: Word -> Word, u: Word -> Word, n: nat)
    requires n <= W32 && forall x :: u(f(x)) == x
    ensures |Image(f, n)| == n
  {
    if n > 0 {
      var last: Word := n - 1;
      ImageSize(f, u, n - 1);
      assert Image(f, n) == Image(f, n - 1) + {f(last)};
      assert u(f(last)) == last;
      assert f(last) !in Image(f, n - 1);
    }
  }

  /** What can be undone reaches every word, since there are only so many. */
  lemma UndoneIsOnto(f: Word -> Word, u: Word -> Word, y: Word)
    requires forall x :: u(f(x)) == x
    ensures f(u(y)) == y
  {
    var id := (x: Word) => x;
    ImageSize(f, u, W32);
    ImageSize(id, id, W32);
    forall x: Word ensures x in Image(id, W32) {
      assert x < W32 && id(x) == x;
    }
    SameSize(Image(f, W32), Image(id, W32));
    assert y in Image(f, W32);
    var x: Word :| x < W32 && f(x) == y;
  }

  lemma SameSize(a: set<Word>, b: set<Word>)
    requires a <= b && |a| == |b|
    ensures a == b
  {
    if x :| x in b && x !in a {
      SubsetCard(a, b - {x});
    }
  }

  /** One turn of the block loop. */
  function Round(m: Mixer, h: Word, k: Word): Word
  {
    m.stir(Xor(h, m.scramble(k)))
  }

  /** With the block fixed different hashes stay different, and with the hash fixed different blocks show. */
  lemma RoundInjective(m: Mixer, h: Word, k: Word, h': Word, k': Word)
    requires Invertible(m) && Round(m, h, k) == Round(m, h', k')
    ensures k == k' <==> h == h'
  {
    var x, y := Xor(h, m.scramble(k)), Xor(h', m.scramble(k'));
    assert m.unstir(m.stir(x)) == x && m.unstir(m.stir(y)) == y;
    XorInjective(h, m.scramble(k), h', m.scramble(k'));
    assert m.unscramble(m.scramble(k)) == k && m.unscramble(m.scramble(k')) == k';
  }

  /** From any hash there is exactly one block to any other. */
  lemma OneBlockBetween(m: Mixer, h: Word, h': Word) returns (w: Word)
    requires Invertible(m)
    ensures forall k :: Round(m, h, k) == h' <==> k == w
  {
    var x := m.unstir(h');
    w := m.unscramble(Xor(h, x));
    XorCancels(x, h);
    XorCommutesWords(h, Xor(h, x));
    UndoneIsOnto(m.stir, m.unstir, h');
    UndoneIsOnto(m.scramble, m.unscramble, Xor(h, x));
    assert m.scramble(w) == Xor(h, x) && m.stir(x) == h';
    forall k ensures Round(m, h, k) == h' <==> k == w {
      if Round(m, h, k) == h' {
        RoundInjective(m, h, k, h, w);
      }
    }
  }

  lemma XorCommutesWords(x: Word, y: Word)
    ensures Xor(x, y) == Xor(y, x)
  {
    XorCommutes(x, y);
  }

  // ---------------------------------------------------------------- keys

  function Little(b0: Byte, b1: Byte, b2: Byte, b3: Byte): Word
  {
    b0 + 0x100 * b1 + 0x1_0000 * b2 + 0x100_0000 * b3
  }

  lemma LittleInjective(a0: Byte, a1: Byte, a2: Byte, a3: Byte, b0: Byte, b1: Byte, b2: Byte, b3: Byte)
    requires Little(a0, a1, a2, a3) == Little(b0, b1, b2, b3)
    ensures a0 == b0 && a1 == b1 && a2 == b2 && a3 == b3
  {
    LowByte(a0, a1 + 0x100 * a2 + 0x1_0000 * a3, b0, b1 + 0x100 * b2 + 0x1_0000 * b3);
    LowByte(a1, a2 + 0x100 * a3, b1, b2 + 0x100 * b3);
    LowByte(a2, a3, b2, b3);
  }

  lemma LowByte(a: Byte, x: nat, b: Byte, y: nat)
    requires a + 0x100 * x == b + 0x100 * y
    ensures a == b && x == y
  {
  }

  /** getblock32. */
  function Block(key: seq<Byte>, i: nat): Word
    requires 4 * i + 4 <= |key|
  {
    Little(key[4 * i], key[4 * i + 1], key[4 * i + 2], key[4 * i + 3])
  }

  function Blocks(key: seq<Byte>): (ks: seq<Word>)
    ensures |ks| == |key| / 4 && forall i :: 0 <= i < |ks| ==> ks[i] == Block(key, i)
  {
    seq(|key| / 4, i requires 0 <= i < |key| / 4 => Block(key, i))
  }

  /** h after the words ks, one round each. */
  function Absorb(m: Mixer, h: Word, ks: seq<Word>): Word
  {
    if |ks| == 0 then h else Round(m, Absorb(m, h, ks[..|ks| - 1]), ks[|ks| - 1])
  }

  /** The last |key| % 4 bytes, and as a word. */
  function Tail(key: seq<Byte>): (t: seq<Byte>)
    ensures |t| == |key| % 4
  {
    key[|key| / 4 * 4..]
  }

  function TailWord(t: seq<Byte>): Word
  {
    Little(if |t| > 0 then t[0] else 0, if |t| > 1 then t[1] else 0, if |t| > 2 then t[2] else 0, 0)
  }

  /** len is an int. */
  type Key = k: seq<Byte> | |k| < 0x8000_0000

  function Hash(m: Mixer, key: Key, seed: Word): Word
  {
    var h := Absorb(m, seed, Blocks(key));
    m.finish(Xor(if |key| % 4 == 0 then h else Xor(h, m.scramble(TailWord(Tail(key)))), |key|))
  }

  // ---------------------------------------------------------------- what the hash tells apart

  /** Before finalization the hash of keys of one length is determined by blocks and tail. */
  lemma HashInjective(m: Mixer, a: Key, s: Word, b: Key, t: Word)
    requires Invertible(m) && |a| == |b| && Hash(m, a, s) == Hash(m, b, t)
    ensures var x, y := Absorb(m, s, Blocks(a)), Absorb(m, t, Blocks(b));
            (TailWord(Tail(a)) == TailWord(Tail(b)) ==> x == y) &&
            (x == y && |a| % 4 != 0 ==> TailWord(Tail(a)) == TailWord(Tail(b)))
  {
    var x, y := Absorb(m, s, Blocks(a)), Absorb(m, t, Blocks(b));
    var w, z := TailWord(Tail(a)), TailWord(Tail(b));
    var p, q := if |a| % 4 == 0 then x else Xor(x, m.scramble(w)), if |a| % 4 == 0 then y else Xor(y, m.scramble(z));
    assert m.unfinish(m.finish(Xor(p, |a|))) == Xor(p, |a|) && m.unfinish(m.finish(Xor(q, |a|))) == Xor(q, |a|);
    XorInjective(p, |a|, q, |a|);
    if |a| % 4 != 0 {
      XorInjective(x, m.scramble(w), y, m.scramble(z));
      assert m.unscramble(m.scramble(w)) == w && m.unscramble(m.scramble(z)) == z;
    }
  }

  lemma WithoutLast(ks: seq<Word>, j: nat)
    requires j < |ks|
    ensures ks[..|ks| - 1][..j] == ks[..j] && ks[..|ks| - 1][j..] == ks[j..][..|ks| - 1 - j]
    ensures ks[|ks| - 1] == ks[j..][|ks| - 1 - j]
  {
  }

  lemma SameBeforeLast(ks: seq<Word>, ls: seq<Word>, j: nat)
    requires j < |ks| == |ls| && ks[j..] == ls[j..]
    ensures var n := |ks| - 1;
            ks[n] == ls[n] && ks[..n][j..] == ls[..n][j..] && ks[..n][..j] == ks[..j] && ls[..n][..j] == ls[..j]
  {
    WithoutLast(ks, j);
    WithoutLast(ls, j);
  }

  /** From word j on the words are the same: what was equal before still is, */
  lemma {:induction false} AbsorbTogether(m: Mixer, s: Word, ks: seq<Word>, t: Word, ls: seq<Word>, j: nat)
    requires j <= |ks| == |ls| && ks[j..] == ls[j..] && Absorb(m, s, ks[..j]) == Absorb(m, t, ls[..j])
    ensures Absorb(m, s, ks) == Absorb(m, t, ls)
  {
    if j == |ks| {
      assert ks[..j] == ks && ls[..j] == ls;
    } else {
      var n := |ks| - 1;
      SameBeforeLast(ks, ls, j);
      AbsorbTogether(m, s, ks[..n], t, ls[..n], j);
    }
  }

  /** and what differed still does. */
  lemma {:induction false} AbsorbApart(m: Mixer, s: Word, ks: seq<Word>, t: Word, ls: seq<Word>, j: nat)
    requires Invertible(m) && j <= |ks| == |ls| && ks[j..] == ls[j..] && Absorb(m, s, ks) == Absorb(m, t, ls)
    ensures Absorb(m, s, ks[..j]) == Absorb(m, t, ls[..j])
  {
    if j == |ks| {
      assert ks[..j] == ks && ls[..j] == ls;
    } else {
      var n := |ks| - 1;
      SameBeforeLast(ks, ls, j);
      RoundInjective(m, Absorb(m, s, ks[..n]), ks[n], Absorb(m, t, ls[..n]), ls[n]);
      AbsorbApart(m, s, ks[..n], t, ls[..n], j);
    }
  }

  lemma AbsorbKeepsApart(m: Mixer, s: Word, ks: seq<Word>, t: Word, ls: seq<Word>, j: nat)
    requires Invertible(m) && j <= |ks| == |ls| && ks[j..] == ls[j..]
    ensures Absorb(m, s, ks) == Absorb(m, t, ls) <==> Absorb(m, s, ks[..j]) == Absorb(m, t, ls[..j])
  {
    if Absorb(m, s, ks) == Absorb(m, t, ls) {
      AbsorbApart(m, s, ks, t, ls, j);
    }
    if Absorb(m, s, ks[..j]) == Absorb(m, t, ls[..j]) {
      AbsorbTogether(m, s, ks, t, ls, j);
    }
  }

  /** Sequences of words that differ at most in word j are told apart. */
  lemma AbsorbTellsWords(m: Mixer, s: Word, ks: seq<Word>, ls: seq<Word>, j: nat)
    requires Invertible(m) && j < |ks| == |ls| && ks[..j] == ls[..j] && ks[j + 1..] == ls[j + 1..]
    requires Absorb(m, s, ks) == Absorb(m, s, ls)
    ensures ks[j] == ls[j]
  {
    AbsorbKeepsApart(m, s, ks, s, ls, j + 1);
    assert ks[..j + 1][..j] == ks[..j] && ls[..j + 1][..j] == ls[..j];
    RoundInjective(m, Absorb(m, s, ks[..j]), ks[j], Absorb(m, s, ls[..j]), ls[j]);
  }

  /** Different seeds give different hashes, for every key. */
  lemma SeedsTellApart(m: Mixer, key: Key, s: Word, t: Word)
    requires Invertible(m)
    ensures Hash(m, key, s) == Hash(m, key, t) <==> s == t
  {
    if Hash(m, key, s) == Hash(m, key, t) {
      HashInjective(m, key, s, key, t);
      AbsorbKeepsApart(m, s, Blocks(key), t, Blocks(key), 0);
    }
  }

  /** Keys that agree outside one 4-byte block have the same hash only if they are the same. */
  lemma BlockTellsApart(m: Mixer, a: Key, b: Key, j: nat, s: Word)
    requires Invertible(m)
    requires |a| == |b| && 4 * j + 4 <= |a| && forall i :: 0 <= i < |a| && !(4 * j <= i < 4 * j + 4) ==> a[i] == b[i]
    ensures Hash(m, a, s) == Hash(m, b, s) <==> a == b
  {
    OtherBlocks(a, b, j);
    if Hash(m, a, s) == Hash(m, b, s) {
      HashInjective(m, a, s, b, s);
      AbsorbTellsWords(m, s, Blocks(a), Blocks(b), j);
      SameBlock(a, b, j);
    }
    assert Hash(m, a, s) == Hash(m, b, s) ==> forall i :: 0 <= i < |a| ==> a[i] == b[i];
  }

  /** Everything but block j is the same. */
  lemma OtherBlocks(a: seq<Byte>, b: seq<Byte>, j: nat)
    requires |a| == |b| && 4 * j + 4 <= |a| && forall i :: 0 <= i < |a| && !(4 * j <= i < 4 * j + 4) ==> a[i] == b[i]
    ensures Tail(a) == Tail(b) && j < |Blocks(a)|
    ensures Blocks(a)[..j] == Blocks(b)[..j] && Blocks(a)[j + 1..] == Blocks(b)[j + 1..]
  {
    forall i | 0 <= i < |a| / 4 && i != j ensures Block(a, i) == Block(b, i) {
    }
  }

  lemma SameBlock(a: seq<Byte>, b: seq<Byte>, j: nat)
    requires |a| == |b| && 4 * j + 4 <= |a| && Block(a, j) == Block(b, j)
    ensures forall i :: 4 * j <= i < 4 * j + 4 ==> a[i] == b[i]
  {
    var n := 4 * j;
    LittleInjective(a[n], a[n + 1], a[n + 2], a[n + 3], b[n], b[n + 1], b[n + 2], b[n + 3]);
  }

  /** b with x as its block j. */
  function Spliced(b: Key, j: nat, x: seq<Byte>): (r: Key)
    requires 4 * j + 4 <= |b| && |x| == 4
    ensures |r| == |b|
  {
    b[..4 * j] + x + b[4 * j + 4..]
  }

  function BytesOf(w: Word): (x: seq<Byte>)
    ensures |x| == 4
  {
    [w % 0x100, w / 0x100 % 0x100, w / 0x1_0000 % 0x100, w / 0x100_0000]
  }

  lemma BytesInOrder(w: Word)
    ensures var y := BytesOf(w); Little(y[0], y[1], y[2], y[3]) == w
  {
    UniqueRemainder(w / 0x100, 0x100, w / 0x1_0000, w / 0x100 % 0x100);
    UniqueRemainder(w / 0x1_0000, 0x100, w / 0x100_0000, w / 0x1_0000 % 0x100);
  }

  lemma BytesRoundTrip(w: Word, x: seq<Byte>)
    requires |x| == 4
    ensures Little(x[0], x[1], x[2], x[3]) == w <==> x == BytesOf(w)
  {
    var y := BytesOf(w);
    BytesInOrder(w);
    if Little(x[0], x[1], x[2], x[3]) == w {
      LittleInjective(x[0], x[1], x[2], x[3], y[0], y[1], y[2], y[3]);
    }
  }

  lemma SplicedBlocks(b: Key, j: nat, x: seq<Byte>)
    requires 4 * j + 4 <= |b| && |x| == 4
    ensures Blocks(Spliced(b, j, x)) == Blocks(b)[j := Little(x[0], x[1], x[2], x[3])]
    ensures Tail(Spliced(b, j, x)) == Tail(b)
  {
    var r := Spliced(b, j, x);
    forall i | 0 <= i < |b| / 4 ensures i != j ==> Block(r, i) == Block(b, i) {
      forall k | 4 * i <= k < 4 * i + 4 && i != j ensures r[k] == b[k] {
      }
    }
  }

  /** Keys with the same tail have the same hash exactly if it was the same before the tail. */
  lemma SameTail(m: Mixer, a: Key, s: Word, b: Key, t: Word)
    requires Invertible(m) && |a| == |b| && Tail(a) == Tail(b)
    ensures Hash(m, a, s) == Hash(m, b, t) <==> Absorb(m, s, Blocks(a)) == Absorb(m, t, Blocks(b))
  {
    if Hash(m, a, s) == Hash(m, b, t) {
      HashInjective(m, a, s, b, t);
    }
  }

  /** Whatever comes before it in b, there is exactly one block j that gives b the hash of a. */
  lemma OneCollision(m: Mixer, a: Key, s: Word, b: Key, t: Word, j: nat) returns (w: seq<Byte>)
    requires Invertible(m) && |a| == |b| && 4 * j + 4 <= |a| && a[4 * j + 4..] == b[4 * j + 4..]
    ensures |w| == 4
    ensures forall x: seq<Byte> :: |x| == 4 ==> (Hash(m, Spliced(b, j, x), t) == Hash(m, a, s) <==> x == w)
  {
    SameAfter(a, b, j);
    var k := OneBlockBetween(m, Absorb(m, t, Blocks(b)[..j]), Absorb(m, s, Blocks(a)[..j + 1]));
    w := BytesOf(k);
    forall x: seq<Byte> | |x| == 4 ensures Hash(m, Spliced(b, j, x), t) == Hash(m, a, s) <==> x == w {
      CollidesAt(m, a, s, b, t, j, x);
      BytesRoundTrip(k, x);
    }
  }

  /** A block x collides exactly if its round leads to where a is after its own block j. */
  lemma CollidesAt(m: Mixer, a: Key, s: Word, b: Key, t: Word, j: nat, x: seq<Byte>)
    requires Invertible(m) && |a| == |b| && 4 * j + 4 <= |a| && a[4 * j + 4..] == b[4 * j + 4..] && |x| == 4
    ensures j < |Blocks(a)|
    ensures Hash(m, Spliced(b, j, x), t) == Hash(m, a, s) <==>
            Round(m, Absorb(m, t, Blocks(b)[..j]), Little(x[0], x[1], x[2], x[3])) == Absorb(m, s, Blocks(a)[..j + 1])
  {
    var ks, ls := Blocks(a), Blocks(b);
    var ms := ls[j := Little(x[0], x[1], x[2], x[3])];
    SameAfter(a, b, j);
    SplicedBlocks(b, j, x);
    SameTail(m, Spliced(b, j, x), t, a, s);
    assert ms[j + 1..] == ls[j + 1..];
    AbsorbKeepsApart(m, t, ms, s, ks, j + 1);
    assert ms[..j + 1][..j] == ls[..j];
  }

  lemma SameAfter(a: Key, b: Key, j: nat)
    requires |a| == |b| && 4 * j + 4 <= |a| && a[4 * j + 4..] == b[4 * j + 4..]
    ensures Tail(a) == Tail(b) && j < |Blocks(a)| && Blocks(a)[j + 1..] == Blocks(b)[j + 1..]
  {
    forall i | 4 * j + 4 <= i < |a| ensures a[i] == b[i] {
      assert a[4 * j + 4..][i - (4 * j + 4)] == b[4 * j + 4..][i - (4 * j + 4)];
    }
    forall i | j < i < |a| / 4 ensures Block(a, i) == Block(b, i) {
    }
  }

  /** Keys that agree on all whole blocks have the same hash only if their tails agree too. */
  lemma TailTellsApart(m: Mixer, a: Key, b: Key, s: Word)
    requires Invertible(m) && |a| == |b| && forall i :: 0 <= i < |a| / 4 * 4 ==> a[i] == b[i]
    ensures Hash(m, a, s) == Hash(m, b, s) <==> a == b
  {
    assert Blocks(a) == Blocks(b);
    if Hash(m, a, s) == Hash(m, b, s) {
      HashInjective(m, a, s, b, s);
      TailBytes(Tail(a), Tail(b));
      assert a == a[..|a| / 4 * 4] + Tail(a) && b == b[..|a| / 4 * 4] + Tail(b);
    }
  }

  lemma TailBytes(t: seq<Byte>, u: seq<Byte>)
    requires |t| == |u| <= 3 && TailWord(t) == TailWord(u)
    ensures t == u
  {
    LittleInjective(if |t| > 0 then t[0] else 0, if |t| > 1 then t[1] else 0, if |t| > 2 then t[2] else 0, 0,
                    if |t| > 0 then u[0] else 0, if |t| > 1 then u[1] else 0, if |t| > 2 then u[2] else 0, 0);
  }

  /** Keys of one length that differ at most in one 4-byte block, or at most in the tail. */
  ghost predicate OneSpot(a: Key, b: Key)
  {
    |a| == |b| &&
    ((exists j: nat :: OnlyBlock(a, b, j)) || forall i :: 0 <= i < |a| / 4 * 4 ==> a[i] == b[i])
  }

  predicate OnlyBlock(a: Key, b: Key, j: nat)
    requires |a| == |b|
  {
    4 * j + 4 <= |a| && forall i :: 0 <= i < |a| && !(4 * j <= i < 4 * j + 4) ==> a[i] == b[i]
  }

  lemma SpotTellsApart(m: Mixer, a: Key, b: Key, s: Word)
    requires Invertible(m) && OneSpot(a, b)
    ensures Hash(m, a, s) == Hash(m, b, s) <==> a == b
  {
    if j: nat :| OnlyBlock(a, b, j) {
      BlockTellsApart(m, a, b, j, s);
    } else {
      TailTellsApart(m, a, b, s);
    }
  }

  /** Integers of at most 32 bits. */
  lemma ShortIsOneSpot(a: Key, b: Key)
    requires |a| == |b| <= 4
    ensures OneSpot(a, b)
  {
    if |a| == 4 {
      assert OnlyBlock(a, b, 0);
    }
  }

  /** HashPair of two integers given by their bytes. */
  function HashPair(m: Mixer, first: Key, second: Key, seed: Word): Word
  {
    Hash(m, second, Hash(m, first, seed))
  }

  /**
   Changing one component of a pair in one spot always changes its hash: any change of an integer of at most 32
   bits, and a change of either half of a longer one.
   */
  lemma PairTellsApart(m: Mixer, a: Key, b: Key, c: Key, d: Key, s: Word)
    requires Invertible(m) && OneSpot(a, c) && OneSpot(b, d)
    ensures a == c || b == d ==> (HashPair(m, a, b, s) == HashPair(m, c, d, s) <==> a == c && b == d)
  {
    if b == d {
      SeedsTellApart(m, b, Hash(m, a, s), Hash(m, c, s));
      SpotTellsApart(m, a, c, s);
    } else if a == c {
      SpotTellsApart(m, b, d, Hash(m, a, s));
    }
  }

  /** The same of MurmurHash3_x86_32 itself. */
  lemma MurmurTellsApart(a: Key, b: Key, s: Word, t: Word)
    ensures Hash(Murmur3(), a, s) == Hash(Murmur3(), a, t) <==> s == t
    ensures OneSpot(a, b) ==> (Hash(Murmur3(), a, s) == Hash(Murmur3(), b, s) <==> a == b)
  {
    Murmur3Invertible();
    SeedsTellApart(Murmur3(), a, s, t);
    if OneSpot(a, b) {
      SpotTellsApart(Murmur3(), a, b, s);
    }
  }

  lemma MurmurTellsPairs(a: Key, b: Key, c: Key, d: Key, s: Word)
    requires OneSpot(a, c) && OneSpot(b, d)
    ensures a == c || b == d ==>
              (HashPair(Murmur3(), a, b, s) == HashPair(Murmur3(), c, d, s) <==> a == c && b == d)
  {
    Murmur3Invertible();
    PairTellsApart(Murmur3(), a, b, c, d, s);
  }

  /**
   Both halves of a 64-bit component change: for any other first half exactly one second half gives a pair the hash
   it has with a as first component, or as second.
   */
  lemma HalvesCollide(m: Mixer, a: Key, c: Key, b: Key, s: Word) returns (w: seq<Byte>, v: seq<Byte>)
    requires Invertible(m) && |a| == |c| == 8
    ensures |w| == |v| == 4
    ensures forall x: seq<Byte> :: |x| == 4 ==>
      (HashPair(m, Spliced(c, 1, x), b, s) == HashPair(m, a, b, s) <==> x == w)
    ensures forall x: seq<Byte> :: |x| == 4 ==>
      (HashPair(m, b, Spliced(c, 1, x), s) == HashPair(m, b, a, s) <==> x == v)
  {
    w := OneCollision(m, a, s, c, s, 1);
    v := OneCollision(m, a, Hash(m, b, s), c, Hash(m, b, s), 1);
    forall x: seq<Byte> | |x| == 4 ensures HashPair(m, Spliced(c, 1, x), b, s) == HashPair(m, a, b, s) <==> x == w {
      SeedsTellApart(m, b, Hash(m, Spliced(c, 1, x), s), Hash(m, a, s));
    }
  }

  lemma MurmurHalvesCollide(a: Key, c: Key, b: Key, s: Word) returns (w: seq<Byte>, v: seq<Byte>)
    requires |a| == |c| == 8
    ensures |w| == |v| == 4
    ensures forall x: seq<Byte> :: |x| == 4 ==>
      (HashPair(Murmur3(), Spliced(c, 1, x), b, s) == HashPair(Murmur3(), a, b, s) <==> x == w)
    ensures forall x: seq<Byte> :: |x| == 4 ==>
      (HashPair(Murmur3(), b, Spliced(c, 1, x), s) == HashPair(Murmur3(), b, a, s) <==> x == v)
  {
    Murmur3Invertible();
    w, v := HalvesCollide(Murmur3(), a, c, b, s);
  }

  // ---------------------------------------------------------------- the length and the constants

  /** A missing tail counts like one of zeros. */
  lemma HashOf(m: Mixer, key: Key, s: Word)
    requires m.scramble(0) == 0
    ensures Hash(m, key, s) ==
            m.finish(Xor(Xor(Absorb(m, s, Blocks(key)), m.scramble(TailWord(Tail(key)))), |key|))
  {
    XorNothing(Absorb(m, s, Blocks(key)));
  }

  lemma XorNothing(h: Word)
    ensures Xor(h, 0) == h
  {
    XorCommutesWords(h, 0);
    XorZero(h);
  }

  /** The key with zero bytes after it that do not fill its last block. */
  lemma ZerosTellApart(m: Mixer, a: Key, z: seq<Byte>, s: Word)
    requires Invertible(m) && m.scramble(0) == 0
    requires |a| % 4 + |z| <= 3 && |a + z| < 0x8000_0000 && forall i :: 0 <= i < |z| ==> z[i] == 0
    ensures Hash(m, a + z, s) == Hash(m, a, s) <==> |z| == 0
  {
    var b: Key := a + z;
    PaddedParts(a, z);
    HashOf(m, a, s);
    HashOf(m, b, s);
    var p := Xor(Absorb(m, s, Blocks(a)), m.scramble(TailWord(Tail(a))));
    assert m.unfinish(m.finish(Xor(p, |a|))) == Xor(p, |a|) && m.unfinish(m.finish(Xor(p, |b|))) == Xor(p, |b|);
    if Xor(p, |a|) == Xor(p, |b|) {
      XorInjective(p, |a|, p, |b|);
    }
  }

  lemma PaddedParts(a: Key, z: seq<Byte>)
    requires |a| % 4 + |z| <= 3 && |a + z| < 0x8000_0000 && forall i :: 0 <= i < |z| ==> z[i] == 0
    ensures Blocks(a + z) == Blocks(a) && TailWord(Tail(a + z)) == TailWord(Tail(a))
  {
    var n := |a| / 4;
    assert |a| == 4 * n + |a| % 4 && |a + z| / 4 == n;
    PaddedBlocks(a, z);
    assert Tail(a + z) == Tail(a) + z;
    PaddedTail(Tail(a), z);
  }

  lemma PaddedBlocks(a: seq<Byte>, z: seq<Byte>)
    requires |a + z| / 4 == |a| / 4
    ensures Blocks(a + z) == Blocks(a)
  {
    forall i | 0 <= i < |a| / 4 ensures Block(a + z, i) == Block(a, i) {
      forall k | 4 * i <= k < 4 * i + 4 ensures (a + z)[k] == a[k] {
      }
    }
  }

  lemma PaddedTail(t: seq<Byte>, z: seq<Byte>)
    requires |t| + |z| <= 3 && forall i :: 0 <= i < |z| ==> z[i] == 0
    ensures TailWord(t + z) == TailWord(t)
  {
    forall i | |t| <= i < |t + z| ensures (t + z)[i] == 0 {
    }
  }

  /** The word of a tail is the block that zero bytes make of it. */
  lemma TailAsBlock(t: seq<Byte>, z: seq<Byte>)
    requires |t| <= 3 && |t| + |z| == 4 && forall i :: 0 <= i < |z| ==> z[i] == 0
    ensures TailWord(t) == Block(t + z, 0)
  {
    forall i | |t| <= i < 4 ensures (t + z)[i] == 0 {
    }
  }

  lemma FilledBlocks(a: seq<Byte>, z: seq<Byte>)
    requires |a| % 4 != 0 && |a| % 4 + |z| == 4 && forall i :: 0 <= i < |z| ==> z[i] == 0
    ensures Blocks(a + z) == Blocks(a) + [TailWord(Tail(a))] && |a + z| % 4 == 0
  {
    var n, b := |a| / 4, a + z;
    assert |a| == 4 * n + |a| % 4 && |b| == 4 * (n + 1);
    TailAsBlock(Tail(a), z);
    forall i | 0 <= i < n ensures Block(b, i) == Block(a, i) {
      forall k | 4 * i <= k < 4 * i + 4 ensures b[k] == a[k] {
      }
    }
    forall k | 0 <= k < 4 ensures (Tail(a) + z)[k] == b[4 * n + k] {
    }
  }

  /** The state of the hash before the length and the finalization, recovered from the hash. */
  function Inside(m: Mixer, key: Key, s: Word): Word
  {
    Xor(m.unfinish(Hash(m, key, s)), |key|)
  }

  /** A tail goes through what a block goes through, filled up with zero bytes, but for the last rotation and sum. */
  lemma TailLikeBlock(m: Mixer, a: Key, z: seq<Byte>, s: Word)
    requires Invertible(m) && |a| % 4 != 0 && |a| % 4 + |z| == 4 && |a + z| < 0x8000_0000
    requires forall i :: 0 <= i < |z| ==> z[i] == 0
    ensures Inside(m, a, s) == m.unstir(Inside(m, a + z, s))
  {
    var b: Key := a + z;
    FilledBlocks(a, z);
    var ks, w := Blocks(a), TailWord(Tail(a));
    var h := Absorb(m, s, ks);
    assert (ks + [w])[..|ks|] == ks;
    var x := Xor(h, m.scramble(w));
    assert Absorb(m, s, Blocks(b)) == m.stir(x);
    InsideOf(m, a, s, x);
    InsideOf(m, b, s, m.stir(x));
    assert m.unstir(m.stir(x)) == x;
  }

  lemma InsideOf(m: Mixer, key: Key, s: Word, x: Word)
    requires Invertible(m) && Hash(m, key, s) == m.finish(Xor(x, |key|))
    ensures Inside(m, key, s) == x
  {
    assert m.unfinish(m.finish(Xor(x, |key|))) == Xor(x, |key|);
    XorCancels(x, |key|);
  }

  lemma MurmurTailLikeBlock(a: Key, z: seq<Byte>, s: Word)
    requires |a| % 4 != 0 && |a| % 4 + |z| == 4 && |a + z| < 0x8000_0000
    requires forall i :: 0 <= i < |z| ==> z[i] == 0
    ensures Inside(Murmur3(), a, s) == Unstir(Inside(Murmur3(), a + z, s))
  {
    Murmur3Invertible();
    TailLikeBlock(Murmur3(), a, z, s);
  }

  /** Keys that differ only in how many zero bytes end them, within one block, never collide. */
  lemma MurmurCountsZeros(a: Key, z: seq<Byte>, s: Word)
    requires |a| % 4 + |z| <= 3 && |a + z| < 0x8000_0000 && forall i :: 0 <= i < |z| ==> z[i] == 0
    ensures Hash(Murmur3(), a + z, s) == Hash(Murmur3(), a, s) <==> |z| == 0
  {
    Murmur3Invertible();
    ScrambledZero();
    ZerosTellApart(Murmur3(), a, z, s);
  }

  lemma ScrambledZero()
    ensures Scramble(0) == 0
  {
    assert Mul(0, 0xcc9e2d51) == 0 && Rotl15(0) == 0 && Mul(0, 0x1b873593) == 0;
  }

  // ---------------------------------------------------------------- the code

  /** MurmurHash3_x86_32. */
  method MurmurHash3(key: Key, seed: Word) returns (h1: Word)
    ensures h1 == Hash(Murmur3(), key, seed) && Invertible(Murmur3())
  {
    var nblocks := |key| / 4;
    h1 := seed;
    ghost var ks := Blocks(key);
    for i := 0 to nblocks
      invariant h1 == Absorb(Murmur3(), seed, ks[..i])
    {
      assert ks[..i + 1][..i] == ks[..i];
      h1 := Turn(h1, Block(key, i));
    }
    assert ks[..nblocks] == ks;
    if |key| % 4 != 0 {
      var k1 := ReadTail(key[nblocks * 4..]);
      k1 := Mix(k1);
      h1 := Xor(h1, k1);
    }
    h1 := Xor(h1, |key|);
    h1 := Fmix32(h1);
    Murmur3Invertible();
  }

  method Mix(k: Word) returns (k1: Word)
    ensures k1 == Scramble(k)
  {
    k1 := Mul(k, 0xcc9e2d51);
    k1 := Rotl15(k1);
    k1 := Mul(k1, 0x1b873593);
  }

  method Turn(h: Word, k: Word) returns (h1: Word)
    ensures h1 == Round(Murmur3(), h, k)
  {
    var k1 := Mix(k);
    h1 := Xor(h, k1);
    h1 := Rotl13(h1);
    h1 := Spread(h1);
  }

  method Fmix32(x: Word) returns (h: Word)
    ensures h == Finish(x)
  {
    ShrSmaller(x, 16);
    h := Xor(x, Shr(x, 16));
    h := Mul(h, 0x85ebca6b);
    ShrSmaller(h, 13);
    h := Xor(h, Shr(h, 13));
    h := Mul(h, 0xc2b2ae35);
    ShrSmaller(h, 16);
    h := Xor(h, Shr(h, 16));
  }

  /** The switch, whose cases fall through. */
  method ReadTail(tail: seq<Byte>) returns (k1: Word)
    requires 1 <= |tail| <= 3
    ensures k1 == TailWord(tail)
  {
    TailParts(tail[0], if |tail| > 1 then tail[1] else 0, if |tail| > 2 then tail[2] else 0);
    k1 := 0;
    if |tail| >= 3 {
      k1 := Xor(k1, Shl(tail[2], 16));
    }
    if |tail| >= 2 {
      k1 := Xor(k1, Shl(tail[1], 8));
    }
    k1 := Xor(k1, tail[0]);
  }
}
