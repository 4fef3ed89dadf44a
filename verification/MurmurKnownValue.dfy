/**
 The value of MurmurHash3_x86_32 that the source's own test expects
 (yacul/hashing/tests/os_murmur_hash3_test.cc), computed by hand: exclusive ors by base-4 digits.
 */
module MurmurKnownValue {
  import opened Masks
  import opened Murmur

  // ---------------------------------------------------------------- exclusive or by digits

  lemma XorConcatStep(x: nat, y: nat, a: nat, b: nat, z: nat)
    requires BitXor(x + a / 2, y + b / 2) == z + BitXor(a / 2, b / 2)
    ensures BitXor(2 * x + a, 2 * y + b) == 2 * z + BitXor(a, b)
  {
    var u, v := 2 * x + a, 2 * y + b;
    assert u / 2 == x + a / 2 && v / 2 == y + b / 2 && (u + v) % 2 == (a + b) % 2;
    XorStep(u, v);
    XorStep(a, b);
  }

  /** A last base-4 digit is xored apart. */
  lemma XorDigit(x: nat, y: nat, a: nat, b: nat)
    requires a < 4 && b < 4
    ensures BitXor(4 * x + a, 4 * y + b) == 4 * BitXor(x, y) + BitXor(a, b)
  {
    assert a / 2 / 2 == 0 && b / 2 / 2 == 0;
    XorConcatStep(x, y, a / 2, b / 2, BitXor(x, y));
    XorConcatStep(2 * x, 2 * y, a, b, 2 * BitXor(x, y));
  }

  /** The first n base-4 digits as a number. */
  function FromDigits(ds: seq<nat>, n: nat): nat
    requires n <= |ds|
  {
    if n == 0 then 0 else 4 * FromDigits(ds, n - 1) + ds[n - 1]
  }

  predicate DigitsXored(xs: seq<nat>, ys: seq<nat>, zs: seq<nat>)
  {
    |xs| == |ys| == |zs| == 16 && forall i :: 0 <= i < 16 ==> DigitXored(xs[i], ys[i], zs[i])
  }

  predicate DigitXored(a: nat, b: nat, c: nat)
  {
    a < 4 && b < 4 && BitXor(a, b) == c
  }

  lemma AllDigits()
    ensures DigitXored(0, 0, 0) && DigitXored(0, 1, 1) && DigitXored(0, 2, 2) && DigitXored(0, 3, 3)
    ensures DigitXored(1, 0, 1) && DigitXored(1, 1, 0) && DigitXored(1, 2, 3) && DigitXored(1, 3, 2)
    ensures DigitXored(2, 0, 2) && DigitXored(2, 1, 3) && DigitXored(2, 2, 0) && DigitXored(2, 3, 1)
    ensures DigitXored(3, 0, 3) && DigitXored(3, 1, 2) && DigitXored(3, 2, 1) && DigitXored(3, 3, 0)
  {
  }

  lemma NextDigit(x: nat, y: nat, z: nat, a: nat, b: nat, c: nat)
    requires BitXor(x, y) == z && DigitXored(a, b, c)
    ensures BitXor(4 * x + a, 4 * y + b) == 4 * z + c
  {
    XorDigit(x, y, a, b);
  }

  lemma {:induction false} XorDigits(xs: seq<nat>, ys: seq<nat>, zs: seq<nat>, n: nat)
    requires n <= 16 && DigitsXored(xs, ys, zs)
    ensures BitXor(FromDigits(xs, n), FromDigits(ys, n)) == FromDigits(zs, n)
  {
    if n > 0 {
      XorDigits(xs, ys, zs, n - 1);
      NextDigit(FromDigits(xs, n - 1), FromDigits(ys, n - 1), FromDigits(zs, n - 1),
                xs[n - 1], ys[n - 1], zs[n - 1]);
    }
  }

  function Four(ds: seq<nat>, i: nat): nat
    requires i + 4 <= |ds|
  {
    64 * ds[i] + 16 * ds[i + 1] + 4 * ds[i + 2] + ds[i + 3]
  }

  function Value(ds: seq<nat>): nat
    requires |ds| == 16
  {
    0x100_0000 * Four(ds, 0) + 0x1_0000 * Four(ds, 4) + 0x100 * Four(ds, 8) + Four(ds, 12)
  }

  lemma FourMore(ds: seq<nat>, i: nat)
    requires i + 4 <= |ds|
    ensures FromDigits(ds, i + 4) == 0x100 * FromDigits(ds, i) + Four(ds, i)
  {
    assert FromDigits(ds, i + 1) == 4 * FromDigits(ds, i) + ds[i];
    assert FromDigits(ds, i + 2) == 4 * FromDigits(ds, i + 1) + ds[i + 1];
    assert FromDigits(ds, i + 3) == 4 * FromDigits(ds, i + 2) + ds[i + 2];
  }

  lemma ValueRight(ds: seq<nat>)
    requires |ds| == 16
    ensures FromDigits(ds, 16) == Value(ds)
  {
    FourMore(ds, 0);
    FourMore(ds, 4);
    FourMore(ds, 8);
    FourMore(ds, 12);
  }

  lemma XorValue(x: nat, y: nat, z: nat, xs: seq<nat>, ys: seq<nat>, zs: seq<nat>)
    requires DigitsXored(xs, ys, zs) && x == Value(xs) && y == Value(ys) && z == Value(zs)
    ensures BitXor(x, y) == z
  {
    XorDigits(xs, ys, zs, 16);
    ValueRight(xs);
    ValueRight(ys);
    ValueRight(zs);
  }

  // ---------------------------------------------------------------- the steps by their values

  lemma RoundValue(h: Word, b: Word, k: Word, x: Word, y: Word, z: Word)
    requires Scramble(b) == k && BitXor(h, k) == x && Rotl13(x) == y && Spread(y) == z
    ensures Round(Murmur3(), h, b) == z
  {
  }

  lemma ScrambleValue(b: Word, a: Word, r: Word, k: Word)
    requires Mul(b, 0xcc9e2d51) == a && Rotl15(a) == r && Mul(r, 0x1b873593) == k
    ensures Scramble(b) == k
  {
  }

  lemma FinishValue(h: Word, a: Word, b: Word, c: Word, d: Word, e: Word)
    requires BitXor(h, Shr(h, 16)) == a && Mul(a, 0x85ebca6b) == b && BitXor(b, Shr(b, 13)) == c
    requires Mul(c, 0xc2b2ae35) == d && BitXor(d, Shr(d, 16)) == e
    ensures Finish(h) == e
  {
  }

  const FIRST_A: seq<nat> := [0, 0, 0, 0, 0, 0, 0, 0, 0, 0, 0, 0, 0, 1, 3, 3]
  const FIRST_B: seq<nat> := [0, 0, 0, 1, 1, 1, 0, 3, 0, 0, 2, 0, 0, 0, 3, 0]
  const FIRST_C: seq<nat> := [0, 0, 0, 1, 1, 1, 0, 3, 0, 0, 2, 0, 0, 1, 0, 3]

  lemma FirstDigits()
    ensures DigitsXored(FIRST_A, FIRST_B, FIRST_C)
  {
    AllDigits();
  }

  lemma FirstXor()
    ensures BitXor(0x1f, 0x153080c) == 0x1530813
  {
    FirstDigits();
    XorValue(0x1f, 0x153080c, 0x1530813, FIRST_A, FIRST_B, FIRST_C);
  }

  lemma FirstScrambled()
    ensures Scramble(0x6c6c6548) == 0x153080c
  {
    ScrambleValue(0x6c6c6548, 0x3e89b3c8, 0xd9e41f44, 0x153080c);
  }

  lemma FirstMixed()
    ensures Rotl13(0x1530813) == 0x6102602a && Spread(0x6102602a) == 0xcb604c36
  {
  }

  lemma FirstRound()
    ensures Round(Murmur3(), 0x1f, 0x6c6c6548) == 0xcb604c36
  {
    FirstXor();
    FirstScrambled();
    FirstMixed();
    RoundValue(0x1f, 0x6c6c6548, 0x153080c, 0x1530813, 0x6102602a, 0xcb604c36);
  }

  const SECOND_A: seq<nat> := [3, 0, 2, 3, 1, 2, 0, 0, 1, 0, 3, 0, 0, 3, 1, 2]
  const SECOND_B: seq<nat> := [0, 2, 1, 0, 2, 3, 3, 1, 2, 3, 3, 0, 2, 0, 2, 1]
  const SECOND_C: seq<nat> := [3, 2, 3, 3, 3, 1, 3, 1, 3, 3, 0, 0, 2, 3, 3, 3]

  lemma SecondDigits()
    ensures DigitsXored(SECOND_A, SECOND_B, SECOND_C)
  {
    AllDigits();
  }

  lemma SecondXor()
    ensures BitXor(0xcb604c36, 0x24bdbc89) == 0xefddf0bf
  {
    SecondDigits();
    XorValue(0xcb604c36, 0x24bdbc89, 0xefddf0bf, SECOND_A, SECOND_B, SECOND_C);
  }

  lemma SecondScrambled()
    ensures Scramble(0x6f77206f) == 0x24bdbc89
  {
    ScrambleValue(0x6f77206f, 0xade6c61f, 0x630fd6f3, 0x24bdbc89);
  }

  lemma SecondMixed()
    ensures Rotl13(0xefddf0bf) == 0xbe17fdfb && Spread(0xbe17fdfb) == 0x9ccc614b
  {
  }

  lemma SecondRound()
    ensures Round(Murmur3(), 0xcb604c36, 0x6f77206f) == 0x9ccc614b
  {
    SecondXor();
    SecondScrambled();
    SecondMixed();
    RoundValue(0xcb604c36, 0x6f77206f, 0x24bdbc89, 0xefddf0bf, 0xbe17fdfb, 0x9ccc614b);
  }

  const THIRD_A: seq<nat> := [2, 1, 3, 0, 3, 0, 3, 0, 1, 2, 0, 1, 1, 0, 2, 3]
  const THIRD_B: seq<nat> := [1, 3, 3, 0, 3, 3, 0, 3, 0, 2, 2, 0, 1, 1, 2, 3]
  const THIRD_C: seq<nat> := [3, 2, 0, 0, 0, 3, 3, 3, 1, 0, 2, 1, 0, 1, 0, 0]

  lemma ThirdDigits()
    ensures DigitsXored(THIRD_A, THIRD_B, THIRD_C)
  {
    AllDigits();
  }

  lemma ThirdXor()
    ensures BitXor(0x9ccc614b, 0x7cf3285b) == 0xe03f4910
  {
    ThirdDigits();
    XorValue(0x9ccc614b, 0x7cf3285b, 0xe03f4910, THIRD_A, THIRD_B, THIRD_C);
  }

  lemma ThirdScrambled()
    ensures Scramble(0x21646c72) == 0x7cf3285b
  {
    ScrambleValue(0x21646c72, 0xfe325a12, 0x2d097f19, 0x7cf3285b);
  }

  lemma ThirdMixed()
    ensures Rotl13(0xe03f4910) == 0xe9221c07 && Spread(0xe9221c07) == 0x73fef787
  {
  }

  lemma ThirdRound()
    ensures Round(Murmur3(), 0x9ccc614b, 0x21646c72) == 0x73fef787
  {
    ThirdXor();
    ThirdScrambled();
    ThirdMixed();
    RoundValue(0x9ccc614b, 0x21646c72, 0x7cf3285b, 0xe03f4910, 0xe9221c07, 0x73fef787);
  }

  const LENGTH_A: seq<nat> := [1, 3, 0, 3, 3, 3, 3, 2, 3, 3, 1, 3, 2, 0, 1, 3]
  const LENGTH_B: seq<nat> := [0, 0, 0, 0, 0, 0, 0, 0, 0, 0, 0, 0, 0, 0, 3, 0]
  const LENGTH_C: seq<nat> := [1, 3, 0, 3, 3, 3, 3, 2, 3, 3, 1, 3, 2, 0, 2, 3]

  lemma LengthDigits()
    ensures DigitsXored(LENGTH_A, LENGTH_B, LENGTH_C)
  {
    AllDigits();
  }

  lemma LengthXor()
    ensures BitXor(0x73fef787, 0xc) == 0x73fef78b
  {
    LengthDigits();
    XorValue(0x73fef787, 0xc, 0x73fef78b, LENGTH_A, LENGTH_B, LENGTH_C);
  }

  const FOLD_A: seq<nat> := [1, 3, 0, 3, 3, 3, 3, 2, 3, 3, 1, 3, 2, 0, 2, 3]
  const FOLD_B: seq<nat> := [0, 0, 0, 0, 0, 0, 0, 0, 1, 3, 0, 3, 3, 3, 3, 2]
  const FOLD_C: seq<nat> := [1, 3, 0, 3, 3, 3, 3, 2, 2, 0, 1, 0, 1, 3, 1, 1]

  lemma FoldDigits()
    ensures DigitsXored(FOLD_A, FOLD_B, FOLD_C)
  {
    AllDigits();
  }

  lemma FoldXor()
    ensures BitXor(0x73fef78b, 0x73fe) == 0x73fe8475
  {
    FoldDigits();
    XorValue(0x73fef78b, 0x73fe, 0x73fe8475, FOLD_A, FOLD_B, FOLD_C);
  }

  const REFOLD_A: seq<nat> := [2, 3, 0, 0, 1, 0, 3, 0, 2, 2, 3, 2, 3, 2, 1, 3]
  const REFOLD_B: seq<nat> := [0, 0, 0, 0, 0, 0, 1, 1, 2, 0, 0, 2, 1, 2, 1, 1]
  const REFOLD_C: seq<nat> := [2, 3, 0, 0, 1, 0, 2, 1, 0, 2, 3, 0, 2, 0, 0, 2]

  lemma RefoldDigits()
    ensures DigitsXored(REFOLD_A, REFOLD_B, REFOLD_C)
  {
    AllDigits();
  }

  lemma RefoldXor()
    ensures BitXor(0xb04caee7, 0x58265) == 0xb0492c82
  {
    RefoldDigits();
    XorValue(0xb04caee7, 0x58265, 0xb0492c82, REFOLD_A, REFOLD_B, REFOLD_C);
  }

  const LAST_A: seq<nat> := [2, 3, 0, 1, 3, 0, 2, 2, 2, 1, 0, 2, 3, 2, 2, 2]
  const LAST_B: seq<nat> := [0, 0, 0, 0, 0, 0, 0, 0, 2, 3, 0, 1, 3, 0, 2, 2]
  const LAST_C: seq<nat> := [2, 3, 0, 1, 3, 0, 2, 2, 0, 2, 0, 3, 0, 2, 0, 0]

  lemma LastDigits()
    ensures DigitsXored(LAST_A, LAST_B, LAST_C)
  {
    AllDigits();
  }

  lemma LastXor()
    ensures BitXor(0xb1ca92ea, 0xb1ca) == 0xb1ca2320
  {
    LastDigits();
    XorValue(0xb1ca92ea, 0xb1ca, 0xb1ca2320, LAST_A, LAST_B, LAST_C);
  }

  lemma LastProducts()
    ensures Mul(0x73fe8475, 0x85ebca6b) == 0xb04caee7 && Mul(0xb0492c82, 0xc2b2ae35) == 0xb1ca92ea
  {
  }

  lemma LastShifts()
    ensures Shr(0x73fef78b, 16) == 0x73fe && Shr(0xb04caee7, 13) == 0x58265 && Shr(0xb1ca92ea, 16) == 0xb1ca
  {
    PowersOfTwo();
    ShrIsQuotient(0x73fef78b, 16);
    ShrIsQuotient(0xb04caee7, 13);
    ShrIsQuotient(0xb1ca92ea, 16);
  }

  lemma LastSteps()
    ensures Finish(Xor(0x73fef787, 12)) == 0xb1ca2320
  {
    LengthXor();
    LastShifts();
    LastProducts();
    FoldXor();
    RefoldXor();
    LastXor();
    FinishValue(0x73fef78b, 0x73fe8475, 0xb04caee7, 0xb0492c82, 0xb1ca92ea, 0xb1ca2320);
  }

  /** "Hello world!" */
  const HELLO: seq<Byte> := [0x48, 0x65, 0x6c, 0x6c, 0x6f, 0x20, 0x77, 0x6f, 0x72, 0x6c, 0x64, 0x21]

  /** The hash of "Hello world!" with seed 31, as the test has it; it depends on every constant of the code. */
  lemma KnownValue()
    ensures Hash(Murmur3(), HELLO, 31) == 0xb1ca2320
  {
    var ks := Blocks(HELLO);
    assert ks == [0x6c6c6548, 0x6f77206f, 0x21646c72];
    FirstRound();
    SecondRound();
    ThirdRound();
    assert ks[..1][..0] == [] && ks[..2][..1] == ks[..1] && ks[..3][..2] == ks[..2] && ks[..3] == ks;
    assert Absorb(Murmur3(), 31, ks[..0]) == 31;
    assert Absorb(Murmur3(), 31, ks[..1]) == 0xcb604c36;
    assert Absorb(Murmur3(), 31, ks[..2]) == 0x9ccc614b;
    assert Absorb(Murmur3(), 31, ks[..3]) == 0x73fef787;
    LastSteps();
  }
}
