/** Bit masks and remainders, used where the source indexes with "& (n - 1)". */
module Masks {

  /** Bitwise and of two naturals. */
  function BitAnd(x: nat, m: nat): (r: nat)
    ensures r <= m
  {
    if x == 0 || m == 0 then 0
    else 2 * BitAnd(x / 2, m / 2) + if x % 2 == 1 && m % 2 == 1 then 1 else 0
  }

  function Pow2(k: nat): nat
  {
    if k == 0 then 1 else 2 * Pow2(k - 1)
  }

  /** Masking with a power of two less one is the remainder. */
  lemma {:induction false} MaskIsRemainder(x: nat, k: nat)
    ensures Pow2(k) > 0 && BitAnd(x, Pow2(k) - 1) == x % Pow2(k)
  {
    if k > 0 {
      MaskIsRemainder(x / 2, k - 1);
      MaskStep(x, Pow2(k - 1));
    }
  }

  lemma {:induction false} MaskSelf(x: nat)
    ensures BitAnd(x, x) == x
  {
    if x > 0 {
      MaskSelf(x / 2);
    }
  }

  /** A number with no bit in common with the one before it is a power of two. */
  lemma {:induction false} LoneBit(n: nat) returns (k: nat)
    requires n > 0 && BitAnd(n, n - 1) == 0
    ensures n == Pow2(k)
  {
    if n == 1 {
      k := 0;
    } else {
      assert n % 2 == 1 ==> (n - 1) / 2 == n / 2;
      MaskSelf(n / 2);
      k := LoneBit(n / 2);
      k := k + 1;
    }
  }

  lemma MaskStep(x: nat, p: nat)
    requires p > 0 && BitAnd(x / 2, p - 1) == x / 2 % p
    ensures BitAnd(x, 2 * p - 1) == x % (2 * p)
  {
    HalveMask(x, p);
    HalveRemainder(x, p);
  }

  lemma HalveMask(x: nat, p: nat)
    requires p > 0
    ensures BitAnd(x, 2 * p - 1) == 2 * BitAnd(x / 2, p - 1) + x % 2
  {
    assert (2 * p - 1) / 2 == p - 1 && (2 * p - 1) % 2 == 1;
  }

  lemma HalveRemainder(x: nat, p: nat)
    requires p > 0
    ensures x % (2 * p) == 2 * ((x / 2) % p) + x % 2
  {
    var q, r := (x / 2) / p, (x / 2) % p;
    assert x / 2 == q * p + r;
    assert x == (2 * p) * q + (2 * r + x % 2);
    UniqueRemainder(x, 2 * p, q, 2 * r + x % 2);
  }

  lemma UniqueRemainder(x: int, d: nat, q: int, r: nat)
    requires d > 0 && x == d * q + r && r < d
    ensures x % d == r && x / d == q
  {
    var q', r' := x / d, x % d;
    assert d * (q - q') == r' - r;
    assert q - q' >= 1 ==> d * (q - q') >= d;
    assert q' - q >= 1 ==> d * (q' - q) >= d;
  }

  /** Shifting by a multiple of the divisor leaves the remainder. */
  lemma ShiftedRemainder(x: int, d: nat, k: int)
    requires d > 0
    ensures (x + d * k) % d == x % d
  {
    assert x + d * k == d * (x / d + k) + x % d;
    UniqueRemainder(x + d * k, d, x / d + k, x % d);
  }

  /** A divisor's remainder survives a reduction modulo a multiple of it. */
  lemma NestedRemainder(y: int, x: int, n: nat, d: nat)
    requires d > 0 && n > 0 && n % d == 0
    ensures (y + x % n) % d == (y + x) % d
  {
    var q, k := n / d, x / n;
    assert x == n * k + x % n;
    assert n * k == d * (q * k);
    ShiftedRemainder(y + x % n, d, q * k);
  }

  /** The smaller of two powers of two divides the larger. */
  lemma {:induction false} PowersDivide(a: nat, b: nat)
    requires Pow2(a) <= Pow2(b)
    ensures Pow2(a) > 0 && Pow2(b) % Pow2(a) == 0
  {
    PowPositive(a);
    if a > 0 {
      PowPositive(a - 1);
      if b > 0 {
        PowersDivide(a - 1, b - 1);
        var p, r := Pow2(a - 1), Pow2(b - 1) / Pow2(a - 1);
        assert 2 * (p * r) == (2 * p) * r;
        UniqueRemainder(Pow2(b), Pow2(a), r, 0);
      }
    }
  }

  lemma {:induction false} PowPositive(k: nat)
    ensures Pow2(k) > 0
  {
    if k > 0 {
      PowPositive(k - 1);
    }
  }

  lemma {:induction false} PowersAdd(a: nat, b: nat)
    ensures Pow2(a) * Pow2(b) == Pow2(a + b)
  {
    if a > 0 {
      PowersAdd(a - 1, b);
      assert 2 * Pow2(a - 1) * Pow2(b) == 2 * (Pow2(a - 1) * Pow2(b));
    }
  }

  lemma {:induction false} PowersGrow(a: nat, b: nat)
    requires a < b
    ensures Pow2(a) < Pow2(b)
  {
    PowPositive(b - 1);
    if a < b - 1 {
      PowersGrow(a, b - 1);
    }
  }

  /** x without its low k bits. */
  function Cleared(x: nat, k: nat): nat
  {
    if k == 0 then x else 2 * Cleared(x / 2, k - 1)
  }

  lemma {:induction false} ClearedRounds(x: nat, k: nat)
    ensures Pow2(k) > 0 && Cleared(x, k) == x - x % Pow2(k)
  {
    PowPositive(k);
    if k > 0 {
      ClearedRounds(x / 2, k - 1);
      RoundTwice(x, Pow2(k - 1));
    }
  }

  lemma {:induction false} MaskClears(x: nat, k: nat, n: nat)
    requires k <= n && x < Pow2(n)
    ensures Pow2(k) <= Pow2(n) && BitAnd(x, Pow2(n) - Pow2(k)) == Cleared(x, k)
  {
    PowersOrdered(k, n);
    if k == 0 {
      FullMask(x, n);
    } else {
      MaskClears(x / 2, k - 1, n - 1);
      ClearStep(x, k, Pow2(n - 1) - Pow2(k - 1));
    }
  }

  lemma ClearStep(x: nat, k: nat, m: nat)
    requires k > 0 && BitAnd(x / 2, m) == Cleared(x / 2, k - 1)
    ensures BitAnd(x, 2 * m) == Cleared(x, k)
  {
    EvenMask(x, m);
  }

  /** Masking the low k bits away rounds down to a multiple of 2^k. */
  lemma MaskRoundsDown(x: nat, k: nat, n: nat)
    requires k <= n && x < Pow2(n)
    ensures 0 < Pow2(k) <= Pow2(n) && BitAnd(x, Pow2(n) - Pow2(k)) == x - x % Pow2(k)
  {
    MaskClears(x, k, n);
    ClearedRounds(x, k);
  }

  lemma PowersOrdered(k: nat, n: nat)
    requires k <= n
    ensures 0 < Pow2(k) <= Pow2(n)
  {
    PowPositive(k);
    if k < n {
      PowersGrow(k, n);
    }
  }

  lemma FullMask(x: nat, n: nat)
    requires x < Pow2(n)
    ensures BitAnd(x, Pow2(n) - 1) == x
  {
    MaskIsRemainder(x, n);
    UniqueRemainder(x, Pow2(n), 0, x);
  }

  lemma RoundTwice(x: nat, p: nat)
    requires p > 0
    ensures 2 * (x / 2 - x / 2 % p) == x - x % (2 * p)
  {
    HalveRemainder(x, p);
  }

  lemma EvenMask(x: nat, m: nat)
    ensures BitAnd(x, 2 * m) == 2 * BitAnd(x / 2, m)
  {
    assert 2 * m / 2 == m && 2 * m % 2 == 0;
  }
}
