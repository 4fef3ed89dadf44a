/**
 TokenBucket (yacul/qos/token_bucket.cc): a rate limiter that refills lazily from clock readings.

 Doubles are reals.  Each call is given the clock reading it would take, in nanoseconds; readings
 may go backwards.
 */
module TokenBucket {

  /** What the object holds; rate and capacity never change. */
  datatype Bucket = Bucket(rate: real, capacity: real, tokens: real, last: int)

  predicate Sane(b: Bucket)
  {
    b.rate > 0.0 && b.capacity > 0.0 && 0.0 <= b.tokens <= b.capacity
  }

  function Min(x: real, y: real): real
  {
    if y < x then y else x
  }

  function Seconds(ns: int): real
  {
    ns as real * 0.000000001
  }

  /** The bucket as if it had been filled continuously until now. */
  function Filled(b: Bucket, now: int): Bucket
  {
    if now <= b.last then b
    else b.(tokens := Min(b.tokens + Seconds(now - b.last) * b.rate, b.capacity), last := now)
  }

  class Limiter {
    const rate: real
    const capacity: real
    var tokens: real
    var last: int

    function Value(): Bucket
      reads this
    {
      Bucket(rate, capacity, tokens, last)
    }

    constructor (rate: real, capacity: real, now: int)
      requires rate > 0.0 && capacity > 0.0
      ensures Value() == Bucket(rate, capacity, capacity, now) && Sane(Value())
    {
      this.rate, this.capacity, tokens, last := rate, capacity, capacity, now;
    }

    /** The cap on the elapsed time changes nothing beyond the cap on the tokens. */
    method RefillLocked(now: int)
      requires Sane(Value())
      modifies this
      ensures Value() == Filled(old(Value()), now) && Sane(Value())
    {
      var elapsed := (now - last) as real * 0.000000001;
      if elapsed <= 0.0 {
        return;
      }
      CapIsHarmless(elapsed, rate, capacity, tokens);
      elapsed := Min(elapsed, capacity / rate);
      tokens := Min(tokens + elapsed * rate, capacity);
      last := now;
    }

    /** A refusal keeps the refill; nothing is consumed. */
    method TryConsume(amount: real, now: int) returns (ok: bool)
      requires Sane(Value())
      modifies this
      ensures Sane(Value()) && Value() == After(old(Value()), Consume(amount, now))
      ensures ok == (amount <= 0.0 || Filled(old(Value()), now).tokens >= amount)
      ensures Taken(old(Value()), Consume(amount, now)) == if ok && amount > 0.0 then amount else 0.0
    {
      if amount <= 0.0 {
        return true;
      }
      RefillLocked(now);
      if tokens < amount {
        return false;
      }
      tokens := tokens - amount;
      return true;
    }

    method Refill(amount: real)
      requires Sane(Value())
      modifies this
      ensures Sane(Value()) && Value() == After(old(Value()), Credit(amount))
    {
      if amount <= 0.0 {
        return;
      }
      tokens := Min(tokens + amount, capacity);
    }

    method Reset(now: int)
      requires Sane(Value())
      modifies this
      ensures Value() == Bucket(rate, capacity, capacity, now) && Sane(Value())
    {
      tokens, last := capacity, now;
    }

    method CurrentTokens(now: int) returns (t: real)
      requires Sane(Value())
      modifies this
      ensures Sane(Value()) && Value() == After(old(Value()), Look(now)) && t == tokens
    {
      RefillLocked(now);
      t := tokens;
    }
  }

  lemma CapIsHarmless(elapsed: real, rate: real, capacity: real, tokens: real)
    requires elapsed > 0.0 && rate > 0.0 && capacity > 0.0 && 0.0 <= tokens <= capacity
    ensures Min(tokens + Min(elapsed, capacity / rate) * rate, capacity) == Min(tokens + elapsed * rate, capacity)
    ensures Min(tokens + elapsed * rate, capacity) >= 0.0
  {
    assert elapsed * rate > 0.0;
    var limit := capacity / rate;
    assert limit * rate == capacity;
    if limit < elapsed {
      assert (elapsed - limit) * rate > 0.0;
      assert elapsed * rate == limit * rate + (elapsed - limit) * rate;
    }
  }

  // ---------------------------------------------------------------- runs

  datatype Call = Consume(amount: real, now: int) | Credit(amount: real) | Look(now: int)

  function After(b: Bucket, c: Call): Bucket
  {
    match c
    case Consume(a, now) =>
      if a <= 0.0 then b
      else
        var f := Filled(b, now);
        if f.tokens < a then f else f.(tokens := f.tokens - a)
    case Credit(a) => if a <= 0.0 then b else b.(tokens := Min(b.tokens + a, b.capacity))
    case Look(now) => Filled(b, now)
  }

  /** What the call takes out of the bucket. */
  function Taken(b: Bucket, c: Call): real
  {
    if c.Consume? && c.amount > 0.0 && Filled(b, c.now).tokens >= c.amount then c.amount else 0.0
  }

  function Given(c: Call): real
  {
    if c.Credit? && c.amount > 0.0 then c.amount else 0.0
  }

  /** The bucket, what was taken and given so far, and the latest clock reading. */
  datatype Ledger = Ledger(bucket: Bucket, taken: real, given: real, latest: int)

  function Entered(l: Ledger, c: Call): Ledger
  {
    Ledger(After(l.bucket, c), l.taken + Taken(l.bucket, c), l.given + Given(c),
           if c.Credit? || c.now <= l.latest then l.latest else c.now)
  }

  function Fold<S, C>(step: (S, C) -> S, s: S, cs: seq<C>): S
  {
    if |cs| == 0 then s else Fold(step, step(s, cs[0]), cs[1..])
  }

  /** A Reset-free run from bucket b. */
  function RunOf(b: Bucket, calls: seq<Call>): Ledger
  {
    Fold(Entered, Ledger(b, 0.0, 0.0, b.last), calls)
  }

  lemma FilledBound(b: Bucket, now: int)
    requires Sane(b)
    ensures var f := Filled(b, now);
            Sane(f) && f.last == (if now <= b.last then b.last else now) &&
            b.tokens <= f.tokens <= b.tokens + Seconds(f.last - b.last) * b.rate
  {
    if now > b.last {
      assert Seconds(now - b.last) > 0.0;
      assert Seconds(now - b.last) * b.rate > 0.0;
    }
  }

  /** One call: the tokens stay in range and what is taken or left was there, given, or earned by time. */
  lemma StepBound(b: Bucket, c: Call)
    requires Sane(b)
    ensures var a := After(b, c);
            Sane(a) && a.rate == b.rate && a.capacity == b.capacity && a.last >= b.last &&
            Taken(b, c) + a.tokens <= b.tokens + Seconds(a.last - b.last) * b.rate + Given(c)
    ensures After(b, c).last <= if c.Credit? || c.now <= b.last then b.last else c.now
  {
    assert Seconds(0) * b.rate == 0.0;
    if !c.Credit? {
      FilledBound(b, c.now);
    }
  }

  /** What was taken and what is left were there at the start, given, or earned by time. */
  ghost predicate Within(b: Bucket, l: Ledger)
  {
    Sane(l.bucket) && l.bucket.rate == b.rate && l.bucket.capacity == b.capacity &&
    b.last <= l.bucket.last <= l.latest &&
    l.taken + l.bucket.tokens <= b.tokens + Seconds(l.bucket.last - b.last) * b.rate + l.given
  }

  lemma WithinStep(b: Bucket, l: Ledger, c: Call)
    requires Within(b, l)
    ensures Within(b, Entered(l, c))
  {
    StepBound(l.bucket, c);
    TimeAdds(l.bucket.last - b.last, After(l.bucket, c).last - l.bucket.last, b.rate);
  }

  lemma {:induction false} FoldKeeps<S(!new), C(!new)>(step: (S, C) -> S, inv: S -> bool, s: S, cs: seq<C>)
    requires inv(s) && forall s', c :: inv(s') ==> inv(step(s', c))
    ensures inv(Fold(step, s, cs))
  {
    if |cs| > 0 {
      FoldKeeps(step, inv, step(s, cs[0]), cs[1..]);
    }
  }

  lemma TimeAdds(s: int, t: int, rate: real)
    ensures Seconds(s + t) * rate == Seconds(s) * rate + Seconds(t) * rate
  {
    assert Seconds(s + t) == Seconds(s) + Seconds(t);
  }

  lemma RunWithin(b: Bucket, calls: seq<Call>)
    requires Sane(b)
    ensures Within(b, RunOf(b, calls))
  {
    TimeAdds(0, 0, b.rate);
    forall l, c | Within(b, l) ensures Within(b, Entered(l, c)) {
      WithinStep(b, l, c);
    }
    FoldKeeps(Entered, l => Within(b, l), Ledger(b, 0.0, 0.0, b.last), calls);
  }

  /**
   Over any run, with any clock readings: the tokens stay between 0 and the capacity, and no more is consumed
   than the initial tokens, the credits, and the rate times the clock's advance past the first refill time.
   */
  lemma RateBound(b: Bucket, calls: seq<Call>)
    requires Sane(b)
    ensures var l := RunOf(b, calls);
            0.0 <= l.bucket.tokens <= b.capacity && b.last <= l.latest &&
            l.taken <= b.tokens + Seconds(l.latest - b.last) * b.rate + l.given
  {
    RunWithin(b, calls);
    WithinLatest(b, RunOf(b, calls));
  }

  lemma WithinLatest(b: Bucket, l: Ledger)
    requires Sane(b) && Within(b, l)
    ensures l.taken <= b.tokens + Seconds(l.latest - b.last) * b.rate + l.given
  {
    var x, y := Seconds(l.bucket.last - b.last) * b.rate, Seconds(l.latest - b.last) * b.rate;
    TimeGrows(l.bucket.last - b.last, l.latest - b.last, b.rate);
    assert x <= y;
  }

  lemma TimeGrows(s: int, t: int, rate: real)
    requires s <= t && rate > 0.0
    ensures Seconds(s) * rate <= Seconds(t) * rate
  {
    assert Seconds(t) - Seconds(s) >= 0.0;
    assert (Seconds(t) - Seconds(s)) * rate >= 0.0;
  }

  /** Refilling at two readings is refilling once at the later. */
  lemma RefillOnce(b: Bucket, n: int, m: int)
    requires Sane(b)
    ensures Filled(Filled(b, n), m) == Filled(b, if n < m then m else n)
  {
    if b.last < n < m {
      assert Seconds(m - b.last) == Seconds(n - b.last) + Seconds(m - n);
      assert Seconds(m - b.last) * b.rate == Seconds(n - b.last) * b.rate + Seconds(m - n) * b.rate;
      assert Seconds(m - n) * b.rate > 0.0;
    }
  }

  /** So looking at the tokens never changes what a later request gets. */
  lemma LookIsInvisible(b: Bucket, n: int, a: real, m: int)
    requires Sane(b) && n <= m && a > 0.0
    ensures After(After(b, Look(n)), Consume(a, m)) == After(b, Consume(a, m))
    ensures Taken(After(b, Look(n)), Consume(a, m)) == Taken(b, Consume(a, m))
  {
    RefillOnce(b, n, m);
  }

  /**
   A refused request is documented to leave the bucket alone.  It does so exactly if no time has passed since
   the last refill; otherwise the refill stays, in the time stamp at least.
   */
  lemma RefusalKeepsBucket(b: Bucket, a: real, now: int)
    requires Sane(b) && a > 0.0 && Filled(b, now).tokens < a
    ensures After(b, Consume(a, now)) == b <==> now <= b.last
  {
    assert now > b.last ==> Filled(b, now).last == now;
  }

  /** A second after it was emptied, a bucket of rate 1 refuses 2 tokens and is not what it was. */
  lemma RefusalChangesBucket()
    ensures var b := Bucket(1.0, 10.0, 0.0, 0);
            var after := After(b, Consume(2.0, 1000000000));
            Sane(b) && Taken(b, Consume(2.0, 1000000000)) == 0.0 && after != b && after.tokens == 1.0
  {
    var b := Bucket(1.0, 10.0, 0.0, 0);
    assert Seconds(1000000000) == 1.0;
    assert Filled(b, 1000000000).tokens == 1.0;
  }

  /** A bucket left alone for capacity / rate seconds grants anything up to its capacity, and nothing more. */
  lemma FullAfterIdle(b: Bucket, a: real, now: int)
    requires Sane(b) && now > b.last && Seconds(now - b.last) * b.rate >= b.capacity && a > 0.0
    ensures Taken(b, Consume(a, now)) == a <==> a <= b.capacity
  {
  }

  // ---------------------------------------------------------------- nothing is lost either

  /** When the bucket was last filled, after a call. */
  function FilledAt(b: Bucket, c: Call): int
  {
    match c
    case Credit(_) => b.last
    case Look(now) => if now > b.last then now else b.last
    case Consume(a, now) => if a > 0.0 && now > b.last then now else b.last
  }

  /** What there would be after a call if the bucket had no capacity, before anything is taken out. */
  function Supply(b: Bucket, c: Call): real
  {
    b.tokens + Seconds(FilledAt(b, c) - b.last) * b.rate + Given(c)
  }

  /**
   After any call, what was taken and what is left are exactly what was there, was earned since the last filling and
   was given, cut at the capacity.
   */
  lemma LevelExactly(b: Bucket, c: Call)
    requires Sane(b)
    ensures After(b, c).last == FilledAt(b, c)
    ensures Taken(b, c) + After(b, c).tokens == Min(Supply(b, c), b.capacity)
  {
    assert Seconds(0) * b.rate == 0.0;
  }

  /** No call of the run meets the capacity. */
  predicate NeverFull(b: Bucket, calls: seq<Call>)
    decreases |calls|
  {
    |calls| > 0 ==> Supply(b, calls[0]) <= b.capacity && NeverFull(After(b, calls[0]), calls[1..])
  }

  /** From ledger l on: what is there and what was taken balance with what was there, was earned and was given. */
  predicate Balances(b: Bucket, l: Ledger)
  {
    Sane(l.bucket) && l.bucket.rate == b.rate && l.bucket.capacity == b.capacity && b.last <= l.bucket.last &&
    l.taken + l.bucket.tokens == b.tokens + Seconds(l.bucket.last - b.last) * b.rate + l.given
  }

  lemma BalancesStep(b: Bucket, l: Ledger, c: Call)
    requires Balances(b, l) && Supply(l.bucket, c) <= l.bucket.capacity
    ensures Balances(b, Entered(l, c))
  {
    StepBound(l.bucket, c);
    LevelExactly(l.bucket, c);
    TimeAdds(l.bucket.last - b.last, After(l.bucket, c).last - l.bucket.last, b.rate);
  }

  lemma {:induction false} BalancesOn(b: Bucket, l: Ledger, calls: seq<Call>)
    requires Balances(b, l) && NeverFull(l.bucket, calls)
    ensures Balances(b, Fold(Entered, l, calls))
    decreases |calls|
  {
    if |calls| > 0 {
      BalancesStep(b, l, calls[0]);
      BalancesOn(b, Entered(l, calls[0]), calls[1..]);
    }
  }

  /**
   Over any run in which the bucket does not run over, what was consumed and what is left are exactly the initial
   tokens, the credits, and the rate times the time from the first filling to the last.
   */
  lemma RateExactly(b: Bucket, calls: seq<Call>)
    requires Sane(b) && NeverFull(b, calls)
    ensures var l := RunOf(b, calls);
            l.taken + l.bucket.tokens == b.tokens + Seconds(l.bucket.last - b.last) * b.rate + l.given
  {
    TimeAdds(0, 0, b.rate);
    BalancesOn(b, Ledger(b, 0.0, 0.0, b.last), calls);
  }
}
