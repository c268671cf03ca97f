/** Arithmetic of the daemon's schedule: a job of interval I is due at the ticks that I divides. */
module Schedule {
  import opened Arithmetic

  /** The tick counter is an unsigned 64-bit integer; after this many completed cycles it is back at zero. */
  const TICKS: nat := 0x1_0000_0000_0000_0000

  /** The test `is_divisible(interval, waitedTime)`. */
  predicate Due(interval: nat, tick: nat)
    requires interval > 0
  {
    tick % interval == 0
  }

  function Ceil(a: nat, b: nat): nat
    requires b > 0
  {
    a / b + if a % b == 0 then 0 else 1
  }

  /** How many of the first n completed cycles find a job of this interval due. */
  function DueCount(interval: nat, n: nat): nat
    requires interval > 0
  {
    if n == 0 then 0 else
      DueCount(interval, n - 1) + if Due(interval, (n - 1) % TICKS) then 1 else 0
  }

  lemma CeilStep(a: nat, b: nat)
    requires b > 0
    ensures Ceil(a + 1, b) == Ceil(a, b) + if Due(b, a) then 1 else 0
  {
    DivisionStep(a, b);
  }

  /**
   * After any number of cycles a job has been due ceil(2^64 / I) times for every wrap of the counter and ceil(r / I)
   * times since the last one.
   */
  lemma {:induction false} DueCountExact(interval: nat, n: nat)
    requires interval > 0
    ensures DueCount(interval, n) == (n / TICKS) * Ceil(TICKS, interval) + Ceil(n % TICKS, interval)
  {
    hide Ceil;
    hide Due;
    CeilOfNothing(interval);
    if n > 0 {
      var m, whole := n - 1, Ceil(TICKS, interval);
      DueCountExact(interval, m);
      DivisionStep(m, TICKS);
      CeilStep(m % TICKS, interval);
      if m % TICKS == TICKS - 1 {
        OneMore(m / TICKS, whole);
      }
    }
  }

  lemma CeilOfNothing(b: nat)
    requires b > 0
    ensures Ceil(0, b) == 0
  {
  }

  lemma OneMore(a: nat, b: nat)
    ensures (a + 1) * b == a * b + b
  {
  }

  /** Before the counter wraps, a job of interval I has been due exactly ceil(n / I) times in n cycles. */
  lemma DueCountBeforeWrap(interval: nat, n: nat)
    requires interval > 0 && n <= TICKS
    ensures DueCount(interval, n) == Ceil(n, interval)
  {
    DueCountExact(interval, n);
    if n == TICKS {
      assert n / TICKS == 1 && n % TICKS == 0;
    } else {
      assert n / TICKS == 0 && n % TICKS == n;
    }
  }

  /** Due ticks are exactly one interval apart. */
  lemma NextDueTick(interval: nat, tick: nat, other: nat)
    requires interval > 0 && Due(interval, tick) && tick < other <= tick + interval
    ensures Due(interval, other) <==> other == tick + interval
  {
    var q, d := tick / interval, other - tick;
    assert tick == q * interval;
    if d < interval {
      QuotientUnique(other, interval, q, d);
    } else {
      assert other == (q + 1) * interval + 0;
      QuotientUnique(other, interval, q + 1, 0);
    }
  }

  /** The wrap of the counter respects the interval exactly when the interval divides 2^64. */
  lemma WrapKeepsSpacing(interval: nat)
    requires 0 < interval
    ensures (forall c: nat {:trigger Due(interval, c)} :: Due(interval, c % TICKS) <==> Due(interval, c))
       <==> TICKS % interval == 0
  {
    if TICKS % interval == 0 {
      forall c: nat ensures Due(interval, c % TICKS) <==> Due(interval, c) {
        var w, q, r := TICKS / interval, c / TICKS, c % TICKS;
        var q', r' := r / interval, r % interval;
        assert c == q * (w * interval) + (q' * interval + r') == (q * w + q') * interval + r';
        QuotientUnique(c, interval, q * w + q', r');
      }
    } else {
      assert !Due(interval, TICKS) && Due(interval, TICKS % TICKS);
    }
  }

  ghost predicate CommonMultiple(i: nat, j: nat, m: nat)
    requires i > 0 && j > 0
  {
    m > 0 && Due(i, m) && Due(j, m)
  }

  ghost predicate IsLcm(i: nat, j: nat, m: nat)
    requires i > 0 && j > 0
  {
    CommonMultiple(i, j, m) && forall k: nat :: CommonMultiple(i, j, k) ==> m <= k
  }

  lemma ProductIsCommon(i: nat, j: nat)
    requires i > 0 && j > 0
    ensures i * j > 0 && CommonMultiple(i, j, i * j)
  {
    QuotientUnique(i * j, i, j, 0);
    QuotientUnique(i * j, j, i, 0);
  }

  /** Any two intervals have a least common multiple. */
  lemma LcmExists(i: nat, j: nat) returns (m: nat)
    requires i > 0 && j > 0
    ensures IsLcm(i, j, m)
  {
    ProductIsCommon(i, j);
    m := 1;
    while !CommonMultiple(i, j, m)
      invariant 1 <= m <= i * j
      invariant forall k: nat :: CommonMultiple(i, j, k) ==> m <= k
      decreases i * j - m
    {
      m := m + 1;
    }
  }

  lemma SubtractMultiple(i: nat, a: nat, b: nat, q: nat)
    requires i > 0 && Due(i, a) && Due(i, b) && q * b <= a
    ensures Due(i, a - q * b)
  {
    var x, y := a / i, b / i;
    assert a - q * b == (x - q * y) * i by {
      assert a == x * i && b == y * i;
      assert q * (y * i) == (q * y) * i;
    }
    assert x - q * y >= 0;
    QuotientUnique(a - q * b, i, x - q * y, 0);
  }

  /** Two jobs are due together exactly at the multiples of the least common multiple of their intervals. */
  lemma DueTogether(i: nat, j: nat, m: nat, tick: nat)
    requires i > 0 && j > 0 && IsLcm(i, j, m)
    ensures Due(i, tick) && Due(j, tick) <==> Due(m, tick)
  {
    var q, r := tick / m, tick % m;
    assert tick == q * m + r;
    if Due(i, tick) && Due(j, tick) {
      SubtractMultiple(i, tick, m, q);
      SubtractMultiple(j, tick, m, q);
      assert CommonMultiple(i, j, r) || r == 0;
    }
    if r == 0 {
      MultipleIsDue(i, m, q);
      MultipleIsDue(j, m, q);
    }
  }

  lemma MultipleIsDue(i: nat, m: nat, q: nat)
    requires i > 0 && Due(i, m)
    ensures Due(i, q * m)
  {
    var y := m / i;
    assert q * m == (q * y) * i + 0 by {
      assert m == y * i;
      assert q * (y * i) == (q * y) * i;
    }
    QuotientUnique(q * m, i, q * y, 0);
  }
}
