/**
 Jump consistent hashing (src/clients/go/pkg/types/geo_sharding.go). The floating-point
 computation of the next jump is kept, with the rounding of float64 as a parameter.
 */
module JumpHash {
  import opened Bits

  const WORD: nat := 0x1_0000_0000_0000_0000

  /** One step of the linear congruential generator, with 64-bit wrap-around. */
  function NextKey(key: nat): (k: nat)
    ensures k < WORD
  {
    (key * 2862933555777941757 + 1) % WORD
  }

  /** A rule giving, from the current bucket and the generator's state, the next jump. */
  type Jump = (nat, nat) -> nat

  /** Above every uint32 bucket count; the integers up to here are exact in float64. */
  const LIMIT: nat := 0x20_0000_0000_0000

  ghost predicate Forward(jump: Jump)
  {
    forall b: nat, k: nat :: b < LIMIT && k < WORD ==> jump(b, k) > b
  }

  /** The last jump below n. */
  function Walk(jump: Jump, key: nat, b: int, j: nat, n: nat): int
    requires Forward(jump) && n <= LIMIT
    decreases n - j
  {
    if j >= n then b
    else
      var k := NextKey(key);
      Walk(jump, k, j, jump(j, k), n)
  }

  function Bucket(jump: Jump, key: nat, n: nat): int
    requires Forward(jump) && n <= LIMIT
  {
    if n == 0 then 0 else Walk(jump, key, -1, 0, n)
  }

  lemma {:induction false} WalkBelow(jump: Jump, key: nat, b: int, j: nat, n: nat)
    requires Forward(jump) && n <= LIMIT && b < j && -1 <= b < n && (b == -1 ==> j < n)
    ensures b <= Walk(jump, key, b, j, n) < n && (j < n ==> j <= Walk(jump, key, b, j, n))
    decreases n - j
  {
    if j < n {
      var k := NextKey(key);
      WalkBelow(jump, k, j, jump(j, k), n);
    }
  }

  /** The walks to m and to n >= m go together up to the first jump not below m. */
  lemma {:induction false} WalksAgree(jump: Jump, key: nat, b: int, j: nat, m: nat, n: nat)
    requires Forward(jump) && n <= LIMIT && b < j && -1 <= b < m <= n && (b == -1 ==> j < m)
    ensures
      var far := Walk(jump, key, b, j, n);
      if far < m then Walk(jump, key, b, j, m) == far else Walk(jump, key, b, j, m) < m
    decreases n - j
  {
    if j < m {
      var k := NextKey(key);
      WalksAgree(jump, k, j, jump(j, k), m, n);
    } else {
      WalkBelow(jump, key, b, j, n);
    }
  }

  /**
   Minimal movement, for every key and every change of the number of buckets: the result is a
   bucket number, and after growing from m to n buckets a key has another bucket if and only
   if it is one of the new ones.
   */
  lemma MinimalMovement(jump: Jump, key: nat, m: nat, n: nat)
    requires Forward(jump) && 1 <= m <= n <= LIMIT
    ensures 0 <= Bucket(jump, key, m) < m
    ensures Bucket(jump, key, m) != Bucket(jump, key, n) <==> m <= Bucket(jump, key, n)
    ensures Bucket(jump, key, m) <= Bucket(jump, key, n) < n
  {
    WalkBelow(jump, key, -1, 0, m);
    WalkBelow(jump, key, -1, 0, n);
    WalksAgree(jump, key, -1, 0, m, n);
  }

  lemma OneMoreBucket(jump: Jump, key: nat, n: nat)
    requires Forward(jump) && 1 <= n < LIMIT
    ensures Bucket(jump, key, n + 1) == Bucket(jump, key, n) || Bucket(jump, key, n + 1) == n
  {
    MinimalMovement(jump, key, n, n + 1);
  }

  // ---------- against the generator's own sequence ----------

  /** The i-th state of the generator started with the key. */
  function Lcg(key: nat, i: nat): nat
  {
    if i == 0 then key else (Lcg(key, i - 1) * 2862933555777941757 + 1) % 0x1_0000_0000_0000_0000
  }

  /** The i-th bucket the key jumps to, each jump by the next state. */
  function Stop(jump: Jump, key: nat, i: nat): nat
  {
    if i == 0 then 0 else jump(Stop(jump, key, i - 1), Lcg(key, i))
  }

  ghost predicate LastStopBelow(jump: Jump, key: nat, i: nat, n: nat)
  {
    (forall t :: 0 <= t <= i ==> Stop(jump, key, t) < n) && n <= Stop(jump, key, i + 1)
  }

  lemma LcgNext(key: nat, t: nat)
    ensures NextKey(Lcg(key, t)) == Lcg(key, t + 1)
  {
  }

  lemma {:induction false} WalkFollowsStops(jump: Jump, key: nat, b: int, t: nat, i: nat, n: nat)
    requires Forward(jump) && n <= LIMIT && t <= i && LastStopBelow(jump, key, i, n)
    ensures Walk(jump, Lcg(key, t), b, Stop(jump, key, t), n) == Stop(jump, key, i)
    decreases i - t
  {
    hide Lcg;
    var j := Stop(jump, key, t);
    LcgNext(key, t);
    assert Stop(jump, key, t + 1) == jump(j, Lcg(key, t + 1));
    if t < i {
      WalkFollowsStops(jump, key, j, t + 1, i, n);
    }
  }

  /** The bucket is the last of the stops below the number of buckets. */
  lemma BucketIsLastStop(jump: Jump, key: nat, i: nat, n: nat)
    requires Forward(jump) && n <= LIMIT && LastStopBelow(jump, key, i, n)
    ensures Bucket(jump, key, n) == Stop(jump, key, i)
  {
    assert Stop(jump, key, 0) < n;
    WalkFollowsStops(jump, key, -1, 0, i, n);
  }

  /** There always is one; no buckets give 0. */
  lemma SomeLastStop(jump: Jump, key: nat, n: nat) returns (i: nat)
    requires Forward(jump) && n <= LIMIT
    ensures if n == 0 then Bucket(jump, key, n) == 0 else LastStopBelow(jump, key, i, n)
  {
    i := 0;
    while n > 0 && Stop(jump, key, i + 1) < n
      invariant n > 0 ==> forall t :: 0 <= t <= i ==> Stop(jump, key, t) < n
      decreases n - Stop(jump, key, i)
    {
      assert Stop(jump, key, i + 1) == jump(Stop(jump, key, i), Lcg(key, i + 1)) > Stop(jump, key, i);
      i := i + 1;
    }
  }

  // ---------- the floating-point jump ----------

  /** A number float64 holds exactly: an integer of at most 53 bits, shifted left or right. */
  ghost predicate Representable(x: real, m: nat, e: int)
  {
    m <= Pow2(53) && -1074 <= e <= 970 &&
    if e >= 0 then x == (m * Pow2(e)) as real else x * Pow2(-e) as real == m as real
  }

  /** What round-to-nearest does (section 4.3.1 of IEEE 754-2008), on the numbers met here. */
  ghost predicate Rounding(round: real -> real)
  {
    && (forall x, y :: x <= y ==> round(x) <= round(y))
    && (forall x, m, e :: Representable(x, m, e) ==> round(x) == x)
  }

  lemma Exact(round: real -> real, m: nat, e: nat)
    requires Rounding(round) && m <= Pow2(53) && e <= 970
    ensures round((m * Pow2(e)) as real) == (m * Pow2(e)) as real
  {
    assert Representable((m * Pow2(e)) as real, m, e);
  }

  function Quotient(k: nat): real
  {
    2147483648.0 / ((Shr(k, 33) + 1) as real)
  }

  function FloatJump(round: real -> real): Jump
  {
    (b: nat, k: nat) =>
      var j := round((b + 1) as real * round(Quotient(k))).Floor;
      if j < 0 then 0 else j
  }

  /** The quotient is between 1 and 2^31, so its rounding is too. */
  lemma QuotientRange(round: real -> real, k: nat)
    requires Rounding(round) && k < WORD
    ensures 1.0 <= round(Quotient(k)) <= 2147483648.0
  {
    Pow2Values();
    ShrBound(k, 33, 31);
    var d := (Shr(k, 33) + 1) as real;
    assert 1.0 <= d <= 2147483648.0;
    DivisionRange(2147483648.0, d);
    Exact(round, 1, 0);
    Exact(round, 0x8000_0000, 0);
  }

  lemma DivisionRange(a: real, d: real)
    requires 1.0 <= d <= a
    ensures 1.0 <= a / d <= a
  {
    var q := a / d;
    assert q * d == a;
    if q < 1.0 {
      MulAbove(1.0 - q, d);
    } else if q > a {
      MulAbove(q - a, d);
      TimesAtLeastOne(a, d);
    }
  }

  lemma MulAbove(x: real, d: real)
    requires 0.0 < x && 1.0 <= d
    ensures x * d > 0.0
  {
  }

  /** Whatever the rounding, the jump goes forward, so the loop ends and movement is minimal. */
  lemma {:induction false} FloatJumpIsForward(round: real -> real)
    requires Rounding(round)
    ensures Forward(FloatJump(round))
  {
    forall b: nat, k: nat | b < LIMIT && k < WORD
      ensures FloatJump(round)(b, k) > b
    {
      FloatJumpGrows(round, b, k);
    }
  }

  lemma FloatJumpGrows(round: real -> real, b: nat, k: nat)
    requires Rounding(round) && b < LIMIT && k < WORD
    ensures FloatJump(round)(b, k) > b
  {
    hide Quotient, Pow2, Representable;
    QuotientRange(round, k);
    var q := round(Quotient(k));
    var x := (b + 1) as real;
    TimesAtLeastOne(x, q);
    Pow2Values();
    RoundAtLeast(round, b + 1, x * q);
  }

  lemma TimesAtLeastOne(x: real, q: real)
    requires 0.0 <= x && 1.0 <= q
    ensures x * q >= x
  {
    assert x * (q - 1.0) >= 0.0;
  }

  /** Every natural number is at or above a representable one that suffices: by monotonicity. */
  lemma RoundAtLeast(round: real -> real, n: nat, x: real)
    requires Rounding(round) && n as real <= x && n <= Pow2(53)
    ensures round(x).Floor >= n
  {
    Exact(round, n, 0);
    assert n * Pow2(0) == n;
  }

  /** For a uint32 bucket count no jump leaves int64. */
  lemma JumpFitsInt64(round: real -> real, b: nat, k: nat)
    requires Rounding(round) && b + 1 < 0x1_0000_0000 && k < WORD
    ensures FloatJump(round)(b, k) < 0x8000_0000_0000_0000
  {
    hide Quotient, Pow2, Representable;
    QuotientRange(round, k);
    var q := round(Quotient(k));
    var x := (b + 1) as real;
    ProductAtMost(x, q, 4294967295.0, 2147483648.0);
    RoundAtMost(round, x * q);
  }

  lemma RoundAtMost(round: real -> real, x: real)
    requires Rounding(round) && x <= 4294967295.0 * 2147483648.0
    ensures round(x) <= 9223372034707292160.0
  {
    hide Pow2, Representable;
    Pow2Values();
    Exact(round, 0xFFFF_FFFF, 31);
  }

  lemma ProductAtMost(x: real, q: real, x': real, q': real)
    requires 0.0 <= x <= x' && 0.0 <= q <= q'
    ensures x * q <= x' * q'
  {
    assert (x' - x) * q >= 0.0;
    assert x' * (q' - q) >= 0.0;
  }

  /** The source's loop. */
  method JumpHash(round: real -> real, key: nat, numBuckets: nat) returns (bucket: nat)
    requires Rounding(round) && numBuckets < 0x1_0000_0000
    ensures Forward(FloatJump(round))
    ensures bucket == Bucket(FloatJump(round), key, numBuckets)
    ensures numBuckets > 0 ==> bucket < numBuckets
  {
    FloatJumpIsForward(round);
    if numBuckets == 0 {
      return 0;
    }
    ghost var jump := FloatJump(round);
    MinimalMovement(jump, key, numBuckets, numBuckets);
    var b: int, j: int := -1, 0;
    var k := key;
    while j < numBuckets
      invariant -1 <= b < j < 0x8000_0000_0000_0000 && b < numBuckets
      invariant b == -1 ==> j == 0
      invariant Walk(jump, k, b, j, numBuckets) == Bucket(jump, key, numBuckets)
      decreases numBuckets - j
    {
      b := j;
      k := NextKey(k);
      JumpFitsInt64(round, b, k);
      FloatJumpGrows(round, b, k);
      j := FloatJump(round)(b, k);
    }
    bucket := b;
  }

  // ---------- known answers ----------

  /** n units of 2^-20. */
  function Units(n: nat): real
  {
    n as real / 1048576.0
  }

  lemma UnitsOrdered(m: nat, n: nat)
    requires m <= n
    ensures Units(m) <= Units(n) && (m < n ==> Units(m) < Units(n))
  {
  }

  lemma WholeUnits(n: nat)
    ensures Units(n * 1048576) == n as real
  {
  }

  lemma UnitsScaled(b: nat, a: nat)
    ensures b as real * Units(a) == Units(b * a)
  {
    assert b as real * a as real == (b * a) as real;
  }

  lemma ExactUnits(round: real -> real, m: nat)
    requires Rounding(round) && m <= 0x20_0000_0000_0000
    ensures round(Units(m)) == Units(m)
  {
    hide Pow2;
    Pow2Values();
    var x := Units(m);
    assert x * 1048576.0 == m as real;
    assert Representable(x, m, -20);
  }

  lemma TimesOrdered(x: real, p: real, q: real)
    requires 0.0 <= x && p <= q
    ensures x * p <= x * q
  {
    assert x * (q - p) >= 0.0;
  }

  lemma QuotientBetween(k: nat, a: nat)
    requires a * (Shr(k, 33) + 1) <= 2147483648 * 1048576 <= (a + 1) * (Shr(k, 33) + 1)
    ensures Units(a) <= Quotient(k) <= Units(a + 1)
  {
    hide Units, Shr;
    var d := Shr(k, 33) + 1;
    UnitsScaled(d, a);
    UnitsScaled(d, a + 1);
    UnitsOrdered(d * a, 2147483648 * 1048576);
    UnitsOrdered(2147483648 * 1048576, d * (a + 1));
    WholeUnits(2147483648);
    assert d as real * Quotient(k) == 2147483648.0;
    Divided(d as real, Units(a), Quotient(k));
    Divided(d as real, Quotient(k), Units(a + 1));
  }

  lemma Divided(y: real, p: real, q: real)
    requires y > 0.0
    ensures y * p <= y * q ==> p <= q
  {
    if p > q {
      assert y * (p - q) > 0.0;
    }
  }

  lemma ScaledBetween(b: nat, q: real, a: nat)
    requires Units(a) <= q <= Units(a + 1)
    ensures Units(b * a) <= b as real * q <= Units(b * (a + 1))
  {
    hide Units;
    TimesOrdered(b as real, Units(a), q);
    TimesOrdered(b as real, q, Units(a + 1));
    UnitsScaled(b, a);
    UnitsScaled(b, a + 1);
  }

  lemma RoundSettles(round: real -> real, p: real, lo: nat, hi: nat, j: nat)
    requires Rounding(round) && Units(lo) <= p <= Units(hi) && lo <= hi <= 0x20_0000_0000_0000
    requires j * 1048576 <= lo && hi < (j + 1) * 1048576
    ensures round(p).Floor == j
  {
    hide Representable, Units;
    UnitsOrdered(j * 1048576, lo);
    UnitsOrdered(hi, (j + 1) * 1048576);
    WholeUnits(j);
    WholeUnits(j + 1);
    ExactUnits(round, j * 1048576);
    ExactUnits(round, hi);
  }

  lemma RoundBetween(round: real -> real, p: real, a: nat)
    requires Rounding(round) && Units(a) <= p <= Units(a + 1) && a < 0x20_0000_0000_0000
    ensures Units(a) <= round(p) <= Units(a + 1)
  {
    hide Representable, Units;
    ExactUnits(round, a);
    ExactUnits(round, a + 1);
  }

  lemma ProductSettles(round: real -> real, n: nat, q: real, a: nat, j: nat)
    requires Rounding(round) && Units(a) <= q <= Units(a + 1)
    requires j * 1048576 <= n * a <= n * (a + 1) < (j + 1) * 1048576 <= 0x20_0000_0000_0000
    ensures round(n as real * q).Floor == j
  {
    hide Rounding, Units;
    ScaledBetween(n, q, a);
    RoundSettles(round, n as real * q, n * a, n * (a + 1), j);
  }

  lemma JumpSettles(round: real -> real, b: nat, k: nat, n: nat, q: real, a: nat, j: nat)
    requires Rounding(round) && n == b + 1 && q == round(Quotient(k)) && Units(a) <= q <= Units(a + 1)
    requires j * 1048576 <= n * a <= n * (a + 1) < (j + 1) * 1048576 <= 0x20_0000_0000_0000
    ensures FloatJump(round)(b, k) == j
  {
    hide Quotient, Representable, Units;
    ProductSettles(round, n, q, a, j);
    var x := (b + 1) as real;
    assert x == n as real;
    assert round(x * q) == round(n as real * q);
  }

  /** The jump, where the quotient is between a and a + 1 units and that settles it. */
  lemma JumpIs(round: real -> real, b: nat, k: nat, a: nat, n: nat, j: nat)
    requires Rounding(round) && a < 0x20_0000_0000_0000 && n == b + 1
    requires a * (Shr(k, 33) + 1) <= 2147483648 * 1048576 <= (a + 1) * (Shr(k, 33) + 1)
    requires j * 1048576 <= n * a <= n * (a + 1) < (j + 1) * 1048576 <= 0x20_0000_0000_0000
    ensures FloatJump(round)(b, k) == j
  {
    hide Shr, Rounding, Units, Quotient, FloatJump;
    QuotientBetween(k, a);
    RoundBetween(round, Quotient(k), a);
    JumpSettles(round, b, k, n, round(Quotient(k)), a, j);
  }

  /** 0xDEADBEEF stops at 0, 1, 2, 3, 5, 16 and 87, for every rounding. */
  lemma KnownStops(round: real -> real)
    requires Rounding(round)
    ensures
      var jump, key := FloatJump(round), 0xDEADBEEF;
      && Stop(jump, key, 0) == 0 && Stop(jump, key, 1) == 1 && Stop(jump, key, 2) == 2
      && Stop(jump, key, 3) == 3 && Stop(jump, key, 4) == 5 && Stop(jump, key, 5) == 16
      && Stop(jump, key, 6) == 87
  {
    hide FloatJump, Shr, Representable, Lcg;
    KnownStates();
    KnownShifts();
    JumpIs(round, 0, 0xa004cdd0d24a0234, 1677524, 1, 1);
    JumpIs(round, 1, 0xd393e4b5a467ed65, 1268732, 2, 2);
    JumpIs(round, 2, 0xfac82cec665b0cd2, 1070393, 3, 3);
    JumpIs(round, 3, 0xb0b88f074f2c0b8b, 1518979, 4, 5);
    JumpIs(round, 5, 0x5faf61e7c306f860, 2805405, 6, 16);
    JumpIs(round, 16, 0x31d64025eaa576e1, 5386277, 17, 87);
  }

  lemma KnownStates()
    ensures Lcg(0xDEADBEEF, 1) == 0xa004cdd0d24a0234 && Lcg(0xDEADBEEF, 2) == 0xd393e4b5a467ed65
    ensures Lcg(0xDEADBEEF, 3) == 0xfac82cec665b0cd2 && Lcg(0xDEADBEEF, 4) == 0xb0b88f074f2c0b8b
    ensures Lcg(0xDEADBEEF, 5) == 0x5faf61e7c306f860 && Lcg(0xDEADBEEF, 6) == 0x31d64025eaa576e1
  {
    hide Lcg;
    LcgStart(0xDEADBEEF);
    Advance(0xDEADBEEF, 0, 0x228f49cc, 0xa004cdd0d24a0234);
    Advance(0xDEADBEEF, 1, 0x18d5bc2e1db04c43, 0xd393e4b5a467ed65);
    Advance(0xDEADBEEF, 2, 0x20d63ba2d6d81160, 0xfac82cec665b0cd2);
    Advance(0xDEADBEEF, 3, 0x26ebdd02a11e20ef, 0xb0b88f074f2c0b8b);
    Advance(0xDEADBEEF, 4, 0x1b6d54fae495a836, 0x5faf61e7c306f860);
    Advance(0xDEADBEEF, 5, 0xed9ae8e80e2a88e, 0x31d64025eaa576e1);
  }

  lemma LcgStart(key: nat)
    ensures Lcg(key, 0) == key
  {
  }

  lemma LcgStep(key: nat, i: nat)
    ensures Lcg(key, i + 1) == (Lcg(key, i) * 2862933555777941757 + 1) % 0x1_0000_0000_0000_0000
  {
  }

  lemma Advance(key: nat, i: nat, q: nat, to: nat)
    ensures
      (Lcg(key, i) * 2862933555777941757 + 1 == q * 0x1_0000_0000_0000_0000 + to && to < 0x1_0000_0000_0000_0000)
      ==> Lcg(key, i + 1) == to
  {
    hide Lcg;
    LcgStep(key, i);
    if Lcg(key, i) * 2862933555777941757 + 1 == q * 0x1_0000_0000_0000_0000 + to && to < 0x1_0000_0000_0000_0000 {
      DivModUnique(Lcg(key, i) * 2862933555777941757 + 1, 0x1_0000_0000_0000_0000, q, to);
    }
  }

  lemma KnownShifts()
    ensures Shr(0xa004cdd0d24a0234, 33) == 0x500266e8 && Shr(0xd393e4b5a467ed65, 33) == 0x69c9f25a
    ensures Shr(0xfac82cec665b0cd2, 33) == 0x7d641676 && Shr(0xb0b88f074f2c0b8b, 33) == 0x585c4783
    ensures Shr(0x5faf61e7c306f860, 33) == 0x2fd7b0f3 && Shr(0x31d64025eaa576e1, 33) == 0x18eb2012
  {
    hide Shr;
    ShiftIs(0xa004cdd0d24a0234, 0x500266e8, 0xd24a0234);
    ShiftIs(0xd393e4b5a467ed65, 0x69c9f25a, 0x1a467ed65);
    ShiftIs(0xfac82cec665b0cd2, 0x7d641676, 0x665b0cd2);
    ShiftIs(0xb0b88f074f2c0b8b, 0x585c4783, 0x14f2c0b8b);
    ShiftIs(0x5faf61e7c306f860, 0x2fd7b0f3, 0x1c306f860);
    ShiftIs(0x31d64025eaa576e1, 0x18eb2012, 0x1eaa576e1);
  }

  lemma ShiftIs(k: nat, hi: nat, lo: nat)
    requires lo < 0x2_0000_0000 && k == hi * 0x2_0000_0000 + lo
    ensures Shr(k, 33) == hi
  {
    hide Pow2, Shr, Low;
    Pow2Values();
    ShrLowUnique(k, 33, hi, lo);
  }

  /** The golden vectors of 0xDEADBEEF: bucket 5 of 6 to 16, 16 of 17 to 87. */
  lemma KnownBuckets(round: real -> real, n: nat)
    requires Rounding(round) && 6 <= n <= 87
    ensures Forward(FloatJump(round))
    ensures Bucket(FloatJump(round), 0xDEADBEEF, n) == if n <= 16 then 5 else 16
  {
    hide FloatJump, Stop, Bucket, Forward;
    FloatJumpIsForward(round);
    KnownStops(round);
    BucketIsLastStop(FloatJump(round), 0xDEADBEEF, if n <= 16 then 4 else 5, n);
  }
}
