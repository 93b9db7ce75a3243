/** Powers of two, and the bitwise operators of unbounded non-negative integers. */
module Bits {
  function Pow2(n: nat): (p: nat)
    ensures p >= 1
  {
    if n == 0 then 1 else 2 * Pow2(n - 1)
  }

  lemma {:induction false} Pow2Monotone(a: nat, b: nat)
    requires a <= b
    ensures Pow2(a) <= Pow2(b)
    decreases b
  {
    if a < b {
      Pow2Monotone(a, b - 1);
    }
  }

  lemma {:induction false} Pow2Add(a: nat, b: nat)
    ensures Pow2(a + b) == Pow2(a) * Pow2(b)
  {
    if a > 0 {
      Pow2Add(a - 1, b);
      MulAssoc(2, Pow2(a - 1), Pow2(b));
    }
  }

  lemma Pow2Next(n: nat)
    ensures Pow2(0) == 1 && Pow2(n + 1) == 2 * Pow2(n)
  {
  }

  lemma Pow2Values()
    ensures Pow2(8) == 0x100 && Pow2(20) == 0x10_0000 && Pow2(31) == 0x8000_0000 && Pow2(32) == 0x1_0000_0000
    ensures Pow2(33) == 0x2_0000_0000 && Pow2(53) == 0x20_0000_0000_0000 && Pow2(64) == 0x1_0000_0000_0000_0000
  {
    hide Pow2;
    Pow2Next(0);
    Pow2Add(1, 1);
    Pow2Add(2, 2);
    Pow2Add(4, 4);
    Pow2Add(8, 8);
    Pow2Add(16, 16);
    Pow2Next(31);
    Pow2Next(32);
    Pow2Add(16, 4);
    Pow2Add(33, 20);
    Pow2Add(32, 32);
  }

  lemma MulAssoc(a: int, b: int, c: int)
    ensures a * (b * c) == (a * b) * c
  {
  }

  lemma MulMonotone(a: int, b: int, c: int)
    requires a <= b && 0 <= c
    ensures a * c <= b * c
  {
  }

  lemma MulSucc(q: int, d: int)
    ensures (q + 1) * d == q * d + d
  {
  }

  lemma DivModUnique(a: int, d: int, q: int, r: int)
    requires 0 <= r < d && a == q * d + r
    ensures a / d == q && a % d == r
  {
    var q', r' := a / d, a % d;
    assert a == q' * d + r';
    if q' > q {
      MulMonotone(q + 1, q', d);
      MulSucc(q, d);
    } else if q' < q {
      MulMonotone(q' + 1, q, d);
      MulSucc(q', d);
    }
  }

  function BitOr(a: nat, b: nat): nat
    decreases a + b
  {
    if a == 0 then b else if b == 0 then a
    else (if a % 2 == 1 || b % 2 == 1 then 1 else 0) + 2 * BitOr(a / 2, b / 2)
  }

  function BitXor(a: nat, b: nat): nat
    decreases a + b
  {
    if a == 0 then b else if b == 0 then a
    else (if a % 2 != b % 2 then 1 else 0) + 2 * BitXor(a / 2, b / 2)
  }

  /** Or-ing in bits below a multiple of 2^n is adding them. */
  lemma {:induction false} OrBelow(a: nat, n: nat, b: nat)
    requires b < Pow2(n)
    ensures BitOr(a * Pow2(n), b) == a * Pow2(n) + b
  {
    if n > 0 && a > 0 && b > 0 {
      var p := Pow2(n - 1);
      MulAssoc(2, a, p);
      MulAssoc(a, 2, p);
      assert a * Pow2(n) == 2 * (a * p);
      assert (a * Pow2(n)) / 2 == a * p;
      OrBelow(a, n - 1, b / 2);
      assert a * Pow2(n) != 0;
    } else if a == 0 {
      assert 0 * Pow2(n) == 0;
    }
  }

  lemma {:induction false} XorCommutes(a: nat, b: nat)
    ensures BitXor(a, b) == BitXor(b, a)
    decreases a + b
  {
    if a > 0 && b > 0 {
      XorCommutes(a / 2, b / 2);
    }
  }

  lemma {:induction false} XorBound(a: nat, b: nat, n: nat)
    requires a < Pow2(n) && b < Pow2(n)
    ensures BitXor(a, b) < Pow2(n)
  {
    if a > 0 && b > 0 {
      XorBound(a / 2, b / 2, n - 1);
    }
  }

  lemma XorStep(a: nat, b: nat)
    ensures BitXor(a, b) % 2 == if a % 2 != b % 2 then 1 else 0
    ensures BitXor(a, b) / 2 == BitXor(a / 2, b / 2)
  {
    if a > 0 && b > 0 {
      BitOnTop(if a % 2 != b % 2 then 1 else 0, BitXor(a / 2, b / 2));
    }
  }

  lemma OrStep(a: nat, b: nat)
    ensures BitOr(a, b) % 2 == if a % 2 == 1 || b % 2 == 1 then 1 else 0
    ensures BitOr(a, b) / 2 == BitOr(a / 2, b / 2)
  {
    if a > 0 && b > 0 {
      BitOnTop(if a % 2 == 1 || b % 2 == 1 then 1 else 0, BitOr(a / 2, b / 2));
    }
  }

  /** Bit by bit: or, and exclusive or. */
  lemma {:induction false} BitByBit(a: nat, b: nat, k: nat)
    ensures Shr(BitOr(a, b), k) % 2 == 1 <==> Shr(a, k) % 2 == 1 || Shr(b, k) % 2 == 1
    ensures Shr(BitXor(a, b), k) % 2 == 1 <==> (Shr(a, k) % 2 == 1) != (Shr(b, k) % 2 == 1)
  {
    hide BitOr, BitXor;
    OrStep(a, b);
    XorStep(a, b);
    if k > 0 {
      BitByBit(a / 2, b / 2, k - 1);
    }
  }

  lemma BitOnTop(bit: int, x: int)
    requires bit == 0 || bit == 1
    ensures (bit + 2 * x) % 2 == bit && (bit + 2 * x) / 2 == x
  {
  }

  lemma {:induction false} XorCancel(a: nat, b: nat)
    ensures BitXor(BitXor(a, b), b) == a
    decreases a + b
  {
    if a + b > 0 {
      XorStep(a, b);
      XorStep(BitXor(a, b), b);
      XorCancel(a / 2, b / 2);
    }
  }

  // ---------- shifts and masks ----------

  /** a >> n */
  function Shr(a: nat, n: nat): nat
  {
    if n == 0 then a else Shr(a / 2, n - 1)
  }

  /** The n low bits of a. */
  function Low(a: nat, n: nat): (r: nat)
    ensures r < Pow2(n)
  {
    if n == 0 then 0 else a % 2 + 2 * Low(a / 2, n - 1)
  }

  lemma {:induction false} ShrLow(a: nat, n: nat)
    ensures a == Shr(a, n) * Pow2(n) + Low(a, n)
  {
    if n > 0 {
      ShrLow(a / 2, n - 1);
      MulAssoc(Shr(a, n), 2, Pow2(n - 1));
      MulAssoc(2, Shr(a, n), Pow2(n - 1));
    }
  }

  /** The only way to split a number at bit n. */
  lemma {:induction false} ShrLowUnique(a: nat, n: nat, hi: nat, lo: nat)
    requires lo < Pow2(n) && a == hi * Pow2(n) + lo
    ensures Shr(a, n) == hi && Low(a, n) == lo
  {
    if n > 0 {
      MulAssoc(hi, 2, Pow2(n - 1));
      MulAssoc(2, hi, Pow2(n - 1));
      assert a == 2 * (hi * Pow2(n - 1)) + lo;
      assert a / 2 == hi * Pow2(n - 1) + lo / 2;
      ShrLowUnique(a / 2, n - 1, hi, lo / 2);
    }
  }

  lemma ShrBound(a: nat, n: nat, k: nat)
    requires a < Pow2(n + k)
    ensures Shr(a, n) < Pow2(k)
  {
    hide Pow2, Shr, Low;
    ShrLow(a, n);
    Pow2Add(n, k);
    if Shr(a, n) >= Pow2(k) {
      MulMonotone(Pow2(k), Shr(a, n), Pow2(n));
    }
  }

  lemma {:induction false} ShrShr(a: nat, m: nat, n: nat)
    ensures Shr(Shr(a, m), n) == Shr(a, m + n)
  {
    if m > 0 {
      ShrShr(a / 2, m - 1, n);
    }
  }

  /** Exclusive or works on the high and the low part of a word separately. */
  lemma {:induction false} XorSplit(a: nat, b: nat, n: nat)
    ensures Shr(BitXor(a, b), n) == BitXor(Shr(a, n), Shr(b, n))
    ensures Low(BitXor(a, b), n) == BitXor(Low(a, n), Low(b, n))
  {
    if n > 0 {
      XorStep(a, b);
      XorSplit(a / 2, b / 2, n - 1);
      assert Low(BitXor(a, b), n) == BitXor(a, b) % 2 + 2 * Low(BitXor(a, b) / 2, n - 1);
      LowXorStep(a, b, n);
    }
  }

  lemma LowHalves(a: nat, n: nat)
    requires n > 0
    ensures Low(a, n) % 2 == a % 2 && Low(a, n) / 2 == Low(a / 2, n - 1)
  {
  }

  lemma LowXorStep(a: nat, b: nat, n: nat)
    requires n > 0
    ensures BitXor(Low(a, n), Low(b, n)) ==
            (if a % 2 != b % 2 then 1 else 0) + 2 * BitXor(Low(a / 2, n - 1), Low(b / 2, n - 1))
  {
    var x, y := Low(a, n), Low(b, n);
    XorStep(x, y);
    LowHalves(a, n);
    LowHalves(b, n);
    var z := BitXor(x, y);
    assert z == z % 2 + 2 * (z / 2);
  }
}
