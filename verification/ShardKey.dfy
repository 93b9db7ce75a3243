/**
 The 128-to-64-bit shard key (src/clients/go/pkg/types/geo_sharding.go) and the routing of an
 entity to a shard.
 */
module ShardKey {
  import opened Bits
  import opened Bytes
  import opened JumpHash

  const C1: nat := 0xff51afd7ed558ccd
  const C2: nat := 0xc4ceb9fe1a85ec53

  // ---------- one round: shift-xor and multiply ----------

  /** h ^ (h >> 33) */
  function ShiftXor(h: nat): nat
  {
    BitXor(h, Shr(h, 33))
  }

  function Times(h: nat, c: nat): (r: nat)
    ensures r < WORD
  {
    (h * c) % WORD
  }

  /** Murmur-style finalisation of one 64-bit half. */
  function Mix(h: nat): nat
  {
    ShiftXor(Times(ShiftXor(Times(ShiftXor(h), C1)), C2))
  }

  /** Undoes Mix, with the inverses of C1 and C2 modulo 2^64. */
  function Unmix(k: nat): nat
  {
    ShiftXor(Times(ShiftXor(Times(ShiftXor(k), 0x9cb4b2f8129337db)), 0x4f74430c22a54005))
  }

  function Key(lo: nat, hi: nat): nat
  {
    BitXor(Mix(lo), Mix(hi))
  }

  /** Shifting by more than half the word makes shift-xor its own inverse. */
  lemma ShiftXorTwice(h: nat)
    requires h < WORD
    ensures ShiftXor(h) < WORD && ShiftXor(ShiftXor(h)) == h
  {
    Pow2Values();
    var top := Shr(h, 33);
    ShrBound(h, 33, 31);
    Pow2Monotone(31, 64);
    XorBound(h, top, 64);
    XorSplit(h, top, 33);
    NothingAbove(top, 33);
    assert Shr(ShiftXor(h), 33) == BitXor(top, 0) == top;
    XorCancel(h, top);
  }

  /** Its top 31 bits stay; the low 33 are xor-ed with the bits 33 places up. */
  lemma ShiftXorBits(h: nat)
    requires h < 0x1_0000_0000_0000_0000
    ensures Shr(ShiftXor(h), 31) == Shr(h, 31)
    ensures Low(ShiftXor(h), 31) == BitXor(Low(h, 31), Shr(h, 33))
  {
    Pow2Values();
    var top := Shr(h, 33);
    ShrBound(h, 33, 31);
    XorSplit(h, top, 31);
    NothingAbove(top, 31);
    ShrLowUnique(top, 31, 0, top);
  }

  lemma NothingAbove(a: nat, n: nat)
    requires a < Pow2(31) && 31 <= n
    ensures Shr(a, n) == 0
  {
    Pow2Monotone(31, n);
    assert a == 0 * Pow2(n) + a;
    ShrLowUnique(a, n, 0, a);
  }

  /** Multiplying by a unit modulo 2^64 is undone by multiplying by its inverse. */
  lemma {:induction false} TimesInverse(h: nat, c: nat, inv: nat, q: nat)
    requires h < WORD && c * inv == q * WORD + 1
    ensures Times(Times(h, c), inv) == h
  {
    var t := (h * c) / WORD;
    var r := Times(h, c);
    assert h * c == t * WORD + r;
    Regroup(h, c, inv, t, r, q);
    DivModUnique(r * inv, WORD, h * q - t * inv, h);
  }

  lemma Regroup(h: nat, c: nat, inv: nat, t: nat, r: nat, q: nat)
    requires c * inv == q * WORD + 1 && h * c == t * WORD + r
    ensures r * inv == (h * q - t * inv) * WORD + h
  {
    MulAssoc(h, c, inv);
    assert h * (c * inv) == h * (q * WORD) + h;
    MulAssoc(h, q, WORD);
    assert (t * WORD + r) * inv == (t * WORD) * inv + r * inv;
    assert (t * WORD) * inv == (t * inv) * WORD;
    assert (h * q - t * inv) * WORD == (h * q) * WORD - (t * inv) * WORD;
  }

  lemma {:induction false} MixInverse(h: nat)
    requires h < WORD
    ensures Mix(h) < WORD && Unmix(Mix(h)) == h
  {
    var a := ShiftXor(h);
    ShiftXorTwice(h);
    var b := Times(a, C1);
    TimesInverse(a, C1, 0x4f74430c22a54005, 5710046619856821070);
    var c := ShiftXor(b);
    ShiftXorTwice(b);
    var d := Times(c, C2);
    TimesInverse(c, C2, 0x9cb4b2f8129337db, 8680939279959119233);
    ShiftXorTwice(d);
  }

  lemma {:induction false} UnmixInverse(k: nat)
    requires k < WORD
    ensures Unmix(k) < WORD && Mix(Unmix(k)) == k
  {
    var a := ShiftXor(k);
    ShiftXorTwice(k);
    var b := Times(a, 0x9cb4b2f8129337db);
    TimesInverse(a, 0x9cb4b2f8129337db, C2, 8680939279959119233);
    var c := ShiftXor(b);
    ShiftXorTwice(b);
    var d := Times(c, 0x4f74430c22a54005);
    TimesInverse(c, 0x4f74430c22a54005, C1, 5710046619856821070);
    ShiftXorTwice(d);
  }

  // ---------- the key ----------

  lemma KeyBound(lo: nat, hi: nat)
    requires lo < WORD && hi < WORD
    ensures Key(lo, hi) < WORD
  {
    MixInverse(lo);
    MixInverse(hi);
    Pow2Values();
    XorBound(Mix(lo), Mix(hi), 64);
  }

  lemma KeySymmetric(lo: nat, hi: nat)
    ensures Key(lo, hi) == Key(hi, lo)
  {
    XorCommutes(Mix(lo), Mix(hi));
  }

  /**
   For a fixed high half, every 64-bit key comes from exactly one low half; and likewise with
   the halves exchanged. So no two ids that share a half collide.
   */
  lemma {:induction false} KeyIsBijective(half: nat, key: nat)
    requires half < WORD && key < WORD
    ensures
      var other := Unmix(BitXor(key, Mix(half)));
      && other < WORD
      && (forall x: nat :: x < WORD ==> (Key(x, half) == key <==> x == other))
      && (forall x: nat :: x < WORD ==> (Key(half, x) == key <==> x == other))
  {
    MixInverse(half);
    Pow2Values();
    var mixed := BitXor(key, Mix(half));
    XorBound(key, Mix(half), 64);
    UnmixInverse(mixed);
    var other := Unmix(mixed);
    XorCancel(key, Mix(half));
    forall x: nat | x < WORD
      ensures Key(x, half) == key <==> x == other
      ensures Key(half, x) == key <==> x == other
    {
      KeySymmetric(half, x);
      if Key(x, half) == key {
        XorCancel(Mix(x), Mix(half));
        MixInverse(x);
      }
    }
  }

  /** The published test vector of entity 1: it fixes the constants and their order. */
  lemma KnownKey()
    ensures Key(1, 0) == 0xB456BCFC34C2CB2C
  {
    hide ShiftXor, Mix;
    KnownSteps();
    MixOfOne();
    MixSteps(0);
    XorWithZero(Mix(1));
  }

  lemma MixOfOne()
    ensures Mix(1) == 0xb456bcfc34c2cb2c
  {
    hide ShiftXor, Mix;
    KnownSteps();
    TimesIs(1, C1, 0, 0xff51afd7ed558ccd);
    TimesIs(0xff51afd792fd5b26, C2, 0xc448b7dc01955fc3, 0xb456bcfc6ee99552);
    MixSteps(1);
  }

  lemma MixSteps(h: nat)
    ensures Mix(h) == ShiftXor(Times(ShiftXor(Times(ShiftXor(h), 0xff51afd7ed558ccd)), 0xc4ceb9fe1a85ec53))
  {
  }

  lemma TimesIs(h: nat, c: nat, q: nat, r: nat)
    ensures r < WORD && h * c == q * WORD + r ==> Times(h, c) == r
  {
    if r < WORD && h * c == q * WORD + r {
      DivModUnique(h * c, WORD, q, r);
    }
  }

  lemma XorWithZero(a: nat)
    ensures BitXor(a, 0) == a
  {
  }

  /** Exclusive or, one more bit at the low end. */
  lemma XorBit(a: nat, b: nat, u: nat, v: nat, r: nat)
    requires u < 2 && v < 2 && BitXor(a, b) == r
    ensures BitXor(2 * a + u, 2 * b + v) == 2 * r + (if u == v then 0 else 1)
  {
    hide BitXor;
    var z := BitXor(2 * a + u, 2 * b + v);
    XorStep(2 * a + u, 2 * b + v);
    assert z == 2 * (z / 2) + z % 2;
  }

  /** One more hexadecimal digit, given by its bits. */
  lemma XorDigit(a: nat, b: nat, r: nat, t: nat, u: nat, v: nat, w: nat, t': nat, u': nat, v': nat, w': nat)
    requires t < 2 && u < 2 && v < 2 && w < 2 && t' < 2 && u' < 2 && v' < 2 && w' < 2
    requires BitXor(a, b) == r
    ensures BitXor(16 * a + 8 * t + 4 * u + 2 * v + w, 16 * b + 8 * t' + 4 * u' + 2 * v' + w') ==
      16 * r + (if t == t' then 0 else 8) + (if u == u' then 0 else 4)
      + (if v == v' then 0 else 2) + (if w == w' then 0 else 1)
  {
    hide BitXor;
    XorBit(a, b, t, t', r);
    XorBit(2 * a + t, 2 * b + t', u, u', BitXor(2 * a + t, 2 * b + t'));
    var c, d := 4 * a + 2 * t + u, 4 * b + 2 * t' + u';
    XorBit(c, d, v, v', BitXor(c, d));
    XorBit(2 * c + v, 2 * d + v', w, w', BitXor(2 * c + v, 2 * d + v'));
  }

  /** Shift-xor of a number known above and below bit 33. */
  lemma ShiftXorOf(h: nat, hi: nat, lo: nat, e: nat)
    requires h == hi * 0x2_0000_0000 + lo && lo < 0x2_0000_0000 && BitXor(h, hi) == e
    ensures ShiftXor(h) == e
  {
    hide BitXor, Shr;
    ShiftIs(h, hi, lo);
  }

  lemma KnownSteps()
    ensures ShiftXor(0) == 0 && ShiftXor(1) == 1
    ensures ShiftXor(0xff51afd7ed558ccd) == 0xff51afd792fd5b26
    ensures ShiftXor(0xb456bcfc6ee99552) == 0xb456bcfc34c2cb2c
  {
    hide ShiftXor;
    XorWithZero(0);
    XorWithZero(1);
    ShiftXorOf(0, 0, 0, 0);
    ShiftXorOf(1, 0, 1, 1);
    KnownStep2();
    KnownStep3();
  }

  lemma KnownStep2()
    ensures ShiftXor(0xff51afd7ed558ccd) == 0xff51afd792fd5b26
  {
    hide BitXor, ShiftXor;
    XorWithZero(0xff51afd7);
    XorDigit(0xff51afd7, 0x0, 0xff51afd7, 1, 1, 1, 0, 0, 1, 1, 1);
    XorDigit(0xff51afd7e, 0x7, 0xff51afd79, 1, 1, 0, 1, 1, 1, 1, 1);
    XorDigit(0xff51afd7ed, 0x7f, 0xff51afd792, 0, 1, 0, 1, 1, 0, 1, 0);
    XorDigit(0xff51afd7ed5, 0x7fa, 0xff51afd792f, 0, 1, 0, 1, 1, 0, 0, 0);
    XorDigit(0xff51afd7ed55, 0x7fa8, 0xff51afd792fd, 1, 0, 0, 0, 1, 1, 0, 1);
    XorDigit(0xff51afd7ed558, 0x7fa8d, 0xff51afd792fd5, 1, 1, 0, 0, 0, 1, 1, 1);
    XorDigit(0xff51afd7ed558c, 0x7fa8d7, 0xff51afd792fd5b, 1, 1, 0, 0, 1, 1, 1, 0);
    XorDigit(0xff51afd7ed558cc, 0x7fa8d7e, 0xff51afd792fd5b2, 1, 1, 0, 1, 1, 0, 1, 1);
    ShiftXorOf(0xff51afd7ed558ccd, 0x7fa8d7eb, 0x1ed558ccd, 0xff51afd792fd5b26);
  }

  lemma KnownStep3()
    ensures ShiftXor(0xb456bcfc6ee99552) == 0xb456bcfc34c2cb2c
  {
    hide BitXor, ShiftXor;
    XorWithZero(0xb456bcfc);
    XorDigit(0xb456bcfc, 0x0, 0xb456bcfc, 0, 1, 1, 0, 0, 1, 0, 1);
    XorDigit(0xb456bcfc6, 0x5, 0xb456bcfc3, 1, 1, 1, 0, 1, 0, 1, 0);
    XorDigit(0xb456bcfc6e, 0x5a, 0xb456bcfc34, 1, 1, 1, 0, 0, 0, 1, 0);
    XorDigit(0xb456bcfc6ee, 0x5a2, 0xb456bcfc34c, 1, 0, 0, 1, 1, 0, 1, 1);
    XorDigit(0xb456bcfc6ee9, 0x5a2b, 0xb456bcfc34c2, 1, 0, 0, 1, 0, 1, 0, 1);
    XorDigit(0xb456bcfc6ee99, 0x5a2b5, 0xb456bcfc34c2c, 0, 1, 0, 1, 1, 1, 1, 0);
    XorDigit(0xb456bcfc6ee995, 0x5a2b5e, 0xb456bcfc34c2cb, 0, 1, 0, 1, 0, 1, 1, 1);
    XorDigit(0xb456bcfc6ee9955, 0x5a2b5e7, 0xb456bcfc34c2cb2, 0, 0, 1, 0, 1, 1, 1, 0);
    ShiftXorOf(0xb456bcfc6ee99552, 0x5a2b5e7e, 0x6ee99552, 0xb456bcfc34c2cb2c);
  }

  /** Bijectivity in each half is all there is: ids with equal halves share one key. */
  lemma EqualHalvesCollide(lo: nat, hi: nat)
    ensures Key(lo, lo) == Key(hi, hi) == 0
  {
    XorCancel(0, Mix(lo));
    XorCancel(0, Mix(hi));
    assert BitXor(0, Mix(lo)) == Mix(lo) && BitXor(0, Mix(hi)) == Mix(hi);
  }

  method ComputeShardKey(entityId: seq<Byte>) returns (key: nat)
    requires |entityId| == 16
    ensures key == Key(LeValue(entityId[..8]), LeValue(entityId[8..]))
    ensures key < WORD
  {
    Pow256Values();
    LeValueBound(entityId[..8]);
    LeValueBound(entityId[8..]);
    KeyBound(LeValue(entityId[..8]), LeValue(entityId[8..]));

    var h1 := LeValue(entityId[..8]);
    var h2 := LeValue(entityId[8..]);

    h1 := BitXor(h1, Shr(h1, 33));
    h1 := Times(h1, C1);
    h1 := BitXor(h1, Shr(h1, 33));
    h1 := Times(h1, C2);
    h1 := BitXor(h1, Shr(h1, 33));

    h2 := BitXor(h2, Shr(h2, 33));
    h2 := Times(h2, C1);
    h2 := BitXor(h2, Shr(h2, 33));
    h2 := Times(h2, C2);
    h2 := BitXor(h2, Shr(h2, 33));

    key := BitXor(h1, h2);
  }

  // ---------- routing ----------

  function Shard(round: real -> real, entityId: seq<Byte>, shards: nat): int
    requires Forward(FloatJump(round)) && shards <= LIMIT && |entityId| == 16
  {
    Bucket(FloatJump(round), Key(LeValue(entityId[..8]), LeValue(entityId[8..])), shards)
  }

  method GetShardForEntity(round: real -> real, entityId: seq<Byte>, shards: nat) returns (shard: nat)
    requires Rounding(round) && |entityId| == 16 && shards < 0x1_0000_0000
    ensures Forward(FloatJump(round)) && shard == Shard(round, entityId, shards)
    ensures shards > 0 ==> shard < shards
  {
    var key := ComputeShardKey(entityId);
    shard := JumpHash.JumpHash(round, key, shards);
  }

  /** Growing a cluster moves an entity only onto an added shard; all others keep theirs. */
  lemma ReshardingMovesToNewShards(round: real -> real, entityId: seq<Byte>, before: nat, after: nat)
    requires Rounding(round) && |entityId| == 16 && 1 <= before <= after < 0x1_0000_0000
    ensures Forward(FloatJump(round))
    ensures Shard(round, entityId, before) != Shard(round, entityId, after)
            <==> Shard(round, entityId, after) >= before
  {
    FloatJumpIsForward(round);
    MinimalMovement(FloatJump(round), Key(LeValue(entityId[..8]), LeValue(entityId[8..])), before, after);
  }
}
