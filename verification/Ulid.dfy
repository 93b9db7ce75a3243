/**
 Monotone 128-bit ids: the Go generator (src/clients/go/pkg/types/main.go, 64/16-bit carry) and
 the Node.js one (src/clients/node/src/index.ts, 32/32/16-bit carry) are the same counter.
 The clock reading in milliseconds and the random bytes are parameters.
 */
module Ulid {
  import opened Wrappers
  import opened Bits
  import opened Bytes
  import opened Buffers

  const RANDOMS: nat := 0x1_0000_0000_0000_0000_0000
  const TIMES: nat := 0x1_0000_0000_0000

  datatype Overflow = Overflow

  // ---------- the common behaviour ----------

  /** The last timestamp used and the 80-bit number last issued with it. */
  datatype Memory = Memory(time: int, random: nat)

  datatype Reading = Reading(clock: int, random: nat)

  /** A clock that stalls or goes back keeps the last time; a new millisecond draws a new number. */
  function Refreshed(m: Memory, r: Reading): Memory
  {
    if r.clock <= m.time then m else Memory(r.clock, r.random)
  }

  function Next(m: Memory, r: Reading): Memory
  {
    var f := Refreshed(m, r);
    if f.random + 1 == RANDOMS then f else f.(random := f.random + 1)
  }

  /** 48 bits of time above 80 random bits. */
  function Issued(m: Memory, r: Reading): Result<nat, Overflow>
    requires m.time >= 0
  {
    var f := Refreshed(m, r);
    if f.random + 1 == RANDOMS then Err(Overflow)
    else Ok((f.time % TIMES) * RANDOMS + f.random + 1)
  }

  // ---------- the Go generator ----------

  class GoGenerator {
    var lastTimestamp: int
    var lastRandom: array<Byte>

    ghost predicate Valid()
      reads this
    {
      lastTimestamp >= 0 && lastRandom.Length == 10
    }

    ghost function Abstract(): Memory
      requires Valid()
      reads this, lastRandom
    {
      Memory(lastTimestamp, LeValue(lastRandom[..]))
    }

    constructor ()
      ensures Valid() && fresh(lastRandom) && Abstract() == Memory(0, 0)
    {
      lastTimestamp := 0;
      lastRandom := new Byte[10](_ => 0);
      new;
      ZerosValue(10);
      assert lastRandom[..] == Zeros(10);
    }

    method ID(clock: int, random: seq<Byte>) returns (r: Result<seq<Byte>, Overflow>)
      requires Valid() && |random| == 10
      modifies this`lastTimestamp, lastRandom
      ensures Valid()
      ensures Abstract() == Next(old(Abstract()), Reading(clock, LeValue(random)))
      ensures
        var spec := Issued(old(Abstract()), Reading(clock, LeValue(random)));
        if spec.Err? then r == Err(Overflow)
        else r.Ok? && |r.value| == 16 && LeValue(r.value) == spec.value
    {
      hide LeBytes, LeValue, BeBytes, Pow256;
      var timestamp := clock;
      if timestamp <= lastTimestamp {
        timestamp := lastTimestamp;
      } else {
        lastTimestamp := timestamp;
        Fill(lastRandom, random);
      }

      var randomLo := GetLittleEndian(lastRandom, 0, 8);
      var randomHi := GetLittleEndian(lastRandom, 8, 2);
      SplitRandom(lastRandom[..]);
      assert lastRandom[..][0..8] == lastRandom[0..8] && lastRandom[..][8..10] == lastRandom[8..10];

      ghost var before := Refreshed(old(Abstract()), Reading(clock, LeValue(random)));
      assert Abstract() == before && before.random == randomLo + 0x1_0000_0000_0000_0000 * randomHi;
      WideCarry(randomLo, randomHi);
      randomLo := (randomLo + 1) % 0x1_0000_0000_0000_0000;
      if randomLo == 0 {
        randomHi := (randomHi + 1) % 0x1_0000;
        if randomHi == 0 {
          return Err(Overflow);
        }
      }

      PutRandom(lastRandom, randomLo, randomHi);
      JoinRandom(randomLo, randomHi);
      assert lastRandom[..] == LeBytes(randomLo, 8) + LeBytes(randomHi, 2);
      assert Abstract() == before.(random := before.random + 1);
      var id := new Byte[16](_ => 0);
      PutRandom(id, randomLo, randomHi);
      PutTime(id, timestamp);
      IdValue(randomLo, randomHi, timestamp);
      r := Ok(id[..]);
    }
  }

  /** crypto/rand and randomFillSync: the given bytes replace the buffer's. */
  method Fill(a: array<Byte>, random: seq<Byte>)
    requires |random| == a.Length
    modifies a
    ensures a[..] == random
  {
    forall k | 0 <= k < a.Length { a[k] := random[k]; }
  }

  method PutRandom(a: array<Byte>, lo: nat, hi: nat)
    requires a.Length >= 10
    modifies a
    ensures a[..] == LeBytes(lo, 8) + LeBytes(hi, 2) + old(a[10..])
  {
    PutLittleEndian(a, 0, lo, 8);
    PutLittleEndian(a, 8, hi, 2);
  }

  method PutTime(a: array<Byte>, timestamp: nat)
    requires a.Length == 16
    modifies a
    ensures a[..] == old(a[..10]) + LeBytes(timestamp % 0x1_0000, 2)
                     + LeBytes(timestamp / 0x1_0000 % 0x1_0000_0000, 4)
  {
    PutLittleEndian(a, 10, timestamp % 0x1_0000, 2);
    PutLittleEndian(a, 12, timestamp / 0x1_0000 % 0x1_0000_0000, 4);
  }

  /** The limbs of an 80-bit number held in ten bytes. */
  lemma SplitRandom(bs: seq<Byte>)
    requires |bs| == 10
    ensures LeValue(bs) == LeValue(bs[0..8]) + 0x1_0000_0000_0000_0000 * LeValue(bs[8..10])
    ensures LeValue(bs[0..8]) < 0x1_0000_0000_0000_0000 && LeValue(bs[8..10]) < 0x1_0000
  {
    Pow256Values();
    assert bs == bs[0..8] + bs[8..10];
    LeValueConcat(bs[0..8], bs[8..10]);
    LeValueBound(bs[0..8]);
    LeValueBound(bs[8..10]);
  }

  /** The 64/16-bit carry adds one to the 80-bit number, or finds it full. */
  lemma WideCarry(lo: nat, hi: nat)
    requires lo < 0x1_0000_0000_0000_0000 && hi < 0x1_0000
    ensures
      var base := lo + 0x1_0000_0000_0000_0000 * hi;
      var lo', hi' := (lo + 1) % 0x1_0000_0000_0000_0000, (hi + 1) % 0x1_0000;
      && base < RANDOMS
      && (base + 1 == RANDOMS <==> lo' == 0 && hi' == 0)
      && (lo' != 0 ==> base + 1 == lo' + 0x1_0000_0000_0000_0000 * hi)
      && (lo' == 0 && hi' != 0 ==> base + 1 == lo' + 0x1_0000_0000_0000_0000 * hi')
  {
  }

  /** The 32/32/16-bit carry does the same. */
  lemma NarrowCarry(a: nat, b: nat, c: nat)
    requires a < 0x1_0000_0000 && b < 0x1_0000_0000 && c < 0x1_0000
    ensures
      var base := a + 0x1_0000_0000 * b + 0x1_0000_0000_0000_0000 * c;
      var a' := a + 1;
      var b' := b + if a' > 0xFFFF_FFFF then 1 else 0;
      var c' := c + if b' > 0xFFFF_FFFF then 1 else 0;
      && base < RANDOMS
      && (base + 1 == RANDOMS <==> c' > 0xFFFF)
      && var sum := a' % 0x1_0000_0000 + 0x1_0000_0000 * (b' % 0x1_0000_0000) + 0x1_0000_0000_0000_0000 * c';
      (c' <= 0xFFFF ==> base + 1 == sum)
  {
  }

  lemma JoinRandom(lo: nat, hi: nat)
    requires lo < 0x1_0000_0000_0000_0000 && hi < 0x1_0000
    ensures LeValue(LeBytes(lo, 8) + LeBytes(hi, 2)) == lo + 0x1_0000_0000_0000_0000 * hi
  {
    Pow256Values();
    LeValueConcat(LeBytes(lo, 8), LeBytes(hi, 2));
    LeValueOfBytes(lo, 8);
    LeValueOfBytes(hi, 2);
  }

  lemma IdValue(lo: nat, hi: nat, time: nat)
    requires lo < 0x1_0000_0000_0000_0000 && hi < 0x1_0000
    ensures LeValue(LeBytes(lo, 8) + LeBytes(hi, 2) + LeBytes(time % 0x1_0000, 2)
                    + LeBytes(time / 0x1_0000 % 0x1_0000_0000, 4)) ==
            (time % TIMES) * RANDOMS + (lo + 0x1_0000_0000_0000_0000 * hi)
  {
    hide LeBytes, LeValue;
    var r := LeBytes(lo, 8) + LeBytes(hi, 2);
    var t0, t1 := time % 0x1_0000, time / 0x1_0000 % 0x1_0000_0000;
    Pow256Values();
    JoinRandom(lo, hi);
    LeValueConcat(r, LeBytes(t0, 2));
    LeValueConcat(r + LeBytes(t0, 2), LeBytes(t1, 4));
    LeValueOfBytes(t0, 2);
    LeValueOfBytes(t1, 4);
    TimeLimbs(time);
    assert Pow256(12) == 0x1_0000 * Pow256(10);
  }

  lemma TimeLimbs(time: nat)
    ensures time % TIMES == time % 0x1_0000 + 0x1_0000 * (time / 0x1_0000 % 0x1_0000_0000)
  {
    var q := time / 0x1_0000;
    var low := time % 0x1_0000 + 0x1_0000 * (q % 0x1_0000_0000);
    assert time == (q / 0x1_0000_0000) * TIMES + low;
    DivModUnique(time, TIMES, q / 0x1_0000_0000, low);
  }

  // ---------- the Node.js generator ----------

  class NodeGenerator {
    var lastTimestamp: int
    var buffer: array<Byte>

    ghost predicate Valid()
      reads this
    {
      lastTimestamp >= 0 && buffer.Length == 16
    }

    ghost function Abstract(): Memory
      requires Valid()
      reads this, buffer
    {
      Memory(lastTimestamp, LeValue(buffer[..10]))
    }

    constructor ()
      ensures Valid() && fresh(buffer) && Abstract() == Memory(0, 0)
    {
      lastTimestamp := 0;
      buffer := new Byte[16](_ => 0);
      new;
      ZerosValue(10);
      assert buffer[..10] == Zeros(10);
    }

    /** A fresh millisecond fills the whole buffer; only its first ten bytes are random in the id. */
    method Id(clock: int, random: seq<Byte>) returns (r: Result<nat, Overflow>)
      requires Valid() && |random| == 16
      modifies this`lastTimestamp, buffer
      ensures Valid()
      ensures Abstract() == Next(old(Abstract()), Reading(clock, LeValue(random[..10])))
      ensures r == Issued(old(Abstract()), Reading(clock, LeValue(random[..10])))
    {
      hide LeBytes, LeValue, BeBytes, Pow256, BitOr;
      var timestamp := clock;
      if timestamp <= lastTimestamp {
        timestamp := lastTimestamp;
      } else {
        lastTimestamp := timestamp;
        Fill(buffer, random);
      }

      Limbs(buffer[..10]);
      SamePieces(buffer);
      var randomLo32 := GetLittleEndian(buffer, 0, 4) + 1;
      var randomHi32 := GetLittleEndian(buffer, 4, 4) + (if randomLo32 > 0xFFFF_FFFF then 1 else 0);
      var randomHi16 := GetLittleEndian(buffer, 8, 2) + (if randomHi32 > 0xFFFF_FFFF then 1 else 0);
      ghost var before := Refreshed(old(Abstract()), Reading(clock, LeValue(random[..10])));
      assert Abstract() == before;
      NarrowCarry(GetLittleEndian(buffer, 0, 4), GetLittleEndian(buffer, 4, 4), GetLittleEndian(buffer, 8, 2));
      if randomHi16 > 0xFFFF {
        return Err(Overflow);
      }

      var lo, mid := randomLo32 % 0x1_0000_0000, randomHi32 % 0x1_0000_0000;
      StoreId(buffer, lo, mid, randomHi16, timestamp);
      assert Abstract() == before.(random := before.random + 1);
      var id := ReadId(buffer);
      r := Ok(id);
    }
  }

  lemma SamePieces(a: array<Byte>)
    requires a.Length == 16
    ensures a[..10][0..4] == a[0..4] && a[..10][4..8] == a[4..8] && a[..10][8..10] == a[8..10]
  {
  }

  method PutLimbs(a: array<Byte>, lo: nat, mid: nat, hi: nat)
    requires a.Length >= 10 && lo < 0x1_0000_0000 && mid < 0x1_0000_0000
    modifies a
    ensures a[..] == LeBytes(lo + 0x1_0000_0000 * mid, 8) + LeBytes(hi, 2) + old(a[10..])
  {
    hide LeBytes;
    PutLittleEndian(a, 0, lo, 4);
    PutLittleEndian(a, 4, mid, 4);
    PutLittleEndian(a, 8, hi, 2);
    TwoLimbs(lo, mid);
  }

  /** The number and the time go into the whole buffer, which then is the id. */
  method StoreId(a: array<Byte>, lo: nat, mid: nat, hi: nat, timestamp: nat)
    requires a.Length == 16 && lo < 0x1_0000_0000 && mid < 0x1_0000_0000 && hi < 0x1_0000
    modifies a
    ensures
      var number := lo + 0x1_0000_0000 * mid + 0x1_0000_0000_0000_0000 * hi;
      LeValue(a[..10]) == number && LeValue(a[..]) == (timestamp % TIMES) * RANDOMS + number
  {
    hide LeBytes, LeValue;
    PutLimbs(a, lo, mid, hi);
    PutTime(a, timestamp);
    var low64 := lo + 0x1_0000_0000 * mid;
    JoinRandom(low64, hi);
    IdValue(low64, hi, timestamp);
    assert a[..10] == LeBytes(low64, 8) + LeBytes(hi, 2);
  }

  lemma Limbs(bs: seq<Byte>)
    requires |bs| == 10
    ensures LeValue(bs) == LeValue(bs[0..4]) + 0x1_0000_0000 * LeValue(bs[4..8])
                           + 0x1_0000_0000_0000_0000 * LeValue(bs[8..10])
    ensures LeValue(bs[0..4]) < 0x1_0000_0000 && LeValue(bs[4..8]) < 0x1_0000_0000
    ensures LeValue(bs[8..10]) < 0x1_0000
  {
    SplitRandom(bs);
    Pow256Values();
    assert bs[0..8] == bs[0..4] + bs[4..8];
    LeValueConcat(bs[0..4], bs[4..8]);
    LeValueBound(bs[0..4]);
    LeValueBound(bs[4..8]);
  }

  /** Two 32-bit halves written side by side are the 64-bit number. */
  lemma TwoLimbs(lo: nat, mid: nat)
    requires lo < 0x1_0000_0000 && mid < 0x1_0000_0000
    ensures LeBytes(lo, 4) + LeBytes(mid, 4) == LeBytes(lo + 0x1_0000_0000 * mid, 8)
  {
    Pow256Values();
    var bs := LeBytes(lo, 4) + LeBytes(mid, 4);
    LeValueConcat(LeBytes(lo, 4), LeBytes(mid, 4));
    LeValueOfBytes(lo, 4);
    LeValueOfBytes(mid, 4);
    LeBytesOfValue(bs);
  }

  /** The two halves of a 16-byte buffer, or-ed together, are its value. */
  lemma JoinHalves(bs: seq<Byte>)
    requires |bs| == 16
    ensures BitOr(LeValue(bs[8..16]) * 0x1_0000_0000_0000_0000, LeValue(bs[0..8])) == LeValue(bs)
  {
    hide LeValue, BitOr, Pow256, Pow2;
    Pow256Values();
    Pow2Values();
    assert bs == bs[0..8] + bs[8..16];
    LeValueConcat(bs[0..8], bs[8..16]);
    LeValueBound(bs[0..8]);
    OrBelow(LeValue(bs[8..16]), 64, LeValue(bs[0..8]));
  }

  /** The buffer's contents as a bigint, read in two halves. */
  method ReadId(a: array<Byte>) returns (id: nat)
    requires a.Length == 16
    ensures id == LeValue(a[..])
  {
    hide LeValue, BitOr;
    var lo, hi := GetLittleEndian(a, 0, 8), GetLittleEndian(a, 8, 8);
    JoinHalves(a[..]);
    assert a[..][0..8] == a[0..8] && a[..][8..16] == a[8..16];
    id := BitOr(hi * 0x1_0000_0000_0000_0000, lo);
  }

  // ---------- every run ----------

  function After(m: Memory, readings: seq<Reading>): Memory
    decreases |readings|
  {
    if readings == [] then m
    else Next(After(m, readings[..|readings| - 1]), readings[|readings| - 1])
  }

  /** Readings the 48 time bits can hold; the random part is any 80-bit number. */
  ghost predicate InRange(readings: seq<Reading>)
  {
    forall i :: 0 <= i < |readings| ==> readings[i].clock < TIMES && readings[i].random < RANDOMS
  }

  ghost predicate Sound(m: Memory)
  {
    0 <= m.time < TIMES && m.random < RANDOMS
  }

  function Rank(m: Memory): int
  {
    m.time * RANDOMS + m.random
  }

  lemma StepRanks(m: Memory, r: Reading)
    requires Sound(m) && r.clock < TIMES && r.random < RANDOMS
    ensures Sound(Next(m, r)) && Rank(m) <= Rank(Next(m, r))
    ensures Issued(m, r).Ok? ==> Issued(m, r).value == Rank(Next(m, r)) && Rank(m) < Rank(Next(m, r))
  {
    var f := Refreshed(m, r);
    assert f.time % TIMES == f.time;
    if r.clock > m.time {
      assert m.time * RANDOMS + RANDOMS <= r.clock * RANDOMS;
    }
  }

  lemma {:induction false} RunRanks(m: Memory, readings: seq<Reading>, i: nat)
    requires Sound(m) && InRange(readings) && i <= |readings|
    ensures Sound(After(m, readings[..i])) && Sound(After(m, readings))
    ensures Rank(After(m, readings[..i])) <= Rank(After(m, readings))
    decreases |readings|
  {
    if readings != [] {
      var init := readings[..|readings| - 1];
      if i == |readings| {
        RunRanks(m, init, 0);
        assert readings[..i] == readings;
      } else {
        RunRanks(m, init, i);
        assert init[..i] == readings[..i];
      }
      StepRanks(After(m, init), readings[|readings| - 1]);
    }
  }

  function IdAt(m: Memory, readings: seq<Reading>, i: nat): Result<nat, Overflow>
    requires i < |readings| && After(m, readings[..i]).time >= 0
  {
    Issued(After(m, readings[..i]), readings[i])
  }

  /**
   Over any sequence of calls, whatever the clock does below 2^48 ms, the ids issued are
   strictly increasing, also across an overflow error.
   */
  lemma IdsIncrease(m: Memory, readings: seq<Reading>, i: nat, j: nat)
    requires Sound(m) && InRange(readings) && i < j < |readings|
    ensures Sound(After(m, readings[..i])) && Sound(After(m, readings[..j]))
    ensures
      var a, b := IdAt(m, readings, i), IdAt(m, readings, j);
      a.Ok? && b.Ok? ==> a.value < b.value
  {
    RunRanks(m, readings, i);
    RunRanks(m, readings, j);
    assert readings[..i + 1][..i] == readings[..i];
    assert readings[..j][..i + 1] == readings[..i + 1];
    RunRanks(m, readings[..j], i + 1);
    StepRanks(After(m, readings[..i]), readings[i]);
    StepRanks(After(m, readings[..j]), readings[j]);
  }

  /** An id is the time above the 80-bit number, one more than drawn or than the last. */
  lemma IdHoldsTime(m: Memory, r: Reading)
    requires Sound(m) && r.clock < TIMES && r.random < RANDOMS && Issued(m, r).Ok?
    ensures
      var id := Issued(m, r).value;
      && id / 0x1_0000_0000_0000_0000_0000 == (if r.clock <= m.time then m.time else r.clock)
      && id % 0x1_0000_0000_0000_0000_0000 == (if r.clock <= m.time then m.random else r.random) + 1
  {
    var time := if r.clock <= m.time then m.time else r.clock;
    var random := if r.clock <= m.time then m.random else r.random;
    assert time % TIMES == time;
    DivModUnique(time * RANDOMS + random + 1, RANDOMS, time, random + 1);
  }

  /** No id is issued exactly if the number is full, and then none until a later millisecond. */
  lemma OverflowLasts(m: Memory, r: Reading, later: Reading)
    requires Sound(m) && r.clock < TIMES && r.random < RANDOMS
    ensures Issued(m, r).Err? <==>
            (if r.clock <= m.time then m.random else r.random) == 0xFFFF_FFFF_FFFF_FFFF_FFFF
    ensures Sound(Next(m, r))
    ensures Issued(m, r).Err? && (later.clock <= r.clock || later.clock <= m.time) ==> Issued(Next(m, r), later).Err?
  {
  }

  /** The latest time met: the memory's, or a reading's. */
  function LatestTime(m: Memory, readings: seq<Reading>): int
    decreases |readings|
  {
    if readings == [] then m.time
    else
      var before, last := LatestTime(m, readings[..|readings| - 1]), readings[|readings| - 1].clock;
      if before < last then last else before
  }

  lemma {:induction false} MemoryHoldsLatest(m: Memory, readings: seq<Reading>)
    ensures After(m, readings).time == LatestTime(m, readings)
    decreases |readings|
  {
    if readings != [] {
      MemoryHoldsLatest(m, readings[..|readings| - 1]);
    }
  }

  /** Over any sequence of calls the time in an id is the latest reading so far. */
  lemma IdsHoldLatestTime(m: Memory, readings: seq<Reading>, i: nat)
    requires Sound(m) && InRange(readings) && i < |readings|
    ensures Sound(After(m, readings[..i]))
    ensures IdAt(m, readings, i).Ok? ==>
      IdAt(m, readings, i).value / 0x1_0000_0000_0000_0000_0000 == LatestTime(m, readings[..i + 1])
  {
    RunRanks(m, readings, i);
    MemoryHoldsLatest(m, readings[..i]);
    assert readings[..i + 1][..i] == readings[..i];
    if IdAt(m, readings, i).Ok? {
      IdHoldsTime(After(m, readings[..i]), readings[i]);
    }
  }

  /** At 2^48 ms the time bits wrap and the next id is smaller. */
  lemma TimeWraps(random: nat)
    requires random + 1 < RANDOMS
    ensures
      var m, r := Memory(TIMES - 1, 0), Reading(TIMES, random);
      Issued(m, r) == Ok(random + 1) && Issued(m, r).value < Rank(m)
  {
    assert TIMES % TIMES == 0;
  }

  // ---------- the order of the bytes ----------

  /** At the first difference a has the smaller byte. */
  ghost predicate LexLess(a: seq<Byte>, b: seq<Byte>)
    requires |a| == |b|
  {
    exists k :: 0 <= k < |a| && a[..k] == b[..k] && a[k] < b[k]
  }

  lemma LexLessSnoc(a: seq<Byte>, b: seq<Byte>)
    requires |a| == |b| > 0
    ensures
      var n := |a| - 1;
      LexLess(a, b) <==> (LexLess(a[..n], b[..n]) || (a[..n] == b[..n] && a[n] < b[n]))
  {
    var n := |a| - 1;
    var x, y := a[..n], b[..n];
    assert forall k :: 0 <= k < n ==> x[..k] == a[..k] && y[..k] == b[..k] && x[k] == a[k] && y[k] == b[k];
    if k :| 0 <= k < n && x[..k] == y[..k] && x[k] < y[k] {
      assert a[..k] == b[..k] && a[k] < b[k];
    }
    if k :| 0 <= k <= n && a[..k] == b[..k] && a[k] < b[k] {
      assert k < n ==> x[..k] == y[..k] && x[k] < y[k];
    }
  }

  /** Big-endian bytes of one length sort as their numbers do. */
  lemma {:induction false} BigEndianSorts(a: seq<Byte>, b: seq<Byte>)
    requires |a| == |b|
    ensures LexLess(a, b) <==> BeValue(a) < BeValue(b)
    ensures a == b <==> BeValue(a) == BeValue(b)
    decreases |a|
  {
    hide LexLess;
    if a == [] {
      NothingLess();
    } else {
      var n := |a| - 1;
      BigEndianSorts(a[..n], b[..n]);
      LexLessSnoc(a, b);
      assert a == a[..n] + [a[n]] && b == b[..n] + [b[n]];
    }
  }

  lemma NothingLess()
    ensures !LexLess([], [])
  {
  }

  /** The numeric order of ids is the lexicographic order of their bytes read from last to first. */
  lemma ReversedBytesSort(a: seq<Byte>, b: seq<Byte>)
    requires |a| == |b|
    ensures LexLess(Reversed(a), Reversed(b)) <==> LeValue(a) < LeValue(b)
  {
    hide LexLess, Reversed, LeValue, BeValue;
    BigEndianSorts(Reversed(a), Reversed(b));
    ReversedValue(Reversed(a));
    ReversedValue(Reversed(b));
    assert Reversed(Reversed(a)) == a && Reversed(Reversed(b)) == b;
  }

  lemma LeadingByte(v: nat, n: nat)
    requires n > 0
    ensures LeBytes(v, n)[0] == v % 256
  {
  }

  lemma FirstByteDecides(a: seq<Byte>, b: seq<Byte>)
    requires |a| == |b| > 0 && a[0] != b[0]
    ensures LexLess(a, b) <==> a[0] < b[0]
  {
    assert a[..0] == b[..0];
    forall k | 0 < k < |a| ensures a[..k] != b[..k] {
      assert a[..k][0] == a[0] && b[..k][0] == b[0];
    }
  }

  /** A number's little-endian bytes sort before its successor's unless the lowest one is full. */
  lemma SuccessorSorts(v: nat, n: nat)
    requires n > 0
    ensures LexLess(LeBytes(v, n), LeBytes(v + 1, n)) <==> v % 256 != 255
  {
    hide LeBytes, LexLess;
    LeadingByte(v, n);
    LeadingByte(v + 1, n);
    FirstByteDecides(LeBytes(v, n), LeBytes(v + 1, n));
  }

  lemma NextRank(m: Memory, r: Reading)
    requires Sound(m) && r.clock <= m.time && Issued(m, r).Ok?
    ensures Issued(m, r).value == Rank(m) + 1
  {
    assert m.time % TIMES == m.time;
  }

  lemma LowByte(m: Memory)
    requires Sound(m)
    ensures Rank(m) >= 0 && Rank(m) % 256 == m.random % 256
  {
    var high := m.time * (RANDOMS / 256);
    MulAssoc(256, m.time, RANDOMS / 256);
    MulAssoc(m.time, 256, RANDOMS / 256);
    assert Rank(m) == 256 * high + m.random;
    SameRemainder(high, m.random);
  }

  lemma SameRemainder(q: nat, x: nat)
    ensures (256 * q + x) % 256 == x % 256
  {
    DivModUnique(256 * q + x, 256, q + x / 256, x % 256);
  }

  /**
   As stored, the next id of the same millisecond sorts after the one before exactly if that
   one's lowest random byte was not 255; numerically it always does.
   */
  lemma LittleEndianMissorts(m: Memory, r: Reading)
    requires Sound(m) && r.clock <= m.time && Issued(m, r).Ok?
    ensures Rank(m) < Issued(m, r).value
    ensures LexLess(LeBytes(Rank(m), 16), LeBytes(Issued(m, r).value, 16)) <==> m.random % 256 != 255
  {
    hide LeBytes, LexLess, Rank;
    NextRank(m, r);
    SuccessorSorts(Rank(m), 16);
    LowByte(m);
  }
}
