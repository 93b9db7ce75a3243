/**
 The integer half of the cell id and the composite id (src/clients/node/src/geo.ts): the face,
 then the bits of i and j interleaved from the top, then a sentinel bit; the timestamp goes
 below the cell id.
 */
module CellId {
  import opened Bits

  const LEVEL: nat := 30

  /** The first `level` pairs of bits under the face, i and j having that many bits. */
  function Prefix(face: nat, i: nat, j: nat, level: nat): nat
  {
    if level == 0 then face
    else 4 * Prefix(face, i / 2, j / 2, level - 1) + 2 * (i % 2) + j % 2
  }

  function Cell(face: nat, i: nat, j: nat): nat
  {
    2 * Prefix(face, i, j, LEVEL) + 1
  }

  function Composite(cell: nat, timestamp: nat): nat
  {
    cell * Pow2(64) + timestamp
  }

  // ---------- the interleaving loop ----------

  /** Grid coordinate of a face coordinate, clamped to the face. */
  function Grid(s: real): (i: nat)
    ensures i < Pow2(LEVEL)
  {
    var size := Pow2(LEVEL);
    var i := (s * size as real).Floor;
    if i < 0 then 0 else if i > size - 1 then size - 1 else i
  }

  /** Inside the face the coordinate is that of the cell of side 2^-30; outside it is clamped. */
  lemma GridMeaning(s: real)
    ensures 0.0 <= s < 1.0 ==> (Grid(s) as real / 1073741824.0 <= s < (Grid(s) + 1) as real / 1073741824.0)
    ensures s < 0.0 ==> Grid(s) == 0
    ensures s >= 1.0 ==> Grid(s) == 1073741823
  {
    hide Pow2;
    Pow2Thirty();
    var x := s * 1073741824.0;
    if 0.0 <= s < 1.0 {
      assert 0.0 <= x < 1073741824.0;
    }
  }

  lemma Pow2Thirty()
    ensures Pow2(LEVEL) == 1073741824
  {
    hide Pow2;
    Pow2Values();
    Pow2Next(30);
  }

  /** One more pair of bits below those already placed. */
  lemma PlaceBits(prefix: nat, k: nat, bits: nat)
    requires bits < 4
    ensures BitOr(prefix * Pow2(2 * k + 3), bits * Pow2(2 * k + 1)) == (4 * prefix + bits) * Pow2(2 * k + 1)
  {
    hide Pow2, BitOr;
    var p := Pow2(2 * k + 1);
    FourTimes(2 * k + 1);
    MulMonotone(bits, 3, p);
    OrBelow(prefix, 2 * k + 3, bits * p);
    Collect(prefix, bits, p);
  }

  lemma FourTimes(n: nat)
    ensures Pow2(n + 2) == 4 * Pow2(n)
  {
    assert Pow2(n + 2) == 2 * Pow2(n + 1);
  }

  lemma Collect(prefix: nat, bits: nat, p: nat)
    ensures prefix * (4 * p) + bits * p == (4 * prefix + bits) * p
  {
    MulAssoc(prefix, 4, p);
    assert (prefix * 4) * p + bits * p == (prefix * 4 + bits) * p;
  }

  lemma ShiftHalves(i: nat, k: nat)
    ensures Shr(i, k) / 2 == Shr(i, k + 1)
  {
    ShrShr(i, k, 1);
    assert Shr(Shr(i, k), 1) == Shr(Shr(i, k) / 2, 0);
  }

  lemma FaceBits(face: nat)
    ensures face * Pow2(61) == Prefix(face, 0, 0, 0) * Pow2(2 * LEVEL + 1)
  {
  }

  lemma NoHighBits(i: nat)
    requires i < Pow2(LEVEL)
    ensures Shr(i, LEVEL) == 0
  {
    ShrLowUnique(i, LEVEL, 0, i);
  }

  method ComputeCellId(face: nat, s: real, t: real) returns (cell: nat)
    ensures cell == Cell(face, Grid(s), Grid(t))
  {
    var i, j := Grid(s), Grid(t);
    hide Pow2, Shr, BitOr, Prefix, Grid;
    cell := face * Pow2(61);
    StartBits(face, i, j);
    var k := LEVEL;
    while k > 0
      invariant 0 <= k <= LEVEL
      invariant cell == Prefix(face, Shr(i, k), Shr(j, k), LEVEL - k) * Pow2(2 * k + 1)
    {
      k := k - 1;
      var iBit, jBit := Shr(i, k) % 2, Shr(j, k) % 2;
      var bits := BitOr(2 * iBit, jBit);
      PairOfBits(iBit, jBit);
      NextPrefix(face, i, j, k);
      PlaceBits(Prefix(face, Shr(i, k + 1), Shr(j, k + 1), LEVEL - k - 1), k, bits);
      assert 2 * (k + 1) + 1 == 2 * k + 3;
      cell := BitOr(cell, bits * Pow2(2 * k + 1));
    }
    Sentinel(face, i, j);
    cell := BitOr(cell, 1);
  }

  lemma StartBits(face: nat, i: nat, j: nat)
    requires i < Pow2(LEVEL) && j < Pow2(LEVEL)
    ensures face * Pow2(61) == Prefix(face, Shr(i, LEVEL), Shr(j, LEVEL), 0) * Pow2(2 * LEVEL + 1)
  {
    NoHighBits(i);
    NoHighBits(j);
    FaceBits(face);
  }

  lemma PairOfBits(a: nat, b: nat)
    requires a < 2 && b < 2
    ensures BitOr(2 * a, b) == 2 * a + b < 4
  {
    assert BitOr(1, 0) == 1 && BitOr(0, 1) == 1;
  }

  lemma NextPrefix(face: nat, i: nat, j: nat, k: nat)
    requires k < LEVEL
    ensures Prefix(face, Shr(i, k), Shr(j, k), LEVEL - k) ==
            4 * Prefix(face, Shr(i, k + 1), Shr(j, k + 1), LEVEL - k - 1)
            + (2 * (Shr(i, k) % 2) + Shr(j, k) % 2)
  {
    ShiftHalves(i, k);
    ShiftHalves(j, k);
  }

  lemma Sentinel(face: nat, i: nat, j: nat)
    ensures BitOr(Prefix(face, Shr(i, 0), Shr(j, 0), LEVEL) * Pow2(1), 1) == Cell(face, i, j)
  {
    assert Pow2(1) == 2;
    OrBelow(Prefix(face, i, j, LEVEL), 1, 1);
  }

  /** A timestamp of more than 64 bits is or-ed into the cell id. */
  method PackCompositeId(cell: nat, timestamp: nat) returns (id: nat)
    ensures id == BitOr(cell * Pow2(64), timestamp)
    ensures timestamp < Pow2(64) ==> id == Composite(cell, timestamp)
  {
    hide Pow2, BitOr;
    if timestamp < Pow2(64) {
      OrBelow(cell, 64, timestamp);
    }
    id := BitOr(cell * Pow2(64), timestamp);
  }

  // ---------- what the layout keeps ----------

  /** The face and both coordinates can be read back from their interleaving. */
  lemma {:induction false} PrefixInjective(f: nat, i: nat, j: nat, f': nat, i': nat, j': nat, level: nat)
    ensures Prefix(f, i, j, level) == Prefix(f', i', j', level) <==>
            f == f' && Low(i, level) == Low(i', level) && Low(j, level) == Low(j', level)
  {
    if level > 0 {
      PrefixInjective(f, i / 2, j / 2, f', i' / 2, j' / 2, level - 1);
    }
  }

  /** Dropping n pairs of bits coarsens both coordinates by n bits. */
  lemma {:induction false} PrefixShift(face: nat, i: nat, j: nat, level: nat, n: nat)
    requires n <= level
    ensures Shr(Prefix(face, i, j, level), 2 * n) == Prefix(face, Shr(i, n), Shr(j, n), level - n)
  {
    if n > 0 {
      var p := Prefix(face, i, j, level);
      var q := Prefix(face, i / 2, j / 2, level - 1);
      assert p / 2 / 2 == q by {
        assert p == 4 * q + (2 * (i % 2) + j % 2);
      }
      assert Shr(p, 2 * n) == Shr(p / 2, 2 * n - 1) == Shr(p / 2 / 2, 2 * (n - 1));
      PrefixShift(face, i / 2, j / 2, level - 1, n - 1);
    }
  }

  /** The square of level L that contains a cell, as a number. */
  function Square(face: nat, i: nat, j: nat, level: nat): nat
    requires level <= LEVEL
  {
    Prefix(face, Shr(i, LEVEL - level), Shr(j, LEVEL - level), level)
  }

  predicate SameSquare(f: nat, i: nat, j: nat, f': nat, i': nat, j': nat, level: nat)
    requires level <= LEVEL
  {
    f == f' && Shr(i, LEVEL - level) == Shr(i', LEVEL - level) && Shr(j, LEVEL - level) == Shr(j', LEVEL - level)
  }

  /** Number of bits of a cell id below the square's. */
  function Below(level: nat): nat
    requires level <= LEVEL
  {
    2 * (LEVEL - level) + 1
  }

  lemma CellShift(face: nat, i: nat, j: nat, level: nat)
    requires level <= LEVEL
    ensures Shr(Cell(face, i, j), Below(level)) == Square(face, i, j, level)
  {
    var p := Prefix(face, i, j, LEVEL);
    assert Cell(face, i, j) / 2 == p;
    assert Shr(Cell(face, i, j), Below(level)) == Shr(p, 2 * (LEVEL - level));
    PrefixShift(face, i, j, LEVEL, LEVEL - level);
  }

  lemma SquaresDiffer(f: nat, i: nat, j: nat, f': nat, i': nat, j': nat, level: nat)
    requires level <= LEVEL
    requires i < Pow2(LEVEL) && j < Pow2(LEVEL) && i' < Pow2(LEVEL) && j' < Pow2(LEVEL)
    ensures Square(f, i, j, level) == Square(f', i', j', level) <==> SameSquare(f, i, j, f', i', j', level)
  {
    var n := LEVEL - level;
    PrefixInjective(f, Shr(i, n), Shr(j, n), f', Shr(i', n), Shr(j', n), level);
    CoarseFits(i, level);
    CoarseFits(j, level);
    CoarseFits(i', level);
    CoarseFits(j', level);
  }

  lemma CoarseFits(i: nat, level: nat)
    requires level <= LEVEL && i < Pow2(LEVEL)
    ensures Low(Shr(i, LEVEL - level), level) == Shr(i, LEVEL - level)
  {
    var n := LEVEL - level;
    assert n + level == LEVEL;
    ShrBound(i, n, level);
    ShrLowUnique(Shr(i, n), level, 0, Shr(i, n));
  }

  /**
   For every level, two cell ids agree above the bits of the deeper levels exactly when the
   cells are in the same square; at level 30 they are then the same cell.
   */
  lemma CellsShareSquare(f: nat, i: nat, j: nat, f': nat, i': nat, j': nat, level: nat)
    requires level <= LEVEL
    requires i < Pow2(LEVEL) && j < Pow2(LEVEL) && i' < Pow2(LEVEL) && j' < Pow2(LEVEL)
    ensures Shr(Cell(f, i, j), Below(level)) == Shr(Cell(f', i', j'), Below(level))
            <==> SameSquare(f, i, j, f', i', j', level)
    ensures Cell(f, i, j) == Cell(f', i', j') <==> f == f' && i == i' && j == j'
  {
    CellShift(f, i, j, level);
    CellShift(f', i', j', level);
    SquaresDiffer(f, i, j, f', i', j', level);
    SquaresDiffer(f, i, j, f', i', j', LEVEL);
    assert Shr(i, 0) == i && Shr(j, 0) == j && Shr(i', 0) == i' && Shr(j', 0) == j';
  }

  /** The bits of a cell id: the sentinel, j and i interleaved from bits 1 and 2 up, and the face from bit 61. */
  lemma CellBits(face: nat, i: nat, j: nat, k: nat)
    requires i < Pow2(30) && j < Pow2(30) && k < 30
    ensures Cell(face, i, j) % 2 == 1 && Shr(Cell(face, i, j), 61) == face
    ensures Shr(Cell(face, i, j), 2 * k + 1) % 2 == Shr(j, k) % 2
    ensures Shr(Cell(face, i, j), 2 * k + 2) % 2 == Shr(i, k) % 2
  {
    hide Pow2, Shr, Prefix;
    var cell, prefix := Cell(face, i, j), Prefix(face, i, j, 30);
    NoHighBits(i);
    NoHighBits(j);
    ShrOne(cell);
    ShrShr(cell, 1, 60);
    ShrShr(cell, 1, 2 * k);
    PrefixShift(face, i, j, 30, 30);
    PrefixShift(face, i, j, 30, k);
    ShrShr(cell, 2 * k + 1, 1);
    ShrOne(Shr(cell, 2 * k + 1));
    LastPair(face, Shr(i, k), Shr(j, k), 30 - k);
    WholeFace(face, Shr(i, 30), Shr(j, 30));
  }

  lemma ShrOne(a: nat)
    ensures Shr(a, 1) == a / 2
  {
    assert Shr(a, 1) == Shr(a / 2, 0);
  }

  lemma LastPair(face: nat, i: nat, j: nat, level: nat)
    requires level > 0
    ensures Prefix(face, i, j, level) % 2 == j % 2 && Prefix(face, i, j, level) / 2 % 2 == i % 2
  {
  }

  lemma WholeFace(face: nat, i: nat, j: nat)
    ensures Prefix(face, i, j, 0) == face
  {
  }

  /** A composite id is the cell id above 64 bits of time. */
  lemma CompositeParts(cell: nat, timestamp: nat)
    requires timestamp < 0x1_0000_0000_0000_0000
    ensures Shr(Composite(cell, timestamp), 64) == cell && Low(Composite(cell, timestamp), 64) == timestamp
  {
    hide Pow2, Shr, Low;
    Pow2Values();
    ShrLowUnique(Composite(cell, timestamp), 64, cell, timestamp);
  }

  /** Cell ids fit 64 bits. */
  lemma CellFits(face: nat, i: nat, j: nat)
    requires face < 8
    ensures Cell(face, i, j) < Pow2(64)
  {
    PrefixBound(face, i, j, LEVEL);
    assert Pow2(64) == 2 * Pow2(63);
    assert Pow2(3) == 8;
    Pow2Add(3, 2 * LEVEL);
    MulMonotone(face + 1, 8, Pow2(2 * LEVEL));
  }

  lemma {:induction false} PrefixBound(face: nat, i: nat, j: nat, level: nat)
    ensures Prefix(face, i, j, level) < (face + 1) * Pow2(2 * level)
  {
    if level > 0 {
      PrefixBound(face, i / 2, j / 2, level - 1);
      assert Pow2(2 * level) == 2 * Pow2(2 * level - 1) == 4 * Pow2(2 * (level - 1));
      MulAssoc(face + 1, 4, Pow2(2 * (level - 1)));
      MulAssoc(4, face + 1, Pow2(2 * (level - 1)));
    }
  }

  // ---------- composite ids of a square are a range ----------

  lemma ShiftIsRange(x: nat, n: nat, q: nat)
    ensures Shr(x, n) == q <==> q * Pow2(n) <= x < (q + 1) * Pow2(n)
  {
    ShrLow(x, n);
    var p := Pow2(n);
    MulSucc(q, p);
    if Shr(x, n) < q {
      MulMonotone(Shr(x, n) + 1, q, p);
      MulSucc(Shr(x, n), p);
    } else if Shr(x, n) > q {
      MulMonotone(q + 1, Shr(x, n), p);
    }
  }

  lemma CompositeShift(cell: nat, timestamp: nat, n: nat)
    requires timestamp < Pow2(64)
    ensures Shr(Composite(cell, timestamp), 64 + n) == Shr(cell, n)
  {
    ShrLowUnique(Composite(cell, timestamp), 64, cell, timestamp);
    ShrShr(Composite(cell, timestamp), 64, n);
  }

  /**
   The composite ids of all events in a square, at any 64-bit time, are exactly the event ids
   in one interval.
   */
  lemma {:induction false} SquareIsARange(f: nat, i: nat, j: nat, level: nat, f': nat, i': nat, j': nat, timestamp: nat)
    requires level <= LEVEL && timestamp < Pow2(64)
    requires i < Pow2(LEVEL) && j < Pow2(LEVEL) && i' < Pow2(LEVEL) && j' < Pow2(LEVEL)
    ensures
      var size := Pow2(64 + Below(level));
      var start := Square(f, i, j, level) * size;
      SameSquare(f, i, j, f', i', j', level) <==>
      start <= Composite(Cell(f', i', j'), timestamp) < start + size
  {
    hide Pow2, Cell, Composite, Prefix, Shr;
    CellShift(f', i', j', level);
    CompositeShift(Cell(f', i', j'), timestamp, Below(level));
    SquaresDiffer(f, i, j, f', i', j', level);
    ShiftIsRange(Composite(Cell(f', i', j'), timestamp), 64 + Below(level), Square(f, i, j, level));
    MulSucc(Square(f, i, j, level), Pow2(64 + Below(level)));
  }
}
