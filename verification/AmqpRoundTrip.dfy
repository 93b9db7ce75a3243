/**
 The two generated programs of AmqpCodec are inverse, and the encoder writes exactly the
 layout of section 4.2.5.2 of AMQP 0-9-1, precisely when no nine consecutive fields are bits.
 */
module AmqpRoundTrip {
  import opened Wrappers
  import opened Bytes
  import opened AmqpCodec

  // ---------- the condition a caller can check ----------

  ghost predicate BitsAt(fields: seq<Field>, i: nat, n: nat)
  {
    i + n <= |fields| && forall k :: i <= k < i + n ==> fields[k].kind.Bit?
  }

  /** No nine consecutive fields are bits. */
  ghost predicate ShortRuns(fields: seq<Field>)
  {
    forall i: nat :: !BitsAt(fields, i, 9)
  }

  /** The same condition, read left to right with `index` bits already in the open octet. */
  predicate RunsFit(fields: seq<Field>, index: nat)
  {
    fields == [] ||
    if fields[0].kind.Bit? then index < 8 && RunsFit(fields[1..], index + 1)
    else RunsFit(fields[1..], 0)
  }

  lemma BitsAtTail(fields: seq<Field>, i: nat, n: nat)
    requires fields != []
    ensures BitsAt(fields[1..], i, n) == BitsAt(fields, i + 1, n)
  {
    var rest := fields[1..];
    if BitsAt(rest, i, n) {
      forall k | i + 1 <= k < i + 1 + n ensures fields[k].kind.Bit? {
        assert rest[k - 1].kind.Bit?;
      }
    }
  }

  lemma ShortRunsTail(fields: seq<Field>)
    requires fields != []
    ensures ShortRuns(fields) <==> ShortRuns(fields[1..]) && !BitsAt(fields, 0, 9)
  {
    forall i: nat ensures BitsAt(fields[1..], i, 9) == BitsAt(fields, i + 1, 9) {
      BitsAtTail(fields, i, 9);
    }
    if ShortRuns(fields[1..]) && !BitsAt(fields, 0, 9) {
      forall i: nat ensures !BitsAt(fields, i, 9) {
        if i > 0 {
          assert !BitsAt(fields[1..], i - 1, 9);
        }
      }
    }
  }

  lemma {:induction false} FitMeansShort(fields: seq<Field>, index: nat)
    requires index <= 8
    ensures RunsFit(fields, index) <==> ShortRuns(fields) && !BitsAt(fields, 0, 9 - index)
  {
    if fields != [] {
      var rest := fields[1..];
      ShortRunsTail(fields);
      if !fields[0].kind.Bit? {
        FitMeansShort(rest, 0);
      } else if index < 8 {
        FitMeansShort(rest, index + 1);
        BitsAtTail(fields, 0, 8 - index);
        assert BitsAt(fields, 0, 9) ==> BitsAt(fields, 0, 9 - index);
      }
    }
  }

  lemma FitsExactlyWhenShort(fields: seq<Field>)
    ensures RunsFit(fields, 0) <==> ShortRuns(fields)
  {
    FitMeansShort(fields, 0);
  }

  // ---------- values ----------

  ghost predicate Fits(fields: seq<Field>, self: Record)
  {
    forall f :: f in fields ==> f.name in self && HasType(f.kind, self[f.name])
  }

  ghost predicate DistinctNames(fields: seq<Field>)
  {
    forall i, j :: 0 <= i < j < |fields| ==> fields[i].name != fields[j].name
  }

  /** The struct the peer should obtain. */
  ghost function View(fields: seq<Field>, self: Record): Record
    requires Fits(fields, self)
  {
    map n | n in Names(fields) :: Received(self[n])
  }

  ghost function Names(fields: seq<Field>): set<string>
  {
    set f | f in fields :: f.name
  }

  // ---------- the reference layout ----------

  function BitRun(fields: seq<Field>): (n: nat)
    ensures n <= |fields|
    ensures forall k :: 0 <= k < n ==> fields[k].kind.Bit?
    ensures n < |fields| ==> !fields[n].kind.Bit?
  {
    if fields == [] || !fields[0].kind.Bit? then 0 else 1 + BitRun(fields[1..])
  }

  ghost function BitValues(fields: seq<Field>, self: Record): seq<bool>
    requires Fits(fields, self) && BitsAt(fields, 0, |fields|)
  {
    seq(|fields|, k requires 0 <= k < |fields| =>
      assert fields[k] in fields; self[fields[k].name].b)
  }

  /** Runs of bits are cut into groups of at most eight, each one octet; other fields follow whole. */
  ghost function Wire(fields: seq<Field>, self: Record): seq<Byte>
    requires Fits(fields, self)
    decreases |fields|
  {
    if fields == [] then []
    else if fields[0].kind.Bit? then
      var n := if BitRun(fields) > 8 then 8 else BitRun(fields);
      BeBytes(OctetOf(BitValues(fields[..n], self)), 1) + Wire(fields[n..], self)
    else
      assert fields[0] in fields;
      FieldBytes(fields[0].kind, self[fields[0].name]) + Wire(fields[1..], self)
  }

  /** Bytes still to come when `bits` wait in the open octet. */
  ghost function Pending(bits: seq<bool>, fields: seq<Field>, self: Record): seq<Byte>
    requires Fits(fields, self)
    decreases |fields|
  {
    var flush := if bits == [] then [] else BeBytes(OctetOf(bits), 1);
    if fields == [] then flush
    else
      assert fields[0] in fields;
      var v := self[fields[0].name];
      if fields[0].kind.Bit? then Pending(bits + [v.b], fields[1..], self)
      else flush + (FieldBytes(fields[0].kind, v) + Pending([], fields[1..], self))
  }

  lemma PendingStops(bits: seq<bool>, fields: seq<Field>, self: Record)
    requires Fits(fields, self) && BitRun(fields) == 0
    ensures Pending(bits, fields, self) ==
            (if bits == [] then [] else BeBytes(OctetOf(bits), 1)) + Pending([], fields, self)
  {
    hide OctetOf, BeBytes, FieldBytes, HasType;
  }

  lemma PendingBit(bits: seq<bool>, fields: seq<Field>, self: Record)
    requires Fits(fields, self) && BitRun(fields) > 0
    ensures fields[0] in fields && Fits(fields[1..], self) && self[fields[0].name].Bool?
    ensures Pending(bits, fields, self) == Pending(bits + [self[fields[0].name].b], fields[1..], self)
    ensures BitRun(fields) == 1 + BitRun(fields[1..])
  {
    hide OctetOf, BeBytes, FieldBytes;
    assert fields[0] in fields;
  }

  lemma {:induction false} PendingRun(bits: seq<bool>, fields: seq<Field>, self: Record)
    requires Fits(fields, self)
    ensures
      var n := BitRun(fields);
      Pending(bits, fields, self) ==
      (if bits == [] && n == 0 then [] else BeBytes(OctetOf(bits + BitValues(fields[..n], self)), 1))
      + Pending([], fields[n..], self)
    decreases |fields|
  {
    hide OctetOf, BeBytes, Pending, BitRun, BitValues;
    var n := BitRun(fields);
    if n == 0 {
      NoBitValues(bits, fields, self);
      assert fields[0..] == fields;
      PendingStops(bits, fields, self);
    } else {
      PendingBit(bits, fields, self);
      var v := self[fields[0].name].b;
      PendingRun(bits + [v], fields[1..], self);
      assert fields[1..][n - 1..] == fields[n..];
      FirstBitValue(fields, n, self);
      var later := BitValues(fields[1..][..n - 1], self);
      assert bits + [v] + later == bits + ([v] + later);
    }
  }

  lemma NoBitValues(bits: seq<bool>, fields: seq<Field>, self: Record)
    requires Fits(fields, self)
    ensures Fits(fields[..0], self) && bits + BitValues(fields[..0], self) == bits
  {
  }

  lemma FirstBitValue(fields: seq<Field>, n: nat, self: Record)
    requires Fits(fields, self) && 0 < n <= BitRun(fields)
    ensures fields[0] in fields
    ensures BitValues(fields[..n], self) == [self[fields[0].name].b] + BitValues(fields[1..][..n - 1], self)
  {
  }

  lemma {:induction false} RunThenFit(fields: seq<Field>, index: nat)
    requires RunsFit(fields, index) && index <= 8
    ensures index + BitRun(fields) <= 8
    ensures BitRun(fields) > 0 || fields == [] || RunsFit(fields, 0)
    ensures RunsFit(fields[BitRun(fields)..], 0)
  {
    if fields != [] && fields[0].kind.Bit? {
      RunThenFit(fields[1..], index + 1);
      assert fields[1..][BitRun(fields) - 1..] == fields[BitRun(fields)..];
    } else {
      assert fields[0..] == fields;
    }
  }

  lemma {:induction false} PendingIsWire(fields: seq<Field>, self: Record)
    requires Fits(fields, self) && RunsFit(fields, 0)
    ensures Pending([], fields, self) == Wire(fields, self)
    decreases |fields|
  {
    if fields != [] {
      if fields[0].kind.Bit? {
        var n := BitRun(fields);
        RunThenFit(fields, 0);
        PendingRun([], fields, self);
        PendingIsWire(fields[n..], self);
        var bits := BitValues(fields[..n], self);
        assert [] + bits == bits;
      } else {
        PendingIsWire(fields[1..], self);
      }
    }
  }

  // ---------- the encoder ----------

  ghost predicate OpenOctet(bitsets: map<nat, nat>, octets: nat, bits: seq<bool>)
  {
    && (forall k :: k in bitsets ==> k <= octets)
    && |bits| <= 8
    && (bits != [] ==> octets in bitsets && bitsets[octets] == OctetOf(bits))
  }

  lemma EncodeStep(s: EncodeStmt, rest: seq<EncodeStmt>, self: Record, st: EncoderState)
    ensures
      var step := StepEncode(s, self, st);
      RunEncode([s] + rest, self, st) ==
      if step.Ok? then RunEncode(rest, self, step.value) else Err(step.error)
  {
    assert ([s] + rest)[1..] == rest;
  }

  /** One field of the run: the octet now also holds its value. */
  lemma EncodeBit(fields: seq<Field>, octets: nat, bits: seq<bool>, v: bool, self: Record, st: EncoderState)
    returns (k: nat, next: EncoderState)
    requires fields != [] && fields[0].kind.Bit? && fields[0].name in self && self[fields[0].name] == Bool(v)
    requires OpenOctet(st.bitsets, octets, bits) && |bits| < 8
    ensures OpenOctet(next.bitsets, k, bits + [v]) && next.out == st.out
    ensures RunEncode(EncodeFrom(fields, octets, |bits|), self, st) ==
            RunEncode(EncodeFrom(fields[1..], k, |bits| + 1), self, next)
  {
    var name, rest := fields[0].name, fields[1..];
    SetNextBit(bits, v);
    var declared := st;
    k := octets;
    if bits == [] {
      k := octets + 1;
      declared := st.(bitsets := st.bitsets[k := 0]);
      EncodeStep(DeclareBitset(k), [SetBit(k, 0, name)] + EncodeFrom(rest, k, 1), self, st);
      assert EncodeFrom(fields, octets, 0) ==
             [DeclareBitset(k)] + ([SetBit(k, 0, name)] + EncodeFrom(rest, k, 1));
    }
    EncodeStep(SetBit(k, |bits|, name), EncodeFrom(rest, k, |bits| + 1), self, declared);
    next := declared.(bitsets := declared.bitsets[k := OctetOf(bits + [v])]);
  }

  /** Any other field: an open octet is flushed first. */
  lemma EncodeOther(fields: seq<Field>, octets: nat, bits: seq<bool>, self: Record, st: EncoderState)
    returns (next: EncoderState)
    requires fields != [] && !fields[0].kind.Bit?
    requires fields[0].name in self && HasType(fields[0].kind, self[fields[0].name])
    requires OpenOctet(st.bitsets, octets, bits)
    ensures next.bitsets == st.bitsets
    ensures next.out == st.out + (if bits == [] then [] else BeBytes(OctetOf(bits), 1))
                        + FieldBytes(fields[0].kind, self[fields[0].name])
    ensures RunEncode(EncodeFrom(fields, octets, |bits|), self, st) ==
            RunEncode(EncodeFrom(fields[1..], octets, 0), self, next)
  {
    var write := WriteField(fields[0].kind, fields[0].name);
    var tail := EncodeFrom(fields[1..], octets, 0);
    var flushed := st;
    if bits == [] {
      assert EncodeFrom(fields, octets, 0) == [write] + tail;
    } else {
      flushed := st.(out := st.out + BeBytes(OctetOf(bits), 1));
      assert EncodeFrom(fields, octets, |bits|) == [WriteBitset(octets)] + ([write] + tail);
      EncodeStep(WriteBitset(octets), [write] + tail, self, st);
    }
    EncodeStep(write, tail, self, flushed);
    next := flushed.(out := flushed.out + FieldBytes(fields[0].kind, self[fields[0].name]));
  }

  ghost predicate Encodes(r: Result<EncoderState, Fault>, fits: bool, out: seq<Byte>)
  {
    if fits then r.Ok? && r.value.out == out else r == Err(BitIndexOutOfRange)
  }

  lemma EncodeEnd(octets: nat, bits: seq<bool>, self: Record, st: EncoderState)
    requires OpenOctet(st.bitsets, octets, bits)
    ensures Encodes(RunEncode(EncodeFrom([], octets, |bits|), self, st), true,
                    st.out + Pending(bits, [], self))
  {
    if bits != [] {
      EncodeStep(WriteBitset(octets), [], self, st);
      assert [WriteBitset(octets)] + [] == [WriteBitset(octets)];
    } else {
      assert st.out + [] == st.out;
    }
  }

  lemma EncodeNinthBit(fields: seq<Field>, octets: nat, self: Record, st: EncoderState)
    requires fields != [] && fields[0].kind.Bit? && fields[0].name in self && octets in st.bitsets
    ensures RunEncode(EncodeFrom(fields, octets, 8), self, st) == Err(BitIndexOutOfRange)
  {
    EncodeStep(SetBit(octets, 8, fields[0].name), EncodeFrom(fields[1..], octets, 9), self, st);
  }

  lemma {:induction false} EncoderMeaning(
      fields: seq<Field>, octets: nat, bits: seq<bool>, self: Record, st: EncoderState)
    requires Fits(fields, self)
    requires OpenOctet(st.bitsets, octets, bits)
    ensures Encodes(RunEncode(EncodeFrom(fields, octets, |bits|), self, st), RunsFit(fields, |bits|),
                    st.out + Pending(bits, fields, self))
    decreases |fields|
  {
    if fields == [] {
      EncodeEnd(octets, bits, self, st);
    } else {
      assert fields[0] in fields;
      var rest := fields[1..];
      if !fields[0].kind.Bit? {
        var next := EncodeOther(fields, octets, bits, self, st);
        EncoderMeaning(rest, octets, [], self, next);
        var flush := if bits == [] then [] else BeBytes(OctetOf(bits), 1);
        Associate(st.out, flush, FieldBytes(fields[0].kind, self[fields[0].name]), Pending([], rest, self));
      } else if |bits| < 8 {
        var v := self[fields[0].name].b;
        var k, next := EncodeBit(fields, octets, bits, v, self, st);
        EncoderMeaning(rest, k, bits + [v], self, next);
      } else {
        EncodeNinthBit(fields, octets, self, st);
      }
    }
  }

  lemma Associate<T>(a: seq<T>, b: seq<T>, c: seq<T>, d: seq<T>)
    ensures a + b + c + d == a + (b + (c + d))
  {
  }

  /** The emitted encoder writes the standard's layout exactly when no nine consecutive fields are bits. */
  lemma EncoderWritesTheWire(fields: seq<Field>, self: Record)
    requires Fits(fields, self)
    ensures
      var r := Encoded(EncodeFrom(fields, 0, 0), self);
      if ShortRuns(fields) then r == Ok(Wire(fields, self)) else r == Err(BitIndexOutOfRange)
  {
    FitsExactlyWhenShort(fields);
    EncoderMeaning(fields, 0, [], self, EncoderState(map[], []));
    assert [] + Pending([], fields, self) == Pending([], fields, self);
    if RunsFit(fields, 0) {
      PendingIsWire(fields, self);
    }
  }

  // ---------- the decoder ----------

  ghost predicate Unbound(fields: seq<Field>, consts: Record)
  {
    DistinctNames(fields) && forall f :: f in fields ==> f.name !in consts
  }

  lemma UnboundRest(fields: seq<Field>, consts: Record, v: Value)
    requires fields != [] && Unbound(fields, consts)
    ensures Unbound(fields[1..], consts[fields[0].name := v])
  {
    var rest := fields[1..];
    forall i, j | 0 <= i < j < |rest| ensures rest[i].name != rest[j].name {
      assert fields[i + 1].name != fields[j + 1].name;
    }
    forall g | g in rest ensures g.name !in consts[fields[0].name := v] {
      var j :| 0 <= j < |rest| && rest[j] == g;
      assert fields[0].name != fields[j + 1].name;
      assert fields[j + 1] in fields;
    }
  }

  lemma NamesRest(fields: seq<Field>)
    requires fields != []
    ensures Names(fields) == {fields[0].name} + Names(fields[1..])
  {
    assert forall g :: g in fields <==> g == fields[0] || g in fields[1..] by {
      assert fields == [fields[0]] + fields[1..];
    }
  }

  lemma ViewRest(fields: seq<Field>, self: Record, consts: Record)
    requires fields != [] && Fits(fields, self) && Unbound(fields, consts)
    ensures fields[0] in fields && Fits(fields[1..], self)
    ensures consts[fields[0].name := Received(self[fields[0].name])] + View(fields[1..], self)
            == consts + View(fields, self)
  {
    var f, rest := fields[0], fields[1..];
    NamesRest(fields);
    assert View(fields, self) == map[f.name := Received(self[f.name])] + View(rest, self);
    UpdateThenAdd(consts, f.name, Received(self[f.name]), View(rest, self));
  }

  lemma UpdateThenAdd<K, V>(m: map<K, V>, k: K, v: V, more: map<K, V>)
    ensures m[k := v] + more == m + (map[k := v] + more)
  {
  }

  /** The octet holds the coming bits of this run from position `index` on. */
  ghost predicate OctetHolds(octet: nat, index: nat, fields: seq<Field>, self: Record)
    requires Fits(fields, self)
  {
    forall k {:trigger fields[k]} :: 0 <= k < BitRun(fields) ==>
      assert fields[k] in fields;
      IsSet(octet, index + k) == self[fields[k].name].b
  }

  lemma OctetHoldsRun(fields: seq<Field>, self: Record)
    requires Fits(fields, self)
    ensures OctetHolds(OctetOf(BitValues(fields[..BitRun(fields)], self)), 0, fields, self)
  {
    var n := BitRun(fields);
    var bits := BitValues(fields[..n], self);
    forall k | 0 <= k < n
      ensures fields[k] in fields && IsSet(OctetOf(bits), k) == self[fields[k].name].b
    {
      OctetBit(bits, k);
      assert fields[..n][k] == fields[k];
    }
  }

  lemma OctetHoldsRest(octet: nat, index: nat, fields: seq<Field>, self: Record)
    requires Fits(fields, self) && BitRun(fields) > 0
    requires OctetHolds(octet, index, fields, self)
    ensures IsSet(octet, index) == (assert fields[0] in fields; self[fields[0].name].b)
    ensures OctetHolds(octet, index + 1, fields[1..], self)
  {
    forall k | 0 <= k < BitRun(fields[1..])
      ensures fields[1..][k] in fields && IsSet(octet, index + 1 + k) == self[fields[1..][k].name].b
    {
      assert fields[1..][k] == fields[k + 1];
      assert IsSet(octet, index + (k + 1)) == self[fields[k + 1].name].b;
    }
  }

  lemma DecodeStep(s: DecodeStmt, rest: seq<DecodeStmt>, st: DecoderState)
    ensures
      var step := StepDecode(s, st);
      RunDecode([s] + rest, st) ==
      if step.Ok? then RunDecode(rest, step.value) else Err(step.error)
  {
    assert ([s] + rest)[1..] == rest;
  }

  /**
   What the decoder knows before reading `fields`: the constants are unbound, and inside a run
   the open octet holds the coming bits and the input goes on after the run.
   */
  ghost predicate Ready(
      fields: seq<Field>, octets: nat, index: nat, self: Record, st: DecoderState, suffix: seq<Byte>)
  {
    && Fits(fields, self) && Unbound(fields, st.consts)
    && index <= 8 && RunsFit(fields, index)
    && (forall k :: k in st.bitsets ==> k <= octets)
    && (index > 0 ==>
          && octets in st.bitsets
          && OctetHolds(st.bitsets[octets], index, fields, self)
          && st.input == Pending([], fields[BitRun(fields)..], self) + suffix)
    && (index == 0 ==> st.input == Pending([], fields, self) + suffix)
  }

  /** Opening a run of bits: one octet is read and it holds the whole run. */
  lemma DecodeRunOctet(fields: seq<Field>, octets: nat, self: Record, st: DecoderState, suffix: seq<Byte>)
    returns (next: DecoderState)
    requires fields != [] && fields[0].kind.Bit? && Ready(fields, octets, 0, self, st, suffix)
    ensures StepDecode(ReadBitset(octets + 1), st) == Ok(next)
    ensures next.consts == st.consts
    ensures octets + 1 in next.bitsets && forall k :: k in next.bitsets ==> k <= octets + 1
    ensures OctetHolds(next.bitsets[octets + 1], 0, fields, self)
    ensures next.input == Pending([], fields[BitRun(fields)..], self) + suffix
  {
    hide OctetOf, BeBytes, BeValue, Pending, OctetHolds, RunsFit, Unbound, BitValues, Pow256, ReadInt;
    var n := BitRun(fields);
    var bits := BitValues(fields[..n], self);
    RunThenFit(fields, 0);
    PendingRun([], fields, self);
    assert [] + bits == bits;
    var later := Pending([], fields[n..], self) + suffix;
    assert st.input == BeBytes(OctetOf(bits), 1) + later;
    BitRunOctet(fields, self);
    ReadIntWritten(OctetOf(bits), 1, later);
    OctetHoldsRun(fields, self);
    next := st.(bitsets := st.bitsets[octets + 1 := OctetOf(bits)], input := later);
  }

  lemma BitRunOctet(fields: seq<Field>, self: Record)
    requires Fits(fields, self) && BitRun(fields) <= 8
    ensures OctetOf(BitValues(fields[..BitRun(fields)], self)) < Pow256(1)
  {
    OctetBound(BitValues(fields[..BitRun(fields)], self), 8);
    Pow256Values();
  }

  /** The first bit of a run: its octet is opened before the bit is read. */
  lemma DecodeRunStart(fields: seq<Field>, octets: nat, self: Record, st: DecoderState, suffix: seq<Byte>)
    returns (holder: DecoderState)
    requires fields != [] && fields[0].kind.Bit? && Ready(fields, octets, 0, self, st, suffix)
    ensures holder.consts == st.consts
    ensures octets + 1 in holder.bitsets && forall k :: k in holder.bitsets ==> k <= octets + 1
    ensures OctetHolds(holder.bitsets[octets + 1], 0, fields, self)
    ensures holder.input == Pending([], fields[BitRun(fields)..], self) + suffix
    ensures RunDecode(DecodeFrom(fields, octets, 0), st) ==
            RunDecode([ReadBit(fields[0].name, octets + 1, 0)] + DecodeFrom(fields[1..], octets + 1, 1), holder)
  {
    hide DecodeFrom, RunDecode, Pending, OctetHolds, Unbound, BitRun, RunsFit, StepDecode;
    var k, name := octets + 1, fields[0].name;
    var later := DecodeFrom(fields[1..], k, 1);
    assert fields[0..] == fields;
    DecodeFromNext(fields, 0, octets, 0);
    holder := DecodeRunOctet(fields, octets, self, st, suffix);
    DecodeStep(ReadBitset(k), [ReadBit(name, k, 0)] + later, st);
    assert [ReadBitset(k), ReadBit(name, k, 0)] + later == [ReadBitset(k)] + ([ReadBit(name, k, 0)] + later);
  }

  lemma DecodeBit(fields: seq<Field>, octets: nat, index: nat, self: Record, st: DecoderState, suffix: seq<Byte>)
    returns (k: nat, next: DecoderState)
    requires fields != [] && fields[0].kind.Bit? && Ready(fields, octets, index, self, st, suffix)
    ensures fields[0] in fields
    ensures next.consts == st.consts[fields[0].name := Received(self[fields[0].name])]
    ensures Ready(fields[1..], k, index + 1, self, next, suffix)
    ensures RunDecode(DecodeFrom(fields, octets, index), st) ==
            RunDecode(DecodeFrom(fields[1..], k, index + 1), next)
  {
    hide DecodeFrom, RunDecode, Pending, OctetHolds, Unbound, BitRun, ReadInt;
    var f, rest := fields[0], fields[1..];
    assert fields[0..] == fields;
    BitRunRest(fields, index, self);
    UnboundRest(fields, st.consts, Received(self[f.name]));
    DecodeFromNext(fields, 0, octets, index);
    var holder := st;
    k := octets;
    if index == 0 {
      k := octets + 1;
      holder := DecodeRunStart(fields, octets, self, st, suffix);
    }
    OctetHoldsRest(holder.bitsets[k], index, fields, self);
    NotBound(fields, st.consts);
    DecodeStep(ReadBit(f.name, k, index), DecodeFrom(rest, k, index + 1), holder);
    next := holder.(consts := st.consts[f.name := Received(self[f.name])]);
  }

  lemma BitRunRest(fields: seq<Field>, index: nat, self: Record)
    requires fields != [] && fields[0].kind.Bit? && Fits(fields, self) && RunsFit(fields, index) && index <= 8
    ensures fields[0] in fields && BitRun(fields) > 0 && index < 8
    ensures Fits(fields[1..], self) && RunsFit(fields[1..], index + 1)
    ensures fields[1..][BitRun(fields[1..])..] == fields[BitRun(fields)..]
  {
    hide HasType;
    assert fields[0] in fields;
  }

  lemma NotBound(fields: seq<Field>, consts: Record)
    requires fields != [] && Unbound(fields, consts)
    ensures fields[0].name !in consts
  {
    assert fields[0] in fields;
  }

  lemma OtherInput(fields: seq<Field>, index: nat, self: Record)
    requires fields != [] && !fields[0].kind.Bit? && Fits(fields, self) && RunsFit(fields, index)
    ensures fields[0] in fields && BitRun(fields) == 0
    ensures Fits(fields[1..], self) && RunsFit(fields[1..], 0)
    ensures Pending([], fields, self) ==
            FieldBytes(fields[0].kind, self[fields[0].name]) + Pending([], fields[1..], self)
  {
    hide FieldBytes, HasType, OctetOf;
    assert fields[0] in fields;
  }

  lemma DecodeOther(fields: seq<Field>, octets: nat, index: nat, self: Record, st: DecoderState, suffix: seq<Byte>)
    returns (next: DecoderState)
    requires fields != [] && !fields[0].kind.Bit? && Ready(fields, octets, index, self, st, suffix)
    ensures fields[0] in fields
    ensures next.consts == st.consts[fields[0].name := Received(self[fields[0].name])]
    ensures Ready(fields[1..], octets, 0, self, next, suffix)
    ensures RunDecode(DecodeFrom(fields, octets, index), st) ==
            RunDecode(DecodeFrom(fields[1..], octets, 0), next)
  {
    hide OctetOf, BeBytes, FieldBytes, ReadField, HasType, Pending, DecodeFrom, RunDecode, Unbound,
      Received, OctetHolds;
    var f, rest := fields[0], fields[1..];
    assert fields[0..] == fields;
    UnboundRest(fields, st.consts, Received(self[f.name]));
    NotBound(fields, st.consts);
    OtherInput(fields, index, self);
    var later := Pending([], rest, self) + suffix;
    assert st.input == FieldBytes(f.kind, self[f.name]) + later;
    FieldRoundTrip(f.kind, self[f.name], later);
    DecodeFromNext(fields, 0, octets, index);
    DecodeStep(ReadConst(f.name, f.kind), DecodeFrom(rest, octets, 0), st);
    next := st.(consts := st.consts[f.name := Received(self[f.name])], input := later);
  }

  lemma DecoderEnd(octets: nat, index: nat, self: Record, st: DecoderState, suffix: seq<Byte>)
    requires Ready([], octets, index, self, st, suffix)
    ensures Fits([], self) && st.consts + View([], self) == st.consts
    ensures RunDecode(DecodeFrom([], octets, index), st) == Ok(st) && st.input == suffix
  {
    assert View([], self) == map[];
    assert [] + suffix == suffix;
  }

  lemma {:induction false} DecoderMeaning(
      fields: seq<Field>, octets: nat, index: nat, self: Record, st: DecoderState, suffix: seq<Byte>)
    requires Ready(fields, octets, index, self, st, suffix)
    ensures
      var r := RunDecode(DecodeFrom(fields, octets, index), st);
      && r.Ok?
      && r.value.consts == st.consts + View(fields, self)
      && r.value.input == suffix
    decreases |fields|
  {
    hide RunDecode, DecodeFrom, View, Pending, RunsFit, OctetHolds, DistinctNames, Received, HasType;
    if fields == [] {
      DecoderEnd(octets, index, self, st, suffix);
    } else {
      ViewRest(fields, self, st.consts);
      if fields[0].kind.Bit? {
        var k, next := DecodeBit(fields, octets, index, self, st, suffix);
        DecoderMeaning(fields[1..], k, index + 1, self, next, suffix);
      } else {
        var next := DecodeOther(fields, octets, index, self, st, suffix);
        DecoderMeaning(fields[1..], octets, 0, self, next, suffix);
      }
    }
  }

  /**
   The round trip: whatever follows the method's arguments in the frame is left untouched.
   */
  lemma RoundTrip(fields: seq<Field>, self: Record, suffix: seq<Byte>)
    requires Fits(fields, self) && DistinctNames(fields) && ShortRuns(fields)
    ensures
      var r := Encoded(EncodeFrom(fields, 0, 0), self);
      && r.Ok?
      && Decoded(DecodeFrom(fields, 0, 0), r.value + suffix) == Ok((View(fields, self), suffix))
  {
    FitsExactlyWhenShort(fields);
    EncoderMeaning(fields, 0, [], self, EncoderState(map[], []));
    var st := DecoderState(map[], map[], Pending([], fields, self) + suffix);
    DecoderMeaning(fields, 0, 0, self, st, suffix);
    assert map[] + View(fields, self) == View(fields, self);
    assert [] + Pending([], fields, self) == Pending([], fields, self);
  }

  /** With a longer run the decoder accepts no input at all. */
  lemma {:induction false} LongRunRejects(fields: seq<Field>, octets: nat, index: nat, st: DecoderState)
    requires !RunsFit(fields, index)
    ensures RunDecode(DecodeFrom(fields, octets, index), st).Err?
    decreases |fields|
  {
    var prog := DecodeFrom(fields, octets, index);
    var rest := fields[1..];
    var step := StepDecode(prog[0], st);
    if step.Ok? {
      if fields[0].kind.Bit? && index == 0 {
        assert prog[1..][1..] == DecodeFrom(rest, octets + 1, 1);
        var second := StepDecode(prog[1..][0], step.value);
        if second.Ok? {
          LongRunRejects(rest, octets + 1, 1, second.value);
        }
      } else if fields[0].kind.Bit? {
        assert prog[1..] == DecodeFrom(rest, octets, index + 1);
        LongRunRejects(rest, octets, index + 1, step.value);
      } else {
        assert prog[1..] == DecodeFrom(rest, octets, 0);
        LongRunRejects(rest, octets, 0, step.value);
      }
    }
  }

  lemma DecoderNeedsShortRuns(fields: seq<Field>)
    ensures ShortRuns(fields) || forall input :: Decoded(DecodeFrom(fields, 0, 0), input).Err?
  {
    FitsExactlyWhenShort(fields);
    if !ShortRuns(fields) {
      forall input ensures Decoded(DecodeFrom(fields, 0, 0), input).Err? {
        LongRunRejects(fields, 0, 0, DecoderState(map[], map[], input));
      }
    }
  }

  // ---------- truncated frames ----------

  lemma StepExtends(s: DecodeStmt, st: DecoderState, more: seq<Byte>)
    ensures
      var r := StepDecode(s, st);
      r.Ok? ==> StepDecode(s, st.(input := st.input + more)) == Ok(r.value.(input := r.value.input + more))
  {
    if s.ReadBitset? {
      ReadIntExtends(st.input, 1, more);
    } else if s.ReadConst? && !s.kind.Bit? {
      var width := if s.kind in {ShortStr, LongStr, Table} then LengthWidth(s.kind) else IntWidth(s.kind);
      ReadIntExtends(st.input, width, more);
      var r := ReadInt(st.input, width);
      if r.Ok? && s.kind in {ShortStr, LongStr, Table} && r.value.0 <= |r.value.1| {
        var (n, rest) := r.value;
        assert (rest + more)[..n] == rest[..n];
        assert (rest + more)[n..] == rest[n..] + more;
      }
    }
  }

  lemma ReadIntExtends(input: seq<Byte>, width: nat, more: seq<Byte>)
    ensures
      var r := ReadInt(input, width);
      r.Ok? ==> ReadInt(input + more, width) == Ok((r.value.0, r.value.1 + more))
  {
    if width <= |input| {
      assert (input + more)[..width] == input[..width];
      assert (input + more)[width..] == input[width..] + more;
    }
  }

  lemma {:induction false} RunExtends(prog: seq<DecodeStmt>, st: DecoderState, more: seq<Byte>)
    ensures
      var r := RunDecode(prog, st);
      r.Ok? ==> RunDecode(prog, st.(input := st.input + more)) == Ok(r.value.(input := r.value.input + more))
    decreases |prog|
  {
    if prog != [] {
      StepExtends(prog[0], st, more);
      var step := StepDecode(prog[0], st);
      if step.Ok? {
        RunExtends(prog[1..], step.value, more);
      }
    }
  }

  /** Cutting an encoded method short anywhere is noticed: no proper prefix decodes. */
  lemma TruncationIsNoticed(fields: seq<Field>, self: Record, cut: nat)
    requires Fits(fields, self) && DistinctNames(fields) && ShortRuns(fields)
    requires cut < |Wire(fields, self)|
    ensures Decoded(DecodeFrom(fields, 0, 0), Wire(fields, self)[..cut]).Err?
  {
    hide Wire, RunDecode, DecodeFrom, EncodeFrom, Encoded, Fits, DistinctNames, ShortRuns;
    var wire := Wire(fields, self);
    EncoderWritesTheWire(fields, self);
    RoundTrip(fields, self, []);
    assert wire + [] == wire;
    var st := DecoderState(map[], map[], wire[..cut]);
    RunExtends(DecodeFrom(fields, 0, 0), st, wire[cut..]);
    assert wire[..cut] + wire[cut..] == wire;
  }

  // ---------- names ----------

  function BitsetsDeclared(prog: seq<EncodeStmt>): seq<nat>
  {
    if prog == [] then []
    else (if prog[0].DeclareBitset? then [prog[0].k] else []) + BitsetsDeclared(prog[1..])
  }

  function BitsetsFlushed(prog: seq<EncodeStmt>): seq<nat>
  {
    if prog == [] then []
    else (if prog[0].WriteBitset? then [prog[0].k] else []) + BitsetsFlushed(prog[1..])
  }

  function BitsetsRead(prog: seq<DecodeStmt>): seq<nat>
  {
    if prog == [] then []
    else (if prog[0].ReadBitset? then [prog[0].k] else []) + BitsetsRead(prog[1..])
  }

  /** Number of maximal runs of bits; a run already open is not counted. */
  function RunCount(fields: seq<Field>, open: bool): nat
  {
    if fields == [] then 0
    else if fields[0].kind.Bit? then (if open then 0 else 1) + RunCount(fields[1..], true)
    else RunCount(fields[1..], false)
  }

  /** [from + 1, ..., from + n] */
  function Numbered(from: nat, n: nat): seq<nat>
  {
    seq(n, i requires 0 <= i < n => from + 1 + i)
  }

  lemma NumberedFirst(from: nat, n: nat)
    requires n > 0
    ensures Numbered(from, n) == [from + 1] + Numbered(from + 1, n - 1)
  {
  }

  lemma NamesOfCons(s: EncodeStmt, rest: seq<EncodeStmt>)
    ensures BitsetsDeclared([s] + rest) == (if s.DeclareBitset? then [s.k] else []) + BitsetsDeclared(rest)
    ensures BitsetsFlushed([s] + rest) == (if s.WriteBitset? then [s.k] else []) + BitsetsFlushed(rest)
  {
    assert ([s] + rest)[1..] == rest;
  }

  lemma NamesOfOther(flush: bool, k: nat, kind: FieldType, name: string, tail: seq<EncodeStmt>)
    ensures
      var prog := (if flush then [WriteBitset(k), WriteField(kind, name)] else [WriteField(kind, name)]) + tail;
      && BitsetsDeclared(prog) == BitsetsDeclared(tail)
      && BitsetsFlushed(prog) == (if flush then [k] else []) + BitsetsFlushed(tail)
  {
    var write := WriteField(kind, name);
    NamesOfCons(write, tail);
    if flush {
      NamesOfCons(WriteBitset(k), [write] + tail);
      assert [WriteBitset(k), write] + tail == [WriteBitset(k)] + ([write] + tail);
    }
  }

  lemma NamesOfFirstBit(k: nat, name: string, tail: seq<EncodeStmt>)
    ensures
      var prog := [DeclareBitset(k), SetBit(k, 0, name)] + tail;
      && BitsetsDeclared(prog) == [k] + BitsetsDeclared(tail)
      && BitsetsFlushed(prog) == BitsetsFlushed(tail)
  {
    var bit0 := SetBit(k, 0, name);
    NamesOfCons(bit0, tail);
    NamesOfCons(DeclareBitset(k), [bit0] + tail);
    assert [DeclareBitset(k), bit0] + tail == [DeclareBitset(k)] + ([bit0] + tail);
  }

  lemma RunCountNext(fields: seq<Field>, open: bool)
    requires fields != []
    ensures RunCount(fields, open) ==
      if !fields[0].kind.Bit? then RunCount(fields[1..], false)
      else if open then RunCount(fields[1..], true)
      else 1 + RunCount(fields[1..], true)
  {
  }

  lemma NamesAtEnd(octets: nat, index: nat)
    ensures
      var prog := EncodeFrom([], octets, index);
      && BitsetsDeclared(prog) == [] == Numbered(octets, RunCount([], index > 0))
      && BitsetsFlushed(prog) == if index > 0 then [octets] else []
  {
    NamesOfCons(WriteBitset(octets), []);
    assert [WriteBitset(octets)] + [] == [WriteBitset(octets)];
  }

  lemma {:induction false} EncoderNames(fields: seq<Field>, octets: nat, index: nat)
    ensures
      var names := Numbered(octets, RunCount(fields, index > 0));
      && BitsetsDeclared(EncodeFrom(fields, octets, index)) == names
      && BitsetsFlushed(EncodeFrom(fields, octets, index)) == (if index > 0 then [octets] else []) + names
    decreases |fields|
  {
    hide BitsetsDeclared, BitsetsFlushed, EncodeFrom, RunCount, Numbered;
    if fields == [] {
      NamesAtEnd(octets, index);
    } else {
      var rest := fields[1..];
      assert fields[0..] == fields;
      EncodeFromNext(fields, 0, octets, index);
      RunCountNext(fields, index > 0);
      if !fields[0].kind.Bit? {
        EncoderNames(rest, octets, 0);
        NamesOfOther(index > 0, octets, fields[0].kind, fields[0].name, EncodeFrom(rest, octets, 0));
      } else if index > 0 {
        EncoderNames(rest, octets, index + 1);
        NamesOfCons(SetBit(octets, index, fields[0].name), EncodeFrom(rest, octets, index + 1));
      } else {
        EncoderNames(rest, octets + 1, 1);
        NumberedFirst(octets, RunCount(fields, false));
        NamesOfFirstBit(octets + 1, fields[0].name, EncodeFrom(rest, octets + 1, 1));
      }
    }
  }

  lemma ReadsOfCons(s: DecodeStmt, rest: seq<DecodeStmt>)
    ensures BitsetsRead([s] + rest) == (if s.ReadBitset? then [s.k] else []) + BitsetsRead(rest)
  {
    assert ([s] + rest)[1..] == rest;
  }

  lemma {:induction false} DecoderNames(fields: seq<Field>, octets: nat, index: nat)
    ensures BitsetsRead(DecodeFrom(fields, octets, index)) == Numbered(octets, RunCount(fields, index > 0))
    decreases |fields|
  {
    if fields != [] {
      var name, rest := fields[0].name, fields[1..];
      if !fields[0].kind.Bit? {
        DecoderNames(rest, octets, 0);
        ReadsOfCons(ReadConst(name, fields[0].kind), DecodeFrom(rest, octets, 0));
      } else if index > 0 {
        DecoderNames(rest, octets, index + 1);
        ReadsOfCons(ReadBit(name, octets, index), DecodeFrom(rest, octets, index + 1));
      } else {
        DecoderNames(rest, octets + 1, 1);
        NumberedFirst(octets, RunCount(fields, false));
        var bit0, tail := ReadBit(name, octets + 1, 0), DecodeFrom(rest, octets + 1, 1);
        ReadsOfCons(bit0, tail);
        ReadsOfCons(ReadBitset(octets + 1), [bit0] + tail);
        assert DecodeFrom(fields, octets, 0) == [ReadBitset(octets + 1)] + ([bit0] + tail);
      }
    }
  }

  /**
   The emitted names are bitset_1 to bitset_n, n the number of runs of bits, each declared
   once and flushed once, in order; the decoder reads as many.
   */
  lemma EachBitsetOnce(fields: seq<Field>)
    ensures
      var names := Numbered(0, RunCount(fields, false));
      && BitsetsDeclared(EncodeFrom(fields, 0, 0)) == names
      && BitsetsFlushed(EncodeFrom(fields, 0, 0)) == names
      && BitsetsRead(DecodeFrom(fields, 0, 0)) == names
  {
    EncoderNames(fields, 0, 0);
    DecoderNames(fields, 0, 0);
  }
}
