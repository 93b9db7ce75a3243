/**
 The AMQP method codec generator (src/cdc/amqp/spec_parser.py): two loops that compile a list
 of fields into a straight-line encoder and a straight-line decoder, packing runs of
 consecutive `bit` fields into octets. The emitted lines are a datatype, and an interpreter
 gives them the meaning of the Encoder, Decoder and BitSetType(8) calls they print.
 */
module AmqpCodec {
  import opened Wrappers
  import opened Bytes
  import opened Bits

  datatype FieldType =
    ShortStr | LongStr | Bit | Octet | Short | Long | LongLong | Timestamp | Table

  datatype Field = Field(name: string, kind: FieldType)

  /** A struct member; `Null` is the absent `?Encoder.Body` or `?Encoder.Table`. */
  datatype Value = Bool(b: bool) | Int(n: nat) | Data(bytes: seq<Byte>) | Null

  type Record = map<string, Value>

  datatype Fault =
    | Redeclared | Undeclared | BitIndexOutOfRange | WrongType | BufferExhausted

  // ---------- single fields on the wire (src/cdc/amqp/protocol.zig) ----------

  function IntWidth(kind: FieldType): nat
  {
    match kind
    case Octet => 1
    case Short => 2
    case Long => 4
    case LongLong => 8
    case Timestamp => 8
    case _ => 0
  }

  predicate HasType(kind: FieldType, v: Value)
  {
    match kind
    case Bit => v.Bool?
    case ShortStr => v.Data? && |v.bytes| < Pow256(1)
    case LongStr => v.Null? || (v.Data? && |v.bytes| < Pow256(4))
    case Table => v.Null? || (v.Data? && |v.bytes| < Pow256(4))
    case _ => v.Int? && v.n < Pow256(IntWidth(kind))
  }

  /** What the peer sees: an absent string or table arrives as an empty one. */
  function Received(v: Value): Value
  {
    if v.Null? then Data([]) else v
  }

  function LengthWidth(kind: FieldType): nat
  {
    if kind == ShortStr then 1 else 4
  }

  function FieldBytes(kind: FieldType, v: Value): seq<Byte>
    requires !kind.Bit? && HasType(kind, v)
  {
    if v.Int? then BeBytes(v.n, IntWidth(kind))
    else
      var payload := Received(v).bytes;
      BeBytes(|payload|, LengthWidth(kind)) + payload
  }

  function ReadInt(input: seq<Byte>, width: nat): Result<(nat, seq<Byte>), Fault>
  {
    if |input| < width then Err(BufferExhausted)
    else Ok((BeValue(input[..width]), input[width..]))
  }

  function ReadField(kind: FieldType, input: seq<Byte>): Result<(Value, seq<Byte>), Fault>
    requires !kind.Bit?
  {
    if kind in {ShortStr, LongStr, Table} then
      match ReadInt(input, LengthWidth(kind))
      case Err(e) => Err(e)
      case Ok((n, rest)) =>
        if |rest| < n then Err(BufferExhausted) else Ok((Data(rest[..n]), rest[n..]))
    else
      match ReadInt(input, IntWidth(kind))
      case Err(e) => Err(e)
      case Ok((n, rest)) => Ok((Int(n), rest))
  }

  lemma ReadIntWritten(n: nat, width: nat, suffix: seq<Byte>)
    requires n < Pow256(width)
    ensures ReadInt(BeBytes(n, width) + suffix, width) == Ok((n, suffix))
  {
    BeValueOfBytes(n, width);
    assert (BeBytes(n, width) + suffix)[..width] == BeBytes(n, width);
    assert (BeBytes(n, width) + suffix)[width..] == suffix;
  }

  lemma FieldRoundTrip(kind: FieldType, v: Value, suffix: seq<Byte>)
    requires !kind.Bit? && HasType(kind, v)
    ensures ReadField(kind, FieldBytes(kind, v) + suffix) == Ok((Received(v), suffix))
  {
    hide BeBytes, BeValue, Pow256, ReadInt;
    if v.Int? {
      ReadIntWritten(v.n, IntWidth(kind), suffix);
    } else {
      var payload := Received(v).bytes;
      var head := BeBytes(|payload|, LengthWidth(kind));
      assert FieldBytes(kind, v) + suffix == head + (payload + suffix);
      ReadIntWritten(|payload|, LengthWidth(kind), payload + suffix);
      assert (payload + suffix)[..|payload|] == payload;
      assert (payload + suffix)[|payload|..] == suffix;
    }
  }

  /** The octets of each field type, as section 4.2.5 of AMQP 0-9-1 lays them out. */
  lemma FieldLayout(kind: FieldType, v: Value)
    requires !kind.Bit? && HasType(kind, v)
    ensures kind.ShortStr? ==> v.Data? && |v.bytes| < 256 && FieldBytes(kind, v) == [|v.bytes|] + v.bytes
    ensures kind.LongStr? || kind.Table? ==>
      var bs, payload := FieldBytes(kind, v), if v.Data? then v.bytes else [];
      (v.Null? || v.Data?) && |bs| == 4 + |payload| && BeValue(bs[..4]) == |payload| && bs[4..] == payload
    ensures kind.Octet? ==> v.Int? && FieldBytes(kind, v) == [v.n]
    ensures v.Int? ==>
      var bs := FieldBytes(kind, v);
      && BeValue(bs) == v.n
      && |bs| == match kind
                 case Octet => 1
                 case Short => 2
                 case Long => 4
                 case LongLong => 8
                 case Timestamp => 8
                 case _ => 0
  {
    Pow256Values();
    if v.Int? {
      BeValueOfBytes(v.n, IntWidth(kind));
      if kind.Octet? {
        OneOctet(v.n);
      }
    } else {
      var payload := Received(v).bytes;
      BeValueOfBytes(|payload|, LengthWidth(kind));
      if kind.ShortStr? {
        OneOctet(|payload|);
      }
    }
  }

  lemma OneOctet(n: nat)
    requires n < 256
    ensures BeBytes(n, 1) == [n]
  {
    assert BeBytes(n, 1) == BeBytes(n / 256, 0) + [n % 256];
  }

  // ---------- BitSetType(8) ----------

  function IsSet(bits: nat, index: nat): bool
  {
    if index == 0 then bits % 2 == 1 else IsSet(bits / 2, index - 1)
  }

  function SetValue(bits: nat, index: nat, v: bool): nat
  {
    if index == 0 then bits / 2 * 2 + (if v then 1 else 0)
    else bits % 2 + 2 * SetValue(bits / 2, index - 1, v)
  }

  /** Section 4.2.5.2 of AMQP 0-9-1: the first bit goes to the low end of the octet. */
  function OctetOf(bits: seq<bool>): (octet: nat)
  {
    if bits == [] then 0 else (if bits[0] then 1 else 0) + 2 * OctetOf(bits[1..])
  }

  lemma {:induction false} OctetBound(bits: seq<bool>, room: nat)
    requires |bits| <= room <= 8
    ensures OctetOf(bits) < Pow2(room) <= 256
  {
    if bits != [] {
      OctetBound(bits[1..], room - 1);
    }
    assert Pow2(8) == 2 * Pow2(7) && Pow2(7) == 2 * Pow2(6) && Pow2(6) == 2 * Pow2(5);
    if room < 8 {
      Pow2Monotone(room, 8);
    }
  }

  lemma {:induction false} SetNextBit(bits: seq<bool>, v: bool)
    ensures SetValue(OctetOf(bits), |bits|, v) == OctetOf(bits + [v])
  {
    if bits != [] {
      SetNextBit(bits[1..], v);
      assert (bits + [v])[1..] == bits[1..] + [v];
      assert OctetOf(bits) / 2 == OctetOf(bits[1..]);
    } else {
      assert ([] + [v])[1..] == [];
    }
  }

  /** Bit number n of the octet has weight 2^n. */
  lemma {:induction false} OctetWeights(bits: seq<bool>, v: bool)
    ensures OctetOf(bits + [v]) == OctetOf(bits) + if v then Pow2(|bits|) else 0
  {
    if bits == [] {
      assert ([] + [v])[1..] == [];
    } else {
      OctetWeights(bits[1..], v);
      assert (bits + [v])[1..] == bits[1..] + [v];
    }
  }

  lemma HalfOctet(bits: seq<bool>)
    requires bits != []
    ensures OctetOf(bits) / 2 == OctetOf(bits[1..]) && (OctetOf(bits) % 2 == 1 <==> bits[0])
  {
  }

  lemma {:induction false} OctetBit(bits: seq<bool>, i: nat)
    requires i < |bits|
    ensures IsSet(OctetOf(bits), i) == bits[i]
  {
    hide OctetOf;
    HalfOctet(bits);
    if i > 0 {
      OctetBit(bits[1..], i - 1);
    }
  }

  // ---------- emitted programs and their meaning ----------

  datatype EncodeStmt =
    | DeclareBitset(k: nat)
    | SetBit(k: nat, index: nat, field: string)
    | WriteBitset(k: nat)
    | WriteField(kind: FieldType, field: string)

  datatype DecodeStmt =
    | ReadBitset(k: nat)
    | ReadBit(field: string, k: nat, index: nat)
    | ReadConst(field: string, kind: FieldType)

  datatype EncoderState = EncoderState(bitsets: map<nat, nat>, out: seq<Byte>)

  datatype DecoderState =
    DecoderState(bitsets: map<nat, nat>, consts: Record, input: seq<Byte>)

  function StepEncode(s: EncodeStmt, self: Record, st: EncoderState): Result<EncoderState, Fault>
  {
    match s
    case DeclareBitset(k) =>
      if k in st.bitsets then Err(Redeclared) else Ok(st.(bitsets := st.bitsets[k := 0]))
    case SetBit(k, index, field) =>
      if k !in st.bitsets || field !in self then Err(Undeclared)
      else if index >= 8 then Err(BitIndexOutOfRange)
      else if !self[field].Bool? then Err(WrongType)
      else Ok(st.(bitsets := st.bitsets[k := SetValue(st.bitsets[k], index, self[field].b)]))
    case WriteBitset(k) =>
      if k !in st.bitsets then Err(Undeclared)
      else Ok(st.(out := st.out + BeBytes(st.bitsets[k], 1)))
    case WriteField(kind, field) =>
      if field !in self then Err(Undeclared)
      else if kind.Bit? || !HasType(kind, self[field]) then Err(WrongType)
      else Ok(st.(out := st.out + FieldBytes(kind, self[field])))
  }

  function RunEncode(prog: seq<EncodeStmt>, self: Record, st: EncoderState)
    : Result<EncoderState, Fault>
  {
    if prog == [] then Ok(st)
    else
      match StepEncode(prog[0], self, st)
      case Err(e) => Err(e)
      case Ok(next) => RunEncode(prog[1..], self, next)
  }

  function StepDecode(s: DecodeStmt, st: DecoderState): Result<DecoderState, Fault>
  {
    match s
    case ReadBitset(k) =>
      if k in st.bitsets then Err(Redeclared)
      else (
        match ReadInt(st.input, 1)
        case Err(e) => Err(e)
        case Ok((bits, rest)) => Ok(st.(bitsets := st.bitsets[k := bits], input := rest)))
    case ReadBit(field, k, index) =>
      if k !in st.bitsets then Err(Undeclared)
      else if field in st.consts then Err(Redeclared)
      else if index >= 8 then Err(BitIndexOutOfRange)
      else Ok(st.(consts := st.consts[field := Bool(IsSet(st.bitsets[k], index))]))
    case ReadConst(field, kind) =>
      if field in st.consts then Err(Redeclared)
      else if kind.Bit? then Err(WrongType)
      else (
        match ReadField(kind, st.input)
        case Err(e) => Err(e)
        case Ok((v, rest)) => Ok(st.(consts := st.consts[field := v], input := rest)))
  }

  function RunDecode(prog: seq<DecodeStmt>, st: DecoderState): Result<DecoderState, Fault>
  {
    if prog == [] then Ok(st)
    else
      match StepDecode(prog[0], st)
      case Err(e) => Err(e)
      case Ok(next) => RunDecode(prog[1..], next)
  }

  /** A whole encoder call: the bytes appended to an empty frame. */
  function Encoded(prog: seq<EncodeStmt>, self: Record): Result<seq<Byte>, Fault>
  {
    match RunEncode(prog, self, EncoderState(map[], []))
    case Err(e) => Err(e)
    case Ok(st) => Ok(st.out)
  }

  /** A whole decoder call: the struct returned and the bytes left over. */
  function Decoded(prog: seq<DecodeStmt>, input: seq<Byte>): Result<(Record, seq<Byte>), Fault>
  {
    match RunDecode(prog, DecoderState(map[], map[], input))
    case Err(e) => Err(e)
    case Ok(st) => Ok((st.consts, st.input))
  }

  // ---------- the generators ----------

  /** What remains to be emitted when `octets` bitsets exist and `index` bits of the last are used. */
  function EncodeFrom(fields: seq<Field>, octets: nat, index: nat): seq<EncodeStmt>
  {
    var flush := if index > 0 then [WriteBitset(octets)] else [];
    if fields == [] then flush
    else
      var f, rest := fields[0], fields[1..];
      if f.kind.Bit? then
        if index == 0 then
          [DeclareBitset(octets + 1), SetBit(octets + 1, 0, f.name)]
          + EncodeFrom(rest, octets + 1, 1)
        else [SetBit(octets, index, f.name)] + EncodeFrom(rest, octets, index + 1)
      else flush + [WriteField(f.kind, f.name)] + EncodeFrom(rest, octets, 0)
  }

  function DecodeFrom(fields: seq<Field>, octets: nat, index: nat): seq<DecodeStmt>
  {
    if fields == [] then []
    else
      var f, rest := fields[0], fields[1..];
      if f.kind.Bit? then
        if index == 0 then
          [ReadBitset(octets + 1), ReadBit(f.name, octets + 1, 0)]
          + DecodeFrom(rest, octets + 1, 1)
        else [ReadBit(f.name, octets, index)] + DecodeFrom(rest, octets, index + 1)
      else [ReadConst(f.name, f.kind)] + DecodeFrom(rest, octets, 0)
  }

  /** What one more field adds. */
  lemma EncodeFromNext(fields: seq<Field>, n: nat, octets: nat, index: nat)
    requires n < |fields|
    ensures
      var name, kind := fields[n].name, fields[n].kind;
      EncodeFrom(fields[n..], octets, index) ==
      if kind.Bit? && index == 0 then
        [DeclareBitset(octets + 1), SetBit(octets + 1, 0, name)] + EncodeFrom(fields[n + 1..], octets + 1, 1)
      else if kind.Bit? then [SetBit(octets, index, name)] + EncodeFrom(fields[n + 1..], octets, index + 1)
      else if index > 0 then [WriteBitset(octets), WriteField(kind, name)] + EncodeFrom(fields[n + 1..], octets, 0)
      else [WriteField(kind, name)] + EncodeFrom(fields[n + 1..], octets, 0)
  {
    assert fields[n..][0] == fields[n] && fields[n..][1..] == fields[n + 1..];
    var f := WriteField(fields[n].kind, fields[n].name);
    assert [WriteBitset(octets)] + [f] == [WriteBitset(octets), f];
    assert [] + [f] == [f];
  }

  lemma EncodeFromEnd(fields: seq<Field>, octets: nat, index: nat)
    ensures fields[0..] == fields
    ensures EncodeFrom(fields[|fields|..], octets, index) == if index > 0 then [WriteBitset(octets)] else []
  {
  }

  lemma EmitOne<S>(prog: seq<S>, s: S, rest: seq<S>)
    ensures prog + ([s] + rest) == prog + [s] + rest
  {
  }

  lemma EmitTwo<S>(prog: seq<S>, s: S, t: S, rest: seq<S>)
    ensures prog + ([s, t] + rest) == prog + [s] + [t] + rest
  {
  }

  method Encode(fields: seq<Field>) returns (prog: seq<EncodeStmt>)
    ensures prog == EncodeFrom(fields, 0, 0)
  {
    hide EncodeFrom;
    prog := [];
    var octets, index := 0, 0;
    EncodeFromEnd(fields, octets, index);
    for n := 0 to |fields|
      invariant octets >= 0 && index >= 0
      invariant prog + EncodeFrom(fields[n..], octets, index) == EncodeFrom(fields, 0, 0)
    {
      var f := fields[n];
      EncodeFromNext(fields, n, octets, index);
      if f.kind.Bit? {
        if index == 0 {
          octets := octets + 1;
          EmitTwo(prog, DeclareBitset(octets), SetBit(octets, 0, f.name), EncodeFrom(fields[n + 1..], octets, 1));
          prog := prog + [DeclareBitset(octets)];
        } else {
          EmitOne(prog, SetBit(octets, index, f.name), EncodeFrom(fields[n + 1..], octets, index + 1));
        }
        prog := prog + [SetBit(octets, index, f.name)];
        index := index + 1;
      } else {
        if index > 0 {
          EmitTwo(prog, WriteBitset(octets), WriteField(f.kind, f.name), EncodeFrom(fields[n + 1..], octets, 0));
          prog := prog + [WriteBitset(octets)];
        } else {
          EmitOne(prog, WriteField(f.kind, f.name), EncodeFrom(fields[n + 1..], octets, 0));
        }
        prog := prog + [WriteField(f.kind, f.name)];
        index := 0;
      }
    }
    EncodeFromEnd(fields, octets, index);
    if index > 0 {
      prog := prog + [WriteBitset(octets)];
    }
  }

  lemma DecodeFromNext(fields: seq<Field>, n: nat, octets: nat, index: nat)
    requires n < |fields|
    ensures
      var name, kind := fields[n].name, fields[n].kind;
      DecodeFrom(fields[n..], octets, index) ==
      if kind.Bit? && index == 0 then
        [ReadBitset(octets + 1), ReadBit(name, octets + 1, 0)] + DecodeFrom(fields[n + 1..], octets + 1, 1)
      else if kind.Bit? then [ReadBit(name, octets, index)] + DecodeFrom(fields[n + 1..], octets, index + 1)
      else [ReadConst(name, kind)] + DecodeFrom(fields[n + 1..], octets, 0)
  {
    assert fields[n..][0] == fields[n] && fields[n..][1..] == fields[n + 1..];
  }

  lemma DecodeFromEnd(fields: seq<Field>, octets: nat, index: nat)
    ensures fields[0..] == fields
    ensures DecodeFrom(fields[|fields|..], octets, index) == []
  {
  }

  method Decode(fields: seq<Field>) returns (prog: seq<DecodeStmt>)
    ensures prog == DecodeFrom(fields, 0, 0)
  {
    hide DecodeFrom;
    prog := [];
    var octets, index := 0, 0;
    DecodeFromEnd(fields, octets, index);
    for n := 0 to |fields|
      invariant octets >= 0 && index >= 0
      invariant prog + DecodeFrom(fields[n..], octets, index) == DecodeFrom(fields, 0, 0)
    {
      var f := fields[n];
      DecodeFromNext(fields, n, octets, index);
      if f.kind.Bit? {
        if index == 0 {
          octets := octets + 1;
          prog := prog + [ReadBitset(octets)];
        }
        prog := prog + [ReadBit(f.name, octets, index)];
        index := index + 1;
      } else {
        prog := prog + [ReadConst(f.name, f.kind)];
        index := 0;
      }
    }
    DecodeFromEnd(fields, octets, index);
  }
}
