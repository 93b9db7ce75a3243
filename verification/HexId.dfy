/**
 128-bit ids as hexadecimal strings and big integers (src/clients/go/pkg/types/main.go). An id
 is its 16 little-endian bytes.
 */
module HexId {
  import opened Wrappers
  import opened Bits
  import opened Bytes
  import opened Buffers

  datatype ParseError = TooLong | NotHex

  datatype NegativeValue = NegativeValue

  // ---------- hexadecimal digits (Go's encoding/hex) ----------

  const DIGITS: string := "0123456789abcdef"

  function Digit(n: nat): char
    requires n < 16
  {
    DIGITS[n]
  }

  predicate IsHex(c: char)
  {
    '0' <= c <= '9' || 'a' <= c <= 'f' || 'A' <= c <= 'F'
  }

  function DigitValue(c: char): (n: nat)
    requires IsHex(c)
    ensures n < 16
  {
    if '0' <= c <= '9' then c as int - '0' as int
    else if 'a' <= c <= 'f' then c as int - 'a' as int + 10
    else c as int - 'A' as int + 10
  }

  lemma DigitRoundTrip(n: nat)
    requires n < 16
    ensures IsHex(Digit(n)) && DigitValue(Digit(n)) == n
  {
  }

  /** The digits in order; capitals read as the others. */
  lemma DigitsInOrder(n: nat)
    requires n < 16
    ensures Digit(n) == "0123456789abcdef"[n]
    ensures forall c :: IsHex(c) <==> c in "0123456789abcdef" || c in "ABCDEF"
    ensures n >= 10 ==> DigitValue("ABCDEF"[n - 10]) == n
  {
    assert "0123456789abcdef" == ['0', '1', '2', '3', '4', '5', '6', '7', '8', '9', 'a', 'b', 'c', 'd', 'e', 'f'];
    assert "ABCDEF" == ['A', 'B', 'C', 'D', 'E', 'F'];
  }

  predicate AllHex(s: string)
  {
    forall k :: 0 <= k < |s| ==> IsHex(s[k])
  }

  /** The number a hexadecimal string denotes. */
  function Number(s: string): nat
    requires AllHex(s)
  {
    if s == [] then 0 else 16 * Number(s[..|s| - 1]) + DigitValue(s[|s| - 1])
  }

  /** hex.EncodeToString: two digits per byte, high one first. */
  function Encoded(bs: seq<Byte>): (s: string)
    ensures |s| == 2 * |bs|
  {
    if bs == [] then []
    else
      var b := bs[|bs| - 1];
      Encoded(bs[..|bs| - 1]) + [Digit(b / 16), Digit(b % 16)]
  }

  /** hex.Decode of an even number of digits. */
  function Decoded(s: string): (r: Result<seq<Byte>, ParseError>)
    requires |s| % 2 == 0
    ensures r.Ok? ==> 2 * |r.value| == |s|
  {
    if s == [] then Ok([])
    else if !IsHex(s[0]) || !IsHex(s[1]) then Err(NotHex)
    else
      match Decoded(s[2..])
      case Err(e) => Err(e)
      case Ok(rest) => Ok([16 * DigitValue(s[0]) + DigitValue(s[1])] + rest)
  }

  lemma NumberAppend(s: string, c: char)
    requires AllHex(s) && IsHex(c)
    ensures AllHex(s + [c]) && Number(s + [c]) == 16 * Number(s) + DigitValue(c)
  {
    assert (s + [c])[..|s|] == s;
  }

  lemma {:induction false} NumberOfEncoded(bs: seq<Byte>)
    ensures AllHex(Encoded(bs)) && Number(Encoded(bs)) == BeValue(bs)
  {
    if bs != [] {
      var init, b := bs[..|bs| - 1], bs[|bs| - 1];
      NumberOfEncoded(init);
      DigitRoundTrip(b / 16);
      DigitRoundTrip(b % 16);
      NumberAppend(Encoded(init), Digit(b / 16));
      NumberAppend(Encoded(init) + [Digit(b / 16)], Digit(b % 16));
      assert Encoded(bs) == Encoded(init) + [Digit(b / 16)] + [Digit(b % 16)];
    }
  }

  lemma {:induction false} EncodedDigits(bs: seq<Byte>)
    ensures forall c :: c in Encoded(bs) ==> c in DIGITS
  {
    if bs != [] {
      EncodedDigits(bs[..|bs| - 1]);
    }
  }

  // ---------- decoding reads the number ----------

  function Pow16(n: nat): (p: nat)
    ensures p >= 1
  {
    if n == 0 then 1 else 16 * Pow16(n - 1)
  }

  lemma {:induction false} NumberConcat(s: string, t: string)
    requires AllHex(s) && AllHex(t)
    ensures AllHex(s + t) && Number(s + t) == Number(s) * Pow16(|t|) + Number(t)
    decreases |t|
  {
    hide IsHex, DigitValue, Number, AllHex;
    if t == [] {
      NoDigits(s);
    } else {
      var init, c := t[..|t| - 1], t[|t| - 1];
      LastDigit(t);
      NumberConcat(s, init);
      assert s + t == (s + init) + [c] && t == init + [c];
      NumberAppend(s + init, c);
      NumberAppend(init, c);
      Scale16(Number(s), Pow16(|init|));
    }
  }

  lemma LastDigit(t: string)
    requires t != [] && AllHex(t)
    ensures IsHex(t[|t| - 1]) && AllHex(t[..|t| - 1])
  {
  }

  lemma NoDigits(s: string)
    requires AllHex(s)
    ensures s + [] == s && AllHex([]) && Number([]) == 0
  {
  }

  lemma Scale16(x: nat, p: nat)
    ensures 16 * (x * p) == x * (16 * p)
  {
  }

  lemma {:induction false} BeValueConcat(a: seq<Byte>, b: seq<Byte>)
    ensures BeValue(a + b) == BeValue(a) * Pow256(|b|) + BeValue(b)
    decreases |b|
  {
    if b == [] {
      assert a + b == a;
    } else {
      var init := b[..|b| - 1];
      BeValueConcat(a, init);
      assert (a + b)[..|a + b| - 1] == a + init;
      Scale256(BeValue(a), Pow256(|init|));
    }
  }

  lemma Scale256(x: nat, p: nat)
    ensures 256 * (x * p) == x * (256 * p)
  {
  }

  lemma {:induction false} PowersAgree(n: nat)
    ensures Pow16(2 * n) == Pow256(n)
  {
    if n > 0 {
      PowersAgree(n - 1);
      assert Pow16(2 * n) == 16 * Pow16(2 * n - 1) == 256 * Pow16(2 * (n - 1));
    }
  }

  lemma AllHexPair(s: string)
    requires |s| >= 2
    ensures AllHex(s) <==> IsHex(s[0]) && IsHex(s[1]) && AllHex(s[2..])
  {
    hide IsHex;
    var rest := s[2..];
    assert forall k :: 2 <= k < |s| ==> s[k] == rest[k - 2];
    assert forall k :: 0 <= k < |rest| ==> rest[k] == s[k + 2];
  }

  lemma PairNumber(a: char, b: char, rest: string, bs: seq<Byte>)
    requires IsHex(a) && IsHex(b) && AllHex(rest) && |rest| == 2 * |bs|
    requires BeValue(bs) == Number(rest)
    ensures AllHex([a, b] + rest)
    ensures BeValue([16 * DigitValue(a) + DigitValue(b)] + bs) == Number([a, b] + rest)
  {
    hide IsHex, DigitValue, AllHex, Number, BeValue, Pow16, Pow256;
    FirstPair(a, b);
    NumberConcat([a, b], rest);
    var high: Byte := 16 * DigitValue(a) + DigitValue(b);
    BeValueConcat([high], bs);
    OneByte(high);
    PowersAgree(|bs|);
  }

  lemma OneByte(b: Byte)
    ensures BeValue([b]) == b
  {
    assert [b][..0] == [];
  }

  /** Decoding succeeds exactly on hexadecimal digits, and keeps their number. */
  lemma {:induction false} DecodedIsNumber(s: string)
    requires |s| % 2 == 0
    ensures Decoded(s).Ok? <==> AllHex(s)
    ensures !AllHex(s) ==> Decoded(s) == Err(NotHex)
    ensures Decoded(s).Ok? ==> BeValue(Decoded(s).value) == Number(s)
  {
    hide IsHex, DigitValue;
    if s != [] {
      var rest := s[2..];
      DecodedIsNumber(rest);
      AllHexPair(s);
      if AllHex(s) {
        PairNumber(s[0], s[1], rest, Decoded(rest).value);
        assert s == [s[0], s[1]] + rest;
      }
    }
  }

  lemma FirstPair(a: char, b: char)
    requires IsHex(a) && IsHex(b)
    ensures AllHex([a, b]) && Number([a, b]) == 16 * DigitValue(a) + DigitValue(b)
  {
    hide DigitValue, IsHex, Number;
    OneDigit(a);
    NumberAppend([a], b);
    assert [a] + [b] == [a, b];
  }

  lemma OneDigit(c: char)
    requires IsHex(c)
    ensures AllHex([c]) && Number([c]) == DigitValue(c)
  {
    hide DigitValue, IsHex;
    assert [c][..0] == [];
    assert Number([]) == 0;
  }

  // ---------- printing ----------

  /** Leading zeros dropped, but for the last digit. */
  function Trimmed(s: string): string
    requires s != []
  {
    if |s| > 1 && s[0] == '0' then Trimmed(s[1..]) else s
  }

  lemma {:induction false} TrimmedNumber(s: string)
    requires s != [] && AllHex(s)
    ensures
      var t := Trimmed(s);
      && t != [] && |t| <= |s| && AllHex(t) && Number(t) == Number(s)
      && (|t| > 1 ==> t[0] != '0')
  {
    if |s| > 1 && s[0] == '0' {
      var rest := s[1..];
      assert AllHex(rest) by {
        assert forall k :: 0 <= k < |rest| ==> rest[k] == s[k + 1];
      }
      TrimmedNumber(rest);
      assert s == ['0'] + rest;
      NumberConcat(['0'], rest);
      assert Number(['0']) == 0 by { assert ['0'][..0] == []; }
      assert 0 * Pow16(|rest|) == 0;
    }
  }

  lemma {:induction false} TrimmedDigits(s: string)
    requires s != []
    ensures forall c :: c in Trimmed(s) ==> c in s
  {
    if |s| > 1 && s[0] == '0' {
      TrimmedDigits(s[1..]);
    }
  }

  function Text(value: seq<Byte>): string
    requires |value| == 16
  {
    Trimmed(Encoded(Reversed(value)))
  }

  method String(value: seq<Byte>) returns (text: string)
    requires |value| == 16
    ensures text == Text(value)
  {
    var bytes := new Byte[16](k requires 0 <= k < 16 => value[k]);
    assert bytes[..] == value && bytes[..16] == value;
    SwapEndian(bytes, 16);
    assert bytes[..] == Reversed(value);
    var s := Encoded(bytes[..]);
    var lastNonZero := 0;
    while s[lastNonZero] == '0' && lastNonZero < |s| - 1
      invariant 0 <= lastNonZero < |s|
      invariant Trimmed(s[lastNonZero..]) == Trimmed(s)
      decreases |s| - lastNonZero
    {
      assert s[lastNonZero..][1..] == s[lastNonZero + 1..];
      lastNonZero := lastNonZero + 1;
    }
    return s[lastNonZero..];
  }

  /** The string is the id's numeric value in base 16, without superfluous zeros. */
  lemma TextIsNumber(value: seq<Byte>)
    requires |value| == 16
    ensures
      var t := Text(value);
      && 0 < |t| <= 32 && AllHex(t) && Number(t) == LeValue(value)
      && (|t| > 1 ==> t[0] != '0')
      && (forall c :: c in t ==> c in "0123456789abcdef")
  {
    var big := Reversed(value);
    NumberOfEncoded(big);
    TrimmedNumber(Encoded(big));
    EncodedDigits(big);
    TrimmedDigits(Encoded(big));
    ReversedValue(big);
    assert Reversed(big) == value;
  }

  // ---------- parsing ----------

  function Padded(text: string): (s: string)
    ensures |s| % 2 == 0
  {
    if |text| % 2 == 1 then "0" + text else text
  }

  function Parsed(text: string): (r: Result<seq<Byte>, ParseError>)
    ensures r.Ok? ==> |r.value| == 16
  {
    if |text| > 32 then Err(TooLong)
    else
      match Decoded(Padded(text))
      case Err(e) => Err(e)
      case Ok(bs) => Ok(Reversed(bs) + Zeros(16 - |bs|))
  }

  method ReverseFront(bytes: array<Byte>, n: nat)
    requires n <= bytes.Length
    modifies bytes
    ensures bytes[..] == Reversed(old(bytes[..n])) + old(bytes[n..])
  {
    for i := 0 to n / 2
      invariant forall k :: 0 <= k < i ==> bytes[k] == old(bytes[n - 1 - k])
      invariant forall k :: n - i <= k < n ==> bytes[k] == old(bytes[n - 1 - k])
      invariant forall k :: i <= k < n - i ==> bytes[k] == old(bytes[k])
      invariant bytes[n..] == old(bytes[n..])
    {
      var j := n - 1 - i;
      bytes[i], bytes[j] := bytes[j], bytes[i];
    }
  }

  /** Decodes to the front of the buffer, then reverses just that part in place. */
  method HexStringToUint128(text: string) returns (r: Result<seq<Byte>, ParseError>)
    ensures r == Parsed(text)
  {
    hide Decoded, AllHex, IsHex, Reversed;
    if |text| > 32 {
      return Err(TooLong);
    }
    var value := text;
    if |value| % 2 == 1 {
      value := "0" + value;
    }
    var decoded := Decoded(value);
    if decoded.Err? {
      return Err(decoded.error);
    }
    var digits, nonZeroLen := decoded.value, |decoded.value|;
    var bytes := new Byte[16](k => if 0 <= k < nonZeroLen then digits[k] else 0);
    assert bytes[..nonZeroLen] == digits;
    assert bytes[nonZeroLen..] == Zeros(16 - nonZeroLen);
    ReverseFront(bytes, nonZeroLen);
    return Ok(bytes[..]);
  }

  lemma {:induction false} LeadingZero(text: string)
    ensures AllHex(Padded(text)) <==> AllHex(text)
    ensures AllHex(text) ==> Number(Padded(text)) == Number(text)
  {
    if |text| % 2 == 1 {
      var s := Padded(text);
      assert AllHex(s) ==> AllHex(text) by {
        assert forall k :: 0 <= k < |text| ==> text[k] == s[k + 1];
      }
      if AllHex(text) {
        NumberConcat("0", text);
        assert Number("0") == 0 by { assert "0"[..0] == []; }
        assert 0 * Pow16(|text|) == 0;
      }
    }
  }

  lemma PaddedValue(bs: seq<Byte>, n: nat)
    ensures LeValue(Reversed(bs) + Zeros(n)) == BeValue(bs)
  {
    hide Pow256, Reversed, LeValue, BeValue, Zeros;
    LeValueConcat(Reversed(bs), Zeros(n));
    ReversedValue(bs);
    ZerosValue(n);
  }

  /** Exactly the hexadecimal strings of at most 32 digits parse, to the number they denote. */
  lemma {:induction false} ParsedIsNumber(text: string)
    ensures Parsed(text).Ok? <==> |text| <= 32 && AllHex(text)
    ensures Parsed(text).Ok? ==> LeValue(Parsed(text).value) == Number(text)
    ensures |text| > 32 ==> Parsed(text) == Err(TooLong)
    ensures |text| <= 32 && !AllHex(text) ==> Parsed(text) == Err(NotHex)
  {
    hide Decoded, AllHex, Number, LeValue, BeValue, Pow256, Reversed, Zeros;
    if |text| <= 32 {
      var s := Padded(text);
      LeadingZero(text);
      DecodedIsNumber(s);
      if AllHex(text) {
        PaddedValue(Decoded(s).value, 16 - |Decoded(s).value|);
      }
    }
  }

  /** Printing and parsing are inverse, for every id. */
  lemma ParseOfPrint(value: seq<Byte>)
    requires |value| == 16
    ensures Parsed(Text(value)) == Ok(value)
  {
    TextIsNumber(value);
    ParsedIsNumber(Text(value));
    LeBytesOfValue(value);
    LeBytesOfValue(Parsed(Text(value)).value);
  }

  // ---------- big integers ----------

  /** big.Int.Bytes: big-endian, without leading zeros. */
  function MinimalBytes(v: nat): seq<Byte>
  {
    if v == 0 then [] else MinimalBytes(v / 256) + [v % 256]
  }

  method BigInt(value: seq<Byte>) returns (v: nat)
    requires |value| == 16
    ensures v == LeValue(value)
  {
    var bytes := new Byte[16](k requires 0 <= k < 16 => value[k]);
    assert bytes[..] == value && bytes[..16] == value;
    SwapEndian(bytes, 16);
    assert bytes[..] == Reversed(value);
    ReversedValue(Reversed(value));
    assert Reversed(Reversed(value)) == value;
    v := BeValue(bytes[..]);
  }

  /** A negative value panics; a value too large keeps its low 128 bits. */
  method BigIntToUint128(v: int) returns (r: Result<seq<Byte>, NegativeValue>)
    ensures v < 0 <==> r == Err(NegativeValue)
    ensures v >= 0 ==> r.Ok? && |r.value| == 16 && LeValue(r.value) == v % Pow256(16)
  {
    hide MinimalBytes, LeValue, BeValue, Pow256;
    if v < 0 {
      return Err(NegativeValue);
    }
    var big := MinimalBytes(v);
    var n := |big|;
    var bytes := new Byte[n](k requires 0 <= k < n => big[k]);
    assert bytes[..] == big && bytes[..n] == big;
    SwapEndian(bytes, n);
    assert bytes[..] == Reversed(big);
    MinimalValue(v);
    ReversedValue(big);
    if n >= 16 {
      LowBytes(bytes[..]);
      return Ok(bytes[..16]);
    } else {
      PaddedBytes(bytes[..], 16 - n);
      return Ok(bytes[..] + Zeros(16 - n));
    }
  }

  lemma PaddedBytes(bs: seq<Byte>, n: nat)
    ensures LeValue(bs + Zeros(n)) == LeValue(bs) == LeValue(bs) % Pow256(|bs| + n)
  {
    hide LeValue, Pow256;
    LeValueConcat(bs, Zeros(n));
    ZerosValue(n);
    LeValueBound(bs + Zeros(n));
    assert Pow256(|bs|) * 0 == 0;
    DivModUnique(LeValue(bs), Pow256(|bs| + n), 0, LeValue(bs));
  }

  lemma {:induction false} MinimalValue(v: nat)
    ensures BeValue(MinimalBytes(v)) == v
  {
    if v > 0 {
      MinimalValue(v / 256);
      assert MinimalBytes(v)[..|MinimalBytes(v)| - 1] == MinimalBytes(v / 256);
    }
  }

  /** The first sixteen little-endian bytes are the value modulo 2^128. */
  lemma LowBytes(bs: seq<Byte>)
    requires |bs| >= 16
    ensures LeValue(bs[..16]) == LeValue(bs) % Pow256(16)
  {
    hide LeValue, Pow256;
    assert bs == bs[..16] + bs[16..];
    LeValueConcat(bs[..16], bs[16..]);
    LeValueBound(bs[..16]);
    var p, high := Pow256(16), LeValue(bs[16..]);
    assert p * high == high * p;
    DivModUnique(LeValue(bs), p, high, LeValue(bs[..16]));
  }
}
