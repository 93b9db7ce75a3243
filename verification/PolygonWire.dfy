/**
 The polygon query request (src/clients/go/geo_client.go, QueryPolygon): a buffer written at a
 moving offset, and the decoder the layout of src/clients/c/arch_client.h asks for.
 */
module PolygonWire {
  import opened Wrappers
  import opened Bits
  import opened Bytes
  import opened Buffers

  /** A vertex in nanodegrees, as signed 64-bit numbers. */
  datatype Vertex = Vertex(lat: int, lon: int)

  datatype Filter = Filter(
    vertices: seq<Vertex>,
    holes: seq<seq<Vertex>>,
    limit: nat,
    timestampMin: nat,
    timestampMax: nat,
    groupId: seq<Byte>)

  datatype RequestError = LimitTooLarge | TooFewVertices | TooManyVertices | TooManyHoles | HoleTooSmall

  const QUERY_LIMIT_MAX: nat := 81_000
  const POLYGON_VERTICES_MAX: nat := 10_000
  const POLYGON_HOLES_MAX: nat := 100
  const HEADER_SIZE: nat := 128

  const WORD: int := 0x1_0000_0000_0000_0000
  const HALF: int := 0x8000_0000_0000_0000

  predicate Signed(n: int) { -HALF <= n < HALF }

  /** uint64 of an int64, and back. */
  function Unsigned(n: int): (u: nat)
    ensures 0 <= n < 0x1_0000_0000_0000_0000 ==> u == n
    ensures -0x1_0000_0000_0000_0000 <= n < 0 ==> u == n + 0x1_0000_0000_0000_0000
  {
    n % WORD
  }

  function SignedOf(u: nat): int { if u >= HALF then u - WORD else u }

  /** The widths Go's types give the fields. */
  ghost predicate WellTyped(f: Filter)
  {
    && (forall v :: v in f.vertices ==> Signed(v.lat) && Signed(v.lon))
    && (forall h, v :: h in f.holes && v in h ==> Signed(v.lat) && Signed(v.lon))
    && f.limit < Pow256(4) && f.timestampMin < Pow256(8) && f.timestampMax < Pow256(8)
    && |f.groupId| == 16
  }

  // ---------- the layout ----------

  function VertexBytes(v: Vertex): (bs: seq<Byte>)
    ensures |bs| == 16
  {
    LeBytes(Unsigned(v.lat), 8) + LeBytes(Unsigned(v.lon), 8)
  }

  function VerticesBytes(vs: seq<Vertex>): (bs: seq<Byte>)
    ensures |bs| == 16 * |vs|
  {
    if vs == [] then [] else VertexBytes(vs[0]) + VerticesBytes(vs[1..])
  }

  function DescriptorBytes(h: seq<Vertex>): (bs: seq<Byte>)
    ensures |bs| == 8
  {
    LeBytes(|h|, 4) + LeBytes(0, 4)
  }

  function DescriptorsBytes(hs: seq<seq<Vertex>>): (bs: seq<Byte>)
    ensures |bs| == 8 * |hs|
  {
    if hs == [] then [] else DescriptorBytes(hs[0]) + DescriptorsBytes(hs[1..])
  }

  function HolesBytes(hs: seq<seq<Vertex>>): (bs: seq<Byte>)
    ensures |bs| == 16 * TotalVertices(hs)
  {
    if hs == [] then [] else VerticesBytes(hs[0]) + HolesBytes(hs[1..])
  }

  function TotalVertices(hs: seq<seq<Vertex>>): nat
  {
    if hs == [] then 0 else |hs[0]| + TotalVertices(hs[1..])
  }

  function Header(f: Filter): (bs: seq<Byte>)
    requires |f.groupId| == 16
    ensures |bs| == HEADER_SIZE
  {
    LeBytes(|f.vertices|, 4) + LeBytes(|f.holes|, 4) + LeBytes(f.limit, 4) + LeBytes(0, 4)
    + LeBytes(f.timestampMin, 8) + LeBytes(f.timestampMax, 8) + f.groupId[..8] + Zeros(88)
  }

  function Layout(f: Filter): seq<Byte>
    requires |f.groupId| == 16
  {
    Header(f) + VerticesBytes(f.vertices) + DescriptorsBytes(f.holes) + HolesBytes(f.holes)
  }

  // ---------- the writer ----------

  predicate SmallHole(hs: seq<seq<Vertex>>)
  {
    exists k :: 0 <= k < |hs| && |hs[k]| < 3
  }

  function Refusal(f: Filter): Option<RequestError>
  {
    if f.limit > QUERY_LIMIT_MAX then Some(LimitTooLarge)
    else if |f.vertices| < 3 then Some(TooFewVertices)
    else if |f.vertices| > POLYGON_VERTICES_MAX then Some(TooManyVertices)
    else if |f.holes| > POLYGON_HOLES_MAX then Some(TooManyHoles)
    else if SmallHole(f.holes) then Some(HoleTooSmall)
    else None
  }

  /** What is refused, in the order of the checks. */
  lemma RefusedExactly(f: Filter)
    ensures Refusal(f) == Some(LimitTooLarge) <==> f.limit > 81_000
    ensures Refusal(f) == Some(TooFewVertices) <==> f.limit <= 81_000 && |f.vertices| < 3
    ensures Refusal(f) == Some(TooManyVertices) <==> f.limit <= 81_000 && |f.vertices| > 10_000
    ensures Refusal(f) == Some(TooManyHoles) <==>
      f.limit <= 81_000 && 3 <= |f.vertices| <= 10_000 && |f.holes| > 100
    ensures Refusal(f) == Some(HoleTooSmall) <==>
      && f.limit <= 81_000 && 3 <= |f.vertices| <= 10_000 && |f.holes| <= 100
      && exists h :: h in f.holes && |h| < 3
  {
    if h :| h in f.holes && |h| < 3 {
      var k :| 0 <= k < |f.holes| && f.holes[k] == h;
    }
  }

  method PutVertex(data: array<Byte>, offset: nat, v: Vertex)
    requires offset + 16 <= data.Length
    modifies data
    ensures data[..] == old(data[..offset]) + VertexBytes(v) + old(data[offset + 16..])
  {
    hide LeBytes;
    PutLittleEndian(data, offset, Unsigned(v.lat), 8);
    PutLittleEndian(data, offset + 8, Unsigned(v.lon), 8);
  }

  /** The first four header fields. */
  method PutCounts(data: array<Byte>, f: Filter)
    requires data.Length >= 16
    modifies data
    ensures data[..] == LeBytes(|f.vertices|, 4) + LeBytes(|f.holes|, 4) + LeBytes(f.limit, 4) + LeBytes(0, 4)
                        + old(data[16..])
  {
    hide LeBytes;
    PutLittleEndian(data, 0, |f.vertices|, 4);
    PutLittleEndian(data, 4, |f.holes|, 4);
    PutLittleEndian(data, 8, f.limit, 4);
    PutLittleEndian(data, 12, 0, 4);
  }

  /** The other fields; the rest of the header stays as it was. */
  method PutTimesAndGroup(data: array<Byte>, f: Filter)
    requires data.Length >= 40 && |f.groupId| == 16
    modifies data
    ensures data[..] == old(data[..16]) + LeBytes(f.timestampMin, 8) + LeBytes(f.timestampMax, 8)
                        + f.groupId[..8] + old(data[40..])
  {
    hide LeBytes;
    PutLittleEndian(data, 16, f.timestampMin, 8);
    PutLittleEndian(data, 24, f.timestampMax, 8);
    forall k | 0 <= k < 8 { data[32 + k] := f.groupId[k]; }
  }

  method PutHeader(data: array<Byte>, f: Filter)
    requires data.Length >= HEADER_SIZE && |f.groupId| == 16
    requires data[..] == Zeros(data.Length)
    modifies data
    ensures data[..HEADER_SIZE] == Header(f)
  {
    hide LeBytes;
    ghost var zero := data[..];
    PutCounts(data, f);
    assert data[40..] == zero[40..];
    PutTimesAndGroup(data, f);
    assert zero[40..HEADER_SIZE] == Zeros(88);
  }

  lemma {:induction false} VerticesSnoc(vs: seq<Vertex>, k: nat)
    requires k < |vs|
    ensures VerticesBytes(vs[..k + 1]) == VerticesBytes(vs[..k]) + VertexBytes(vs[k])
  {
    hide VertexBytes;
    if k == 0 {
      assert vs[..1] == [vs[0]] && vs[..0] == [] && vs[..1][1..] == [];
    } else {
      var rest := vs[1..];
      VerticesSnoc(rest, k - 1);
      assert vs[..k + 1][1..] == rest[..k] && vs[..k][1..] == rest[..k - 1];
      assert vs[..k + 1][0] == vs[0] && vs[..k][0] == vs[0];
    }
  }

  lemma {:induction false} DescriptorsSnoc(hs: seq<seq<Vertex>>, k: nat)
    requires k < |hs|
    ensures DescriptorsBytes(hs[..k + 1]) == DescriptorsBytes(hs[..k]) + DescriptorBytes(hs[k])
  {
    hide DescriptorBytes;
    if k == 0 {
      assert hs[..1] == [hs[0]] && hs[..0] == [] && hs[..1][1..] == [];
    } else {
      var rest := hs[1..];
      DescriptorsSnoc(rest, k - 1);
      assert hs[..k + 1][1..] == rest[..k] && hs[..k][1..] == rest[..k - 1];
      assert hs[..k + 1][0] == hs[0] && hs[..k][0] == hs[0];
    }
  }

  lemma {:induction false} HolesSnoc(hs: seq<seq<Vertex>>, k: nat)
    requires k < |hs|
    ensures HolesBytes(hs[..k + 1]) == HolesBytes(hs[..k]) + VerticesBytes(hs[k])
    ensures TotalVertices(hs[..k + 1]) == TotalVertices(hs[..k]) + |hs[k]|
  {
    hide VerticesBytes;
    if k == 0 {
      assert hs[..1] == [hs[0]] && hs[..0] == [] && hs[..1][1..] == [];
    } else {
      var rest := hs[1..];
      HolesSnoc(rest, k - 1);
      assert hs[..k + 1][1..] == rest[..k] && hs[..k][1..] == rest[..k - 1];
      assert hs[..k + 1][0] == hs[0] && hs[..k][0] == hs[0];
    }
  }

  lemma {:induction false} PartOfTotal(hs: seq<seq<Vertex>>, k: nat)
    requires k <= |hs|
    ensures TotalVertices(hs[..k]) + TotalVertices(hs[k..]) == TotalVertices(hs)
  {
    if k > 0 {
      PartOfTotal(hs[1..], k - 1);
      assert hs[..k][1..] == hs[1..][..k - 1] && hs[k..] == hs[1..][k - 1..];
    } else {
      assert hs[0..] == hs;
    }
  }

  /** Writes a list of vertices at the offset; the buffer before it is left alone. */
  method PutVertices(data: array<Byte>, start: nat, vs: seq<Vertex>) returns (offset: nat)
    requires start + 16 * |vs| <= data.Length
    modifies data
    ensures offset == start + 16 * |vs|
    ensures data[..offset] == old(data[..start]) + VerticesBytes(vs)
  {
    hide VertexBytes, VerticesBytes;
    offset := start;
    ghost var before := data[..start];
    NoVertices();
    for k := 0 to |vs|
      invariant offset == start + 16 * k
      invariant data[..offset] == before + VerticesBytes(vs[..k])
    {
      VerticesSnoc(vs, k);
      PutVertex(data, offset, vs[k]);
      offset := offset + 16;
    }
    assert vs[..|vs|] == vs;
  }

  lemma NoVertices()
    ensures forall vs: seq<Vertex> :: VerticesBytes(vs[..0]) == []
    ensures forall hs: seq<seq<Vertex>> :: DescriptorsBytes(hs[..0]) == [] && HolesBytes(hs[..0]) == []
    ensures forall hs: seq<seq<Vertex>> :: TotalVertices(hs[..0]) == 0
  {
  }

  method CountHoleVertices(holes: seq<seq<Vertex>>) returns (total: Option<nat>)
    ensures total == if SmallHole(holes) then None else Some(TotalVertices(holes))
  {
    var sum := 0;
    NoVertices();
    for k := 0 to |holes|
      invariant sum == TotalVertices(holes[..k])
      invariant forall l :: 0 <= l < k ==> |holes[l]| >= 3
    {
      if |holes[k]| < 3 {
        return None;
      }
      HolesSnoc(holes, k);
      sum := sum + |holes[k]|;
    }
    assert holes[..|holes|] == holes;
    return Some(sum);
  }

  /** Writes at a moving offset that stays in the buffer and ends at its computed size. */
  method Serialize(f: Filter) returns (r: Result<seq<Byte>, RequestError>)
    requires |f.groupId| == 16
    ensures r == match Refusal(f)
                 case Some(e) => Err(e)
                 case None => Ok(Layout(f))
  {
    hide VerticesBytes, VertexBytes, DescriptorsBytes, DescriptorBytes, HolesBytes, TotalVertices,
      Header, LeBytes, SmallHole;
    if f.limit > QUERY_LIMIT_MAX {
      return Err(LimitTooLarge);
    }
    if |f.vertices| < 3 {
      return Err(TooFewVertices);
    }
    if |f.vertices| > POLYGON_VERTICES_MAX {
      return Err(TooManyVertices);
    }
    if |f.holes| > POLYGON_HOLES_MAX {
      return Err(TooManyHoles);
    }
    var total := CountHoleVertices(f.holes);
    if total.None? {
      return Err(HoleTooSmall);
    }
    var totalSize := HEADER_SIZE + |f.vertices| * 16 + |f.holes| * 8 + total.value * 16;
    var data := new Byte[totalSize](_ => 0);
    assert data[..] == Zeros(totalSize);
    PutHeader(data, f);
    var offset := PutVertices(data, HEADER_SIZE, f.vertices);
    offset := PutDescriptors(data, offset, f.holes);
    offset := PutHoles(data, offset, f.holes);
    assert offset == totalSize && data[..offset] == data[..];
    return Ok(data[..]);
  }

  method PutDescriptors(data: array<Byte>, start: nat, holes: seq<seq<Vertex>>) returns (offset: nat)
    requires start + 8 * |holes| <= data.Length
    modifies data
    ensures offset == start + 8 * |holes|
    ensures data[..offset] == old(data[..start]) + DescriptorsBytes(holes)
  {
    hide LeBytes, DescriptorsBytes;
    offset := start;
    ghost var before := data[..start];
    NoVertices();
    for k := 0 to |holes|
      invariant offset == start + 8 * k
      invariant data[..offset] == before + DescriptorsBytes(holes[..k])
    {
      DescriptorsSnoc(holes, k);
      PutLittleEndian(data, offset, |holes[k]|, 4);
      PutLittleEndian(data, offset + 4, 0, 4);
      offset := offset + 8;
    }
    assert holes[..|holes|] == holes;
  }

  method PutHoles(data: array<Byte>, start: nat, holes: seq<seq<Vertex>>) returns (offset: nat)
    requires start + 16 * TotalVertices(holes) <= data.Length
    modifies data
    ensures offset == start + 16 * TotalVertices(holes)
    ensures data[..offset] == old(data[..start]) + HolesBytes(holes)
  {
    hide VerticesBytes, HolesBytes, TotalVertices;
    offset := start;
    ghost var before := data[..start];
    NoVertices();
    for k := 0 to |holes|
      invariant offset == start + 16 * TotalVertices(holes[..k])
      invariant offset <= data.Length
      invariant data[..offset] == before + HolesBytes(holes[..k])
    {
      HolesSnoc(holes, k);
      PartOfTotal(holes, k + 1);
      offset := PutVertices(data, offset, holes[k]);
    }
    assert holes[..|holes|] == holes;
  }

  // ---------- the reader ----------

  datatype Request = Request(
    vertices: seq<Vertex>,
    holes: seq<seq<Vertex>>,
    limit: nat,
    timestampMin: nat,
    timestampMax: nat,
    group: nat)

  /** What the request says: everything but the high half of the group id. */
  function Meaning(f: Filter): Request
    requires |f.groupId| == 16
  {
    Request(f.vertices, f.holes, f.limit, f.timestampMin, f.timestampMax, LeValue(f.groupId[..8]))
  }

  function ReadVertices(bs: seq<Byte>, n: nat): Option<(seq<Vertex>, seq<Byte>)>
  {
    if n == 0 then Some(([], bs))
    else if |bs| < 16 then None
    else
      match ReadVertices(bs[16..], n - 1)
      case None => None
      case Some((vs, rest)) =>
        Some(([Vertex(SignedOf(LeValue(bs[..8])), SignedOf(LeValue(bs[8..16])))] + vs, rest))
  }

  /** The vertex counts of the holes. */
  function ReadDescriptors(bs: seq<Byte>, n: nat): Option<(seq<nat>, seq<Byte>)>
  {
    if n == 0 then Some(([], bs))
    else if |bs| < 8 then None
    else
      match ReadDescriptors(bs[8..], n - 1)
      case None => None
      case Some((counts, rest)) => Some(([LeValue(bs[..4])] + counts, rest))
  }

  function ReadHoles(bs: seq<Byte>, counts: seq<nat>): Option<(seq<seq<Vertex>>, seq<Byte>)>
    decreases |counts|
  {
    if counts == [] then Some(([], bs))
    else
      match ReadVertices(bs, counts[0])
      case None => None
      case Some((h, rest)) =>
        match ReadHoles(rest, counts[1..])
        case None => None
        case Some((hs, rest')) => Some(([h] + hs, rest'))
  }

  /** Header, outer vertices, hole descriptors, hole vertices, and nothing after them. */
  function Decoded(bs: seq<Byte>): Option<Request>
  {
    if |bs| < HEADER_SIZE then None
    else
      match ReadVertices(bs[HEADER_SIZE..], LeValue(bs[0..4]))
      case None => None
      case Some((vertices, rest)) =>
        match ReadDescriptors(rest, LeValue(bs[4..8]))
        case None => None
        case Some((counts, rest')) =>
          match ReadHoles(rest', counts)
          case None => None
          case Some((holes, end)) =>
            if end != [] then None
            else Some(Request(vertices, holes, LeValue(bs[8..12]), LeValue(bs[16..24]), LeValue(bs[24..32]),
                              LeValue(bs[32..40])))
  }

  lemma SignedRoundTrip(n: int)
    requires Signed(n)
    ensures Unsigned(n) < WORD && SignedOf(Unsigned(n)) == n
  {
  }

  ghost predicate AllSigned(vs: seq<Vertex>)
  {
    forall v :: v in vs ==> Signed(v.lat) && Signed(v.lon)
  }

  lemma {:induction false} VerticesRead(vs: seq<Vertex>, rest: seq<Byte>)
    requires AllSigned(vs)
    ensures ReadVertices(VerticesBytes(vs) + rest, |vs|) == Some((vs, rest))
  {
    hide VertexBytes, LeValue, SignedOf, Signed;
    var bs := VerticesBytes(vs) + rest;
    if vs == [] {
      assert bs == rest;
    } else {
      var v, tail := vs[0], vs[1..];
      assert v in vs;
      VerticesRead(tail, rest);
      assert bs[..16] == VertexBytes(v) && bs[16..] == VerticesBytes(tail) + rest;
      VertexRead(bs, v);
      assert vs == [v] + tail;
    }
  }

  lemma VertexRead(bs: seq<Byte>, v: Vertex)
    requires |bs| >= 16 && bs[..16] == VertexBytes(v) && Signed(v.lat) && Signed(v.lon)
    ensures SignedOf(LeValue(bs[..8])) == v.lat && SignedOf(LeValue(bs[8..16])) == v.lon
  {
    hide LeBytes, LeValue;
    assert bs[..8] == bs[..16][..8] == LeBytes(Unsigned(v.lat), 8);
    assert bs[8..16] == bs[..16][8..16] == LeBytes(Unsigned(v.lon), 8);
    Pow256Values();
    SignedRoundTrip(v.lat);
    SignedRoundTrip(v.lon);
    LeValueOfBytes(Unsigned(v.lat), 8);
    LeValueOfBytes(Unsigned(v.lon), 8);
  }

  /** The 32 bits a descriptor keeps of a count. */
  function Count32(h: seq<Vertex>): nat
  {
    |h| % Pow256(4)
  }

  function Counts(hs: seq<seq<Vertex>>): (cs: seq<nat>)
    ensures |cs| == |hs|
  {
    seq(|hs|, k requires 0 <= k < |hs| => Count32(hs[k]))
  }

  lemma {:induction false} LeValueTruncates(v: nat, n: nat)
    ensures LeValue(LeBytes(v, n)) == v % Pow256(n)
  {
    if n > 0 {
      LeValueTruncates(v / 256, n - 1);
      assert LeBytes(v, n)[1..] == LeBytes(v / 256, n - 1);
      TruncateStep(v, Pow256(n - 1));
    }
  }

  lemma TruncateStep(v: nat, p: nat)
    requires p > 0
    ensures v % (256 * p) == 256 * ((v / 256) % p) + v % 256
  {
    var q, r := (v / 256) / p, (v / 256) % p;
    assert v / 256 == q * p + r;
    MulAssoc(q, 256, p);
    MulAssoc(256, q, p);
    DivModUnique(v, 256 * p, q, 256 * r + v % 256);
  }

  lemma {:induction false} DescriptorsRead(hs: seq<seq<Vertex>>, rest: seq<Byte>)
    ensures ReadDescriptors(DescriptorsBytes(hs) + rest, |hs|) == Some((Counts(hs), rest))
  {
    hide LeBytes, LeValue, Pow256;
    var bs := DescriptorsBytes(hs) + rest;
    if hs == [] {
      assert bs == rest && Counts(hs) == [];
    } else {
      var tail := hs[1..];
      DescriptorsRead(tail, rest);
      assert bs[..4] == LeBytes(|hs[0]|, 4) && bs[8..] == DescriptorsBytes(tail) + rest;
      LeValueTruncates(|hs[0]|, 4);
      assert Counts(hs) == [Count32(hs[0])] + Counts(tail);
    }
  }

  ghost predicate Countable(hs: seq<seq<Vertex>>)
  {
    forall k :: 0 <= k < |hs| ==> |hs[k]| < Pow256(4)
  }

  lemma {:induction false} HolesRead(hs: seq<seq<Vertex>>)
    requires Countable(hs) && forall k :: 0 <= k < |hs| ==> AllSigned(hs[k])
    ensures ReadHoles(HolesBytes(hs), Counts(hs)) == Some((hs, []))
  {
    hide Pow256, ReadVertices, VerticesBytes, AllSigned;
    if hs != [] {
      var tail := hs[1..];
      VerticesRead(hs[0], HolesBytes(tail));
      HolesRead(tail);
      ModSmall(|hs[0]|);
      assert Counts(hs)[1..] == Counts(tail);
      assert hs == [hs[0]] + tail;
    }
  }

  lemma ModSmall(n: nat)
    requires n < Pow256(4)
    ensures n % Pow256(4) == n
  {
    DivModUnique(n, Pow256(4), 0, n);
  }

  /** Holes read for given counts have those sizes. */
  lemma {:induction false} ReadSizes(bs: seq<Byte>, counts: seq<nat>)
    ensures
      var r := ReadHoles(bs, counts);
      r.Some? ==> |r.value.0| == |counts| && forall k :: 0 <= k < |counts| ==> |r.value.0[k]| == counts[k]
    decreases |counts|
  {
    if counts != [] {
      ReadCount(bs, counts[0]);
      var first := ReadVertices(bs, counts[0]);
      if first.Some? {
        ReadSizes(first.value.1, counts[1..]);
      }
    }
  }

  lemma {:induction false} ReadCount(bs: seq<Byte>, n: nat)
    ensures ReadVertices(bs, n).Some? ==> |ReadVertices(bs, n).value.0| == n
  {
    if n > 0 && |bs| >= 16 {
      ReadCount(bs[16..], n - 1);
    }
  }

  lemma HeaderRead(f: Filter, body: seq<Byte>)
    requires WellTyped(f) && |f.vertices| < Pow256(4) && |f.holes| < Pow256(4)
    ensures
      var bs := Header(f) + body;
      && LeValue(bs[0..4]) == |f.vertices| && LeValue(bs[4..8]) == |f.holes|
      && LeValue(bs[8..12]) == f.limit && LeValue(bs[16..24]) == f.timestampMin
      && LeValue(bs[24..32]) == f.timestampMax && bs[32..40] == f.groupId[..8]
      && bs[HEADER_SIZE..] == body
  {
    hide LeBytes, LeValue, Pow256;
    var bs := Header(f) + body;
    assert bs[0..4] == LeBytes(|f.vertices|, 4);
    assert bs[4..8] == LeBytes(|f.holes|, 4);
    assert bs[8..12] == LeBytes(f.limit, 4);
    assert bs[16..24] == LeBytes(f.timestampMin, 8);
    assert bs[24..32] == LeBytes(f.timestampMax, 8);
    assert bs[32..40] == f.groupId[..8];
    LeValueOfBytes(|f.vertices|, 4);
    LeValueOfBytes(|f.holes|, 4);
    LeValueOfBytes(f.limit, 4);
    LeValueOfBytes(f.timestampMin, 8);
    LeValueOfBytes(f.timestampMax, 8);
  }

  /**
   An accepted request decodes to what was asked, for any numbers of vertices and holes, exactly
   when every hole has fewer than 2^32 vertices: hole sizes are the one count never checked.
   */
  lemma RequestRoundTrip(f: Filter)
    requires WellTyped(f) && Refusal(f).None?
    ensures Decoded(Layout(f)) == Some(Meaning(f)) <==> Countable(f.holes)
  {
    hide LeValue, LeBytes, Pow256, ReadVertices, ReadDescriptors, ReadHoles, Header,
      VerticesBytes, DescriptorsBytes, HolesBytes;
    Pow256Values();
    var holes := HolesBytes(f.holes);
    var rest := DescriptorsBytes(f.holes) + holes;
    var body := VerticesBytes(f.vertices) + rest;
    assert Layout(f) == Header(f) + body;
    HeaderRead(f, body);
    VerticesRead(f.vertices, rest);
    DescriptorsRead(f.holes, holes);
    if Countable(f.holes) {
      HolesRead(f.holes);
    } else {
      ReadSizes(holes, Counts(f.holes));
      var k :| 0 <= k < |f.holes| && |f.holes[k]| >= Pow256(4);
      assert Counts(f.holes)[k] < Pow256(4);
    }
  }

  /** One hole of 2^32 vertices is accepted, and arrives as something else. */
  lemma HugeHoleIsLost()
    ensures
      var v := Vertex(0, 0);
      var f := Filter([v, v, v], [seq(0x1_0000_0000, _ => v)], 0, 0, 0, Zeros(16));
      Refusal(f).None? && Decoded(Layout(f)) != Some(Meaning(f))
  {
    hide Decoded, Layout, Meaning;
    var v := Vertex(0, 0);
    var f := Filter([v, v, v], [seq(0x1_0000_0000, _ => v)], 0, 0, 0, Zeros(16));
    Pow256Values();
    assert !Countable(f.holes) by {
      assert |f.holes[0]| == 0x1_0000_0000;
    }
    RequestRoundTrip(f);
  }

  // ---------- where each byte is ----------

  ghost predicate VertexAt(bs: seq<Byte>, at: nat, v: Vertex)
  {
    && at + 16 <= |bs|
    && LeValue(bs[at..at + 8]) == Unsigned(v.lat) && LeValue(bs[at + 8..at + 16]) == Unsigned(v.lon)
  }

  lemma VertexInPlace(v: Vertex)
    requires Signed(v.lat) && Signed(v.lon)
    ensures VertexAt(VertexBytes(v), 0, v)
  {
    hide LeBytes, LeValue;
    Pow256Values();
    LeValueOfBytes(Unsigned(v.lat), 8);
    LeValueOfBytes(Unsigned(v.lon), 8);
    assert VertexBytes(v)[0..8] == LeBytes(Unsigned(v.lat), 8);
    assert VertexBytes(v)[8..16] == LeBytes(Unsigned(v.lon), 8);
  }

  lemma VertexMoved(bs: seq<Byte>, at: nat, v: Vertex, big: seq<Byte>, shift: nat)
    requires VertexAt(bs, at, v) && shift + |bs| <= |big| && big[shift..shift + |bs|] == bs
    ensures VertexAt(big, shift + at, v)
  {
    hide LeValue, Unsigned;
    assert forall k :: 0 <= k < |bs| ==> bs[k] == big[shift + k];
    assert big[shift + at..shift + at + 8] == bs[at..at + 8];
    assert big[shift + at + 8..shift + at + 16] == bs[at + 8..at + 16];
  }

  lemma {:induction false} VerticesInPlace(vs: seq<Vertex>, k: nat)
    requires AllSigned(vs) && k < |vs|
    ensures VertexAt(VerticesBytes(vs), 16 * k, vs[k])
  {
    hide VertexAt, VertexBytes;
    assert vs[0] in vs;
    if k == 0 {
      VertexInPlace(vs[0]);
      VertexMoved(VertexBytes(vs[0]), 0, vs[0], VerticesBytes(vs), 0);
    } else {
      VerticesInPlace(vs[1..], k - 1);
      VertexMoved(VerticesBytes(vs[1..]), 16 * (k - 1), vs[k], VerticesBytes(vs), 16);
    }
  }

  ghost predicate CountAt(bs: seq<Byte>, at: nat, n: nat)
  {
    at + 8 <= |bs| && LeValue(bs[at..at + 4]) == n && bs[at + 4..at + 8] == [0, 0, 0, 0]
  }

  lemma CountMoved(bs: seq<Byte>, at: nat, n: nat, big: seq<Byte>, shift: nat)
    requires CountAt(bs, at, n) && shift + |bs| <= |big| && big[shift..shift + |bs|] == bs
    ensures CountAt(big, shift + at, n)
  {
    hide LeValue;
    assert forall k :: 0 <= k < |bs| ==> bs[k] == big[shift + k];
    assert big[shift + at..shift + at + 4] == bs[at..at + 4];
    assert big[shift + at + 4..shift + at + 8] == bs[at + 4..at + 8];
  }

  lemma CountInPlace(n: nat)
    requires n < 0x1_0000_0000
    ensures CountAt(LeBytes(n, 4) + LeBytes(0, 4), 0, n)
  {
    hide LeBytes, LeValue;
    Pow256Values();
    LeValueOfBytes(n, 4);
    FourZeros();
    var bs := LeBytes(n, 4) + LeBytes(0, 4);
    assert bs[0..4] == LeBytes(n, 4) && bs[4..8] == LeBytes(0, 4);
  }

  lemma {:induction false} DescriptorsInPlace(hs: seq<seq<Vertex>>, k: nat)
    requires Countable(hs) && k < |hs|
    ensures CountAt(DescriptorsBytes(hs), 8 * k, |hs[k]|)
  {
    hide CountAt, LeBytes, Pow256;
    Pow256Values();
    var bs := DescriptorsBytes(hs);
    if k == 0 {
      CountInPlace(|hs[0]|);
      CountMoved(LeBytes(|hs[0]|, 4) + LeBytes(0, 4), 0, |hs[0]|, bs, 0);
    } else {
      DescriptorsInPlace(hs[1..], k - 1);
      CountMoved(DescriptorsBytes(hs[1..]), 8 * (k - 1), |hs[k]|, bs, 8);
    }
  }

  lemma FourZeros()
    ensures LeBytes(0, 4) == [0, 0, 0, 0]
  {
    assert LeBytes(0, 1) == [0] && LeBytes(0, 2) == [0, 0] && LeBytes(0, 3) == [0, 0, 0];
  }

  lemma {:induction false} HolesInPlace(hs: seq<seq<Vertex>>, k: nat, l: nat)
    requires (forall h :: h in hs ==> AllSigned(h)) && k < |hs| && l < |hs[k]|
    ensures TotalVertices(hs[..k]) + l < TotalVertices(hs)
    ensures VertexAt(HolesBytes(hs), 16 * (TotalVertices(hs[..k]) + l), hs[k][l])
  {
    hide VertexAt, VerticesBytes, AllSigned;
    assert hs[0] in hs;
    if k == 0 {
      VerticesInPlace(hs[0], l);
      VertexMoved(VerticesBytes(hs[0]), 16 * l, hs[0][l], HolesBytes(hs), 0);
    } else {
      var tail := hs[1..];
      HolesInPlace(tail, k - 1, l);
      assert hs[..k][1..] == tail[..k - 1];
      VertexMoved(HolesBytes(tail), 16 * (TotalVertices(tail[..k - 1]) + l), hs[k][l], HolesBytes(hs), 16 * |hs[0]|);
    }
  }

  /**
   The bytes of a request by the offsets of the C structures: the header's fields, then from 128
   the outer vertices, then the hole descriptors, then the vertices of the holes one after the other.
   */
  lemma LayoutOffsets(f: Filter)
    requires WellTyped(f) && Countable(f.holes) && |f.vertices| < 0x1_0000_0000 && |f.holes| < 0x1_0000_0000
    ensures
      var bs, n, m := Layout(f), |f.vertices|, |f.holes|;
      && |bs| == 128 + 16 * n + 8 * m + 16 * TotalVertices(f.holes)
      && LeValue(bs[0..4]) == n && LeValue(bs[4..8]) == m && LeValue(bs[8..12]) == f.limit
      && bs[12..16] == [0, 0, 0, 0]
      && LeValue(bs[16..24]) == f.timestampMin && LeValue(bs[24..32]) == f.timestampMax
      && bs[32..40] == f.groupId[..8] && (forall k :: 40 <= k < 128 ==> bs[k] == 0)
      && (forall k :: 0 <= k < n ==> VertexAt(bs, 128 + 16 * k, f.vertices[k]))
      && (forall k :: 0 <= k < m ==> CountAt(bs, 128 + 16 * n + 8 * k, |f.holes[k]|))
      && (forall k, l :: 0 <= k < m && 0 <= l < |f.holes[k]| ==>
            VertexAt(bs, 128 + 16 * n + 8 * m + 16 * (TotalVertices(f.holes[..k]) + l), f.holes[k][l]))
  {
    hide LeValue, LeBytes, Pow256, VerticesBytes, DescriptorsBytes, HolesBytes, VertexAt, CountAt;
    hide TotalVertices, Header;
    Pow256Values();
    var bs, n, m := Layout(f), |f.vertices|, |f.holes|;
    var vertices, descriptors, holes := VerticesBytes(f.vertices), DescriptorsBytes(f.holes), HolesBytes(f.holes);
    var at, past := 128 + 16 * n, 128 + 16 * n + 8 * m;
    assert bs == Header(f) + (vertices + descriptors + holes);
    HeaderRead(f, vertices + descriptors + holes);
    HeaderZeros(f);
    assert bs[12..16] == Header(f)[12..16];
    assert bs[128..at] == vertices && bs[at..past] == descriptors && bs[past..] == holes;
    forall k | 0 <= k < n ensures VertexAt(bs, 128 + 16 * k, f.vertices[k]) {
      VerticesInPlace(f.vertices, k);
      VertexMoved(vertices, 16 * k, f.vertices[k], bs, 128);
    }
    forall k | 0 <= k < m ensures CountAt(bs, at + 8 * k, |f.holes[k]|) {
      DescriptorsInPlace(f.holes, k);
      CountMoved(descriptors, 8 * k, |f.holes[k]|, bs, at);
    }
    forall k, l | 0 <= k < m && 0 <= l < |f.holes[k]|
      ensures VertexAt(bs, past + 16 * (TotalVertices(f.holes[..k]) + l), f.holes[k][l])
    {
      HolesInPlace(f.holes, k, l);
      assert bs[past..past + |holes|] == holes;
      VertexMoved(holes, 16 * (TotalVertices(f.holes[..k]) + l), f.holes[k][l], bs, past);
    }
  }

  lemma HeaderZeros(f: Filter)
    requires |f.groupId| == 16
    ensures Header(f)[12..16] == [0, 0, 0, 0] && forall k :: 40 <= k < 128 ==> Header(f)[k] == 0
  {
    FourZeros();
    hide LeBytes;
    assert Header(f)[12..16] == LeBytes(0, 4);
  }
}
