/**
 Batch lookup by id: the response parser (src/clients/go/geo_client.go) and the realignment of
 the found events with the requested ids (src/clients/node/src/geo_client.ts).
 */
module UuidBatch {
  import opened Wrappers
  import opened Bits
  import opened Bytes

  const HEADER_SIZE: nat := 16
  const EVENT_SIZE: nat := 128
  const BATCH_SIZE_MAX: nat := 10_000

  /** A GeoEvent as it is copied from the reply. */
  type Event = e: seq<Byte> | |e| == EVENT_SIZE witness seq(EVENT_SIZE, _ => 0)

  datatype BatchResult = BatchResult(found: nat, notFound: nat, notFoundIndices: seq<nat>, events: seq<Event>)

  /** `OutOfRange` is the run-time panic of a slice index. */
  datatype ReplyError = TooSmall | Truncated | OutOfRange

  datatype BatchTooLarge = BatchTooLarge

  function AlignUp(n: nat): (a: nat)
    ensures n <= a < n + 16 && a % 16 == 0
  {
    if n % 16 != 0 then n + (16 - n % 16) else n
  }

  function Found(reply: seq<Byte>): nat
    requires |reply| >= HEADER_SIZE
  {
    LeValue(reply[0..4])
  }

  function NotFound(reply: seq<Byte>): nat
    requires |reply| >= HEADER_SIZE
  {
    LeValue(reply[4..8])
  }

  /** The index area has room for every requested id; the sum of the counts is a uint32. */
  function EventsOffset(found: nat, notFound: nat): nat
  {
    AlignUp(HEADER_SIZE + (found + notFound) % Pow256(4) * 2)
  }

  function IndexAt(reply: seq<Byte>, i: nat): nat
    requires HEADER_SIZE + 2 * i + 2 <= |reply|
  {
    LeValue(reply[HEADER_SIZE + 2 * i..HEADER_SIZE + 2 * i + 2])
  }

  function Indices(reply: seq<Byte>, n: nat): (r: seq<nat>)
    requires HEADER_SIZE + 2 * n <= |reply|
    ensures |r| == n && forall i :: 0 <= i < n ==> r[i] == IndexAt(reply, i)
  {
    seq(n, i requires 0 <= i < n => IndexAt(reply, i))
  }

  function EventAt(reply: seq<Byte>, offset: nat, k: nat): Event
    requires offset + EVENT_SIZE * (k + 1) <= |reply|
  {
    reply[offset + EVENT_SIZE * k..offset + EVENT_SIZE * (k + 1)]
  }

  function Events(reply: seq<Byte>, offset: nat, n: nat): (r: seq<Event>)
    requires offset + EVENT_SIZE * n <= |reply|
    ensures |r| == n && forall k :: 0 <= k < n ==> r[k] == EventAt(reply, offset, k)
  {
    seq(n, k requires 0 <= k < n => EventAt(reply, offset, k))
  }

  function Parsed(reply: seq<Byte>): Result<BatchResult, ReplyError>
  {
    if reply == [] then Ok(BatchResult(0, 0, [], []))
    else if |reply| < HEADER_SIZE then Err(TooSmall)
    else
      var found, notFound := Found(reply), NotFound(reply);
      var offset := EventsOffset(found, notFound);
      if |reply| < offset + found * EVENT_SIZE then Err(Truncated)
      else if HEADER_SIZE + 2 * notFound > |reply| then Err(OutOfRange)
      else Ok(BatchResult(found, notFound, Indices(reply, notFound), Events(reply, offset, found)))
  }

  method ParseQueryUUIDBatchResponse(reply: seq<Byte>) returns (r: Result<BatchResult, ReplyError>)
    ensures r == Parsed(reply)
  {
    hide LeValue, Pow256, AlignUp;
    if |reply| == 0 {
      return Ok(BatchResult(0, 0, [], []));
    }
    if |reply| < HEADER_SIZE {
      return Err(TooSmall);
    }
    var foundCount, notFoundCount := LeValue(reply[0..4]), LeValue(reply[4..8]);
    var eventsOffset := EventsOffset(foundCount, notFoundCount);
    var eventsSize := foundCount * EVENT_SIZE;
    if |reply| < eventsOffset + eventsSize {
      return Err(Truncated);
    }
    var notFoundIndices: seq<nat> := [];
    for i := 0 to notFoundCount
      invariant HEADER_SIZE + 2 * i <= |reply|
      invariant notFoundIndices == Indices(reply, i)
    {
      var start := HEADER_SIZE + i * 2;
      if start + 2 > |reply| {
        return Err(OutOfRange);
      }
      notFoundIndices := notFoundIndices + [LeValue(reply[start..start + 2])];
    }
    var events := Events(reply, eventsOffset, foundCount);
    return Ok(BatchResult(foundCount, notFoundCount, notFoundIndices, events));
  }

  /** The index area is sized by the uint32 sum of the counts: only if it wraps is a read out of range. */
  lemma IndicesInRange(reply: seq<Byte>)
    requires |reply| >= HEADER_SIZE
    ensures Parsed(reply) == Err(OutOfRange) ==>
      && Pow256(4) <= Found(reply) + NotFound(reply)
      && EventsOffset(Found(reply), NotFound(reply)) + EVENT_SIZE * Found(reply) < HEADER_SIZE + 2 * NotFound(reply)
  {
    hide LeValue, Pow256;
    if Found(reply) + NotFound(reply) < Pow256(4) {
      DivModUnique(Found(reply) + NotFound(reply), Pow256(4), 0, Found(reply) + NotFound(reply));
    }
  }

  /** Conversely, for counts whose events end before their indices, some reply is read out of range. */
  lemma EventsBeforeIndices(found: nat, notFound: nat)
    requires found < Pow256(4) && notFound < Pow256(4)
    requires EventsOffset(found, notFound) + EVENT_SIZE * found < HEADER_SIZE + 2 * notFound
    ensures
      var end := EventsOffset(found, notFound) + EVENT_SIZE * found;
      var reply := LeBytes(found, 4) + LeBytes(notFound, 4) + Zeros(end - 8);
      Found(reply) == found && NotFound(reply) == notFound && Parsed(reply) == Err(OutOfRange)
  {
    hide LeValue, LeBytes, Pow256;
    var end := EventsOffset(found, notFound) + EVENT_SIZE * found;
    var reply := LeBytes(found, 4) + LeBytes(notFound, 4) + Zeros(end - 8);
    assert reply[0..4] == LeBytes(found, 4) && reply[4..8] == LeBytes(notFound, 4);
    LeValueOfBytes(found, 4);
    LeValueOfBytes(notFound, 4);
  }

  /** One found event and 2^32 - 1 missing ids are such counts; their sum is 0. */
  lemma CountsWrap()
    ensures
      var reply := LeBytes(1, 4) + LeBytes(0xFFFF_FFFF, 4) + Zeros(8 + EVENT_SIZE);
      Parsed(reply) == Err(OutOfRange)
  {
    hide LeValue, LeBytes, Pow256, Parsed;
    Pow256Values();
    assert (1 + 0xFFFF_FFFF) % 0x1_0000_0000 == 0;
    assert EventsOffset(1, 0xFFFF_FFFF) == HEADER_SIZE;
    EventsBeforeIndices(1, 0xFFFF_FFFF);
  }

  // ---------- the server's side of the layout ----------

  function IndexBytes(indices: seq<nat>): (bs: seq<Byte>)
    ensures |bs| == 2 * |indices|
  {
    if indices == [] then [] else IndexBytes(indices[..|indices| - 1]) + LeBytes(indices[|indices| - 1], 2)
  }

  function EventBytes(events: seq<Event>): (bs: seq<Byte>)
    ensures |bs| == EVENT_SIZE * |events|
  {
    if events == [] then [] else EventBytes(events[..|events| - 1]) + events[|events| - 1]
  }

  /** Counts, reserved bytes, the index area reserved for all ids, padding to 16, the events. */
  function Reply(indices: seq<nat>, events: seq<Event>): seq<Byte>
  {
    var total := |indices| + |events|;
    LeBytes(|events|, 4) + LeBytes(|indices|, 4) + Zeros(8)
    + IndexBytes(indices)
    + Zeros(AlignUp(HEADER_SIZE + 2 * total) - HEADER_SIZE - 2 * |indices|)
    + EventBytes(events)
  }

  lemma {:induction false} IndexBytesAt(indices: seq<nat>, i: nat)
    requires i < |indices|
    ensures IndexBytes(indices)[2 * i..2 * i + 2] == LeBytes(indices[i], 2)
    decreases |indices|
  {
    hide LeBytes;
    var init := indices[..|indices| - 1];
    if i < |init| {
      IndexBytesAt(init, i);
      assert IndexBytes(indices)[2 * i..2 * i + 2] == IndexBytes(init)[2 * i..2 * i + 2];
    }
  }

  lemma {:induction false} EventBytesAt(events: seq<Event>, k: nat)
    requires k < |events|
    ensures EventBytes(events)[EVENT_SIZE * k..EVENT_SIZE * (k + 1)] == events[k]
    decreases |events|
  {
    var init := events[..|events| - 1];
    if k < |init| {
      EventBytesAt(init, k);
      assert EventBytes(events)[EVENT_SIZE * k..EVENT_SIZE * (k + 1)]
             == EventBytes(init)[EVENT_SIZE * k..EVENT_SIZE * (k + 1)];
    }
  }

  lemma ReplyHeader(indices: seq<nat>, events: seq<Event>)
    requires |indices| + |events| < Pow256(4)
    ensures
      var reply := Reply(indices, events);
      && |reply| >= HEADER_SIZE && Found(reply) == |events| && NotFound(reply) == |indices|
      && EventsOffset(|events|, |indices|) == AlignUp(HEADER_SIZE + 2 * (|indices| + |events|))
      && |reply| == EventsOffset(|events|, |indices|) + EVENT_SIZE * |events|
  {
    hide LeBytes, LeValue, Pow256, AlignUp, IndexBytes, EventBytes;
    var reply := Reply(indices, events);
    assert reply[0..4] == LeBytes(|events|, 4);
    assert reply[4..8] == LeBytes(|indices|, 4);
    LeValueOfBytes(|events|, 4);
    LeValueOfBytes(|indices|, 4);
    DivModUnique(|events| + |indices|, Pow256(4), 0, |events| + |indices|);
  }

  lemma ReplyIndex(indices: seq<nat>, events: seq<Event>, i: nat)
    requires |indices| + |events| < Pow256(4) && i < |indices| && indices[i] < Pow256(2)
    ensures
      var reply := Reply(indices, events);
      HEADER_SIZE + 2 * i + 2 <= |reply| && IndexAt(reply, i) == indices[i]
  {
    hide LeBytes, LeValue, Pow256, AlignUp, IndexBytes, EventBytes;
    var reply := Reply(indices, events);
    IndexBytesAt(indices, i);
    assert reply[HEADER_SIZE + 2 * i..HEADER_SIZE + 2 * i + 2] == IndexBytes(indices)[2 * i..2 * i + 2];
    LeValueOfBytes(indices[i], 2);
  }

  lemma ReplyEvent(indices: seq<nat>, events: seq<Event>, k: nat)
    requires |indices| + |events| < Pow256(4) && k < |events|
    ensures
      var reply := Reply(indices, events);
      var offset := EventsOffset(|events|, |indices|);
      offset + EVENT_SIZE * (k + 1) <= |reply| && EventAt(reply, offset, k) == events[k]
  {
    hide LeBytes, LeValue, Pow256, AlignUp, IndexBytes, EventBytes;
    var reply := Reply(indices, events);
    ReplyHeader(indices, events);
    EventBytesAt(events, k);
    var offset := EventsOffset(|events|, |indices|);
    assert reply[offset..] == EventBytes(events);
    assert reply[offset + EVENT_SIZE * k..offset + EVENT_SIZE * (k + 1)]
           == reply[offset..][EVENT_SIZE * k..EVENT_SIZE * (k + 1)];
  }

  /** A reply laid out by the server parses back to its indices and events. */
  lemma ReplyRoundTrip(indices: seq<nat>, events: seq<Event>)
    requires |indices| + |events| < Pow256(4)
    requires forall i :: 0 <= i < |indices| ==> indices[i] < Pow256(2)
    ensures Parsed(Reply(indices, events)) == Ok(BatchResult(|events|, |indices|, indices, events))
  {
    hide LeBytes, LeValue, Pow256, AlignUp, IndexBytes, EventBytes, Reply, IndexAt, EventAt, EventsOffset;
    var reply := Reply(indices, events);
    ReplyHeader(indices, events);
    if |indices| > 0 {
      ReplyIndex(indices, events, |indices| - 1);
    }
    forall i | 0 <= i < |indices| ensures HEADER_SIZE + 2 * i + 2 <= |reply| && IndexAt(reply, i) == indices[i] {
      ReplyIndex(indices, events, i);
    }
    var offset := EventsOffset(|events|, |indices|);
    forall k | 0 <= k < |events|
      ensures offset + EVENT_SIZE * (k + 1) <= |reply| && EventAt(reply, offset, k) == events[k]
    {
      ReplyEvent(indices, events, k);
    }
    assert Indices(reply, |indices|) == indices;
    assert Events(reply, offset, |events|) == events;
  }

  /** Where a reply's bytes are, by the offsets of the C header: the events start at a multiple of 16. */
  lemma ReplyOffsets(indices: seq<nat>, events: seq<Event>) returns (start: nat)
    requires |indices| + |events| < 0x1_0000_0000
    requires forall i :: 0 <= i < |indices| ==> indices[i] < 0x1_0000
    ensures start % 16 == 0 && 16 + 2 * (|indices| + |events|) <= start < 32 + 2 * (|indices| + |events|)
    ensures
      var reply := Reply(indices, events);
      && |reply| == start + 128 * |events|
      && LeValue(reply[0..4]) == |events| && LeValue(reply[4..8]) == |indices|
      && (forall i :: 0 <= i < |indices| ==> LeValue(reply[16 + 2 * i..18 + 2 * i]) == indices[i])
      && (forall k :: 0 <= k < |events| ==> reply[start + 128 * k..start + 128 * k + 128] == events[k])
  {
    hide LeBytes, LeValue, Pow256, AlignUp, IndexBytes, EventBytes, EventsOffset, Reply;
    Pow256Values();
    ReplyHeader(indices, events);
    start := AlignUp(HEADER_SIZE + 2 * (|indices| + |events|));
    var reply := Reply(indices, events);
    forall i | 0 <= i < |indices| ensures LeValue(reply[16 + 2 * i..18 + 2 * i]) == indices[i] {
      ReplyIndex(indices, events, i);
    }
    forall k | 0 <= k < |events| ensures reply[start + 128 * k..start + 128 * k + 128] == events[k] {
      ReplyEvent(indices, events, k);
    }
  }

  /** What the parser makes of any bytes, by the same offsets; `start` is where the events must begin. */
  lemma ParsedByOffsets(reply: seq<Byte>, start: nat)
    requires |reply| >= 16 && start % 16 == 0
    requires 16 + 2 * ((LeValue(reply[0..4]) + LeValue(reply[4..8])) % 0x1_0000_0000) <= start
    requires start < 32 + 2 * ((LeValue(reply[0..4]) + LeValue(reply[4..8])) % 0x1_0000_0000)
    ensures
      var found, notFound := LeValue(reply[0..4]), LeValue(reply[4..8]);
      match Parsed(reply)
      case Err(TooSmall) => false
      case Err(Truncated) => |reply| < start + 128 * found
      case Err(OutOfRange) => start + 128 * found <= |reply| < 16 + 2 * notFound
      case Ok(r) =>
        && start + 128 * found <= |reply| && 16 + 2 * notFound <= |reply|
        && r.found == found == |r.events| && r.notFound == notFound == |r.notFoundIndices|
        && (forall i :: 0 <= i < notFound ==> r.notFoundIndices[i] == LeValue(reply[16 + 2 * i..18 + 2 * i]))
        && (forall k :: 0 <= k < found ==> r.events[k] == reply[start + 128 * k..start + 128 * k + 128])
  {
    hide LeValue, Pow256, AlignUp;
    Pow256Values();
    assert EventsOffset(Found(reply), NotFound(reply)) == start;
  }

  lemma ShortReplies(reply: seq<Byte>)
    requires |reply| < 16
    ensures Parsed(reply) == if |reply| == 0 then Ok(BatchResult(0, 0, [], [])) else Err(TooSmall)
  {
  }

  // ---------- realignment ----------

  /** What the loop has collected before position i, and the next event to use. */
  function RealignedTo(ids: seq<nat>, notFound: set<nat>, events: seq<Event>, i: nat): (map<nat, Event>, nat)
    requires i <= |ids|
  {
    if i == 0 then (map[], 0)
    else
      var (result, next) := RealignedTo(ids, notFound, events, i - 1);
      if i - 1 in notFound then (result, next)
      else (if next < |events| then result[ids[i - 1] := events[next]] else result, next + 1)
  }

  /** The lookup is a parameter; more ids than a batch holds are refused, none need no request. */
  method GetLatestByUuidBatch(ids: seq<nat>, answer: BatchResult) returns (r: Result<map<nat, Event>, BatchTooLarge>)
    ensures r ==
      if |ids| > BATCH_SIZE_MAX then Err(BatchTooLarge)
      else Ok(RealignedTo(ids, (set k | k in answer.notFoundIndices), answer.events, |ids|).0)
    ensures r.Err? <==> |ids| > 10_000
  {
    if |ids| > BATCH_SIZE_MAX {
      return Err(BatchTooLarge);
    }
    if |ids| == 0 {
      return Ok(map[]);
    }
    var notFound := set k | k in answer.notFoundIndices;
    var result: map<nat, Event> := map[];
    var eventIndex := 0;
    for i := 0 to |ids|
      invariant (result, eventIndex) == RealignedTo(ids, notFound, answer.events, i)
    {
      if i in notFound {
        continue;
      }
      if eventIndex < |answer.events| {
        result := result[ids[i] := answer.events[eventIndex]];
      }
      eventIndex := eventIndex + 1;
    }
    return Ok(result);
  }

  /** How many positions before i the answer did not list as missing. */
  function FoundBefore(notFound: set<nat>, i: nat): nat
  {
    if i == 0 then 0 else FoundBefore(notFound, i - 1) + (if i - 1 in notFound then 0 else 1)
  }

  lemma {:induction false} FoundBeforeCounts(notFound: set<nat>, i: nat)
    ensures FoundBefore(notFound, i) == |set j: nat | j < i && j !in notFound|
  {
    if i > 0 {
      var before := set j: nat | j < i - 1 && j !in notFound;
      FoundBeforeCounts(notFound, i - 1);
      assert (set j: nat | j < i && j !in notFound) == if i - 1 in notFound then before else before + {i - 1};
    } else {
      assert (set j: nat | j < i && j !in notFound) == {};
    }
  }

  /** Position j, before i, is the last of its id there to get an event. */
  ghost predicate LastUse(ids: seq<nat>, notFound: set<nat>, events: seq<Event>, j: nat, i: nat)
    requires i <= |ids|
  {
    && j < i && j !in notFound && FoundBefore(notFound, j) < |events|
    && (forall l :: j < l < i && ids[l] == ids[j] ==> l in notFound || FoundBefore(notFound, l) >= |events|)
  }

  ghost predicate Uses(notFound: set<nat>, events: seq<Event>, p: nat)
  {
    p !in notFound && FoundBefore(notFound, p) < |events|
  }

  lemma LastUseNext(ids: seq<nat>, notFound: set<nat>, events: seq<Event>, j: nat, p: nat)
    requires j <= p < |ids|
    ensures LastUse(ids, notFound, events, j, p + 1) <==>
      if j == p then Uses(notFound, events, p)
      else LastUse(ids, notFound, events, j, p) && !(Uses(notFound, events, p) && ids[j] == ids[p])
  {
    hide FoundBefore;
  }

  /** Each id has the event of its last use, and only such ids have one. */
  ghost predicate ByRank(ids: seq<nat>, notFound: set<nat>, events: seq<Event>, i: nat, result: map<nat, Event>)
    requires i <= |ids|
  {
    && (forall j: nat :: LastUse(ids, notFound, events, j, i) ==>
          ids[j] in result && result[ids[j]] == events[FoundBefore(notFound, j)])
    && (forall id :: id in result ==> exists j: nat :: LastUse(ids, notFound, events, j, i) && ids[j] == id)
  }

  lemma RankNext(ids: seq<nat>, notFound: set<nat>, events: seq<Event>, p: nat, result: map<nat, Event>)
    requires p < |ids| && ByRank(ids, notFound, events, p, result)
    ensures
      var rank := FoundBefore(notFound, p);
      var grown := if Uses(notFound, events, p) then result[ids[p] := events[rank]] else result;
      ByRank(ids, notFound, events, p + 1, grown)
  {
    hide FoundBefore;
    var rank := FoundBefore(notFound, p);
    var grown := if Uses(notFound, events, p) then result[ids[p] := events[rank]] else result;
    forall j: nat | LastUse(ids, notFound, events, j, p + 1)
      ensures ids[j] in grown && grown[ids[j]] == events[FoundBefore(notFound, j)]
    {
      LastUseNext(ids, notFound, events, j, p);
    }
    forall id | id in grown
      ensures exists j: nat :: LastUse(ids, notFound, events, j, p + 1) && ids[j] == id
    {
      LastUseNext(ids, notFound, events, p, p);
      if !(Uses(notFound, events, p) && id == ids[p]) {
        var j: nat :| LastUse(ids, notFound, events, j, p) && ids[j] == id;
        LastUseNext(ids, notFound, events, j, p);
      }
    }
  }

  /**
   For any answer, matching the request or not: the positions that are not listed as missing get
   the events in order while there are any, and of a repeated id the last such position counts.
   */
  lemma {:induction false} RealignedByRank(ids: seq<nat>, notFound: set<nat>, events: seq<Event>, i: nat)
    requires i <= |ids|
    ensures
      var (result, next) := RealignedTo(ids, notFound, events, i);
      next == FoundBefore(notFound, i) && ByRank(ids, notFound, events, i, result)
  {
    hide ByRank;
    if i == 0 {
      NothingRanked(ids, notFound, events);
    } else {
      RealignedByRank(ids, notFound, events, i - 1);
      RankNext(ids, notFound, events, i - 1, RealignedTo(ids, notFound, events, i - 1).0);
    }
  }

  lemma NothingRanked(ids: seq<nat>, notFound: set<nat>, events: seq<Event>)
    ensures ByRank(ids, notFound, events, 0, map[])
  {
  }

  /** The server's store: the latest event of each entity it has. */
  type Store = nat -> Option<Event>

  function Missing(store: Store, ids: seq<nat>): seq<nat>
  {
    if ids == [] then []
    else
      var last := |ids| - 1;
      Missing(store, ids[..last]) + (if store(ids[last]).None? then [last] else [])
  }

  function Hits(store: Store, ids: seq<nat>): seq<Event>
  {
    if ids == [] then []
    else
      var last := |ids| - 1;
      Hits(store, ids[..last]) + (if store(ids[last]).Some? then [store(ids[last]).value] else [])
  }

  lemma {:induction false} MissingPositions(store: Store, ids: seq<nat>)
    ensures |Missing(store, ids)| + |Hits(store, ids)| == |ids|
    ensures forall i :: i in Missing(store, ids) <==> 0 <= i < |ids| && store(ids[i]).None?
    decreases |ids|
  {
    if ids != [] {
      var init := ids[..|ids| - 1];
      MissingPositions(store, init);
      assert forall i :: 0 <= i < |init| ==> init[i] == ids[i];
    }
  }

  lemma {:induction false} HitsGrow(store: Store, ids: seq<nat>, i: nat)
    requires i <= |ids|
    ensures Hits(store, ids[..i]) <= Hits(store, ids)
    decreases |ids|
  {
    if i < |ids| {
      HitsGrow(store, ids[..|ids| - 1], i);
      assert ids[..|ids| - 1][..i] == ids[..i];
    } else {
      assert ids[..i] == ids;
    }
  }

  /** Up to position i the loop has used the hits before i and mapped exactly the stored ids. */
  lemma {:induction false} RealignedPrefix(store: Store, ids: seq<nat>, i: nat)
    requires i <= |ids|
    ensures
      var (result, next) := RealignedTo(ids, (set k | k in Missing(store, ids)), Hits(store, ids), i);
      && next == |Hits(store, ids[..i])|
      && (forall id :: id in result <==> id in ids[..i] && store(id).Some?)
      && (forall id :: id in result ==> store(id) == Some(result[id]))
  {
    hide Missing;
    if i > 0 {
      RealignedPrefix(store, ids, i - 1);
      MissingPositions(store, ids);
      HitsGrow(store, ids, i);
      assert ids[..i][..i - 1] == ids[..i - 1] && ids[..i] == ids[..i - 1] + [ids[i - 1]];
      if store(ids[i - 1]).Some? {
        var hits := Hits(store, ids[..i]);
        assert hits[|hits| - 1] == Hits(store, ids)[|hits| - 1];
      }
    }
  }

  /**
   The whole lookup, for any store and any request of at most 10,000 ids, repeats included:
   the reply, parsed and realigned, maps each stored id to its own event and omits the others.
   */
  lemma {:induction false} LookupIsExact(store: Store, ids: seq<nat>)
    requires |ids| <= BATCH_SIZE_MAX
    ensures
      var reply := Parsed(Reply(Missing(store, ids), Hits(store, ids)));
      && reply.Ok?
      && var result := RealignedTo(ids, (set k | k in reply.value.notFoundIndices), reply.value.events, |ids|).0;
      && (forall id :: id in result <==> id in ids && store(id).Some?)
      && (forall id :: id in result ==> store(id) == Some(result[id]))
  {
    hide Parsed, Reply, RealignedTo, Pow256, Hits, Missing;
    Pow256Values();
    MissingPositions(store, ids);
    var missing := Missing(store, ids);
    forall i | 0 <= i < |missing| ensures missing[i] < Pow256(2) {
      assert missing[i] in missing;
    }
    ReplyRoundTrip(missing, Hits(store, ids));
    RealignedPrefix(store, ids, |ids|);
    assert ids[..|ids|] == ids;
  }
}
