# ArcherDB client models

Dafny models of the algorithms inside ArcherDB's client libraries, its AMQP codec generator and
its wire formats, with proofs of what they are for. `dafny verify dfyconfig.toml` checks
everything. Objects whose methods update fields are classes, loops are loops; each method is
proved equal to a function, and the theorems are about the functions.

| files | subject |
|---|---|
| `AmqpCodec`, `AmqpRoundTrip` | the generator of paired encoders and decoders: a compiler from field lists to two straight-line programs, an interpreter for both, the layout of section 4.2.5.2 of AMQP 0-9-1, and the round trip |
| `Segments`, `PolygonCheck` | segment intersection by cross products over exact reals, and the all-pairs polygon check |
| `JumpHash`, `ShardKey` | jump consistent hash and the 128-to-64-bit key mixer |
| `MergeResults`, `TopEvents` | the scatter-gather merge, and why truncated shard answers are enough |
| `CircuitBreaker`, `BreakerRuns` | the timed state machine, and theorems over all its runs |
| `VectorClocks`, `ConflictResolution` | causality and convergence of replicas |
| `Ulid`, `HexId`, `Buffers` | monotone ids in two languages, hexadecimal and big-integer forms, buffers written in place |
| `CellId` | the integer half of cell ids and composite event ids |
| `WktText`, `WktPolygon`, `WktRoundTrip` | the WKT polygon printer and parser (clause 7.2 of OGC 06-103r4) |
| `PolygonWire`, `UuidBatch`, `Batching` | request and reply layouts, realignment of found events, chunked submission |
| `Wrappers`, `Bytes`, `Bits` | results, byte orders, shifts and xor on natural numbers |

## Conventions

- Clock readings, random bytes, the network (`submit`, a shard's answer) and the conversions
  between numbers and text are parameters. A locked method is one atomic step.
- Fixed-width integers are natural numbers with the wrap written out. A panic or thrown error
  is an `Err`.
- Geometry is over `real`. Jump hash is over every rounding that is monotone and exact on the
  numbers float64 represents (section 4.3.1 of IEEE 754-2008).
- Layouts whose other side is the server's have that side written here from the C header:
  `PolygonWire.Decoded`, `UuidBatch.Reply`. The AMQP peer runs the generator's other program.

## Where the code differs from what one expects

Each of these is stated by a member below, most with the exact condition under which the
expectation does hold.

- The AMQP generator never starts a second octet within a run of bits; its output is right
  exactly when no nine consecutive fields are bits (`EncoderWritesTheWire`, `DecoderNeedsShortRuns`).
- A comment says a triangle cannot self-intersect. Every triangle passes; it is simple exactly
  if its vertices are not on one line or all equal (`FewVerticesPass`). From four vertices on,
  checking only edges apart loses nothing.
- The tolerance of 1e-10 reports segments that do not meet (`NearMissReported`), so a simple
  polygon can be reported (`SimpleYetReported`). `IntersectMeaning` and `PassedExactly` are the exact
  conditions; both checks are exact on a grid of 1e-5 degrees or coarser (`ExactOnGrid`).
- The merge can miss an entity if a shard's newest events repeat another (`RepeatsCrowdOut`);
  `MergeIsCertain` is what the caller can check. Equal times leave the choice of events open,
  exactly where `TopsAgree` says.
- The breaker's window is called sliding and tumbles. `TripsExactly` says when it opens, by the
  times of the calls, and `WindowSlides` when that is the sliding window. Without a counted success
  2 * minRequests - 1 failures in a row within one window duration open it (`FailuresOpenClean`), one
  less need not (`WindowTumbles`), and after successes more are needed (`FailuresOpen`,
  `SuccessesDelay`).
- A rate at the threshold can persist in closed state (`ThresholdReachedYetClosed`), but only where
  the last outcome was a success (`OverThresholdAfterSuccess`).
- The breaker can close on outcomes of requests sent before it opened (`StaleSuccessesClose`);
  `CloseNeedsSuccesses` says when its closes do follow as many admitted requests.
- `DetectConflict` also reports clocks that are equal. Ties for the newest time, and two writes of
  the primary region, split replicas (`TiesDiverge`, `PrimaryWritesDiverge`); `ReplicasConverge` and
  `PrimaryReplicasConverge` give the exact conditions on the set of writes.
- Ids are called lexicographically sortable as bytes; they are when the bytes are read from last
  to first (`ReversedBytesSort`). As stored, two ids in a row of one millisecond are in order
  exactly if the first one's lowest byte was not 255 (`LittleEndianMissorts`).
- A coordinate that parses to NaN passes the bounds check (`PointAccepted`, `RingInRange`).
- DegreesToNano truncates, so a WKT round trip depends on each number; the polygon survives
  exactly when all of its numbers do (`PolygonRoundTrip`).
- A hole's vertex count is the one count the polygon request does not check
  (`RequestRoundTrip`); the reply parser adds two counts modulo 2^32 (`IndicesInRange`).
- `submitMultiBatch` is documented as retrying failed batches; it stops at the first failure.

## Model

| member | source | states |
|---|---|---|
| AmqpCodec.Encode | src/cdc/amqp/spec_parser.py:264-292 | the loop over fields with its two counters emits the encoder program whose meaning the theorems below give |
| AmqpCodec.Decode | src/cdc/amqp/spec_parser.py:232-262 | likewise for the decoder program |
| AmqpCodec.FieldRoundTrip | src/cdc/amqp/protocol.zig:279-334 | each non-bit field reads back as written, an absent string or table as an empty one, leaving what follows |
| AmqpCodec.FieldLayout | src/cdc/amqp/protocol.zig:502-569 | the octets of every field type: one length octet before a short string, four big-endian ones before a long string or table, integers of 1, 2, 4 or 8 big-endian octets |
| AmqpCodec.SetNextBit | src/stdx/bit_set.zig:63-74 | setting bit number n of an octet of n packed bits appends that bit |
| AmqpCodec.OctetWeights | src/stdx/bit_set.zig:63-74 | bit number n of a packed octet weighs 2^n |
| AmqpCodec.OctetBit | src/stdx/bit_set.zig:22-25 | each bit packed into an octet is the one read back at its index |
| AmqpRoundTrip.EncoderWritesTheWire | src/cdc/amqp/spec_parser.py:264-292 | for all field lists and values the emitted encoder writes the standard's layout if no nine consecutive fields are bits, and fails on a bit index otherwise |
| AmqpRoundTrip.RoundTrip | src/cdc/amqp/spec_parser.py:232-292 | the emitted decoder run on the emitted encoder's bytes and any suffix returns the values sent and leaves exactly the suffix |
| AmqpRoundTrip.DecoderNeedsShortRuns | src/cdc/amqp/spec_parser.py:244-249 | with nine consecutive bits the emitted decoder accepts no input |
| AmqpRoundTrip.TruncationIsNoticed | src/cdc/amqp/spec_parser.py:232-262 | no proper prefix of an encoded method decodes |
| AmqpRoundTrip.EachBitsetOnce | src/cdc/amqp/spec_parser.py:276-288 | the bitset names are 1 to the number of runs, each declared once, flushed once and read once, in order |
| AmqpRoundTrip.FitsExactlyWhenShort | src/cdc/amqp/spec_parser.py:276-286 | the generator's bit index stays below 8 exactly when no nine consecutive fields are bits |
| Segments.IntersectMeaning | src/clients/node/src/geo.ts:2175-2219 | for every positive tolerance the test holds exactly if the closed segments share a point or an endpoint in the other's box is off its line by less than the tolerance; so nothing is missed, degenerate segments included |
| Segments.SharedIsSeen | src/clients/node/src/geo.ts:2205-2216 | segments with a common point cross properly or have an endpoint on one another |
| Segments.ProperCrossing | src/clients/node/src/geo.ts:2205-2209 | opposite signs on both sides mean a common point |
| Segments.TouchIsShared | src/clients/node/src/geo.ts:2213-2216 | a vanishing cross product inside the box means a common point |
| Segments.CollinearOverlap | src/clients/node/src/geo.ts:2211-2216 | collinear segments that overlap contain an endpoint of one another |
| Segments.SmallToleranceIsExact | src/clients/node/src/geo.ts:2212-2216 | for any four points every small enough tolerance makes the test hold exactly when they share a point |
| Segments.ExactOnGrid | src/clients/node/src/geo.ts:2212-2216 | on a grid whose cell area is at least the tolerance the test is exact |
| Segments.NearMissReported | src/clients/node/src/geo.ts:2212-2216 | two segments reported at 1e-10 that have no common point |
| Segments.CrossMeasuresLeft | src/clients/node/src/geo.ts:2181-2187 | the cross product is the squared length of oa times the distance of b to the left of oa, measured in lengths of oa |
| Segments.BoxCoordinates | src/clients/node/src/geo.ts:2189-2200 | in the box test each coordinate is one of a point of the segment, if not of the same point |
| Segments.CoordinatesInBox | src/clients/node/src/geo.ts:2189-2200 | and all such points are in the box |
| PolygonCheck.ValidateNoSelfIntersection | src/clients/node/src/geo.ts:2245-2317 | the nested loops return the list of crossings, or the first one as an error if raising |
| PolygonCheck.ReportIsExact | src/clients/node/src/geo.ts:2257-2313 | the list has exactly the pairs i < j of edges without a common vertex that intersect, each once, in lexicographic order |
| PolygonCheck.RaisedIsFirst | src/clients/node/src/geo.ts:2297-2304 | raising, the error is the first reported pair in the order of the loops, and there is none exactly if no pair is reported |
| PolygonCheck.CentreIsMiddle | src/clients/node/src/geo.ts:2273-2275 | the reported point is the middle between the middles of the two edges |
| PolygonCheck.NeighboursOverlap | src/clients/node/src/geo.ts:2262-2267 | with four or more vertices, neighbouring edges that overlap beyond their vertex force two edges apart to meet |
| PolygonCheck.SimpleMeansApart | src/clients/node/src/geo.ts:2262-2267 | so a polygon of four or more vertices is simple exactly when no two edges apart share a point |
| PolygonCheck.PassedMeansSimple | src/clients/node/src/geo.ts:2221-2227 | for every tolerance a polygon of four or more vertices that passes is simple |
| PolygonCheck.PassedExactly | src/clients/node/src/geo.ts:2229 | for every tolerance a polygon of four or more vertices passes exactly if it is simple and no edge ends nearly on an edge apart from it |
| PolygonCheck.SimpleYetReported | src/clients/node/src/geo.ts:2229 | a simple quadrilateral that is reported |
| PolygonCheck.PassedExactlyWhenSimple | src/clients/node/src/geo.ts:2221-2227 | so on a grid no finer than the tolerance it passes exactly when simple |
| PolygonCheck.FewVerticesPass | src/clients/node/src/geo.ts:2249-2252 | fewer than four vertices always pass, and are simple exactly if they are all one point or three that are not on one line |
| PolygonCheck.FlatTrianglePasses | src/clients/node/src/geo.ts:2249-2252 | a flat triangle passes and is not simple |
| JumpHash.JumpHash | src/clients/go/pkg/types/geo_sharding.go:277-294 | the loop ends with the last jump of the key's walk below the bucket count, a bucket number, for every float64-like rounding |
| JumpHash.BucketIsLastStop | src/clients/go/pkg/types/geo_sharding.go:282-293 | let stop 0 be 0 and stop i + 1 the jump from stop i by the generator's state i + 1, a closed recurrence; the bucket is the last stop below the bucket count |
| JumpHash.SomeLastStop | src/clients/go/pkg/types/geo_sharding.go:278-293 | there is such a stop for every positive count; for none the answer is 0 |
| JumpHash.KnownBuckets | src/clients/go/pkg/types/geo_sharding_test.go:38-41 | for every rounding key 0xDEADBEEF is in bucket 5 of 6 to 16 buckets and in bucket 16 of 17 to 87 |
| JumpHash.MinimalMovement | src/clients/node/src/geo.ts:1406-1428 | for every key and 1 <= m <= n the bucket changes exactly if the new one is m or more; results are bucket numbers and never decrease with growth |
| JumpHash.WalksAgree | src/clients/go/pkg/types/geo_sharding.go:285-291 | the walks for m and n buckets agree up to the first jump not below m |
| JumpHash.OneMoreBucket | src/clients/go/pkg/types/geo_sharding.go:269-270 | with one more bucket a key stays or moves to the new bucket |
| JumpHash.FloatJumpIsForward | src/clients/go/pkg/types/geo_sharding.go:290 | whatever the rounding, a jump goes beyond the current bucket |
| JumpHash.JumpFitsInt64 | src/clients/go/pkg/types/geo_sharding.go:290 | no jump leaves int64 for any uint32 bucket count |
| ShardKey.ComputeShardKey | src/clients/go/pkg/types/geo_sharding.go:301-325 | the xor of the two mixed halves of the little-endian id, a 64-bit value |
| ShardKey.GetShardForEntity | src/clients/go/pkg/types/geo_sharding.go:329-332 | the jump hash of the key, a shard number |
| ShardKey.KeyIsBijective | src/clients/go/pkg/types/geo_sharding.go:310-324 | for a fixed half every 64-bit key comes from exactly one other half, given by the explicit inverse |
| ShardKey.MixInverse | src/clients/node/src/geo.ts:1450-1456 | the inverse mixer undoes the mixer |
| ShardKey.UnmixInverse | src/clients/node/src/geo.ts:1450-1456 | and the mixer undoes the inverse mixer |
| ShardKey.ShiftXorTwice | src/clients/go/pkg/types/geo_sharding.go:311 | shift-xor by 33 is its own inverse on 64 bits |
| ShardKey.ShiftXorBits | src/clients/go/pkg/types/geo_sharding.go:311 | it keeps the upper 31 bits of 64 and xors the lower 33 with the bits 33 places up |
| ShardKey.KnownKey | src/clients/go/pkg/types/geo_sharding_test.go:114 | the key of the entity id 1 is 0xB456BCFC34C2CB2C |
| ShardKey.TimesInverse | src/clients/go/pkg/types/geo_sharding.go:312 | multiplication modulo 2^64 is undone by the constant's modular inverse |
| ShardKey.EqualHalvesCollide | src/clients/go/pkg/types/geo_sharding.go:324 | ids with equal halves share one key |
| ShardKey.ReshardingMovesToNewShards | src/clients/go/pkg/types/geo_sharding.go:329-332 | growing a cluster moves an entity exactly if its shard is an added one |
| MergeResults.Merge | src/clients/node/src/topology.ts:473-514 | the merged list, each shard's count under its number, and the flag: some shard has more, or something was cut |
| MergeResults.SortIsStable | src/clients/node/src/topology.ts:495-500 | the sort is ordered newest first, a permutation, and stable |
| MergeResults.OrderIsFirstMet | src/clients/node/src/topology.ts:487-495 | the map holds the entities in the order in which the shards' answers first name them, which is the order the sort leaves equal times in |
| MergeResults.KeptIsFirstNewest | src/clients/node/src/topology.ts:487-492 | of an entity's newest events the one met first is kept |
| TopEvents.CollectsLatest | src/clients/node/src/topology.ts:487-492 | the map keeps the newest event of each entity and nothing else |
| TopEvents.SettledIsTop | src/clients/node/src/topology.ts:469-514 | where every answer is complete, or newest-first down to the last time of a full list, the list has each entity's globally newest event, no absent entity has a newer one, and a list shorter than `limit` has every entity; entities may repeat and equal times may come in any order |
| TopEvents.ManyEntitiesReach | src/clients/node/src/topology.ts:495-506 | an answer with `limit` entities goes down to the last listed time |
| TopEvents.MergeIsTop | src/clients/go/pkg/types/topology.go:414-459 | so the list is right if every answer is complete or has the newest events of at least `limit` entities, also with the arbitrary order of equal times of this version |
| TopEvents.RepeatsCrowdOut | src/clients/node/src/topology.ts:487-492 | with `limit` newest events that repeat an entity another entity can be missed |
| TopEvents.MergeIsCertain | src/clients/node/src/topology.ts:502-506 | the list is right whatever the shards still hold exactly if every shard that has more sent something as old as the last event of a full list |
| TopEvents.NewerWasSent | src/clients/node/src/topology.ts:502-506 | where the answers settle, anything newer than a listed event was in its shard's answer |
| TopEvents.NewerComesBefore | src/clients/node/src/topology.ts:495-500 | the entities with something newer than a listed event are no more than its position |
| TopEvents.ShortListIsWhole | src/clients/node/src/topology.ts:502-506 | a list that is not full, or not limited, misses no entity of any shard |
| TopEvents.TopTimesAgree | src/clients/node/src/topology.ts:495-506 | all lists of the newest `limit` events have the same length and the same times at the same positions |
| TopEvents.TopsAgree | src/clients/node/src/topology.ts:495-506 | such a list is the only one exactly if no entity's newest event ties with a listed one |
| TopEvents.TruncationCommutes | src/clients/node/src/topology.ts:473-514 | merging truncated answers lists the same times as truncating the merge of all the data, and the same events if no newest event ties with a listed one |
| TopEvents.NoMoreMeansAll | src/clients/node/src/topology.ts:465-466 | if shards flag what they leave out, a false flag means no entity is missing |
| CircuitBreaker.Breaker.constructor | src/clients/go/pkg/circuitbreaker/circuitbreaker.go:121-128 | closed, all counters zero, the window starting now |
| CircuitBreaker.Breaker.GetState | src/clients/go/pkg/circuitbreaker/circuitbreaker.go:136-148 | an open breaker whose time is up becomes half-open with fresh probe counters |
| CircuitBreaker.Breaker.AllowRequest | src/clients/go/pkg/circuitbreaker/circuitbreaker.go:151-174 | the answer and the whole new state, from each state |
| CircuitBreaker.Breaker.AllowHalfOpenRequest | src/clients/go/pkg/circuitbreaker/circuitbreaker.go:176-183 | a probe is granted and counted below the maximum, else a rejection is counted |
| CircuitBreaker.Breaker.RecordSuccess | src/clients/go/pkg/circuitbreaker/circuitbreaker.go:186-201 | the whole new state from each state; no threshold check |
| CircuitBreaker.Breaker.RecordFailure | src/clients/go/pkg/circuitbreaker/circuitbreaker.go:204-217 | the whole new state from each state, opening included |
| CircuitBreaker.Breaker.RecordInWindow | src/clients/go/pkg/circuitbreaker/circuitbreaker.go:219-234 | the window restarts when its time is up, then the outcome is counted |
| CircuitBreaker.Breaker.CheckThreshold | src/clients/go/pkg/circuitbreaker/circuitbreaker.go:236-245 | opens exactly if enough requests failed |
| CircuitBreaker.Breaker.TransitionTo | src/clients/go/pkg/circuitbreaker/circuitbreaker.go:247-257 | a change of state is counted, opening is timed, no change is no step |
| CircuitBreaker.Breaker.ResetCounters | src/clients/go/pkg/circuitbreaker/circuitbreaker.go:259-263 | empties the window and restarts it |
| CircuitBreaker.Breaker.ResetHalfOpenCounters | src/clients/go/pkg/circuitbreaker/circuitbreaker.go:265-269 | empties the three probe counters and nothing else |
| CircuitBreaker.Breaker.ForceOpen | src/clients/go/pkg/circuitbreaker/circuitbreaker.go:313-317 | the whole new state |
| CircuitBreaker.Breaker.ForceClosed | src/clients/go/pkg/circuitbreaker/circuitbreaker.go:320-325 | the whole new state |
| CircuitBreaker.Durations | src/clients/go/pkg/circuitbreaker/circuitbreaker.go:63-71 | the settings are in milliseconds, 10 and 30 seconds by default, the clock in nanoseconds |
| BreakerRuns.AdmissionBound | src/clients/go/pkg/circuitbreaker/circuitbreaker.go:151-183 | in every run from a trip at t0 until the next close, at most halfOpenRequests * floor((t - t0) / open duration) requests are admitted |
| BreakerRuns.AskedIsAdmittedOrRejected | src/clients/go/pkg/circuitbreaker/circuitbreaker.go:151-183 | over any run, requests asked are the ones admitted plus the ones counted as rejected |
| BreakerRuns.AdmittedExactly | src/clients/go/pkg/circuitbreaker/circuitbreaker.go:151-183 | over any run a request is admitted always in closed state, in open state exactly from openedAt plus the open duration on with halfOpenRequests at least 1, in half-open state exactly while fewer than halfOpenRequests were admitted since entry |
| BreakerRuns.Recovery | src/clients/go/pkg/circuitbreaker/circuitbreaker.go:161-201 | once the open duration is up halfOpenRequests probes are all admitted, and as many successes close the breaker |
| BreakerRuns.OpenedAtTrip | src/clients/go/pkg/circuitbreaker/circuitbreaker.go:247-257 | the open duration runs from the call that opened the breaker |
| BreakerRuns.ChangesAreCounted | src/clients/go/pkg/circuitbreaker/circuitbreaker.go:247-257 | stateChanges counts the calls after which the state is another |
| BreakerRuns.HalfOpenHistory | src/clients/go/pkg/circuitbreaker/circuitbreaker.go:176-216 | in half-open state the counters are the successes recorded and the requests admitted since entry, the latter at most halfOpenRequests, and there was no failure |
| BreakerRuns.CloseNeedsSuccesses | src/clients/go/pkg/circuitbreaker/circuitbreaker.go:194-199 | every unforced close follows exactly halfOpenRequests successes and no failure since the latest half-open entry; as many requests were admitted exactly if no more successes were recorded than requests admitted |
| BreakerRuns.EnoughSuccessesClose | src/clients/go/pkg/circuitbreaker/circuitbreaker.go:194-216 | in half-open state a success closes exactly if it reaches that number, a failure opens, asking changes nothing |
| BreakerRuns.WindowHistory | src/clients/go/pkg/circuitbreaker/circuitbreaker.go:219-234 | in closed state the counters are the outcomes since the first call of the window, a function of the timed calls: it begins anew at a close and with the first outcome a window duration after it began |
| BreakerRuns.WindowIsRecent | src/clients/go/pkg/circuitbreaker/circuitbreaker.go:219-228 | with a clock that never goes back all calls of the window are at or after its beginning |
| BreakerRuns.TripsExactly | src/clients/go/pkg/circuitbreaker/circuitbreaker.go:204-245 | a closed breaker opens exactly if forced or if a failure brings that window to the minimum number of outcomes and the share of failures |
| BreakerRuns.WindowSlides | src/clients/go/pkg/circuitbreaker/circuitbreaker.go:52 | for an outcome in closed state the window is within the last window duration, and counts the same outcomes exactly if none of that time came before the window's first call |
| BreakerRuns.FailuresOpen | src/clients/go/pkg/circuitbreaker/circuitbreaker.go:204-245 | if k more failures would make the share, any k + minRequests - 1 failures in a row within one window duration open the breaker, whatever it counted before, for thresholds up to 1 |
| BreakerRuns.FailuresOpenClean | src/clients/go/pkg/circuitbreaker/circuitbreaker.go:204-245 | without a counted success 2 * minRequests - 1 are enough |
| BreakerRuns.SuccessesDelay | src/clients/go/pkg/circuitbreaker/circuitbreaker.go:204-245 | with 1000 counted successes 19 failures at one instant leave the default breaker closed |
| BreakerRuns.ThresholdReachedYetClosed | src/clients/go/pkg/circuitbreaker/circuitbreaker.go:190-192 | five failures and five successes leave the default breaker closed at its threshold |
| BreakerRuns.OverThresholdAfterSuccess | src/clients/go/pkg/circuitbreaker/circuitbreaker.go:190-210 | a closed breaker is over the threshold only where the last outcome of its window was a success |
| BreakerRuns.WindowTumbles | src/clients/go/pkg/circuitbreaker/circuitbreaker.go:52 | with every configuration 2 * minRequests - 2 failures within a nanosecond can leave a new breaker closed, so the number in FailuresOpenClean is sharp |
| BreakerRuns.StaleSuccessesClose | src/clients/go/pkg/circuitbreaker/circuitbreaker.go:194-199 | with every configuration an open breaker can close without having admitted a request |
| BreakerRuns.ProbesLostForGood | src/clients/go/pkg/circuitbreaker/circuitbreaker.go:176-183 | once all probes are out, only a recorded outcome or force gets the breaker out of half-open |
| VectorClocks.VectorClock.constructor | src/clients/go/pkg/types/conflict.go:48-52 | an empty clock |
| VectorClocks.VectorClock.Get | src/clients/go/pkg/types/conflict.go:55-59 | a missing region reads as 0 |
| VectorClocks.VectorClock.Set | src/clients/go/pkg/types/conflict.go:62-66 | one entry is replaced |
| VectorClocks.VectorClock.Increment | src/clients/go/pkg/types/conflict.go:69-74 | one entry goes up by one, modulo 2^64, and is returned |
| VectorClocks.VectorClock.Merge | src/clients/go/pkg/types/conflict.go:77-88 | every region gets the larger reading, and only exceeded regions are added |
| VectorClocks.VectorClock.Clone | src/clients/go/pkg/types/conflict.go:91-100 | a new object with the same entries |
| VectorClocks.VectorClock.Compare | src/clients/go/pkg/types/conflict.go:116-150 | 1 exactly if pointwise at least and not equivalent, -1 in the mirrored case, else 0 |
| VectorClocks.VectorClock.HappensBefore | src/clients/go/pkg/types/conflict.go:153-155 | true exactly if pointwise at most and not equivalent |
| VectorClocks.CompareIsAnOrder | src/clients/go/pkg/types/conflict.go:114-155 | comparison is antisymmetric; happened-before is a strict partial order: at most everywhere and less somewhere |
| VectorClocks.MergeIsJoin | src/clients/go/pkg/types/conflict.go:76-88 | merging computes the least upper bound |
| VectorClocks.MergeIsSemilattice | src/clients/go/pkg/types/conflict.go:76-88 | it is commutative, associative and idempotent up to equivalence |
| VectorClocks.IncrementIsLater | src/clients/go/pkg/types/conflict.go:69-88 | merge then increment is after both clocks exactly if the counter does not wrap |
| ConflictResolution.ConflictResolver.constructor | src/clients/go/pkg/types/conflict.go:236-241 | the policy, the primary region, no hook and zero statistics |
| ConflictResolution.ConflictResolver.SetCustomHook | src/clients/go/pkg/types/conflict.go:244-248 | installs a hook and changes nothing else |
| ConflictResolution.ConflictResolver.DetectConflict | src/clients/go/pkg/types/conflict.go:251-253 | true exactly if each clock is at most the other or neither is |
| ConflictResolution.ConflictResolver.Resolve | src/clients/go/pkg/types/conflict.go:256-316 | the statistics; an installed hook's answer unchanged under the custom-hook policy; else the winner by policy and a new clock equivalent to the join, the given clocks left alone |
| ConflictResolution.CountedStaysBalanced | src/clients/go/pkg/types/conflict.go:260-300 | the total stays the sum of the three policy counters |
| ConflictResolution.TallyCounts | src/clients/go/pkg/types/conflict.go:260-300 | after n conflicts the total and the counter of the resolver's own policy are n, the others 0, and the last conflict's time is kept |
| ConflictResolution.WhenEndsAgree | src/clients/go/pkg/types/conflict.go:267-313 | two regions resolving one conflict from mirrored viewpoints agree exactly under the stated condition on ties and on the primary region |
| ConflictResolution.WinnerCanWin | src/clients/go/pkg/types/conflict.go:267-313 | over any tree of resolutions the winner is a write of the primary region if the policy favours one that wrote, else a newest write |
| ConflictResolution.EachCanWin | src/clients/go/pkg/types/conflict.go:267-313 | and each such write wins in some tree with the same set of writes: where it is heard again last, as the local one |
| ConflictResolution.NewestWins | src/clients/go/pkg/types/conflict.go:268-277 | without a deciding primary the winner has the newest timestamp |
| ConflictResolution.ClockIsJoin | src/clients/go/pkg/types/conflict.go:264-265 | over any tree of resolutions the clock is the join of the writes' clocks |
| ConflictResolution.ClocksConverge | src/clients/go/pkg/types/conflict.go:264-265 | so replicas that heard the same writes have equivalent clocks, whatever the order, grouping and repetition |
| ConflictResolution.ReplicasConverge | src/clients/go/pkg/types/conflict.go:268-277 | for every set of writes, all replicas that heard it agree on the winning write, or even only on its region, exactly if the writes of the newest time are from one region |
| ConflictResolution.PrimaryRegionWins | src/clients/go/pkg/types/conflict.go:279-297 | under primary-wins the primary region wins exactly if it wrote |
| ConflictResolution.PrimaryReplicasConverge | src/clients/go/pkg/types/conflict.go:279-297 | under primary-wins they agree on the region exactly if the primary wrote or the newest writes share a region, and on the write exactly if all of the primary's writes, if any, carry one time |
| ConflictResolution.PrimaryWritesDiverge | src/clients/go/pkg/types/conflict.go:282-284 | any two writes of the primary region at different times each win at home, whatever else was heard |
| ConflictResolution.TiesDiverge | src/clients/go/pkg/types/conflict.go:271-277 | any two newest writes of different regions split replicas of the same writes |
| Ulid.GoGenerator.constructor | src/clients/go/pkg/types/main.go:194-196 | the zero state |
| Ulid.GoGenerator.ID | src/clients/go/pkg/types/main.go:218-262 | the 64/16-bit carry refines one counter step, and the 16 bytes are its id or the overflow error |
| Ulid.NodeGenerator.constructor | src/clients/node/src/index.ts:112-120 | the zero state |
| Ulid.NodeGenerator.Id | src/clients/node/src/index.ts:129-159 | the 32/32/16-bit carry refines the same step on a shared buffer, also when it overflows |
| Ulid.WideCarry | src/clients/go/pkg/types/main.go:239-248 | the two-limb carry adds one to the 80-bit number, and overflows exactly if it is full |
| Ulid.NarrowCarry | src/clients/node/src/index.ts:139-146 | the three-limb carry does the same |
| Ulid.IdsIncrease | src/clients/go/pkg/types/main.go:198-208 | over any calls and clock readings below 2^48 ms, stalling or going back, ids strictly increase, also across an overflow error |
| Ulid.IdHoldsTime | src/clients/go/pkg/types/main.go:218-262 | the id above its low 80 bits is the clock reading, or the last time if the clock did not advance; the low part is one more than the fresh or the last random number |
| Ulid.IdsHoldLatestTime | src/clients/go/pkg/types/main.go:204 | over any calls the time in an id is the greatest reading so far |
| Ulid.OverflowLasts | src/clients/go/pkg/types/main.go:239-248 | an id is refused exactly if the 80-bit number is full, and then all are until a later millisecond |
| Ulid.TimeWraps | src/clients/go/pkg/types/main.go:259-260 | at 2^48 ms the next id is smaller |
| Ulid.ReversedBytesSort | src/clients/go/pkg/types/main.go:203 | numeric order is the lexicographic order of the bytes read backwards |
| Ulid.SuccessorSorts | src/clients/go/pkg/types/main.go:203 | little-endian bytes of v sort before those of v + 1 exactly if v % 256 is not 255 |
| Ulid.LittleEndianMissorts | src/clients/go/pkg/types/main.go:203 | as stored, the next id of a millisecond sorts after the one before exactly if that one's lowest random byte was not 255 |
| Buffers.SwapEndian | src/clients/go/pkg/types/main.go:76-80 | reverses a prefix of a buffer in place |
| HexId.String | src/clients/go/pkg/types/main.go:91-104 | the id's text: see TextIsNumber |
| HexId.HexStringToUint128 | src/clients/go/pkg/types/main.go:136-157 | the id of a text: see ParsedIsNumber |
| HexId.ReverseFront | src/clients/go/pkg/types/main.go:150-154 | the in-place reversal of the decoded part only |
| HexId.TextIsNumber | src/clients/go/pkg/types/main.go:82-104 | the text is the numeric value in base 16, at most 32 digits, no leading zero but in "0" |
| HexId.ParsedIsNumber | src/clients/go/pkg/types/main.go:126-157 | exactly hexadecimal texts of at most 32 digits parse, odd lengths included, to the number they denote |
| HexId.ParseOfPrint | src/clients/go/pkg/types/main.go:82-157 | parsing the printed id is the identity on all 128-bit values |
| HexId.DigitsInOrder | src/clients/go/pkg/types/main.go:91-104 | digits print in lower case in their order, and exactly those and the capitals are read, with the same values |
| HexId.BigInt | src/clients/go/pkg/types/main.go:110-118 | the numeric value |
| HexId.BigIntToUint128 | src/clients/go/pkg/types/main.go:162-182 | a negative value is an error, others give their low 128 bits |
| CellId.ComputeCellId | src/clients/node/src/geo.ts:766-789 | the interleaving loop builds face, bit pairs from the top, and sentinel, of the clamped coordinates |
| CellId.PackCompositeId | src/clients/node/src/geo.ts:797-799 | the cell id above a 64-bit timestamp; a longer timestamp is or-ed in |
| CellId.GridMeaning | src/clients/node/src/geo.ts:766-770 | a coordinate inside the face is in the cell of side 2^-30 it is given, others are clamped to the first or last cell |
| CellId.CellBits | src/clients/node/src/geo.ts:771-787 | every bit of a cell id: the sentinel, j and i at odd and even places, the face from bit 61 |
| CellId.CompositeParts | src/clients/node/src/geo.ts:797-799 | both parts are recoverable from a composite id with a 64-bit timestamp |
| CellId.CellFits | src/clients/node/src/geo.ts:771-787 | cell ids fit 64 bits |
| CellId.PrefixInjective | src/clients/node/src/geo.ts:774-784 | face and coordinates are recoverable from the interleaving |
| CellId.PrefixShift | src/clients/node/src/geo.ts:774-784 | dropping n bit pairs coarsens both coordinates by n bits |
| CellId.CellsShareSquare | src/clients/node/src/geo.ts:766-789 | for every level, ids agree above the deeper bits exactly if the cells are in one square of that level |
| CellId.SquareIsARange | src/clients/node/src/geo.ts:791-799 | the composite ids of a square's events are exactly the event ids in one interval |
| WktPolygon.ToWKTPolygon | src/clients/go/pkg/types/geo_format.go:312-327 | the printed text, exterior first |
| WktPolygon.RingToWKT | src/clients/go/pkg/types/geo_format.go:313-319 | one ring's text, longitude before latitude |
| WktPolygon.TriangleText | src/clients/go/pkg/types/geo_format.go:313-319 | the whole text of a ring of three vertices |
| WktPolygon.OneHoleText | src/clients/go/pkg/types/geo_format.go:312-327 | the text of a polygon with a hole |
| WktPolygon.FindRings | src/clients/go/pkg/types/geo_format.go:198-215 | the depth-counting scan, for any content |
| WktPolygon.RingsAreGroups | src/clients/go/pkg/types/geo_format.go:198-215 | for any content the rings found are exactly the groups from an opening parenthesis at depth 0 to the one that closes it, in order, a stray closing one lowering the depth |
| WktPolygon.PointAccepted | src/clients/go/pkg/types/geo_format.go:236-256 | exactly the points pass whose first two words parse, each to NaN or to a number in range |
| WktPolygon.PointByWords | src/clients/go/pkg/types/geo_format.go:236-256 | the result for two words and whatever follows: the longitude first, which error comes first, any blanks between |
| WktPolygon.PointNeedsTwoWords | src/clients/go/pkg/types/geo_format.go:236-240 | one word is an invalid point |
| WktText.AnyCase | src/clients/go/pkg/types/geo_format.go:183-187 | the keyword is found in every mixture of cases and only then |
| WktPolygon.ParseRing | src/clients/go/pkg/types/geo_format.go:221-258 | the ring or the first error in reading order |
| WktPolygon.RingInRange | src/clients/go/pkg/types/geo_format.go:234-257 | all coordinates of an accepted ring are in range exactly if none of its tokens parses to NaN |
| WktPolygon.ParseWKTPolygon | src/clients/go/pkg/types/geo_format.go:182-275 | the polygon or the first error |
| WktRoundTrip.ScanFindsRings | src/clients/go/pkg/types/geo_format.go:198-215 | on printed rings the scan splits exactly at them |
| WktRoundTrip.RingParses | src/clients/go/pkg/types/geo_format.go:221-258 | a printed ring parses exactly if it has three vertices, all in bounds |
| WktRoundTrip.PrintThenParse | src/clients/go/pkg/types/geo_format.go:182-327 | a printed polygon of any number of rings parses exactly if every ring has three vertices and all are in bounds, to the same rings with each number as its own text gives it |
| WktRoundTrip.PolygonRoundTrip | src/clients/go/pkg/types/geo_format.go:182-327 | the polygon comes back exactly if each of its numbers does |
| PolygonWire.Serialize | src/clients/go/geo_client.go:1551-1634 | the refusals in order, or the layout; every write is in bounds and the last ends at the computed size |
| PolygonWire.PutHeader | src/clients/go/geo_client.go:1600-1610 | the 128-byte header of a zeroed buffer |
| PolygonWire.PutVertices | src/clients/go/geo_client.go:1612-1618 | the vertices at the moving offset, what precedes left alone |
| PolygonWire.PutDescriptors | src/clients/go/geo_client.go:1620-1625 | the hole sizes, likewise |
| PolygonWire.PutHoles | src/clients/go/geo_client.go:1627-1634 | the holes' vertices, likewise |
| PolygonWire.CountHoleVertices | src/clients/go/geo_client.go:1586-1594 | the total, or none if a hole has fewer than three vertices |
| PolygonWire.RefusedExactly | src/clients/go/geo_client.go:1551-1594 | which requests are refused, by the limits' numbers and in order |
| PolygonWire.LayoutOffsets | src/clients/c/arch_client.h:246-302 | each header field, vertex, hole size and hole vertex of an accepted request is at its offset in the C structures, little-endian, and the rest is zero |
| PolygonWire.RequestRoundTrip | src/clients/c/arch_client.h:246-302 | decoding an accepted request by the header's layout gives back vertices, holes, limit, times and the group's low 64 bits exactly if every hole has fewer than 2^32 vertices |
| PolygonWire.HugeHoleIsLost | src/clients/go/geo_client.go:1621-1622 | one hole of 2^32 vertices is accepted and arrives as something else |
| UuidBatch.ParseQueryUUIDBatchResponse | src/clients/go/geo_client.go:2035-2088 | the counts, indices and events of a reply, or its error |
| UuidBatch.IndicesInRange | src/clients/go/geo_client.go:2055-2076 | the parser indexes past a reply only if the counts' uint32 sum wraps and their events end before their indices |
| UuidBatch.EventsBeforeIndices | src/clients/go/geo_client.go:2055-2076 | and for all such counts there is a reply past which it does |
| UuidBatch.CountsWrap | src/clients/go/geo_client.go:2055-2058 | such a reply |
| UuidBatch.ReplyRoundTrip | src/clients/c/arch_client.h:192-201 | a reply with its reserved index area and 16-byte padding parses back to its indices and events |
| UuidBatch.ReplyOffsets | src/clients/c/arch_client.h:192-201 | the counts, indices and events of a reply by their offsets |
| UuidBatch.ParsedByOffsets | src/clients/go/geo_client.go:2035-2088 | for any bytes which error is given, or what is read from where |
| UuidBatch.GetLatestByUuidBatch | src/clients/node/src/geo_client.ts:1195-1223 | the realignment loop's map, or the refusal of an oversized batch |
| UuidBatch.RealignedPrefix | src/clients/node/src/geo_client.ts:1211-1220 | at every position the loop has used the events of the found ids before it |
| UuidBatch.RealignedByRank | src/clients/node/src/geo_client.ts:1211-1220 | for any answer, also one that does not fit the request: the positions not listed as missing get the events in order while there are any, and the last such position of a repeated id counts |
| UuidBatch.LookupIsExact | src/clients/node/src/geo_client.ts:1195-1223 | for any store and request, repeats included, each stored id is mapped to its own event and the others are omitted |
| Batching.SplitBatch | src/clients/go/geo_client.go:2219-2238 | the chunks, or the refusal of a size that is not positive, even for no items |
| Batching.ChunksPartition | src/clients/node/src/geo_client.ts:2097-2111 | the chunks concatenate to the input; all but the last have the asked size and none is empty |
| Batching.SubmitInsertBatches | src/clients/go/geo_client.go:1299-1331 | the result, and the calls made: chunk by chunk until one fails, the first failure or all errors with indices shifted modulo 2^32 |
| Batching.RunOutcome | src/clients/go/geo_client.go:1312-1330 | any such run returns the first refused chunk's error, or the collected errors if no chunk is refused |
| Batching.OffsetBatchErrors | src/clients/node/src/geo_client.ts:2113-2121 | every index moves by the offset, also in the shortcut for 0 |
| Batching.SubmitMultiBatch | src/clients/node/src/geo_client.ts:2128-2150 | the same run with unbounded indices |
| Batching.CallsCoverPrefix | src/clients/go/geo_client.go:1312-1322 | the calls submit a prefix of the input in order, and all of it on success |
| Batching.CallsAreChunks | src/clients/go/geo_client.go:1308-1322 | the calls are the first chunks and every one but the last was accepted |
| Batching.CollectedAll | src/clients/go/geo_client.go:1324-1327 | over any chunks, shifted per-chunk rejections are the rejections of the concatenation |
| Batching.RejectionsAreExact | src/clients/go/geo_client.go:1324-1327 | that list is exactly the rejected positions with their codes, ascending |
| Batching.WrapShowsExactlyWhenFar | src/clients/go/geo_client.go:1325 | the uint32 indices are the true positions modulo 2^32, and equal to them exactly if no rejected one is 2^32 or later |
| Batching.BatchedErrorsAreGlobal | src/clients/go/geo_client.go:1299-1331 | if every call reports exactly its rejected positions the result is exactly the input's |

## Left out

- ComputeCellId: starts from the face and the two face coordinates as exact reals; the projection before them is floating-point trigonometry, and the source calls its layout simplified, not Hilbert.
- IntersectMeaning: over exact reals; the rounding of float64 products is not modelled.
- PassedMeansSimple: likewise; the error's message, suggestions and approximate intersection point are not modelled.
- JumpHash: the expected share of moved keys is statistical and not stated; per-key movement is.
- MergeIsTop: assumes of a shard what it should send, complete data or the newest events of `limit` entities; a missing result counts as a shard without data.
- RoundTrip: the contents of a table are bytes, field values inside it are not modelled; the doc comments, struct declarations and the client/server filter of the generator are left out; the names of the emitted bitsets and of the fields are kept apart, so a field called bitset_1 is not modelled.
- EncoderWritesTheWire: the frame buffer is unbounded; the asserted room in a fixed buffer is not modelled.
- AdmissionBound: one clock reading per call, never going back; the source reads the clock again inside a transition.
- TripsExactly: the failure rate is an exact quotient.
- Resolve: a custom hook is a function of the two clocks' contents and the two writes; what it computes is application code. The uint64 statistics are unbounded.
- Merge (of vector clocks): two different objects, since merging a clock into itself would lock it twice.
- ID: a failure of the random source, which panics, is not modelled.
- FindRings: text is a sequence of characters, so byte offsets inside multi-byte characters are not modelled; ToUpper is modelled on ASCII letters.
- PrintThenParse: the printing and parsing of one number are parameters, asked only to use no separator.
- Serialize: the check for a closed client and the submission itself.
- LookupIsExact: composes the Go parser with the Node realignment, which share the reply layout; the Node client's own parser is native code.
- SubmitInsertBatches: what `submit` does with the network; it is a function of the call number and the chunk.
- The Node twins of the circuit breaker, the vector clocks and the WKT functions, which repeat the Go ones.
- Native calls, callbacks, timeouts, retries, latency probing, region discovery and observability.
- GeoJSON, error-code tables, enum conversions, single-field guards: one-branch facts.
- `TopologyCache.computeShard`, a separate one-line formula.
