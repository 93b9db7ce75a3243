/**
 Chunked submission: `SplitBatch` and `submitInsertBatches` (src/clients/go/geo_client.go) and their
 twins `splitBatch` and `submitMultiBatch` (src/clients/node/src/geo_client.ts).
 */
module Batching {
  import opened Wrappers

  const UINT32_COUNT: nat := 0x1_0000_0000

  /** One rejected event: its position in the submitted list and the reason. */
  datatype BatchError = BatchError(index: nat, code: nat)

  datatype BatchFailure<+E> = SizeNotPositive | SubmitFailed(error: E)

  /** How an index is stored: a uint32 in Go, a number in Node. */
  datatype Width = Uint32 | Unbounded

  function Stored(width: Width, n: nat): nat
  {
    if width.Uint32? then n % UINT32_COUNT else n
  }

  /** The answer to one call; it may depend on how many calls were made before. */
  type Submit<!T, E> = (nat, seq<T>) -> Result<seq<BatchError>, E>

  // ---------- cutting into chunks ----------

  function Chunks<T>(items: seq<T>, size: nat): (chunks: seq<seq<T>>)
    requires size > 0
    decreases |items|
  {
    if items == [] then []
    else if |items| <= size then [items]
    else [items[..size]] + Chunks(items[size..], size)
  }

  function Concat<T>(chunks: seq<seq<T>>): seq<T>
  {
    if chunks == [] then [] else Concat(chunks[..|chunks| - 1]) + chunks[|chunks| - 1]
  }

  lemma {:induction false} ConcatAppend<T>(a: seq<seq<T>>, b: seq<seq<T>>)
    ensures Concat(a + b) == Concat(a) + Concat(b)
    decreases |b|
  {
    if b == [] {
      assert a + b == a;
    } else {
      var init := b[..|b| - 1];
      ConcatAppend(a, init);
      assert (a + b)[..|a + b| - 1] == a + init;
    }
  }

  lemma ConcatNext<T>(chunks: seq<seq<T>>, chunk: seq<T>)
    ensures Concat(chunks + [chunk]) == Concat(chunks) + chunk
  {
    assert (chunks + [chunk])[..|chunks|] == chunks;
  }

  lemma ConcatFew<T>(chunk: seq<T>)
    ensures Concat<T>([]) == [] && Concat([chunk]) == chunk
  {
    assert [chunk][..0] == [];
  }

  /** The chunks are the input in order; all but the last have the asked size, none is empty. */
  lemma {:induction false} ChunksPartition<T>(items: seq<T>, size: nat)
    requires size > 0
    ensures Concat(Chunks(items, size)) == items
    ensures forall k :: 0 <= k < |Chunks(items, size)| ==> 0 < |Chunks(items, size)[k]| <= size
    ensures forall k :: 0 <= k < |Chunks(items, size)| - 1 ==> |Chunks(items, size)[k]| == size
    decreases |items|
  {
    hide Concat;
    if |items| <= size {
      ConcatFew(items);
    } else {
      var rest := Chunks(items[size..], size);
      ChunksPartition(items[size..], size);
      ConcatAppend([items[..size]], rest);
      ConcatFew(items[..size]);
    }
  }

  function Min(a: int, b: int): int
  {
    if a < b then a else b
  }

  /** The first `at` items have been cut off as the first of the chunks. */
  ghost predicate CutTo<T>(items: seq<T>, size: nat, chunks: seq<seq<T>>, at: int)
  {
    && 0 <= at <= |items| && size > 0
    && chunks + Chunks(items[at..], size) == Chunks(items, size)
    && Concat(chunks) == items[..at]
  }

  lemma ChunksNext<T>(items: seq<T>, size: nat)
    requires size > 0 && items != []
    ensures
      var n := Min(size, |items|);
      Chunks(items, size) == [items[..n]] + Chunks(items[n..], size)
  {
    if |items| <= size {
      assert items[..|items|] == items && items[|items|..] == [];
    }
  }

  lemma CutNext<T>(items: seq<T>, size: nat, chunks: seq<seq<T>>, at: nat)
    requires at < |items| && CutTo(items, size, chunks, at)
    ensures
      var end := Min(at + size, |items|);
      CutTo(items, size, chunks + [items[at..end]], end)
  {
    hide Chunks, Concat;
    var end := Min(at + size, |items|);
    var rest, chunk := items[at..], items[at..end];
    assert chunk == rest[..Min(size, |rest|)] && items[end..] == rest[Min(size, |rest|)..];
    ChunksNext(rest, size);
    assert chunks + [chunk] + Chunks(items[end..], size) == chunks + ([chunk] + Chunks(items[end..], size));
    ConcatNext(chunks, chunk);
    assert items[..end] == items[..at] + chunk;
  }

  lemma NothingCut<T>(items: seq<T>, size: nat)
    requires size > 0
    ensures CutTo(items, size, [], 0) && (items == [] ==> Chunks(items, size) == [])
  {
    assert items[0..] == items;
  }

  lemma AllCut<T>(items: seq<T>, size: nat, chunks: seq<seq<T>>)
    requires CutTo(items, size, chunks, |items|)
    ensures chunks == Chunks(items, size)
  {
    assert items[|items|..] == [];
  }

  lemma CutIsPrefix<T>(items: seq<T>, size: nat, chunks: seq<seq<T>>, at: nat)
    requires CutTo(items, size, chunks, at)
    ensures chunks <= Chunks(items, size) && Concat(chunks) == items[..at]
  {
  }

  /** A size that is not positive panics in Go and throws in Node, even for no items. */
  method SplitBatch<T>(items: seq<T>, chunkSize: int) returns (r: Result<seq<seq<T>>, BatchFailure<()>>)
    ensures r == if chunkSize <= 0 then Err(SizeNotPositive) else Ok(Chunks(items, chunkSize))
  {
    hide Chunks, Concat;
    if chunkSize <= 0 {
      return Err(SizeNotPositive);
    }
    NothingCut(items, chunkSize);
    if |items| == 0 {
      return Ok([]);
    }
    var chunks: seq<seq<T>> := [];
    var i := 0;
    while i < |items|
      invariant i >= 0 && CutTo(items, chunkSize, chunks, Min(i, |items|))
    {
      var end := i + chunkSize;
      if end > |items| {
        end := |items|;
      }
      CutNext(items, chunkSize, chunks, i);
      chunks := chunks + [items[i..end]];
      i := i + chunkSize;
    }
    AllCut(items, chunkSize, chunks);
    return Ok(chunks);
  }

  // ---------- submitting them ----------

  function Shifted(errors: seq<BatchError>, offset: nat, width: Width): (r: seq<BatchError>)
    ensures |r| == |errors|
  {
    seq(|errors|, i requires 0 <= i < |errors| =>
      BatchError(Stored(width, errors[i].index + offset), errors[i].code))
  }

  /** The errors of all calls in order, each shifted by what earlier calls submitted. */
  function Collected<T, E>(submit: Submit<T, E>, calls: seq<seq<T>>, width: Width): seq<BatchError>
  {
    if calls == [] then []
    else
      var before, last := calls[..|calls| - 1], calls[|calls| - 1];
      var answer := submit(|before|, last);
      Collected(submit, before, width)
      + (if answer.Ok? then Shifted(answer.value, |Concat(before)|, width) else [])
  }

  ghost predicate Accepted<T, E>(submit: Submit<T, E>, calls: seq<seq<T>>)
  {
    forall k :: 0 <= k < |calls| ==> submit(k, calls[k]).Ok?
  }

  lemma NothingCollected<T, E>(submit: Submit<T, E>, width: Width)
    ensures Accepted(submit, []) && Collected(submit, [], width) == []
  {
  }

  lemma CollectedNext<T, E>(submit: Submit<T, E>, calls: seq<seq<T>>, chunk: seq<T>, width: Width)
    requires Accepted(submit, calls)
    ensures (calls + [chunk])[..|calls|] == calls
    ensures
      var answer := submit(|calls|, chunk);
      answer.Ok? ==>
        && Accepted(submit, calls + [chunk])
        && Collected(submit, calls + [chunk], width)
           == Collected(submit, calls, width) + Shifted(answer.value, |Concat(calls)|, width)
  {
    assert (calls + [chunk])[..|calls|] == calls;
  }

  /** What a run over `items` that makes `calls` and returns `r` has done. */
  ghost predicate Run<T, E>(items: seq<T>, size: int, submit: Submit<T, E>, width: Width,
                                        calls: seq<seq<T>>, r: Result<seq<BatchError>, BatchFailure<E>>)
  {
    if items == [] then calls == [] && r == Ok([])
    else if size <= 0 then calls == [] && r == Err(SizeNotPositive)
    else
      && calls <= Chunks(items, size)
      && match r
         case Ok(errors) =>
           calls == Chunks(items, size) && Accepted(submit, calls) && errors == Collected(submit, calls, width)
         case Err(SizeNotPositive) => false
         case Err(SubmitFailed(e)) =>
           && |calls| > 0 && Accepted(submit, calls[..|calls| - 1])
           && submit(|calls| - 1, calls[|calls| - 1]) == Err(e)
  }

  /** How many chunks are accepted before one is not. */
  function AcceptedCount<T, E>(submit: Submit<T, E>, chunks: seq<seq<T>>): (n: nat)
    ensures n <= |chunks| && forall k :: 0 <= k < n ==> submit(k, chunks[k]).Ok?
    ensures n < |chunks| ==> submit(n, chunks[n]).Err?
  {
    if chunks == [] then 0
    else
      var before, last := chunks[..|chunks| - 1], chunks[|chunks| - 1];
      var n := AcceptedCount(submit, before);
      if n == |before| && submit(n, last).Ok? then n + 1 else n
  }

  /** What the client returns. */
  function Outcome<T, E>(items: seq<T>, size: int, submit: Submit<T, E>, width: Width)
    : Result<seq<BatchError>, BatchFailure<E>>
  {
    if items == [] then Ok([])
    else if size <= 0 then Err(SizeNotPositive)
    else
      var chunks := Chunks(items, size);
      var n := AcceptedCount(submit, chunks);
      if n < |chunks| then Err(SubmitFailed(submit(n, chunks[n]).error)) else Ok(Collected(submit, chunks, width))
  }

  lemma RunOutcome<T, E>(items: seq<T>, size: int, submit: Submit<T, E>, width: Width,
                         calls: seq<seq<T>>, r: Result<seq<BatchError>, BatchFailure<E>>)
    requires Run(items, size, submit, width, calls, r)
    ensures r == Outcome(items, size, submit, width)
  {
    hide Chunks, Collected;
    if items != [] && size > 0 && r.Err? {
      var chunks, last := Chunks(items, size), |calls| - 1;
      assert calls == chunks[..|calls|];
      assert forall k :: 0 <= k < last ==> calls[..last][k] == chunks[k];
      assert AcceptedCount(submit, chunks) == last;
    }
  }

  method SubmitInsertBatches<T, E>(events: seq<T>, batchSize: int, submit: Submit<T, E>)
    returns (r: Result<seq<BatchError>, BatchFailure<E>>, ghost calls: seq<seq<T>>)
    ensures r == Outcome(events, batchSize, submit, Uint32)
    ensures Run(events, batchSize, submit, Uint32, calls, r)
  {
    hide Chunks, Concat, Collected, Accepted, AcceptedCount;
    calls := [];
    if |events| == 0 {
      return Ok([]), calls;
    }
    if batchSize <= 0 {
      return Err(SizeNotPositive), calls;
    }
    var allErrors: seq<BatchError> := [];
    var offset, callCount := 0, 0;
    NothingCut(events, batchSize);
    NothingCollected<T, E>(submit, Uint32);
    while offset < |events|
      invariant offset >= 0 && callCount == |calls|
      invariant CutTo(events, batchSize, calls, Min(offset, |events|))
      invariant Accepted(submit, calls) && allErrors == Collected(submit, calls, Uint32)
    {
      var end := offset + batchSize;
      if end > |events| {
        end := |events|;
      }
      var chunk := events[offset..end];
      CutNext(events, batchSize, calls, offset);
      CollectedNext(submit, calls, chunk, Uint32);
      calls := calls + [chunk];
      CutIsPrefix(events, batchSize, calls, end);
      var answer := submit(callCount, chunk);
      callCount := callCount + 1;
      if answer.Err? {
        r := Err(SubmitFailed(answer.error));
        RunOutcome(events, batchSize, submit, Uint32, calls, r);
        return;
      }
      var chunkErrors := answer.value;
      ghost var earlier := allErrors;
      for i := 0 to |chunkErrors|
        invariant allErrors == earlier + Shifted(chunkErrors, offset, Uint32)[..i]
      {
        var errEntry := chunkErrors[i];
        errEntry := errEntry.(index := (errEntry.index + offset) % UINT32_COUNT);
        allErrors := allErrors + [errEntry];
      }
      offset := offset + batchSize;
    }
    AllCut(events, batchSize, calls);
    r := Ok(allErrors);
    RunOutcome(events, batchSize, submit, Uint32, calls, r);
  }

  function OffsetBatchErrors(errors: seq<BatchError>, offset: nat): (r: seq<BatchError>)
    ensures r == Shifted(errors, offset, Unbounded)
  {
    if offset == 0 then
      assert forall i :: 0 <= i < |errors| ==> errors[i] == Shifted(errors, 0, Unbounded)[i];
      errors
    else
      seq(|errors|, i requires 0 <= i < |errors| => errors[i].(index := errors[i].index + offset))
  }

  method SubmitMultiBatch<T, E>(items: seq<T>, batchSize: int, submit: Submit<T, E>)
    returns (r: Result<seq<BatchError>, BatchFailure<E>>, ghost calls: seq<seq<T>>)
    ensures r == Outcome(items, batchSize, submit, Unbounded)
    ensures Run(items, batchSize, submit, Unbounded, calls, r)
  {
    hide Chunks, Concat, Collected, Accepted, AcceptedCount;
    calls := [];
    if |items| == 0 {
      return Ok([]), calls;
    }
    if batchSize <= 0 {
      return Err(SizeNotPositive), calls;
    }
    var allErrors: seq<BatchError> := [];
    var offset, callCount := 0, 0;
    NothingCut(items, batchSize);
    NothingCollected<T, E>(submit, Unbounded);
    while offset < |items|
      invariant offset >= 0 && callCount == |calls|
      invariant CutTo(items, batchSize, calls, Min(offset, |items|))
      invariant Accepted(submit, calls) && allErrors == Collected(submit, calls, Unbounded)
    {
      var chunk := items[offset..Min(offset + batchSize, |items|)];
      CutNext(items, batchSize, calls, offset);
      CollectedNext(submit, calls, chunk, Unbounded);
      calls := calls + [chunk];
      CutIsPrefix(items, batchSize, calls, Min(offset + batchSize, |items|));
      var answer := submit(callCount, chunk);
      callCount := callCount + 1;
      if answer.Err? {
        r := Err(SubmitFailed(answer.error));
        RunOutcome(items, batchSize, submit, Unbounded, calls, r);
        return;
      }
      if |answer.value| > 0 {
        allErrors := allErrors + OffsetBatchErrors(answer.value, offset);
      }
      offset := offset + batchSize;
    }
    AllCut(items, batchSize, calls);
    r := Ok(allErrors);
    RunOutcome(items, batchSize, submit, Unbounded, calls, r);
  }

  // ---------- what a run amounts to ----------

  /** The calls made submit a prefix of the input in order, and all of it when the run succeeds. */
  lemma CallsCoverPrefix<T, E>(items: seq<T>, size: int, submit: Submit<T, E>, width: Width,
                               calls: seq<seq<T>>, r: Result<seq<BatchError>, BatchFailure<E>>)
    requires Run(items, size, submit, width, calls, r)
    ensures Concat(calls) <= items
    ensures r.Ok? ==> Concat(calls) == items
    ensures r == Err(SizeNotPositive) <==> items != [] && size <= 0
  {
    if items != [] && size > 0 {
      var chunks := Chunks(items, size);
      ChunksPartition(items, size);
      ConcatAppend(calls, chunks[|calls|..]);
      assert calls + chunks[|calls|..] == chunks;
    }
  }

  /** They are the first chunks, and each but the last was accepted. */
  lemma CallsAreChunks<T, E>(items: seq<T>, size: int, submit: Submit<T, E>, width: Width,
                             calls: seq<seq<T>>, r: Result<seq<BatchError>, BatchFailure<E>>)
    requires Run(items, size, submit, width, calls, r)
    ensures calls == [] || (size > 0 && calls <= Chunks(items, size))
    ensures forall k :: 0 <= k < |calls| - 1 ==> submit(k, calls[k]).Ok?
  {
    hide Chunks, Collected;
  }

  /** The rejected items among `items` in order; `verdict` gives 0 for an accepted item. */
  function Rejections<T>(verdict: T -> nat, items: seq<T>, offset: nat, width: Width): seq<BatchError>
  {
    if items == [] then []
    else
      var before, last := items[..|items| - 1], items[|items| - 1];
      Rejections(verdict, before, offset, width)
      + (if verdict(last) != 0 then [BatchError(Stored(width, offset + |before|), verdict(last))] else [])
  }

  lemma {:induction false} RejectionsAppend<T>(verdict: T -> nat, a: seq<T>, b: seq<T>, offset: nat, width: Width)
    ensures Rejections(verdict, a + b, offset, width)
         == Rejections(verdict, a, offset, width) + Rejections(verdict, b, offset + |a|, width)
    decreases |b|
  {
    if b == [] {
      assert a + b == a;
    } else {
      var init := b[..|b| - 1];
      RejectionsAppend(verdict, a, init, offset, width);
      assert (a + b)[..|a + b| - 1] == a + init;
    }
  }

  lemma StoredSum(width: Width, n: nat, offset: nat)
    ensures Stored(width, Stored(width, n) + offset) == Stored(width, offset + n)
  {
    if width.Uint32? {
      var q := n / UINT32_COUNT;
      assert n == q * UINT32_COUNT + Stored(width, n);
    }
  }

  lemma {:induction false} RejectionsShift<T>(verdict: T -> nat, items: seq<T>, offset: nat, width: Width)
    ensures Shifted(Rejections(verdict, items, 0, width), offset, width) == Rejections(verdict, items, offset, width)
    decreases |items|
  {
    hide Stored;
    if items != [] {
      var init := items[..|items| - 1];
      RejectionsShift(verdict, init, offset, width);
      StoredSum(width, |init|, offset);
    }
  }

  /** Each call reports exactly its rejected positions, ascending. */
  ghost predicate Reports<T, E>(submit: Submit<T, E>, verdict: T -> nat, calls: seq<seq<T>>, width: Width)
  {
    forall k :: 0 <= k < |calls| ==> submit(k, calls[k]) == Ok(Rejections(verdict, calls[k], 0, width))
  }

  lemma ReportsBefore<T, E>(submit: Submit<T, E>, verdict: T -> nat, calls: seq<seq<T>>, width: Width)
    requires calls != [] && Reports(submit, verdict, calls, width)
    ensures
      var n := |calls| - 1;
      && Reports(submit, verdict, calls[..n], width) && Accepted(submit, calls[..n])
      && submit(n, calls[n]) == Ok(Rejections(verdict, calls[n], 0, width))
  {
    hide Rejections;
  }

  lemma NothingRejected<T, E>(submit: Submit<T, E>, verdict: T -> nat, width: Width)
    ensures Collected(submit, [], width) == [] == Rejections(verdict, Concat([]), 0, width)
  {
  }

  lemma {:induction false} CollectedAll<T, E>(submit: Submit<T, E>, verdict: T -> nat, calls: seq<seq<T>>, width: Width)
    requires Reports(submit, verdict, calls, width)
    ensures Collected(submit, calls, width) == Rejections(verdict, Concat(calls), 0, width)
    decreases |calls|
  {
    hide Shifted, Stored, Rejections, Concat, Collected, Reports, Accepted;
    if calls == [] {
      NothingRejected(submit, verdict, width);
    } else {
      var before, last := calls[..|calls| - 1], calls[|calls| - 1];
      ReportsBefore(submit, verdict, calls, width);
      CollectedAll(submit, verdict, before, width);
      assert calls == before + [last];
      CollectedNext(submit, before, last, width);
      ConcatNext(before, last);
      RejectionsShift(verdict, last, |Concat(before)|, width);
      RejectionsAppend(verdict, Concat(before), last, 0, width);
    }
  }

  /** The unwrapped list is exactly the rejected positions with their codes, ascending. */
  lemma {:induction false} RejectionsAreExact<T>(verdict: T -> nat, items: seq<T>)
    ensures
      var errors := Rejections(verdict, items, 0, Unbounded);
      && (forall e :: e in errors <==> e.index < |items| && e.code == verdict(items[e.index]) != 0)
      && (forall i, j :: 0 <= i < j < |errors| ==> errors[i].index < errors[j].index)
    decreases |items|
  {
    if items != [] {
      var n := |items| - 1;
      var init := items[..n];
      RejectionsAreExact(verdict, init);
      var before := Rejections(verdict, init, 0, Unbounded);
      var errors := Rejections(verdict, items, 0, Unbounded);
      assert errors == before + (if verdict(items[n]) != 0 then [BatchError(n, verdict(items[n]))] else []);
      forall i | 0 <= i < |before| ensures before[i].index < n {
        assert before[i] in before;
      }
      forall e ensures e in errors <==> e.index < |items| && e.code == verdict(items[e.index]) != 0 {
        if e.index < n {
          assert init[e.index] == items[e.index];
        }
      }
    }
  }

  /** Rejections are all near when none lies at position 2^32 or later. */
  ghost predicate AllNear<T>(verdict: T -> nat, items: seq<T>)
  {
    forall p :: 0 <= p < |items| && verdict(items[p]) != 0 ==> p < 0x1_0000_0000
  }

  lemma SnocEqual<A>(u: seq<A>, e: A, v: seq<A>, f: A)
    requires |u| == |v|
    ensures u + [e] == v + [f] <==> u == v && e == f
  {
    assert (u + [e])[..|u|] == u && (v + [f])[..|v|] == v;
    assert (u + [e])[|u|] == e && (v + [f])[|v|] == f;
  }

  /** Wrapping changes the list exactly when an item at position 2^32 or later was rejected. */
  lemma {:induction false} WrapShowsExactlyWhenFar<T>(verdict: T -> nat, items: seq<T>)
    ensures AllNear(verdict, items) <==>
            Rejections(verdict, items, 0, Uint32) == Rejections(verdict, items, 0, Unbounded)
    ensures |Rejections(verdict, items, 0, Uint32)| == |Rejections(verdict, items, 0, Unbounded)|
    ensures forall k :: 0 <= k < |Rejections(verdict, items, 0, Uint32)| ==>
      var (stored, actual) := (Rejections(verdict, items, 0, Uint32)[k], Rejections(verdict, items, 0, Unbounded)[k]);
      stored.index == actual.index % 0x1_0000_0000 && stored.code == actual.code
    decreases |items|
  {
    if items != [] {
      var n := |items| - 1;
      var init := items[..n];
      WrapShowsExactlyWhenFar(verdict, init);
      AllNearSnoc(verdict, items);
      var code := verdict(items[n]);
      var u, v := Rejections(verdict, init, 0, Uint32), Rejections(verdict, init, 0, Unbounded);
      if code == 0 {
        assert u + [] == u && v + [] == v;
      } else {
        SnocEqual(u, BatchError(Stored(Uint32, n), code), v, BatchError(n, code));
        assert Stored(Uint32, n) == n <==> n < UINT32_COUNT;
      }
    }
  }

  lemma AllNearSnoc<T>(verdict: T -> nat, items: seq<T>)
    requires items != []
    ensures AllNear(verdict, items) <==>
            (AllNear(verdict, items[..|items| - 1])
             && (verdict(items[|items| - 1]) != 0 ==> |items| - 1 < UINT32_COUNT))
  {
    var init := items[..|items| - 1];
    assert forall p :: 0 <= p < |init| ==> init[p] == items[p];
  }

  /**
   If every call reports exactly its rejected positions, the run succeeds for every positive size
   with exactly the rejected positions of the whole input, stored in the client's index width.
   In Go they are the true positions exactly when none of them is 2^32 or later.
   */
  lemma {:induction false} BatchedErrorsAreGlobal<T, E>(
      items: seq<T>, size: int, submit: Submit<T, E>, verdict: T -> nat, width: Width,
      calls: seq<seq<T>>, r: Result<seq<BatchError>, BatchFailure<E>>)
    requires size > 0 && Run(items, size, submit, width, calls, r) && Reports(submit, verdict, calls, width)
    ensures r == Ok(Rejections(verdict, items, 0, width)) && Concat(calls) == items
    ensures r == Ok(Rejections(verdict, items, 0, Unbounded))
       <==> (width.Unbounded? || AllNear(verdict, items))
  {
    CallsCoverPrefix(items, size, submit, width, calls, r);
    CollectedAll(submit, verdict, calls, width);
    WrapShowsExactlyWhenFar(verdict, items);
  }
}
