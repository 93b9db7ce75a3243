/** Merging the answers of several shards (src/clients/node/src/topology.ts, mergeResults). */
module MergeResults {
  import opened Wrappers

  /** `data` stands for the fields the merge does not look at. */
  datatype Event = Event(entityId: nat, timestamp: nat, data: nat)

  datatype QueryResult = QueryResult(events: seq<Event>, hasMore: bool)

  /** A JavaScript Map from entity to event: its keys in insertion order, and its entries. */
  datatype Seen = Seen(order: seq<nat>, latest: map<nat, Event>)

  datatype Merged = Merged(events: seq<Event>, shardResults: map<nat, nat>, hasMore: bool)

  // ---------- specification ----------

  /** One pass of the inner loop. */
  function Note(seen: Seen, e: Event): Seen
  {
    if e.entityId !in seen.latest then
      Seen(seen.order + [e.entityId], seen.latest[e.entityId := e])
    else if e.timestamp > seen.latest[e.entityId].timestamp then
      seen.(latest := seen.latest[e.entityId := e])
    else seen
  }

  function NoteAll(seen: Seen, events: seq<Event>): Seen
    decreases |events|
  {
    if events == [] then seen
    else Note(NoteAll(seen, events[..|events| - 1]), events[|events| - 1])
  }

  function AllEvents(results: seq<Option<QueryResult>>): seq<Event>
  {
    if results == [] then []
    else
      var last := results[|results| - 1];
      AllEvents(results[..|results| - 1]) + (if last.Some? then last.value.events else [])
  }

  function Collected(results: seq<Option<QueryResult>>): Seen
  {
    NoteAll(Seen([], map[]), AllEvents(results))
  }

  ghost predicate Consistent(seen: Seen)
  {
    && (forall k :: 0 <= k < |seen.order| ==> seen.order[k] in seen.latest)
    && (forall id :: id in seen.latest ==> id in seen.order && seen.latest[id].entityId == id)
    && (forall k, l :: 0 <= k < l < |seen.order| ==> seen.order[k] != seen.order[l])
  }

  function Values(seen: Seen): (s: seq<Event>)
    requires Consistent(seen)
    ensures |s| == |seen.order|
    ensures forall k :: 0 <= k < |s| ==> s[k] == seen.latest[seen.order[k]]
  {
    seq(|seen.order|, k requires 0 <= k < |seen.order| => seen.latest[seen.order[k]])
  }

  /** The stable sort by descending timestamp. */
  function SortNewestFirst(s: seq<Event>): seq<Event>
  {
    if s == [] then [] else Insert(s[0], SortNewestFirst(s[1..]))
  }

  function Insert(e: Event, s: seq<Event>): seq<Event>
  {
    if s == [] || s[0].timestamp <= e.timestamp then [e] + s
    else [s[0]] + Insert(e, s[1..])
  }

  function Truncated(s: seq<Event>, limit: int): seq<Event>
  {
    if limit > 0 && |s| > limit then s[..limit] else s
  }

  ghost predicate Sorted(s: seq<Event>)
  {
    forall k, l :: 0 <= k < l < |s| ==> s[k].timestamp >= s[l].timestamp
  }

  function AtTime(s: seq<Event>, t: nat): seq<Event>
  {
    if s == [] then []
    else (if s[0].timestamp == t then [s[0]] else []) + AtTime(s[1..], t)
  }

  lemma {:induction false} InsertPermutes(e: Event, s: seq<Event>)
    ensures multiset(Insert(e, s)) == multiset{e} + multiset(s)
  {
    if s != [] && s[0].timestamp > e.timestamp {
      InsertPermutes(e, s[1..]);
      assert s == [s[0]] + s[1..];
    }
  }

  lemma {:induction false} InsertSorts(e: Event, s: seq<Event>)
    requires Sorted(s)
    ensures Sorted(Insert(e, s))
  {
    if s != [] && s[0].timestamp > e.timestamp {
      var rest := s[1..];
      InsertSorts(e, rest);
      InsertPermutes(e, rest);
      var grown := Insert(e, rest);
      forall k | 0 <= k < |grown|
        ensures grown[k].timestamp <= s[0].timestamp
      {
        assert grown[k] in multiset(grown);
        assert grown[k] == e || grown[k] in rest;
      }
    }
  }

  lemma AtTimeCons(e: Event, s: seq<Event>, t: nat)
    ensures AtTime([e] + s, t) == (if e.timestamp == t then [e] else []) + AtTime(s, t)
  {
    assert ([e] + s)[1..] == s;
  }

  lemma {:induction false} InsertIsStable(e: Event, s: seq<Event>, t: nat)
    ensures AtTime(Insert(e, s), t) == (if e.timestamp == t then [e] else []) + AtTime(s, t)
  {
    if s == [] || s[0].timestamp <= e.timestamp {
      AtTimeCons(e, s, t);
    } else {
      InsertIsStable(e, s[1..], t);
      AtTimeCons(s[0], Insert(e, s[1..]), t);
    }
  }

  lemma {:induction false} SortSorts(s: seq<Event>)
    ensures Sorted(SortNewestFirst(s)) && multiset(SortNewestFirst(s)) == multiset(s)
  {
    if s != [] {
      SortSorts(s[1..]);
      InsertSorts(s[0], SortNewestFirst(s[1..]));
      InsertPermutes(s[0], SortNewestFirst(s[1..]));
      assert s == [s[0]] + s[1..];
    }
  }

  lemma SortKeepsLength(s: seq<Event>)
    ensures |SortNewestFirst(s)| == |s|
  {
    SortSorts(s);
    assert |multiset(SortNewestFirst(s))| == |multiset(s)|;
  }

  lemma {:induction false} SortKeepsTies(s: seq<Event>, t: nat)
    ensures AtTime(SortNewestFirst(s), t) == AtTime(s, t)
  {
    if s != [] {
      SortKeepsTies(s[1..], t);
      InsertIsStable(s[0], SortNewestFirst(s[1..]), t);
    }
  }

  /** The sort is what Array.prototype.sort promises: ordered, a permutation, and stable. */
  lemma SortIsStable(s: seq<Event>)
    ensures Sorted(SortNewestFirst(s)) && multiset(SortNewestFirst(s)) == multiset(s)
    ensures forall t :: AtTime(SortNewestFirst(s), t) == AtTime(s, t)
  {
    SortSorts(s);
    forall t ensures AtTime(SortNewestFirst(s), t) == AtTime(s, t) {
      SortKeepsTies(s, t);
    }
  }

  // ---------- the merge loop ----------

  lemma {:induction false} NoteAllConsistent(events: seq<Event>)
    ensures Consistent(NoteAll(Seen([], map[]), events))
  {
    if events != [] {
      NoteAllConsistent(events[..|events| - 1]);
      NoteConsistent(NoteAll(Seen([], map[]), events[..|events| - 1]), events[|events| - 1]);
    }
  }

  lemma NoteConsistent(seen: Seen, e: Event)
    requires Consistent(seen)
    ensures Consistent(Note(seen, e))
  {
    var next := Note(seen, e);
    if e.entityId !in seen.latest {
      assert next.order[|seen.order|] == e.entityId;
      forall id | id in next.latest ensures id in next.order {
        if id != e.entityId {
          assert id in seen.order;
        }
      }
    }
  }

  /** Where an entity is first met. */
  function FirstMet(events: seq<Event>, id: nat): nat
  {
    if events == [] || events[0].entityId == id then 0 else 1 + FirstMet(events[1..], id)
  }

  lemma {:induction false} FirstMetGrows(events: seq<Event>, e: Event, id: nat)
    ensures FirstMet(events, id) <= |events|
    ensures FirstMet(events, id) < |events| <==> exists k :: 0 <= k < |events| && events[k].entityId == id
    ensures FirstMet(events + [e], id) ==
      if FirstMet(events, id) < |events| then FirstMet(events, id)
      else if e.entityId == id then |events|
      else |events| + 1
  {
    if events == [] {
      assert ([] + [e])[1..] == [];
    } else {
      var rest := events[1..];
      FirstMetGrows(rest, e, id);
      assert (events + [e])[1..] == rest + [e];
      assert forall k :: 0 <= k < |rest| ==> rest[k] == events[k + 1];
      if k :| 0 <= k < |events| && events[k].entityId == id {
        assert k > 0 ==> rest[k - 1].entityId == id;
      }
    }
  }

  /** The map holds the entities in the order in which they are first met: equal times stay in it. */
  lemma {:induction false} OrderIsFirstMet(events: seq<Event>)
    ensures
      var order := NoteAll(Seen([], map[]), events).order;
      && (forall a, b :: 0 <= a < b < |order| ==> FirstMet(events, order[a]) < FirstMet(events, order[b]))
      && (forall a :: 0 <= a < |order| ==> FirstMet(events, order[a]) < |events|)
    decreases |events|
  {
    if events != [] {
      var init, e := events[..|events| - 1], events[|events| - 1];
      OrderIsFirstMet(init);
      NoteAllConsistent(init);
      assert events == init + [e];
      var seen := NoteAll(Seen([], map[]), init);
      forall id ensures FirstMet(events, id) ==
        if FirstMet(init, id) < |init| then FirstMet(init, id)
        else if e.entityId == id then |init|
        else |init| + 1
      {
        FirstMetGrows(init, e, id);
      }
      var next := NoteAll(Seen([], map[]), events);
      assert next == Note(seen, e);
      if e.entityId !in seen.latest {
        NotedIsMet(init, e.entityId);
        FirstMetGrows(init, e, e.entityId);
      }
    }
  }

  /** Entities in the map are the ones met; each keeps the first of its newest events. */
  lemma {:induction false} NotedIsMet(events: seq<Event>, id: nat)
    ensures id in NoteAll(Seen([], map[]), events).latest <==> exists k :: 0 <= k < |events| && events[k].entityId == id
    decreases |events|
  {
    if events != [] {
      var init := events[..|events| - 1];
      NotedIsMet(init, id);
      assert forall k :: 0 <= k < |init| ==> init[k] == events[k];
    }
  }

  lemma {:induction false} KeptIsFirstNewest(events: seq<Event>, id: nat) returns (k: nat)
    requires id in NoteAll(Seen([], map[]), events).latest
    ensures k < |events| && events[k] == NoteAll(Seen([], map[]), events).latest[id] && events[k].entityId == id
    ensures forall l :: 0 <= l < k && events[l].entityId == id ==> events[l].timestamp < events[k].timestamp
    ensures forall l :: k < l < |events| && events[l].entityId == id ==> events[l].timestamp <= events[k].timestamp
    decreases |events|
  {
    var n := |events| - 1;
    var init, e := events[..n], events[n];
    var seen := NoteAll(Seen([], map[]), init);
    assert forall l :: 0 <= l < n ==> init[l] == events[l];
    if id in seen.latest {
      k := KeptIsFirstNewest(init, id);
      if e.entityId == id && e.timestamp > seen.latest[id].timestamp {
        k := n;
      }
    } else {
      NotedIsMet(init, id);
      k := n;
    }
  }

  function MergedEvents(results: seq<Option<QueryResult>>, limit: int): seq<Event>
  {
    NoteAllConsistent(AllEvents(results));
    Truncated(SortNewestFirst(Values(Collected(results))), limit)
  }

  lemma NextEvent(before: seq<Event>, events: seq<Event>, k: nat)
    requires k < |events|
    ensures NoteAll(Seen([], map[]), before + events[..k + 1]) ==
            Note(NoteAll(Seen([], map[]), before + events[..k]), events[k])
  {
    var noted := before + events[..k + 1];
    assert noted[..|noted| - 1] == before + events[..k];
  }

  lemma NextShard(results: seq<Option<QueryResult>>, i: nat)
    requires i < |results|
    ensures AllEvents(results[..i + 1]) ==
            AllEvents(results[..i]) + (if results[i].Some? then results[i].value.events else [])
  {
    assert results[..i + 1][..i] == results[..i];
  }

  ghost predicate AnyHasMore(results: seq<Option<QueryResult>>)
  {
    exists k :: 0 <= k < |results| && results[k].Some? && results[k].value.hasMore
  }

  lemma AnyHasMoreMeaning(results: seq<Option<QueryResult>>)
    ensures AnyHasMore(results) <==>
            exists k :: 0 <= k < |results| && results[k].Some? && results[k].value.hasMore
  {
  }

  lemma AnyHasMoreStep(results: seq<Option<QueryResult>>, i: nat)
    requires i < |results|
    ensures AnyHasMore(results[..i + 1]) <==>
            AnyHasMore(results[..i]) || (results[i].Some? && results[i].value.hasMore)
  {
    var shorter, longer := results[..i], results[..i + 1];
    if AnyHasMore(shorter) {
      var k :| 0 <= k < |shorter| && shorter[k].Some? && shorter[k].value.hasMore;
      assert longer[k] == shorter[k];
    }
    if results[i].Some? && results[i].value.hasMore {
      assert longer[i] == results[i];
    }
    if AnyHasMore(longer) {
      var k :| 0 <= k < |longer| && longer[k].Some? && longer[k].value.hasMore;
      assert k < i ==> shorter[k] == longer[k];
    }
  }

  method Merge(results: seq<Option<QueryResult>>, limit: int) returns (r: Merged)
    ensures r.events == MergedEvents(results, limit)
    ensures forall k :: k in r.shardResults <==> 0 <= k < |results| && results[k].Some?
    ensures forall k :: k in r.shardResults ==> r.shardResults[k] == |results[k].value.events|
    ensures r.hasMore <==>
            || (exists k :: 0 <= k < |results| && results[k].Some? && results[k].value.hasMore)
            || (limit > 0 && |Collected(results).order| > limit)
  {
    hide NoteAll, AllEvents, SortNewestFirst, AnyHasMore;
    var seen := Seen([], map[]);
    var shardResults: map<nat, nat> := map[];
    var hasMore := false;
    NothingYet();
    for shardId := 0 to |results|
      invariant seen == Collected(results[..shardId])
      invariant forall k :: k in shardResults <==> 0 <= k < shardId && results[k].Some?
      invariant forall k :: k in shardResults ==> shardResults[k] == |results[k].value.events|
      invariant hasMore <==> AnyHasMore(results[..shardId])
    {
      NextShard(results, shardId);
      AnyHasMoreStep(results, shardId);
      ghost var before := AllEvents(results[..shardId]);
      if results[shardId].None? {
        assert before + [] == before;
        continue;
      }
      var result := results[shardId].value;
      shardResults := shardResults[shardId := |result.events|];
      if result.hasMore {
        hasMore := true;
      }
      assert before + result.events[..0] == before;
      for k := 0 to |result.events|
        invariant seen == NoteAll(Seen([], map[]), before + result.events[..k])
      {
        NextEvent(before, result.events, k);
        var event := result.events[k];
        if event.entityId !in seen.latest || event.timestamp > seen.latest[event.entityId].timestamp {
          var order := if event.entityId in seen.latest then seen.order else seen.order + [event.entityId];
          seen := Seen(order, seen.latest[event.entityId := event]);
        }
      }
      assert result.events[..|result.events|] == result.events;
    }
    assert results[..|results|] == results;
    NoteAllConsistent(AllEvents(results));
    var events := SortNewestFirst(Values(seen));
    SortKeepsLength(Values(seen));
    if limit > 0 && |events| > limit {
      events := events[..limit];
      hasMore := true;
    }
    r := Merged(events, shardResults, hasMore);
    AnyHasMoreMeaning(results);
  }

  lemma NothingYet()
    ensures forall results: seq<Option<QueryResult>> :: Collected(results[..0]) == Seen([], map[])
    ensures forall results: seq<Option<QueryResult>> :: !AnyHasMore(results[..0])
  {
  }
}
