/**
 Scatter-gather is sound: merging truncated shard answers gives what merging the shards' full
 data would give.
 */
module TopEvents {
  import opened Wrappers
  import opened MergeResults

  // ---------- what the shards promise ----------

  ghost predicate DistinctEntities(s: seq<Event>)
  {
    forall k, l :: 0 <= k < l < |s| ==> s[k].entityId != s[l].entityId
  }

  ghost predicate Complete(data: seq<Event>, events: seq<Event>)
  {
    forall d :: d in data ==> d in events
  }

  /** No event left out of the answer is newer than one in it. */
  ghost predicate NewestKept(data: seq<Event>, events: seq<Event>)
  {
    forall d, e :: d in data && d !in events && e in events ==> d.timestamp <= e.timestamp
  }

  ghost function Entities(s: seq<Event>): set<nat>
  {
    set e | e in s :: e.entityId
  }

  /**
   An answer from the shard's data: all of it, or the newest events of at least `limit`
   entities. Entities may be repeated, in the data and in the answer.
   */
  ghost predicate Answers(data: seq<Event>, r: Option<QueryResult>, limit: int)
  {
    if r.None? then data == []
    else
      var events := r.value.events;
      && (forall e :: e in events ==> e in data)
      && (Complete(data, events) || (|Entities(events)| >= limit && NewestKept(data, events)))
  }

  ghost predicate AllAnswer(shards: seq<seq<Event>>, results: seq<Option<QueryResult>>, limit: int)
  {
    |shards| == |results| && forall s :: 0 <= s < |shards| ==> Answers(shards[s], results[s], limit)
  }

  ghost predicate Holds(shards: seq<seq<Event>>, d: Event)
  {
    exists s :: 0 <= s < |shards| && d in shards[s]
  }

  // ---------- what is collected ----------

  /** The newest event noted for each entity, and only noted events. */
  ghost predicate Latest(events: seq<Event>, seen: Seen)
  {
    && Consistent(seen)
    && (forall e :: e in events ==>
          e.entityId in seen.latest && seen.latest[e.entityId].timestamp >= e.timestamp)
    && (forall id :: id in seen.latest ==> seen.latest[id] in events)
  }

  lemma LatestNext(events: seq<Event>, seen: Seen, e: Event)
    requires Latest(events, seen)
    ensures Latest(events + [e], Note(seen, e))
  {
    NoteConsistent(seen, e);
    var more, next := events + [e], Note(seen, e);
    assert more[|events|] == e;
    assert forall x :: x in more <==> x in events || x == e;
    assert forall id :: id in next.latest <==> id in seen.latest || id == e.entityId;
    assert forall id :: id in seen.latest && id != e.entityId ==> next.latest[id] == seen.latest[id];
  }

  lemma {:induction false} CollectsLatest(events: seq<Event>)
    ensures Latest(events, NoteAll(Seen([], map[]), events))
  {
    hide Latest, Note;
    if events == [] {
      NoneLatest();
    } else {
      var init, e := events[..|events| - 1], events[|events| - 1];
      CollectsLatest(init);
      LatestNext(init, NoteAll(Seen([], map[]), init), e);
      assert events == init + [e];
    }
  }

  lemma NoneLatest()
    ensures Latest([], Seen([], map[]))
  {
  }

  lemma {:induction false} AllEventsOf(results: seq<Option<QueryResult>>, e: Event)
    ensures e in AllEvents(results) <==>
            exists s :: 0 <= s < |results| && results[s].Some? && e in results[s].value.events
  {
    if results != [] {
      var init := results[..|results| - 1];
      AllEventsOf(init, e);
      if s :| 0 <= s < |results| && results[s].Some? && e in results[s].value.events {
        if s < |init| {
          assert init[s] == results[s];
        }
      }
      if s :| 0 <= s < |init| && init[s].Some? && e in init[s].value.events {
        assert results[s] == init[s];
      }
    }
  }

  /** The sorted list before truncation: one newest noted event per noted entity. */
  ghost predicate Ranking(events: seq<Event>, ranked: seq<Event>)
  {
    && Sorted(ranked) && DistinctEntities(ranked)
    && (forall r :: r in ranked ==> r in events)
    && (forall e :: e in events ==> Ranked(ranked, e.entityId, e.timestamp))
  }

  ghost predicate Ranked(ranked: seq<Event>, id: nat, since: nat)
  {
    exists k :: 0 <= k < |ranked| && ranked[k].entityId == id && ranked[k].timestamp >= since
  }

  function RankedList(results: seq<Option<QueryResult>>): seq<Event>
  {
    NoteAllConsistent(AllEvents(results));
    SortNewestFirst(Values(Collected(results)))
  }

  lemma SortKeepsDistinct(s: seq<Event>)
    requires DistinctEntities(s)
    ensures DistinctEntities(SortNewestFirst(s))
  {
    SortSorts(s);
    var t := SortNewestFirst(s);
    forall k, l | 0 <= k < l < |t|
      ensures t[k].entityId != t[l].entityId
    {
      if t[k].entityId == t[l].entityId {
        SameEntitySameEvent(s, t, k);
        SameEntitySameEvent(s, t, l);
        assert t[k] == t[l];
        TwiceInMultiset(t, k, l);
        OnceInMultiset(s, t[k]);
      }
    }
  }

  lemma SameEntitySameEvent(s: seq<Event>, t: seq<Event>, k: nat)
    requires multiset(s) == multiset(t) && k < |t|
    ensures t[k] in s
  {
    assert t[k] in multiset(t);
  }

  lemma TwiceInMultiset(t: seq<Event>, k: nat, l: nat)
    requires k < l < |t| && t[k] == t[l]
    ensures multiset(t)[t[k]] >= 2
  {
    assert t == t[..k] + [t[k]] + t[k + 1..l] + [t[l]] + t[l + 1..];
  }

  lemma {:induction false} OnceInMultiset(s: seq<Event>, e: Event)
    requires DistinctEntities(s)
    ensures multiset(s)[e] <= 1
  {
    if s != [] {
      var rest := s[1..];
      assert s == [s[0]] + rest;
      assert DistinctEntities(rest) by {
        forall k, l | 0 <= k < l < |rest| ensures rest[k].entityId != rest[l].entityId {
          assert s[k + 1].entityId != s[l + 1].entityId;
        }
      }
      OnceInMultiset(rest, e);
      if s[0] == e {
        forall k | 0 <= k < |rest| ensures rest[k] != e {
          assert s[0].entityId != s[k + 1].entityId;
        }
      }
    }
  }

  lemma CollectedRanking(results: seq<Option<QueryResult>>)
    ensures Ranking(AllEvents(results), RankedList(results))
  {
    var events := AllEvents(results);
    var seen := Collected(results);
    CollectsLatest(events);
    var values, ranked := Values(seen), RankedList(results);
    SortSorts(values);
    SortKeepsDistinct(values);
    forall r | r in ranked ensures r in events {
      assert r in multiset(ranked);
      assert r in values;
    }
    forall e | e in events ensures Ranked(ranked, e.entityId, e.timestamp) {
      var k :| 0 <= k < |seen.order| && seen.order[k] == e.entityId;
      assert values[k] == seen.latest[e.entityId];
      assert values[k] in multiset(values);
      assert values[k] in multiset(ranked);
      var l :| 0 <= l < |ranked| && ranked[l] == values[k];
    }
  }

  // ---------- counting ----------

  lemma {:induction false} EntityCount(s: seq<Event>)
    ensures |Entities(s)| <= |s|
    ensures DistinctEntities(s) ==> |Entities(s)| == |s|
  {
    if s != [] {
      var init, e := s[..|s| - 1], s[|s| - 1];
      EntityCount(init);
      assert s == init + [e];
      assert Entities(s) == Entities(init) + {e.entityId};
      if DistinctEntities(s) {
        assert e.entityId !in Entities(init);
      }
    }
  }

  lemma SubsetCount(a: set<nat>, b: set<nat>)
    requires a <= b
    ensures |a| <= |b|
  {
    assert b == a + (b - a);
  }

  /** Entities with something strictly newer than position p of a sorted list of the noted events come before p. */
  lemma NewerComesBefore(events: seq<Event>, ranked: seq<Event>, newer: seq<Event>, p: nat)
    requires Ranking(events, ranked) && p < |ranked|
    requires forall e :: e in newer ==> e in events && e.timestamp > ranked[p].timestamp
    ensures |Entities(newer)| <= p
  {
    forall id | id in Entities(newer)
      ensures id in Entities(ranked[..p])
    {
      var e :| e in newer && e.entityId == id;
      EarlierRank(ranked, e, p);
    }
    EntityCount(ranked[..p]);
    SubsetCount(Entities(newer), Entities(ranked[..p]));
  }

  lemma EarlierRank(ranked: seq<Event>, e: Event, p: nat)
    requires Sorted(ranked) && p < |ranked| && e.timestamp > ranked[p].timestamp
    requires Ranked(ranked, e.entityId, e.timestamp)
    ensures e.entityId in Entities(ranked[..p])
  {
    var k :| 0 <= k < |ranked| && ranked[k].entityId == e.entityId && ranked[k].timestamp >= e.timestamp;
    assert k < p;
    assert ranked[..p][k] == ranked[k];
  }

  // ---------- when an answer is enough ----------

  /** The list is full, and the answer goes down to its last time or below. */
  ghost predicate Reaches(events: seq<Event>, listed: seq<Event>, limit: int)
  {
    0 < limit == |listed| && exists e :: e in events && e.timestamp <= listed[limit - 1].timestamp
  }

  /** Whatever the shard left out cannot matter to the list. */
  ghost predicate Settles(data: seq<Event>, r: Option<QueryResult>, listed: seq<Event>, limit: int)
  {
    if r.None? then data == []
    else
      var events := r.value.events;
      && (forall e :: e in events ==> e in data)
      && (Complete(data, events) || (NewestKept(data, events) && Reaches(events, listed, limit)))
  }

  ghost predicate AllSettle(
      shards: seq<seq<Event>>, results: seq<Option<QueryResult>>, listed: seq<Event>, limit: int)
  {
    |shards| == |results| && forall s :: 0 <= s < |shards| ==> Settles(shards[s], results[s], listed, limit)
  }

  /** The first `limit` of any sorted list of the noted events. */
  ghost predicate Lists(results: seq<Option<QueryResult>>, ranked: seq<Event>, listed: seq<Event>, limit: int)
  {
    Ranking(AllEvents(results), ranked) && listed == Truncated(ranked, limit)
  }

  lemma MergedLists(results: seq<Option<QueryResult>>, limit: int)
    ensures Lists(results, RankedList(results), MergedEvents(results, limit), limit)
  {
    CollectedRanking(results);
  }

  lemma EntitiesAreRanked(events: seq<Event>, ranked: seq<Event>, sent: seq<Event>)
    requires Ranking(events, ranked) && forall e :: e in sent ==> e in events
    ensures Entities(sent) <= Entities(ranked) && |Entities(sent)| <= |ranked|
  {
    forall e | e in sent ensures e.entityId in Entities(ranked) {
      assert Ranked(ranked, e.entityId, e.timestamp);
      var k :| 0 <= k < |ranked| && ranked[k].entityId == e.entityId;
      assert ranked[k] in ranked;
    }
    EntityCount(ranked);
    SubsetCount(Entities(sent), Entities(ranked));
  }

  /** An answer with `limit` entities goes down to the last listed time: so many cannot all be newer. */
  lemma ManyEntitiesReach(results: seq<Option<QueryResult>>, ranked: seq<Event>, listed: seq<Event>, limit: int, s: nat)
    requires Lists(results, ranked, listed, limit) && limit > 0
    requires s < |results| && results[s].Some? && |Entities(results[s].value.events)| >= limit
    ensures Reaches(results[s].value.events, listed, limit)
  {
    hide AllEvents, Ranked, Entities;
    var sent, events := results[s].value.events, AllEvents(results);
    forall e | e in sent ensures e in events {
      AllEventsOf(results, e);
    }
    EntitiesAreRanked(events, ranked, sent);
    if forall e :: e in sent ==> e.timestamp > ranked[limit - 1].timestamp {
      NewerComesBefore(events, ranked, sent, limit - 1);
      assert false;
    }
  }

  lemma AnswersSettle(shards: seq<seq<Event>>, results: seq<Option<QueryResult>>, ranked: seq<Event>,
                      listed: seq<Event>, limit: int)
    requires AllAnswer(shards, results, limit) && Lists(results, ranked, listed, limit) && limit > 0
    ensures AllSettle(shards, results, listed, limit)
  {
    hide Lists, Complete, NewestKept, Reaches;
    forall s | 0 <= s < |shards| ensures Settles(shards[s], results[s], listed, limit) {
      assert Answers(shards[s], results[s], limit);
      if results[s].Some? && |Entities(results[s].value.events)| >= limit {
        ManyEntitiesReach(results, ranked, listed, limit, s);
      }
    }
  }

  // ---------- the main result ----------

  /** The newest event of `limit` entities, no other entity having a newer one. */
  ghost predicate TopOf(shards: seq<seq<Event>>, listed: seq<Event>, limit: int)
  {
    && |listed| <= limit && Sorted(listed) && DistinctEntities(listed)
    && (forall e :: e in listed ==> Holds(shards, e))
    && (forall d, e :: Holds(shards, d) && e in listed && d.entityId == e.entityId ==>
          d.timestamp <= e.timestamp)
    && (forall d, e :: Holds(shards, d) && e in listed && d.entityId !in Entities(listed) ==>
          d.timestamp <= e.timestamp)
    && (|listed| < limit ==> forall d :: Holds(shards, d) ==> d.entityId in Entities(listed))
  }

  lemma SentIsHeld(shards: seq<seq<Event>>, results: seq<Option<QueryResult>>, listed: seq<Event>, limit: int, e: Event)
    requires AllSettle(shards, results, listed, limit) && e in AllEvents(results)
    ensures Holds(shards, e)
  {
    AllEventsOf(results, e);
    var s :| 0 <= s < |results| && results[s].Some? && e in results[s].value.events;
    assert Settles(shards[s], results[s], listed, limit);
  }

  /** A datum newer than a listed event was in its shard's answer. */
  lemma NewerWasSent(shards: seq<seq<Event>>, results: seq<Option<QueryResult>>, listed: seq<Event>, limit: int,
                     p: nat, d: Event)
    requires AllSettle(shards, results, listed, limit) && Sorted(listed)
    requires p < |listed| && Holds(shards, d)
    ensures d.timestamp > listed[p].timestamp ==> d in AllEvents(results)
  {
    var s :| 0 <= s < |shards| && d in shards[s];
    assert Settles(shards[s], results[s], listed, limit);
    var sent := results[s].value.events;
    AllEventsOf(results, d);
    if d !in sent {
      var e :| e in sent && e.timestamp <= listed[limit - 1].timestamp;
      assert d.timestamp <= e.timestamp;
    }
  }

  /** An entity ranked at least as new as something kept, and strictly newer, is kept. */
  lemma NewerIsListed(ranked: seq<Event>, limit: int, p: nat, id: nat, since: nat)
    requires Sorted(ranked) && p < |Truncated(ranked, limit)|
    requires Ranked(ranked, id, since) && since > ranked[p].timestamp
    ensures exists k :: 0 <= k < p && ranked[k].entityId == id && ranked[k].timestamp >= since
  {
    var k :| 0 <= k < |ranked| && ranked[k].entityId == id && ranked[k].timestamp >= since;
    assert k < p;
  }

  lemma ListedIsLatest(shards: seq<seq<Event>>, results: seq<Option<QueryResult>>, ranked: seq<Event>,
                       listed: seq<Event>, limit: int, d: Event, p: nat)
    requires Lists(results, ranked, listed, limit) && AllSettle(shards, results, listed, limit)
    requires p < |listed| && Holds(shards, d)
    ensures d.entityId == listed[p].entityId || d.entityId !in Entities(listed) ==>
      d.timestamp <= listed[p].timestamp
  {
    hide AllEvents, AllSettle;
    var e := listed[p];
    if d.timestamp > e.timestamp {
      NewerWasSent(shards, results, listed, limit, p, d);
      NewerIsListed(ranked, limit, p, d.entityId, d.timestamp);
      var k :| 0 <= k < p && ranked[k].entityId == d.entityId;
      assert listed[k] == ranked[k] && listed[k] in listed;
      assert listed[k].entityId != e.entityId;
    }
  }

  /** A list that is not full, or not limited, misses no entity of any shard. */
  lemma ShortListIsWhole(shards: seq<seq<Event>>, results: seq<Option<QueryResult>>, ranked: seq<Event>,
                         listed: seq<Event>, limit: int, d: Event)
    requires Lists(results, ranked, listed, limit) && AllSettle(shards, results, listed, limit)
    requires limit <= 0 || |listed| < limit
    requires Holds(shards, d)
    ensures d.entityId in Entities(listed)
  {
    hide Ranking;
    assert listed == ranked;
    var s :| 0 <= s < |shards| && d in shards[s];
    assert Settles(shards[s], results[s], listed, limit);
    AllEventsOf(results, d);
    EntitiesAreRanked(AllEvents(results), ranked, [d]);
    assert d in [d];
  }

  lemma ListedShape(results: seq<Option<QueryResult>>, ranked: seq<Event>, listed: seq<Event>, limit: int)
    requires Lists(results, ranked, listed, limit) && limit > 0
    ensures |listed| <= limit && Sorted(listed) && DistinctEntities(listed)
    ensures forall e :: e in listed ==> e in AllEvents(results)
  {
    assert forall e :: e in listed ==> e in ranked;
  }

  /** Where every answer settles, the list has the newest events of the newest entities. */
  lemma SettledIsTop(shards: seq<seq<Event>>, results: seq<Option<QueryResult>>, ranked: seq<Event>,
                     listed: seq<Event>, limit: int)
    requires Lists(results, ranked, listed, limit) && AllSettle(shards, results, listed, limit) && limit > 0
    ensures TopOf(shards, listed, limit)
  {
    hide Lists, AllSettle, AllEvents, Holds;
    ListedShape(results, ranked, listed, limit);
    forall e | e in listed ensures Holds(shards, e) {
      SentIsHeld(shards, results, listed, limit, e);
    }
    forall d, e | Holds(shards, d) && e in listed &&
                  (d.entityId == e.entityId || d.entityId !in Entities(listed))
      ensures d.timestamp <= e.timestamp
    {
      var p :| 0 <= p < |listed| && listed[p] == e;
      ListedIsLatest(shards, results, ranked, listed, limit, d, p);
    }
    if |listed| < limit {
      forall d | Holds(shards, d) ensures d.entityId in Entities(listed) {
        ShortListIsWhole(shards, results, ranked, listed, limit, d);
      }
    }
  }

  /**
   Merging answers that are complete or have `limit` entities lists exactly the newest events of
   the newest entities, whatever the order of equal times.
   */
  lemma MergeIsTop(shards: seq<seq<Event>>, results: seq<Option<QueryResult>>, ranked: seq<Event>,
                   listed: seq<Event>, limit: int)
    requires AllAnswer(shards, results, limit) && Lists(results, ranked, listed, limit) && limit > 0
    ensures TopOf(shards, listed, limit)
  {
    AnswersSettle(shards, results, ranked, listed, limit);
    SettledIsTop(shards, results, ranked, listed, limit);
  }

  /** `limit` newest events are not enough: if an entity repeats, another one can be missed. */
  lemma RepeatsCrowdOut()
    ensures
      var a, b, c := Event(1, 9, 0), Event(1, 8, 0), Event(2, 7, 0);
      var results := [Some(QueryResult([a, b], true))];
      && NewestKept([a, b, c], [a, b]) && |[a, b]| == 2
      && MergedEvents(results, 2) == [a] && !TopOf([[a, b, c]], [a], 2)
  {
    var a, b, c := Event(1, 9, 0), Event(1, 8, 0), Event(2, 7, 0);
    OneAnswer([a, b], true);
    assert [a, b][..1] == [a] && [a][..0] == [];
    assert NoteAll(Seen([], map[]), [a]) == Seen([1], map[1 := a]);
    assert NoteAll(Seen([], map[]), [a, b]) == Seen([1], map[1 := a]);
    assert Values(Seen([1], map[1 := a])) == [a];
    assert SortNewestFirst([a]) == [a] by {
      assert [a][1..] == [];
    }
    assert Holds([[a, b, c]], c) by {
      assert c in [[a, b, c]][0];
    }
    assert c.entityId !in Entities([a]);
  }

  lemma OneAnswer(events: seq<Event>, hasMore: bool)
    ensures AllEvents([Some(QueryResult(events, hasMore))]) == events
  {
    var results := [Some(QueryResult(events, hasMore))];
    assert results[..0] == [];
    assert AllEvents([]) == [];
  }

  // ---------- what the answers alone guarantee ----------

  /** Data the answers can come from, if a shard flags whatever it leaves out. */
  ghost predicate Possible(shards: seq<seq<Event>>, results: seq<Option<QueryResult>>)
  {
    |shards| == |results| && forall s :: 0 <= s < |shards| ==> PossibleFor(shards[s], results[s])
  }

  ghost predicate PossibleFor(data: seq<Event>, r: Option<QueryResult>)
  {
    if r.None? then data == []
    else
      && (forall e :: e in r.value.events ==> e in data) && NewestKept(data, r.value.events)
      && (r.value.hasMore || Complete(data, r.value.events))
  }

  /** Every answer that left something out goes down to the last time of a full list. */
  ghost predicate Certain(results: seq<Option<QueryResult>>, listed: seq<Event>, limit: int)
  {
    forall s :: 0 <= s < |results| && results[s].Some? && results[s].value.hasMore ==>
      Reaches(results[s].value.events, listed, limit)
  }

  function Above(s: seq<Event>): (id: nat)
    ensures forall e :: e in s ==> e.entityId < id
  {
    if s == [] then 0
    else
      var id, last := Above(s[..|s| - 1]), s[|s| - 1];
      if last.entityId < id then id else last.entityId + 1
  }

  /** The data as sent, with one more event at shard s. */
  ghost function WithHidden(results: seq<Option<QueryResult>>, s: nat, d: Event): (shards: seq<seq<Event>>)
    ensures |shards| == |results|
  {
    seq(|results|, i requires 0 <= i < |results| =>
      if results[i].None? then [] else results[i].value.events + (if i == s then [d] else []))
  }

  lemma HiddenIsPossible(results: seq<Option<QueryResult>>, s: nat, d: Event)
    requires s < |results| && results[s].Some? && results[s].value.hasMore
    requires forall e :: e in results[s].value.events ==> d.timestamp <= e.timestamp
    ensures Possible(WithHidden(results, s, d), results) && Holds(WithHidden(results, s, d), d)
  {
    var shards := WithHidden(results, s, d);
    assert d in shards[s];
    forall i | 0 <= i < |shards| ensures PossibleFor(shards[i], results[i]) {
    }
  }

  lemma UncertainCanFail(results: seq<Option<QueryResult>>, ranked: seq<Event>, listed: seq<Event>, limit: int, s: nat)
    returns (shards: seq<seq<Event>>)
    requires Lists(results, ranked, listed, limit) && limit > 0
    requires s < |results| && results[s].Some? && results[s].value.hasMore
    requires !Reaches(results[s].value.events, listed, limit)
    ensures Possible(shards, results) && !TopOf(shards, listed, limit)
  {
    hide Lists, AllEvents;
    ListedShape(results, ranked, listed, limit);
    var d := Event(Above(listed), if |listed| < limit then 0 else listed[limit - 1].timestamp + 1, 0);
    shards := WithHidden(results, s, d);
    HiddenIsPossible(results, s, d);
    assert d.entityId !in Entities(listed);
    if |listed| == limit {
      assert listed[limit - 1] in listed;
    }
  }

  /**
   When the merge is right whatever the shards still hold: exactly if every shard that has more
   sent something as old as the last event of a full list, which the caller can see.
   */
  lemma MergeIsCertain(results: seq<Option<QueryResult>>, ranked: seq<Event>, listed: seq<Event>, limit: int)
    requires Lists(results, ranked, listed, limit) && limit > 0
    ensures Certain(results, listed, limit) <==>
            (forall shards :: Possible(shards, results) ==> TopOf(shards, listed, limit))
  {
    hide Lists, Reaches, TopOf, Complete, NewestKept;
    if Certain(results, listed, limit) {
      forall shards | Possible(shards, results) ensures TopOf(shards, listed, limit) {
        forall s | 0 <= s < |shards| ensures Settles(shards[s], results[s], listed, limit) {
          assert PossibleFor(shards[s], results[s]);
        }
        SettledIsTop(shards, results, ranked, listed, limit);
      }
    } else {
      var s :| 0 <= s < |results| && results[s].Some? && results[s].value.hasMore &&
        !Reaches(results[s].value.events, listed, limit);
      var shards := UncertainCanFail(results, ranked, listed, limit, s);
    }
  }

  // ---------- truncating the answers changes nothing ----------

  lemma TopsAsLong(shards: seq<seq<Event>>, a: seq<Event>, b: seq<Event>, limit: int)
    requires TopOf(shards, a, limit) && TopOf(shards, b, limit)
    ensures |b| <= |a|
  {
    EntityCount(a);
    EntityCount(b);
    if |a| < limit {
      assert Entities(b) <= Entities(a);
      SubsetCount(Entities(b), Entities(a));
    }
  }

  /** Of i + 1 different entities one is not among i events. */
  lemma SomeoneElse(a: seq<Event>, b: seq<Event>, i: nat) returns (k: nat)
    requires DistinctEntities(a) && i < |a| && i <= |b|
    ensures k <= i && a[k].entityId !in Entities(b[..i])
  {
    var first := a[..i + 1];
    EntityCount(first);
    EntityCount(b[..i]);
    if Entities(first) <= Entities(b[..i]) {
      SubsetCount(Entities(first), Entities(b[..i]));
      assert false;
    }
    var e :| e in first && e.entityId !in Entities(b[..i]);
    k :| 0 <= k <= i && a[k] == e;
  }

  lemma NotNewer(shards: seq<seq<Event>>, a: seq<Event>, b: seq<Event>, limit: int, i: nat)
    requires TopOf(shards, a, limit) && TopOf(shards, b, limit) && i < |a| && i < |b|
    ensures a[i].timestamp <= b[i].timestamp
  {
    hide Holds, DistinctEntities, Entities;
    var k := SomeoneElse(a, b, i);
    assert a[k] in a;
    NewerStands(shards, b, limit, i, a[k]);
    assert a[i].timestamp <= a[k].timestamp;
  }

  lemma NewerStands(shards: seq<seq<Event>>, b: seq<Event>, limit: int, i: nat, e: Event)
    requires TopOf(shards, b, limit) && i < |b| && Holds(shards, e)
    ensures e.timestamp > b[i].timestamp ==> e.entityId in Entities(b[..i])
  {
    hide Holds, DistinctEntities;
    assert b[i] in b;
    if g :| g in b && g.entityId == e.entityId {
      var l :| 0 <= l < |b| && b[l] == g;
      if l < i {
        assert b[..i][l] == g;
      }
    }
  }

  /** All lists of the newest events have the same times at the same positions. */
  lemma TopTimesAgree(shards: seq<seq<Event>>, a: seq<Event>, b: seq<Event>, limit: int)
    requires TopOf(shards, a, limit) && TopOf(shards, b, limit)
    ensures |a| == |b| && forall i :: 0 <= i < |a| ==> a[i].timestamp == b[i].timestamp
  {
    hide TopOf;
    TopsAsLong(shards, a, b, limit);
    TopsAsLong(shards, b, a, limit);
    forall i | 0 <= i < |a| ensures a[i].timestamp == b[i].timestamp {
      NotNewer(shards, a, b, limit, i);
      NotNewer(shards, b, a, limit, i);
    }
  }

  ghost predicate IsLatest(shards: seq<seq<Event>>, d: Event)
  {
    Holds(shards, d) && forall g :: Holds(shards, g) && g.entityId == d.entityId ==> g.timestamp <= d.timestamp
  }

  /** No entity's newest event has the time of a listed one without being it. */
  ghost predicate Untied(shards: seq<seq<Event>>, listed: seq<Event>)
  {
    forall d, e :: IsLatest(shards, d) && e in listed && d.timestamp == e.timestamp ==> d == e
  }

  lemma UntiedAgree(shards: seq<seq<Event>>, a: seq<Event>, b: seq<Event>, limit: int)
    requires TopOf(shards, a, limit) && TopOf(shards, b, limit) && Untied(shards, a)
    ensures a == b
  {
    hide Holds;
    TopTimesAgree(shards, a, b, limit);
    forall i | 0 <= i < |a| ensures a[i] == b[i] {
      assert a[i] in a && b[i] in b;
      assert IsLatest(shards, b[i]);
    }
  }

  /** Another list with the same times, that leaves out nothing newer, is as good. */
  lemma AsGood(shards: seq<seq<Event>>, a: seq<Event>, b: seq<Event>, limit: int)
    requires TopOf(shards, a, limit) && DistinctEntities(b) && |a| == |b|
    requires forall i :: 0 <= i < |a| ==> a[i].timestamp == b[i].timestamp && IsLatest(shards, b[i])
    requires |a| < limit ==> Entities(a) <= Entities(b)
    requires forall g, i :: Holds(shards, g) && g.entityId !in Entities(b) && 0 <= i < |a| ==>
      g.timestamp <= a[i].timestamp
    ensures TopOf(shards, b, limit)
  {
    hide Holds;
    forall d, e | Holds(shards, d) && e in b && (d.entityId == e.entityId || d.entityId !in Entities(b))
      ensures d.timestamp <= e.timestamp
    {
      var i :| 0 <= i < |b| && b[i] == e;
      assert IsLatest(shards, b[i]);
    }
  }

  lemma ReplacedEntities(a: seq<Event>, k: nat, d: Event)
    requires DistinctEntities(a) && k < |a| && (d.entityId == a[k].entityId || d.entityId !in Entities(a))
    ensures DistinctEntities(a[k := d]) && d.entityId in Entities(a[k := d])
    ensures forall id :: id in Entities(a) && id != a[k].entityId ==> id in Entities(a[k := d])
  {
    var b := a[k := d];
    assert b[k] == d;
    assert forall i :: 0 <= i < |a| ==> a[i] in a && a[i].entityId in Entities(a);
    forall id | id in Entities(a) && id != a[k].entityId ensures id in Entities(b) {
      var e :| e in a && e.entityId == id;
      var l :| 0 <= l < |a| && a[l] == e;
      assert b[l] == e;
    }
  }

  /** A tie with an event of the same entity, or of an entity not listed: one can stand for the other. */
  lemma TieReplaces(shards: seq<seq<Event>>, a: seq<Event>, limit: int, d: Event, k: nat)
    requires TopOf(shards, a, limit) && k < |a| && IsLatest(shards, d) && d.timestamp == a[k].timestamp
    requires d.entityId == a[k].entityId || d.entityId !in Entities(a)
    ensures TopOf(shards, a[k := d], limit)
  {
    hide Holds, Entities, DistinctEntities, Sorted;
    var b := a[k := d];
    ReplacedEntities(a, k, d);
    assert forall i :: 0 <= i < |a| ==> a[i] in a;
    forall g, i | Holds(shards, g) && g.entityId !in Entities(b) && 0 <= i < |a|
      ensures g.timestamp <= a[i].timestamp
    {
      assert a[i] in a && a[k] in a;
    }
    forall i | 0 <= i < |a| ensures a[i].timestamp == b[i].timestamp && IsLatest(shards, b[i]) {
      assert a[i] in a;
    }
    AsGood(shards, a, b, limit);
  }

  /** A tie between two listed events: they can change places. */
  lemma TieSwaps(shards: seq<seq<Event>>, a: seq<Event>, limit: int, k: nat, l: nat)
    requires TopOf(shards, a, limit) && k < |a| && l < |a| && k != l && a[k].timestamp == a[l].timestamp
    ensures TopOf(shards, a[k := a[l]][l := a[k]], limit) && a[k := a[l]][l := a[k]] != a
  {
    hide Holds, Entities;
    var b := a[k := a[l]][l := a[k]];
    assert a[k].entityId != a[l].entityId;
    SwapKeeps(a, k, l);
    assert forall i :: 0 <= i < |a| ==> a[i] in a;
    forall i | 0 <= i < |a| ensures a[i].timestamp == b[i].timestamp && IsLatest(shards, b[i]) {
      assert b[i] in a;
    }
    AsGood(shards, a, b, limit);
  }

  lemma SwapKeeps(a: seq<Event>, k: nat, l: nat)
    requires DistinctEntities(a) && k < |a| && l < |a| && k != l
    ensures
      var b := a[k := a[l]][l := a[k]];
      Entities(b) == Entities(a) && DistinctEntities(b)
  {
    var b := a[k := a[l]][l := a[k]];
    assert b[k] == a[l] && b[l] == a[k];
    forall e ensures e in b <==> e in a {
      if i :| 0 <= i < |a| && a[i] == e {
        assert b[if i == k then l else if i == l then k else i] == e;
      }
    }
  }

  /** The list of the newest events is unique exactly if no newest event ties with a listed one. */
  lemma TopsAgree(shards: seq<seq<Event>>, a: seq<Event>, limit: int)
    requires TopOf(shards, a, limit)
    ensures Untied(shards, a) <==> (forall b :: TopOf(shards, b, limit) ==> b == a)
  {
    hide TopOf, IsLatest;
    if Untied(shards, a) {
      forall b | TopOf(shards, b, limit) ensures b == a {
        UntiedAgree(shards, a, b, limit);
      }
    } else {
      var d, e :| IsLatest(shards, d) && e in a && d.timestamp == e.timestamp && d != e;
      var k :| 0 <= k < |a| && a[k] == e;
      var b := TieVaries(shards, a, limit, d, k);
    }
  }

  lemma TieVaries(shards: seq<seq<Event>>, a: seq<Event>, limit: int, d: Event, k: nat) returns (b: seq<Event>)
    requires TopOf(shards, a, limit) && k < |a| && IsLatest(shards, d)
    requires d.timestamp == a[k].timestamp && d != a[k]
    ensures TopOf(shards, b, limit) && b != a
  {
    if d.entityId == a[k].entityId || d.entityId !in Entities(a) {
      TieReplaces(shards, a, limit, d, k);
      b := a[k := d];
      assert b[k] != a[k];
    } else {
      var f :| f in a && f.entityId == d.entityId;
      var l :| 0 <= l < |a| && a[l] == f;
      assert f.timestamp == d.timestamp;
      TieSwaps(shards, a, limit, k, l);
      b := a[k := a[l]][l := a[k]];
    }
  }

  function FullAnswers(shards: seq<seq<Event>>): (r: seq<Option<QueryResult>>)
    ensures |r| == |shards|
    ensures forall s :: 0 <= s < |r| ==> r[s] == Some(QueryResult(shards[s], false))
  {
    seq(|shards|, s requires 0 <= s < |shards| => Some(QueryResult(shards[s], false)))
  }

  /**
   Merging truncated answers lists the same times as truncating the merge of all the data, and
   the same events if no newest event ties with a listed one.
   */
  lemma TruncationCommutes(shards: seq<seq<Event>>, results: seq<Option<QueryResult>>, limit: int)
    requires AllAnswer(shards, results, limit) && limit > 0
    ensures
      var merged, whole := MergedEvents(results, limit), MergedEvents(FullAnswers(shards), limit);
      && |merged| == |whole|
      && (forall i :: 0 <= i < |merged| ==> merged[i].timestamp == whole[i].timestamp)
      && (Untied(shards, whole) ==> merged == whole)
  {
    hide MergedEvents, RankedList, TopOf, Untied, Lists, NewestKept;
    var full := FullAnswers(shards);
    forall s | 0 <= s < |shards| ensures Answers(shards[s], full[s], limit) {
      assert Answers(shards[s], results[s], limit);
    }
    var merged, whole := MergedEvents(results, limit), MergedEvents(full, limit);
    MergedLists(results, limit);
    MergedLists(full, limit);
    MergeIsTop(shards, results, RankedList(results), merged, limit);
    MergeIsTop(shards, full, RankedList(full), whole, limit);
    TopTimesAgree(shards, merged, whole, limit);
    if Untied(shards, whole) {
      UntiedAgree(shards, whole, merged, limit);
    }
  }

  /** If shards report has_more whenever they left something out, a false flag means nothing is missing. */
  lemma NoMoreMeansAll(shards: seq<seq<Event>>, results: seq<Option<QueryResult>>, limit: int, d: Event)
    requires Possible(shards, results) && Holds(shards, d)
    requires !AnyHasMore(results) && !(limit > 0 && |Collected(results).order| > limit)
    ensures d.entityId in Entities(MergedEvents(results, limit))
  {
    hide SortNewestFirst;
    var ranked := RankedList(results);
    NoteAllConsistent(AllEvents(results));
    SortKeepsLength(Values(Collected(results)));
    assert MergedEvents(results, limit) == ranked;
    CollectedRanking(results);
    var s :| 0 <= s < |shards| && d in shards[s];
    assert PossibleFor(shards[s], results[s]);
    AllEventsOf(results, d);
    EntitiesAreRanked(AllEvents(results), ranked, [d]);
    assert d in [d];
  }
}
