/** Vector clocks (src/clients/go/pkg/types/conflict.go); absent entries read as zero. */
module VectorClocks {
  type Clock = map<string, nat>

  const WORD: nat := 0x1_0000_0000_0000_0000

  function At(c: Clock, region: string): nat
  {
    if region in c then c[region] else 0
  }

  function Max(a: nat, b: nat): nat
  {
    if a < b then b else a
  }

  /** a is pointwise at most b. */
  ghost predicate Leq(a: Clock, b: Clock)
  {
    forall r :: At(a, r) <= At(b, r)
  }

  ghost predicate Equivalent(a: Clock, b: Clock)
  {
    Leq(a, b) && Leq(b, a)
  }

  /** What Compare promises: 1 strictly after, -1 strictly before, 0 equivalent or incomparable. */
  ghost function Order(a: Clock, b: Clock): int
  {
    if Leq(b, a) && !Leq(a, b) then 1
    else if Leq(a, b) && !Leq(b, a) then -1
    else 0
  }

  ghost predicate HappenedBefore(a: Clock, b: Clock)
  {
    Order(a, b) < 0
  }

  class VectorClock {
    var entries: Clock

    constructor ()
      ensures entries == map[]
    {
      entries := map[];
    }

    method Get(region: string) returns (t: nat)
      ensures t == At(entries, region)
    {
      t := if region in entries then entries[region] else 0;
    }

    method Set(region: string, timestamp: nat)
      modifies this
      ensures entries == old(entries)[region := timestamp]
    {
      entries := entries[region := timestamp];
    }

    /** The counter is a uint64 and wraps. */
    method Increment(region: string) returns (t: nat)
      modifies this
      ensures t == (At(old(entries), region) + 1) % WORD
      ensures entries == old(entries)[region := t]
    {
      t := ((if region in entries then entries[region] else 0) + 1) % WORD;
      entries := entries[region := t];
    }

    /** Merging a clock into itself would lock it twice. */
    method Merge(other: VectorClock)
      requires other != this
      modifies this
      ensures forall r :: At(entries, r) == Max(At(old(entries), r), At(other.entries, r))
      ensures entries.Keys == old(entries).Keys + set r | r in other.entries && other.entries[r] > At(old(entries), r)
    {
      ghost var before := entries;
      var todo := other.entries.Keys;
      while todo != {}
        invariant todo <= other.entries.Keys
        invariant forall r :: r in other.entries && r !in todo ==>
                                At(entries, r) == Max(At(before, r), other.entries[r])
        invariant forall r :: !(r in other.entries && r !in todo) ==> At(entries, r) == At(before, r)
        invariant forall r :: (r in entries <==>
                               (r in before || (r in other.entries && r !in todo && other.entries[r] > At(before, r))))
        decreases todo
      {
        var region :| region in todo;
        var timestamp := other.entries[region];
        if timestamp > (if region in entries then entries[region] else 0) {
          entries := entries[region := timestamp];
        }
        todo := todo - {region};
      }
    }

    method Clone() returns (c: VectorClock)
      ensures fresh(c) && c.entries == entries
    {
      c := new VectorClock();
      var todo := entries.Keys;
      while todo != {}
        invariant todo <= entries.Keys
        invariant c.entries == map r | r in entries && r !in todo :: entries[r]
        decreases todo
      {
        var k :| k in todo;
        c.entries := c.entries[k := entries[k]];
        todo := todo - {k};
      }
    }

    method Compare(other: VectorClock) returns (order: int)
      ensures order == Order(entries, other.entries)
    {
      var vcGreater, otherGreater := false, false;
      var todo := entries.Keys;
      while todo != {}
        invariant todo <= entries.Keys
        invariant vcGreater <==> exists r :: r in entries && r !in todo && entries[r] > At(other.entries, r)
        invariant otherGreater <==> exists r :: r in entries && r !in todo && entries[r] < At(other.entries, r)
        decreases todo
      {
        var region :| region in todo;
        var ts := entries[region];
        var otherTs := if region in other.entries then other.entries[region] else 0;
        ghost var wasVc, wasOther := vcGreater, otherGreater;
        if ts > otherTs {
          vcGreater := true;
        }
        if ts < otherTs {
          otherGreater := true;
        }
        todo := todo - {region};
      }
      ghost var firstPass := otherGreater;
      todo := other.entries.Keys;
      while todo != {}
        invariant todo <= other.entries.Keys
        invariant otherGreater <==>
                  (firstPass ||
                   (exists r :: r in other.entries && r !in todo && r !in entries && other.entries[r] > 0))
        decreases todo
      {
        var region :| region in todo;
        if region !in entries && other.entries[region] > 0 {
          otherGreater := true;
        }
        todo := todo - {region};
      }
      assert vcGreater <==> !Leq(entries, other.entries) by {
        if !Leq(entries, other.entries) {
          var r :| At(entries, r) > At(other.entries, r);
          assert r in entries;
        }
        if vcGreater {
          var r :| r in entries && entries[r] > At(other.entries, r);
          assert At(entries, r) > At(other.entries, r);
        }
      }
      assert otherGreater <==> !Leq(other.entries, entries) by {
        if !Leq(other.entries, entries) {
          var r :| At(other.entries, r) > At(entries, r);
        }
        if firstPass {
          var r :| r in entries && entries[r] < At(other.entries, r);
          assert At(entries, r) < At(other.entries, r);
        } else if otherGreater {
          var r :| r in other.entries && r !in entries && other.entries[r] > 0;
          assert At(entries, r) < At(other.entries, r);
        }
      }
      if vcGreater && !otherGreater {
        return 1;
      }
      if otherGreater && !vcGreater {
        return -1;
      }
      return 0;
    }

    method HappensBefore(other: VectorClock) returns (b: bool)
      ensures b <==> HappenedBefore(entries, other.entries)
    {
      var order := Compare(other);
      b := order < 0;
    }
  }

  // ---------- the laws ----------

  /** happened-before is a strict partial order, and Compare is its antisymmetric sign. */
  lemma CompareIsAnOrder(a: Clock, b: Clock, c: Clock)
    ensures Order(a, b) == -Order(b, a)
    ensures !HappenedBefore(a, a)
    ensures HappenedBefore(a, b) && HappenedBefore(b, c) ==> HappenedBefore(a, c)
    ensures HappenedBefore(a, b) <==> Leq(a, b) && exists r :: At(a, r) < At(b, r)
    ensures Order(a, b) == 1 <==> (forall r :: At(a, r) >= At(b, r)) && exists r :: At(a, r) > At(b, r)
    ensures -1 <= Order(a, b) <= 1
  {
    if HappenedBefore(a, b) && HappenedBefore(b, c) {
      forall r ensures At(a, r) <= At(c, r) {
        assert At(a, r) <= At(b, r) <= At(c, r);
      }
      var r :| At(b, r) > At(a, r);
      assert At(b, r) <= At(c, r);
    }
  }

  function Merged(a: Clock, b: Clock): (m: Clock)
    ensures forall r :: At(m, r) == Max(At(a, r), At(b, r))
  {
    map r | r in a.Keys + b.Keys :: Max(At(a, r), At(b, r))
  }

  /** Merging gives the least upper bound. */
  lemma MergeIsJoin(a: Clock, b: Clock, c: Clock)
    ensures Leq(a, Merged(a, b)) && Leq(b, Merged(a, b))
    ensures Leq(Merged(a, b), c) <==> Leq(a, c) && Leq(b, c)
  {
    var m := Merged(a, b);
    if Leq(m, c) {
      forall r ensures At(a, r) <= At(c, r) && At(b, r) <= At(c, r) {
        assert At(m, r) <= At(c, r);
      }
    }
  }

  lemma SameAt(a: Clock, b: Clock)
    requires forall r :: At(a, r) == At(b, r)
    ensures Equivalent(a, b)
  {
  }

  /** So it is commutative, associative and idempotent, up to equivalence. */
  lemma {:induction false} MergeIsSemilattice(a: Clock, b: Clock, c: Clock)
    ensures Equivalent(Merged(a, b), Merged(b, a)) && Equivalent(Merged(a, a), a)
    ensures Equivalent(Merged(a, Merged(b, c)), Merged(Merged(a, b), c))
  {
    hide At, Merged, Equivalent;
    var ab, bc := Merged(a, b), Merged(b, c);
    SameAt(ab, Merged(b, a));
    SameAt(Merged(a, a), a);
    SameAt(Merged(a, bc), Merged(ab, c));
  }

  lemma LaterAt(a: Clock, b: Clock, region: string)
    requires Leq(a, b) && At(a, region) < At(b, region)
    ensures HappenedBefore(a, b)
  {
  }

  lemma NotLaterAt(a: Clock, b: Clock, region: string)
    requires At(a, region) > At(b, region)
    ensures !HappenedBefore(a, b)
  {
  }

  /** A region that merges what it received and counts its own event is after both, until the counter wraps. */
  lemma {:induction false} IncrementIsLater(a: Clock, b: Clock, region: string)
    requires At(a, region) < WORD && At(b, region) < WORD
    ensures
      var m := Merged(a, b);
      var next := m[region := (At(m, region) + 1) % WORD];
      HappenedBefore(a, next) && HappenedBefore(b, next) <==> At(m, region) != WORD - 1
  {
    hide Merged, HappenedBefore;
    var m := Merged(a, b);
    var next := m[region := (At(m, region) + 1) % WORD];
    assert forall r :: r != region ==> At(next, r) == At(m, r);
    if At(m, region) != WORD - 1 {
      assert At(next, region) == At(m, region) + 1;
      assert Leq(a, next) && Leq(b, next);
      LaterAt(a, next, region);
      LaterAt(b, next, region);
    } else {
      assert At(next, region) == 0;
      NotLaterAt(if At(a, region) > 0 then a else b, next, region);
    }
  }
}
