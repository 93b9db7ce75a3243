/**
 The conflict resolver (src/clients/go/pkg/types/conflict.go) and the convergence of replicas
 that resolve conflicts pairwise.
 */
module ConflictResolution {
  import opened VectorClocks
  import opened Wrappers

  datatype Policy = LastWriterWins | PrimaryWins | CustomHook

  /** One side of a conflict: where and when the write was made. */
  datatype Origin = Origin(region: string, timestamp: nat)

  datatype Resolution = Resolution(winningRegion: string, policy: Policy, mergedClock: VectorClock, localWins: bool)

  /** An installed hook sees both clocks and both writes, and answers as it likes. */
  type Hook = (Clock, Clock, Origin, Origin) -> Resolution

  datatype Stats = Stats(
    total: nat, lastWriterWins: nat, primaryWins: nat, customHook: nat, lastConflict: nat)

  predicate LocalWins(policy: Policy, primary: string, local: Origin, remote: Origin)
  {
    if policy == PrimaryWins && local.region == primary then true
    else if policy == PrimaryWins && remote.region == primary then false
    else local.timestamp >= remote.timestamp
  }

  function Counted(stats: Stats, policy: Policy, timestamp: nat): Stats
  {
    var s := stats.(total := stats.total + 1, lastConflict := timestamp);
    match policy
    case LastWriterWins => s.(lastWriterWins := s.lastWriterWins + 1)
    case PrimaryWins => s.(primaryWins := s.primaryWins + 1)
    case CustomHook => s.(customHook := s.customHook + 1)
  }

  /** Every conflict is counted under exactly one policy. */
  predicate Balanced(s: Stats)
  {
    s.total == s.lastWriterWins + s.primaryWins + s.customHook
  }

  lemma CountedStaysBalanced(stats: Stats, policy: Policy, timestamp: nat)
    requires Balanced(stats)
    ensures Balanced(Counted(stats, policy, timestamp))
  {
  }

  /** The statistics after conflicts at these local times, from those of a new resolver. */
  function Tally(policy: Policy, times: seq<nat>): Stats
  {
    if times == [] then Stats(0, 0, 0, 0, 0)
    else Counted(Tally(policy, times[..|times| - 1]), policy, times[|times| - 1])
  }

  /** All are counted, all under the resolver's own policy, and the last one's time is kept. */
  lemma {:induction false} TallyCounts(policy: Policy, times: seq<nat>)
    ensures
      var s, n := Tally(policy, times), |times|;
      && s.total == n && (n > 0 ==> s.lastConflict == times[n - 1])
      && s.lastWriterWins == (if policy == LastWriterWins then n else 0)
      && s.primaryWins == (if policy == PrimaryWins then n else 0)
      && s.customHook == (if policy == CustomHook then n else 0)
  {
    if times != [] {
      TallyCounts(policy, times[..|times| - 1]);
    }
  }

  class ConflictResolver {
    const policy: Policy
    const primaryRegion: string
    var customHook: Option<Hook>
    var stats: Stats

    constructor (policy: Policy, primaryRegion: string)
      ensures this.policy == policy && this.primaryRegion == primaryRegion && customHook == None
      ensures stats == Stats(0, 0, 0, 0, 0) && Balanced(stats)
    {
      this.policy := policy;
      this.primaryRegion := primaryRegion;
      customHook := None;
      stats := Stats(0, 0, 0, 0, 0);
    }

    method SetCustomHook(hook: Hook)
      modifies this`customHook
      ensures customHook == Some(hook)
    {
      customHook := Some(hook);
    }

    method DetectConflict(localClock: VectorClock, remoteClock: VectorClock) returns (conflict: bool)
      ensures conflict <==>
              (Leq(localClock.entries, remoteClock.entries) <==> Leq(remoteClock.entries, localClock.entries))
    {
      var order := localClock.Compare(remoteClock);
      conflict := order == 0;
    }

    /**
     A hook's answer is returned unchanged. Otherwise the clocks given are left alone and the
     merged clock is a new object.
     */
    method Resolve(localClock: VectorClock, remoteClock: VectorClock, local: Origin, remote: Origin)
      returns (result: Resolution)
      requires Balanced(stats)
      modifies this`stats
      ensures stats == Counted(old(stats), policy, local.timestamp) && Balanced(stats)
      ensures
        if policy == CustomHook && customHook.Some? then
          result == customHook.value(localClock.entries, remoteClock.entries, local, remote)
        else
          && result.policy == policy
          && result.localWins == LocalWins(policy, primaryRegion, local, remote)
          && result.winningRegion == (if result.localWins then local.region else remote.region)
          && fresh(result.mergedClock)
          && Equivalent(result.mergedClock.entries, Merged(localClock.entries, remoteClock.entries))
    {
      stats := stats.(total := stats.total + 1, lastConflict := local.timestamp);
      var merged := localClock.Clone();
      merged.Merge(remoteClock);
      var localWins: bool;
      match policy {
      case LastWriterWins =>
        stats := stats.(lastWriterWins := stats.lastWriterWins + 1);
        localWins := local.timestamp >= remote.timestamp;
      case PrimaryWins =>
        stats := stats.(primaryWins := stats.primaryWins + 1);
        if local.region == primaryRegion {
          localWins := true;
        } else if remote.region == primaryRegion {
          localWins := false;
        } else {
          localWins := local.timestamp >= remote.timestamp;
        }
      case CustomHook =>
        stats := stats.(customHook := stats.customHook + 1);
        if customHook.Some? {
          return customHook.value(localClock.entries, remoteClock.entries, local, remote);
        }
        localWins := local.timestamp >= remote.timestamp;
      }
      result := Resolution(if localWins then local.region else remote.region, policy, merged, localWins);
    }
  }

  // ---------- two regions, one conflict ----------

  /** The same conflict seen from both ends is settled for the same write. */
  predicate EndsAgree(policy: Policy, primary: string, a: Origin, b: Origin)
  {
    LocalWins(policy, primary, a, b) != LocalWins(policy, primary, b, a)
  }

  /** Exactly when the ends agree: a tie, or two writes of the primary region, splits them. */
  lemma WhenEndsAgree(policy: Policy, primary: string, a: Origin, b: Origin)
    ensures EndsAgree(policy, primary, a, b) <==>
      if policy == PrimaryWins && (a.region == primary || b.region == primary) then a.region != b.region
      else a.timestamp != b.timestamp
  {
  }

  // ---------- any number of replicas ----------

  datatype Write = Write(origin: Origin, clock: Clock)

  /** A history of pairwise resolutions, in any order and grouping, with repeats allowed. */
  datatype History = Heard(w: Write) | Resolved(local: History, remote: History)

  /** Resolving carries on the winner's origin and the merged clock. */
  function Outcome(h: History, policy: Policy, primary: string): Write
  {
    match h
    case Heard(w) => w
    case Resolved(l, r) =>
      var a, b := Outcome(l, policy, primary), Outcome(r, policy, primary);
      Write(if LocalWins(policy, primary, a.origin, b.origin) then a.origin else b.origin,
            Merged(a.clock, b.clock))
  }

  function Writes(h: History): set<Write>
  {
    match h
    case Heard(w) => {w}
    case Resolved(l, r) => Writes(l) + Writes(r)
  }

  ghost predicate Newest(ws: set<Write>, w: Write)
  {
    w in ws && forall v :: v in ws ==> v.origin.timestamp <= w.origin.timestamp
  }

  ghost predicate HasPrimary(ws: set<Write>, primary: string)
  {
    exists w :: w in ws && w.origin.region == primary
  }

  /** The writes that can win: those of the primary region if it decides, else the newest. */
  ghost predicate CanWin(ws: set<Write>, policy: Policy, primary: string, w: Write)
  {
    if policy == PrimaryWins && HasPrimary(ws, primary) then w in ws && w.origin.region == primary
    else Newest(ws, w)
  }

  lemma {:induction false} ClockIsJoin(h: History, policy: Policy, primary: string, c: Clock)
    ensures Leq(Outcome(h, policy, primary).clock, c) <==> forall w :: w in Writes(h) ==> Leq(w.clock, c)
  {
    if h.Resolved? {
      ClockIsJoin(h.local, policy, primary, c);
      ClockIsJoin(h.remote, policy, primary, c);
      MergeIsJoin(Outcome(h.local, policy, primary).clock, Outcome(h.remote, policy, primary).clock, c);
    }
  }

  /** Whatever the order, grouping and repetition, the winner is one of the writes that can win. */
  lemma {:induction false} WinnerCanWin(h: History, policy: Policy, primary: string) returns (w: Write)
    ensures CanWin(Writes(h), policy, primary, w) && w.origin == Outcome(h, policy, primary).origin
  {
    match h
    case Heard(only) => w := only;
    case Resolved(l, r) =>
      var a := WinnerCanWin(l, policy, primary);
      var b := WinnerCanWin(r, policy, primary);
      w := if LocalWins(policy, primary, a.origin, b.origin) then a else b;
  }

  /** And each of them wins for a replica that has heard it again last, as its own write. */
  lemma EachCanWin(k: History, policy: Policy, primary: string, w: Write)
    requires CanWin(Writes(k), policy, primary, w)
    ensures Writes(Resolved(Heard(w), k)) == Writes(k)
    ensures Outcome(Resolved(Heard(w), k), policy, primary).origin == w.origin
  {
    var other := WinnerCanWin(k, policy, primary);
  }

  /** So without a primary among the writes, the newest one wins. */
  lemma NewestWins(h: History, policy: Policy, primary: string)
    requires policy != PrimaryWins || !HasPrimary(Writes(h), primary)
    ensures forall w :: w in Writes(h) ==> w.origin.timestamp <= Outcome(h, policy, primary).origin.timestamp
    ensures exists w :: w in Writes(h) && w.origin == Outcome(h, policy, primary).origin
  {
    var w := WinnerCanWin(h, policy, primary);
  }

  /** With the primary-wins policy the primary region wins once it has written at all. */
  lemma PrimaryRegionWins(h: History, primary: string)
    ensures Outcome(h, PrimaryWins, primary).origin.region == primary <==> HasPrimary(Writes(h), primary)
  {
    var w := WinnerCanWin(h, PrimaryWins, primary);
  }

  /** The clock never depends on order, grouping or repetition. */
  lemma ClocksConverge(g: History, h: History, policy: Policy, primary: string)
    requires Writes(g) == Writes(h)
    ensures Equivalent(Outcome(g, policy, primary).clock, Outcome(h, policy, primary).clock)
  {
    var a, b := Outcome(g, policy, primary).clock, Outcome(h, policy, primary).clock;
    assert Leq(a, a) && Leq(b, b);
    ClockIsJoin(g, policy, primary, b);
    ClockIsJoin(h, policy, primary, b);
    ClockIsJoin(g, policy, primary, a);
    ClockIsJoin(h, policy, primary, a);
  }

  // ---------- convergence ----------

  /** Replicas that have heard these writes, in whatever order, grouping and multiplicity, agree on the winner. */
  ghost predicate Converge(ws: set<Write>, policy: Policy, primary: string)
  {
    forall g, h :: Writes(g) == ws && Writes(h) == ws ==>
      Outcome(g, policy, primary).origin == Outcome(h, policy, primary).origin
  }

  /** They agree at least on the winning region. */
  ghost predicate RegionsConverge(ws: set<Write>, policy: Policy, primary: string)
  {
    forall g, h :: Writes(g) == ws && Writes(h) == ws ==>
      Outcome(g, policy, primary).origin.region == Outcome(h, policy, primary).origin.region
  }

  ghost predicate NewestShareRegion(ws: set<Write>)
  {
    forall v, w :: Newest(ws, v) && Newest(ws, w) ==> v.origin.region == w.origin.region
  }

  ghost predicate PrimaryShareTime(ws: set<Write>, primary: string)
  {
    forall v, w :: v in ws && w in ws && v.origin.region == w.origin.region == primary ==>
      v.origin.timestamp == w.origin.timestamp
  }

  lemma {:induction false} SomeHistory(ws: set<Write>) returns (h: History)
    requires ws != {}
    ensures Writes(h) == ws
  {
    var w :| w in ws;
    var rest := ws - {w};
    if rest == {} {
      h := Heard(w);
    } else {
      var k := SomeHistory(rest);
      h := Resolved(Heard(w), k);
    }
  }

  /** A tie for the newest time between regions splits the replicas of any set of writes. */
  lemma TiesDiverge(k: History, v: Write, w: Write, policy: Policy, primary: string)
    requires Newest(Writes(k), v) && Newest(Writes(k), w) && v.origin.region != w.origin.region
    requires policy != PrimaryWins || !HasPrimary(Writes(k), primary)
    ensures
      var g, h := Resolved(Heard(v), k), Resolved(Heard(w), k);
      && Writes(g) == Writes(h) == Writes(k)
      && Outcome(g, policy, primary).origin.region != Outcome(h, policy, primary).origin.region
  {
    EachCanWin(k, policy, primary, v);
    EachCanWin(k, policy, primary, w);
  }

  /** So do two writes of the primary region at different times, each winning where it is local. */
  lemma PrimaryWritesDiverge(k: History, v: Write, w: Write, primary: string)
    requires v in Writes(k) && w in Writes(k) && v.origin.region == w.origin.region == primary
    requires v.origin.timestamp != w.origin.timestamp
    ensures
      var g, h := Resolved(Heard(v), k), Resolved(Heard(w), k);
      && Writes(g) == Writes(h) == Writes(k)
      && Outcome(g, PrimaryWins, primary).origin != Outcome(h, PrimaryWins, primary).origin
  {
    EachCanWin(k, PrimaryWins, primary, v);
    EachCanWin(k, PrimaryWins, primary, w);
  }

  lemma NewestAgree(g: History, h: History, policy: Policy, primary: string)
    requires Writes(g) == Writes(h) && NewestShareRegion(Writes(g))
    requires policy != PrimaryWins || !HasPrimary(Writes(g), primary)
    ensures Outcome(g, policy, primary).origin == Outcome(h, policy, primary).origin
  {
    var v := WinnerCanWin(g, policy, primary);
    var w := WinnerCanWin(h, policy, primary);
  }

  lemma NewestDecide(ws: set<Write>, policy: Policy, primary: string)
    requires policy != PrimaryWins || !HasPrimary(ws, primary)
    ensures NewestShareRegion(ws) ==> Converge(ws, policy, primary)
    ensures RegionsConverge(ws, policy, primary) ==> NewestShareRegion(ws)
  {
    if NewestShareRegion(ws) {
      forall g, h | Writes(g) == ws && Writes(h) == ws
        ensures Outcome(g, policy, primary).origin == Outcome(h, policy, primary).origin
      {
        NewestAgree(g, h, policy, primary);
      }
    } else {
      var v, w :| Newest(ws, v) && Newest(ws, w) && v.origin.region != w.origin.region;
      var k := SomeHistory(ws);
      TiesDiverge(k, v, w, policy, primary);
    }
  }

  /**
   Convergence without a primary: for every set of writes, all replicas agree on the winning
   write, or even only on its region, exactly if the writes of the newest time are from one
   region. Ties among older writes do no harm.
   */
  lemma ReplicasConverge(ws: set<Write>, policy: Policy, primary: string)
    requires policy != PrimaryWins
    ensures Converge(ws, policy, primary) <==> NewestShareRegion(ws)
    ensures RegionsConverge(ws, policy, primary) <==> NewestShareRegion(ws)
  {
    NewestDecide(ws, policy, primary);
  }

  /**
   With the primary-wins policy the region is agreed on exactly if the primary wrote or the
   newest writes are from one region; the write, exactly if all writes of the primary, if it
   wrote, carry one time.
   */
  lemma PrimaryReplicasConverge(ws: set<Write>, primary: string)
    ensures RegionsConverge(ws, PrimaryWins, primary) <==> HasPrimary(ws, primary) || NewestShareRegion(ws)
    ensures Converge(ws, PrimaryWins, primary) <==>
      if HasPrimary(ws, primary) then PrimaryShareTime(ws, primary) else NewestShareRegion(ws)
  {
    if HasPrimary(ws, primary) {
      PrimaryDecides(ws, primary);
    } else {
      NewestDecide(ws, PrimaryWins, primary);
    }
  }

  lemma PrimaryDecides(ws: set<Write>, primary: string)
    requires HasPrimary(ws, primary)
    ensures RegionsConverge(ws, PrimaryWins, primary)
    ensures Converge(ws, PrimaryWins, primary) <==> PrimaryShareTime(ws, primary)
  {
    forall g, h | Writes(g) == ws && Writes(h) == ws
      ensures Outcome(g, PrimaryWins, primary).origin.region == Outcome(h, PrimaryWins, primary).origin.region
      ensures PrimaryShareTime(ws, primary) ==>
        Outcome(g, PrimaryWins, primary).origin == Outcome(h, PrimaryWins, primary).origin
    {
      var v := WinnerCanWin(g, PrimaryWins, primary);
      var w := WinnerCanWin(h, PrimaryWins, primary);
    }
    if !PrimaryShareTime(ws, primary) {
      var v, w :| v in ws && w in ws && v.origin.region == w.origin.region == primary
        && v.origin.timestamp != w.origin.timestamp;
      var k := SomeHistory(ws);
      PrimaryWritesDiverge(k, v, w, primary);
    }
  }
}
