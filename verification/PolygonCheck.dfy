/**
 The all-pairs self-intersection check of a polygon (src/clients/node/src/geo.ts) and what an
 empty report says about the polygon.
 */
module PolygonCheck {
  import opened Wrappers
  import opened Segments
  import opened Bits

  /** IntersectionInfo; as an error it is the PolygonValidationError, without its texts. */
  datatype Crossing = Crossing(segment1: nat, segment2: nat, point: Point)

  /** The vertex after i. */
  function EdgeEnd(i: nat, n: nat): (e: nat)
    requires i < n
    ensures e == if i + 1 == n then 0 else i + 1
  {
    DivModUnique(i + 1, n, if i + 1 == n then 1 else 0, if i + 1 == n then 0 else i + 1);
    (i + 1) % n
  }

  /** The edge before edge i. */
  function EdgeBefore(i: nat, n: nat): (e: nat)
    requires i < n
    ensures e == if i == 0 then n - 1 else i - 1
  {
    DivModUnique(i + n - 1, n, if i == 0 then 0 else 1, if i == 0 then n - 1 else i - 1);
    (i + n - 1) % n
  }

  /** Edges with no vertex in common. */
  predicate Apart(i: nat, j: nat, n: nat)
    requires i < n && j < n
  {
    i != j && EdgeEnd(i, n) != j && EdgeEnd(j, n) != i
  }

  predicate EdgesIntersect(v: seq<Point>, i: nat, j: nat, eps: real)
    requires i < |v| && j < |v|
  {
    SegmentsIntersect(v[i], v[EdgeEnd(i, |v|)], v[j], v[EdgeEnd(j, |v|)], eps)
  }

  predicate Reported(v: seq<Point>, i: nat, j: nat, eps: real)
  {
    i < j < |v| && Apart(i, j, |v|) && EdgesIntersect(v, i, j, eps)
  }

  /** The approximate intersection point of an error message. */
  function Average(p1: Point, p2: Point, p3: Point, p4: Point): Point
  {
    Point((p1.x + p2.x + p3.x + p4.x) / 4.0, (p1.y + p2.y + p3.y + p4.y) / 4.0)
  }

  function Centre(v: seq<Point>, i: nat, j: nat): Point
    requires i < |v| && j < |v|
  {
    Average(v[i], v[EdgeEnd(i, |v|)], v[j], v[EdgeEnd(j, |v|)])
  }

  /** It is the middle between the middles of the two edges. */
  lemma CentreIsMiddle(v: seq<Point>, i: nat, j: nat)
    requires i < |v| && j < |v|
    ensures
      var first := At(v[i], v[if i + 1 == |v| then 0 else i + 1], 0.5);
      var second := At(v[j], v[if j + 1 == |v| then 0 else j + 1], 0.5);
      Centre(v, i, j) == At(first, second, 0.5)
  {
    hide EdgeEnd;
  }

  /** (a, b) comes before (i, j) in the order of the two loops. */
  predicate Before(a: nat, b: nat, i: nat, j: nat)
  {
    a < i || (a == i && b < j)
  }

  predicate IsCrossing(v: seq<Point>, c: Crossing, eps: real)
  {
    Reported(v, c.segment1, c.segment2, eps) && c.point == Centre(v, c.segment1, c.segment2)
  }

  /** What the two loops still add from edge pair (i, j) on. */
  function CrossingsFrom(v: seq<Point>, i: nat, j: nat, eps: real): seq<Crossing>
    requires i < j
    decreases |v| - i, if j < |v| then |v| - j else 0
  {
    if i >= |v| then []
    else if j >= |v| then CrossingsFrom(v, i + 1, i + 3, eps)
    else
      (if Reported(v, i, j, eps) then [Crossing(i, j, Centre(v, i, j))] else [])
      + CrossingsFrom(v, i, j + 1, eps)
  }

  function Crossings(v: seq<Point>, eps: real): seq<Crossing>
  {
    CrossingsFrom(v, 0, 2, eps)
  }

  /** With raising disabled the whole report; otherwise its first entry as an error. */
  function Verdict(all: seq<Crossing>, raiseOnError: bool): Result<seq<Crossing>, Crossing>
  {
    if raiseOnError && all != [] then Err(all[0]) else Ok(all)
  }

  method ValidateNoSelfIntersection(v: seq<Point>, raiseOnError: bool, eps: real)
    returns (r: Result<seq<Crossing>, Crossing>)
    ensures r == Verdict(Crossings(v, eps), raiseOnError)
  {
    hide SegmentsIntersect, CrossingsFrom, Crossings, Reported, Centre, Average, EdgeEnd, EdgeBefore;
    if |v| < 4 {
      FewVertices(v, eps);
      return Ok([]);
    }
    var out: seq<Crossing> := [];
    var n := |v|;
    var i := 0;
    StartOfRows(v, eps);
    while i < n
      invariant 0 <= i <= n
      invariant out + CrossingsFrom(v, i, i + 2, eps) == Crossings(v, eps)
      invariant raiseOnError ==> out == []
    {
      var p1, p2 := v[i], v[EdgeEnd(i, n)];
      var j := i + 2;
      while j < n
        invariant i + 2 <= j
        invariant out + CrossingsFrom(v, i, j, eps) == Crossings(v, eps)
        invariant raiseOnError ==> out == []
      {
        NextPair(v, out, i, j, eps);
        if j == EdgeBefore(i, n) {
          NotApart(v, i, j, eps);
          j := j + 1;
          continue;
        }
        var p3, p4 := v[j], v[EdgeEnd(j, n)];
        PairTest(v, i, j, p1, p2, p3, p4, eps);
        if SegmentsIntersect(p1, p2, p3, p4, eps) {
          var info := Crossing(i, j, Average(p1, p2, p3, p4));
          out := out + [info];
          if raiseOnError {
            FirstError(info, CrossingsFrom(v, i, j + 1, eps));
            return Err(info);
          }
        }
        j := j + 1;
      }
      NextRow(v, i, j, eps);
      i := i + 1;
    }
    NoMoreRows(v, eps);
    assert out + [] == out;
    return Ok(out);
  }

  lemma FirstError(info: Crossing, rest: seq<Crossing>)
    ensures Verdict([info] + rest, true) == Err(info)
    ensures [] + [info] == [info]
  {
  }

  lemma PairTest(v: seq<Point>, i: nat, j: nat, p1: Point, p2: Point, p3: Point, p4: Point, eps: real)
    requires i + 2 <= j < |v| && !(i == 0 && j == |v| - 1)
    requires p1 == v[i] && p2 == v[EdgeEnd(i, |v|)] && p3 == v[j] && p4 == v[EdgeEnd(j, |v|)]
    ensures Reported(v, i, j, eps) <==> SegmentsIntersect(p1, p2, p3, p4, eps)
    ensures Centre(v, i, j) == Average(p1, p2, p3, p4)
  {
    hide SegmentsIntersect;
  }

  lemma NotApart(v: seq<Point>, i: nat, j: nat, eps: real)
    requires i == 0 && j == |v| - 1
    ensures !Reported(v, i, j, eps)
  {
  }

  lemma NextRow(v: seq<Point>, i: nat, j: nat, eps: real)
    requires i < |v| <= j
    ensures CrossingsFrom(v, i, j, eps) == CrossingsFrom(v, i + 1, i + 3, eps)
  {
    hide Reported, Centre;
  }

  lemma StartOfRows(v: seq<Point>, eps: real)
    ensures Crossings(v, eps) == [] + CrossingsFrom(v, 0, 2, eps)
  {
  }

  lemma NoMoreRows(v: seq<Point>, eps: real)
    ensures CrossingsFrom(v, |v|, |v| + 2, eps) == []
  {
  }

  lemma NextPair(v: seq<Point>, out: seq<Crossing>, i: nat, j: nat, eps: real)
    requires i < j < |v|
    ensures
      var grown := if Reported(v, i, j, eps) then out + [Crossing(i, j, Centre(v, i, j))] else out;
      out + CrossingsFrom(v, i, j, eps) == grown + CrossingsFrom(v, i, j + 1, eps)
  {
    hide Reported, Centre;
  }

  lemma FewVertices(v: seq<Point>, eps: real)
    requires |v| < 4
    ensures Crossings(v, eps) == []
  {
    NothingApart(v, 0, 2, eps);
  }

  lemma {:induction false} NothingApart(v: seq<Point>, i: nat, j: nat, eps: real)
    requires |v| < 4 && i < j
    ensures CrossingsFrom(v, i, j, eps) == []
    decreases |v| - i, if j < |v| then |v| - j else 0
  {
    if i < |v| {
      if j < |v| {
        NothingApart(v, i, j + 1, eps);
      } else {
        NothingApart(v, i + 1, i + 3, eps);
      }
    }
  }

  // ---------- what the report contains ----------

  ghost predicate Listed(out: seq<Crossing>, a: nat, b: nat)
  {
    exists k :: 0 <= k < |out| && out[k].segment1 == a && out[k].segment2 == b
  }

  ghost predicate Ordered(out: seq<Crossing>)
  {
    forall k, l :: 0 <= k < l < |out| ==>
      Before(out[k].segment1, out[k].segment2, out[l].segment1, out[l].segment2)
  }

  ghost predicate AllFrom(v: seq<Point>, out: seq<Crossing>, i: nat, j: nat, eps: real)
  {
    forall k :: 0 <= k < |out| ==>
      IsCrossing(v, out[k], eps) && !Before(out[k].segment1, out[k].segment2, i, j)
  }

  lemma {:induction false} CrossingsSound(v: seq<Point>, i: nat, j: nat, eps: real)
    requires i < j
    ensures AllFrom(v, CrossingsFrom(v, i, j, eps), i, j, eps) && Ordered(CrossingsFrom(v, i, j, eps))
    decreases |v| - i, if j < |v| then |v| - j else 0
  {
    hide SegmentsIntersect, Reported, IsCrossing, Centre, AllFrom, Ordered;
    NoneFrom(v, i, j, eps);
    if i < |v| {
      if j < |v| {
        CrossingsSound(v, i, j + 1, eps);
        var rest := CrossingsFrom(v, i, j + 1, eps);
        NextColumn(v, rest, i, j, eps);
        assert [] + rest == rest;
      } else {
        CrossingsSound(v, i + 1, i + 3, eps);
        LaterRow(v, CrossingsFrom(v, i + 1, i + 3, eps), i, j, eps);
      }
    }
  }

  lemma NoneFrom(v: seq<Point>, i: nat, j: nat, eps: real)
    ensures AllFrom(v, [], i, j, eps) && Ordered([])
  {
  }

  lemma LaterRow(v: seq<Point>, out: seq<Crossing>, i: nat, j: nat, eps: real)
    requires AllFrom(v, out, i + 1, i + 3, eps)
    ensures AllFrom(v, out, i, j, eps)
  {
    hide IsCrossing;
  }

  lemma NextColumn(v: seq<Point>, rest: seq<Crossing>, i: nat, j: nat, eps: real)
    requires AllFrom(v, rest, i, j + 1, eps) && Ordered(rest)
    ensures AllFrom(v, rest, i, j, eps)
    ensures Reported(v, i, j, eps) ==>
      var out := [Crossing(i, j, Centre(v, i, j))] + rest;
      AllFrom(v, out, i, j, eps) && Ordered(out)
  {
    hide SegmentsIntersect, Centre;
  }

  lemma {:induction false} CrossingsComplete(v: seq<Point>, i: nat, j: nat, a: nat, b: nat, eps: real)
    requires i < j && Reported(v, a, b, eps) && !Before(a, b, i, j)
    ensures Listed(CrossingsFrom(v, i, j, eps), a, b)
    decreases |v| - i, if j < |v| then |v| - j else 0
  {
    hide SegmentsIntersect, EdgesIntersect, Centre;
    var out := CrossingsFrom(v, i, j, eps);
    if j >= |v| {
      CrossingsComplete(v, i + 1, i + 3, a, b, eps);
    } else if a == i && b == j {
      assert out[0].segment1 == a && out[0].segment2 == b;
    } else {
      CrossingsComplete(v, i, j + 1, a, b, eps);
      var rest := CrossingsFrom(v, i, j + 1, eps);
      var k :| 0 <= k < |rest| && rest[k].segment1 == a && rest[k].segment2 == b;
      var at := k + |out| - |rest|;
      assert out[at] == rest[k];
    }
  }

  /**
   The report lists exactly the pairs of edges without a common vertex that intersect, each
   once and in lexicographic order.
   */
  lemma ReportIsExact(v: seq<Point>, eps: real)
    ensures Ordered(Crossings(v, eps))
    ensures forall k :: 0 <= k < |Crossings(v, eps)| ==> IsCrossing(v, Crossings(v, eps)[k], eps)
    ensures forall a, b :: Listed(Crossings(v, eps), a, b) <==> Reported(v, a, b, eps)
  {
    CrossingsSound(v, 0, 2, eps);
    forall a, b | Reported(v, a, b, eps)
      ensures Listed(Crossings(v, eps), a, b)
    {
      CrossingsComplete(v, 0, 2, a, b, eps);
    }
  }

  /** Raising, the error is the first of the reported pairs in the order of the loops; there is none if all passes. */
  lemma RaisedIsFirst(v: seq<Point>, eps: real)
    ensures Verdict(Crossings(v, eps), false) == Ok(Crossings(v, eps))
    ensures
      match Verdict(Crossings(v, eps), true)
      case Ok(report) => report == [] && forall a, b :: !Reported(v, a, b, eps)
      case Err(c) =>
        && IsCrossing(v, c, eps)
        && forall a, b :: Reported(v, a, b, eps) ==> c.segment1 < a || (c.segment1 == a && c.segment2 <= b)
  {
    hide Reported, IsCrossing, Crossings;
    ReportIsExact(v, eps);
    var all := Crossings(v, eps);
    forall a, b | Reported(v, a, b, eps)
      ensures all != [] && (all[0].segment1 < a || (all[0].segment1 == a && all[0].segment2 <= b))
    {
      assert Listed(all, a, b);
    }
  }

  // ---------- what an empty report means ----------

  ghost predicate EdgesMeet(v: seq<Point>, i: nat, j: nat, s: real, t: real)
    requires i < |v| && j < |v|
  {
    Meet(v[i], v[EdgeEnd(i, |v|)], v[j], v[EdgeEnd(j, |v|)], s, t)
  }

  /**
   Two different edges have no common point but, if they are neighbours, the vertex between
   them. So no edge has length zero, but for up to three vertices that are all one point.
   */
  ghost predicate Simple(v: seq<Point>)
  {
    forall i, j, s, t :: 0 <= i < |v| && 0 <= j < |v| && i != j && EdgesMeet(v, i, j, s, t) ==>
      || (EdgeEnd(i, |v|) == j && At(v[i], v[j], s) == v[j])
      || (EdgeEnd(j, |v|) == i && At(v[j], v[i], t) == v[i])
  }

  ghost predicate ApartEdgesShare(v: seq<Point>, i: nat, j: nat)
  {
    i < |v| && j < |v| && Apart(i, j, |v|) &&
    ShareAPoint(v[i], v[EdgeEnd(i, |v|)], v[j], v[EdgeEnd(j, |v|)])
  }

  /**
   Two segments from a common end c overlap in more than c only if the far end of one lies on
   the other.
   */
  lemma Spike(a: Point, c: Point, b: Point, s: real, t: real)
    requires Meet(a, c, c, b, s, t) && At(a, c, s) != c
    ensures (exists r :: Within(r) && At(c, b, r) == a) || (exists r :: Within(r) && At(a, c, r) == b)
  {
    hide At;
    var u := 1.0 - s;
    BackFrom(a, c, s);
    BackFrom(b, c, 1.0 - t);
    AtReversed(c, b, t);
    if u == 0.0 {
      BackAtEnd(a, c);
      assert false;
    } else if t <= u {
      SpikeTip(a, c, b, u, t);
    } else {
      SpikeTip(b, c, a, t, u);
      var r :| Within(r) && At(c, a, r) == b;
      AtReversed(a, c, 1.0 - r);
      assert At(a, c, 1.0 - r) == b;
    }
  }

  /** On two rays from c meeting beyond c, the end that is reached first is on the other segment. */
  lemma SpikeTip(a: Point, c: Point, b: Point, u: real, t: real)
    requires 0.0 <= t <= u && u != 0.0
    requires u * (a.x - c.x) == t * (b.x - c.x) && u * (a.y - c.y) == t * (b.y - c.y)
    ensures exists r :: Within(r) && At(c, b, r) == a
  {
    var r := t / u;
    UnitRatio(r, t, u);
    Scaled(u, t, r, a.x - c.x, b.x - c.x);
    Scaled(u, t, r, a.y - c.y, b.y - c.y);
    assert At(c, b, r) == a;
  }

  lemma AtReversed(p: Point, q: Point, s: real)
    ensures At(p, q, s) == At(q, p, 1.0 - s)
  {
    BackFrom(p, q, s);
  }

  lemma BackFrom(a: Point, c: Point, s: real)
    ensures At(a, c, s).x == c.x + (1.0 - s) * (a.x - c.x)
    ensures At(a, c, s).y == c.y + (1.0 - s) * (a.y - c.y)
  {
    BackFromOne(a.x, c.x, s);
    BackFromOne(a.y, c.y, s);
  }

  lemma BackFromOne(a: real, c: real, s: real)
    ensures a + s * (c - a) == c + (1.0 - s) * (a - c)
  {
    assert (1.0 - s) * (a - c) == (a - c) - s * (a - c);
    assert s * (c - a) == -(s * (a - c));
  }

  lemma BackAtEnd(a: Point, c: Point)
    ensures At(a, c, 1.0) == c
  {
  }

  lemma Scaled(u: real, t: real, r: real, x: real, y: real)
    requires u != 0.0 && r * u == t && u * x == t * y
    ensures x == r * y
  {
    assert u * x == u * (r * y);
  }

  /** A vertex on an edge two steps on makes its own edge share a point with that edge. */
  lemma VertexOnEdge(p: Point, q: Point, c: Point, d: Point, r: real)
    requires Within(r)
    ensures At(c, d, r) == p ==> ShareAPoint(p, q, c, d) && ShareAPoint(c, d, p, q)
    ensures At(c, d, r) == q ==> ShareAPoint(p, q, c, d) && ShareAPoint(c, d, p, q)
  {
    EndsOfSegment(p, q);
    if At(c, d, r) == p {
      assert Meet(p, q, c, d, 0.0, r) && Meet(c, d, p, q, r, 0.0);
    }
    if At(c, d, r) == q {
      assert Meet(p, q, c, d, 1.0, r) && Meet(c, d, p, q, r, 1.0);
    }
  }

  /** Edges that overlap beyond their common vertex force two edges apart to share a point. */
  lemma NeighboursOverlap(v: seq<Point>, i: nat, s: real, t: real)
    requires 4 <= |v| && i < |v|
    requires EdgesMeet(v, i, EdgeEnd(i, |v|), s, t)
    requires At(v[i], v[EdgeEnd(i, |v|)], s) != v[EdgeEnd(i, |v|)]
    ensures exists a, b :: ApartEdgesShare(v, a, b)
  {
    var n := |v|;
    var j := EdgeEnd(i, n);
    var k := EdgeEnd(j, n);
    var h := if i == 0 then n - 1 else i - 1;
    assert EdgeEnd(h, n) == i && Apart(h, j, n) && Apart(i, k, n);
    Spike(v[i], v[j], v[k], s, t);
    if r :| Within(r) && At(v[j], v[k], r) == v[i] {
      VertexOnEdge(v[h], v[i], v[j], v[k], r);
      assert ApartEdgesShare(v, h, j);
    } else {
      var r :| Within(r) && At(v[i], v[j], r) == v[k];
      VertexOnEdge(v[k], v[EdgeEnd(k, n)], v[i], v[j], r);
      assert ApartEdgesShare(v, k, i);
    }
  }

  /** Looking only at edges without a common vertex misses nothing once there are four edges. */
  lemma SimpleMeansApart(v: seq<Point>)
    requires 4 <= |v|
    ensures Simple(v) <==> forall a, b :: !ApartEdgesShare(v, a, b)
  {
    if forall a, b :: !ApartEdgesShare(v, a, b) {
      forall i, j, s, t | 0 <= i < |v| && 0 <= j < |v| && i != j && EdgesMeet(v, i, j, s, t)
        ensures (EdgeEnd(i, |v|) == j && At(v[i], v[j], s) == v[j])
             || (EdgeEnd(j, |v|) == i && At(v[j], v[i], t) == v[i])
      {
        assert !ApartEdgesShare(v, i, j);
        if EdgeEnd(i, |v|) == j && At(v[i], v[j], s) != v[j] {
          NeighboursOverlap(v, i, s, t);
        } else if EdgeEnd(j, |v|) == i && At(v[j], v[i], t) != v[i] {
          assert EdgesMeet(v, j, i, t, s);
          NeighboursOverlap(v, j, t, s);
        }
      }
    }
    if a: nat, b: nat :| ApartEdgesShare(v, a, b) {
      var s, t :| Meet(v[a], v[EdgeEnd(a, |v|)], v[b], v[EdgeEnd(b, |v|)], s, t);
      assert EdgesMeet(v, a, b, s, t);
    }
  }

  lemma ShareSymmetric(p1: Point, p2: Point, p3: Point, p4: Point)
    requires ShareAPoint(p1, p2, p3, p4)
    ensures ShareAPoint(p3, p4, p1, p2)
  {
    var s, t :| Meet(p1, p2, p3, p4, s, t);
    assert Meet(p3, p4, p1, p2, t, s);
  }

  /** For every tolerance, a polygon of four or more vertices that passes the check is simple. */
  lemma PassedMeansSimple(v: seq<Point>, eps: real)
    requires 4 <= |v| && 0.0 < eps && Crossings(v, eps) == []
    ensures Simple(v)
  {
    ReportIsExact(v, eps);
    forall a: nat, b: nat ensures !ApartEdgesShare(v, a, b) {
      if ApartEdgesShare(v, a, b) {
        ShareIsReported(v, a, b, eps);
        assert false;
      }
    }
    SimpleMeansApart(v);
  }

  lemma ShareIsReported(v: seq<Point>, a: nat, b: nat, eps: real)
    requires 0.0 < eps && ApartEdgesShare(v, a, b)
    ensures Reported(v, if a < b then a else b, if a < b then b else a, eps)
  {
    var i, j := if a < b then a else b, if a < b then b else a;
    if b < a {
      ShareSymmetric(v[a], v[EdgeEnd(a, |v|)], v[b], v[EdgeEnd(b, |v|)]);
    }
    IntersectMeaning(v[i], v[EdgeEnd(i, |v|)], v[j], v[EdgeEnd(j, |v|)], eps);
  }

  /** Edges apart of which one has an end within the other's box and nearly on it. */
  ghost predicate EdgesNearTouch(v: seq<Point>, i: nat, j: nat, eps: real)
  {
    && i < j < |v| && Apart(i, j, |v|)
    && NearTouch(v[i], v[EdgeEnd(i, |v|)], v[j], v[EdgeEnd(j, |v|)], eps)
  }

  lemma ReportedMeaning(v: seq<Point>, i: nat, j: nat, eps: real)
    requires 0.0 < eps
    ensures Reported(v, i, j, eps) <==> i < j && (ApartEdgesShare(v, i, j) || EdgesNearTouch(v, i, j, eps))
  {
    if i < j < |v| {
      IntersectMeaning(v[i], v[EdgeEnd(i, |v|)], v[j], v[EdgeEnd(j, |v|)], eps);
    }
  }

  /**
   For every tolerance, exactly those polygons of four or more vertices pass that are simple
   and have no edge ending nearly on an edge apart from it.
   */
  lemma PassedExactly(v: seq<Point>, eps: real)
    requires 4 <= |v| && 0.0 < eps
    ensures Crossings(v, eps) == [] <==> Simple(v) && forall i, j :: !EdgesNearTouch(v, i, j, eps)
  {
    hide Simple, Reported, ApartEdgesShare, EdgesNearTouch, Apart;
    ReportIsExact(v, eps);
    SimpleMeansApart(v);
    if Crossings(v, eps) == [] {
      PassedMeansSimple(v, eps);
      forall i: nat, j: nat ensures !EdgesNearTouch(v, i, j, eps) {
        ReportedMeaning(v, i, j, eps);
        NearTouchOrdered(v, i, j, eps);
        assert !Listed(Crossings(v, eps), i, j);
      }
    } else {
      var c := Crossings(v, eps)[0];
      assert IsCrossing(v, c, eps);
      ReportedMeaning(v, c.segment1, c.segment2, eps);
    }
  }

  lemma NearTouchOrdered(v: seq<Point>, i: nat, j: nat, eps: real)
    ensures EdgesNearTouch(v, i, j, eps) ==> i < j
  {
  }

  /** So with vertices on a grid no finer than the tolerance, exactly the simple polygons pass. */
  lemma PassedExactlyWhenSimple(v: seq<Point>, g: real, eps: real)
    requires 4 <= |v| && 0.0 < eps <= g * g
    requires forall k :: 0 <= k < |v| ==> OnGrid(v[k], g)
    ensures Crossings(v, eps) == [] <==> Simple(v)
  {
    hide Simple, Crossings, OnGrid;
    PassedExactly(v, eps);
    forall i: nat, j: nat ensures !EdgesNearTouch(v, i, j, eps) {
      if i < j < |v| {
        var p, q := EdgeEnd(i, |v|), EdgeEnd(j, |v|);
        FarOnGrid(v[j], v[q], v[i], g, eps);
        FarOnGrid(v[j], v[q], v[p], g, eps);
        FarOnGrid(v[i], v[p], v[j], g, eps);
        FarOnGrid(v[i], v[p], v[q], g, eps);
      }
    }
  }

  lemma FourVerticesSimple(v: seq<Point>)
    requires |v| == 4 && !ShareAPoint(v[0], v[1], v[2], v[3]) && !ShareAPoint(v[1], v[2], v[3], v[0])
    ensures Simple(v)
  {
    hide Simple, ShareAPoint;
    forall i: nat, j: nat ensures !ApartEdgesShare(v, i, j) {
      if ApartEdgesShare(v, i, j) {
        ShareSymmetric(v[i], v[EdgeEnd(i, 4)], v[j], v[EdgeEnd(j, 4)]);
      }
    }
    SimpleMeansApart(v);
  }

  function Mixed(a: real, b: real, t: real): real
  {
    (1.0 - t) * a + t * b
  }

  lemma MixedPositive(a: real, b: real, t: real)
    requires Within(t) && a > 0.0 && b > 0.0
    ensures Mixed(a, b, t) > 0.0
  {
    Complement(t, a);
    Complement(t, b);
    if a <= b {
      NotNegative(t, b - a);
      assert t * (b - a) == t * b - t * a;
    } else {
      NotNegative(1.0 - t, a - b);
      assert (1.0 - t) * (a - b) == (1.0 - t) * a - (1.0 - t) * b;
    }
  }

  lemma GapAt(p: Point, q: Point, t: real)
    ensures At(p, q, t).y - At(p, q, t).x == Mixed(p.y - p.x, q.y - q.x, t)
  {
  }

  /** By y - x, a point of a segment above the diagonal is above it. */
  lemma AboveDiagonal(p: Point, q: Point, t: real)
    requires Within(t) && p.y > p.x && q.y > q.x
    ensures At(p, q, t).y > At(p, q, t).x
  {
    hide At, Mixed;
    GapAt(p, q, t);
    MixedPositive(p.y - p.x, q.y - q.x, t);
  }

  lemma DiagonalAt(s: real)
    ensures At(Point(0.0, 0.0), Point(1.0, 1.0), s) == Point(s, s)
  {
  }

  lemma DiagonalMissed(c: Point, d: Point)
    requires c.y > c.x && d.y > d.x
    ensures !ShareAPoint(Point(0.0, 0.0), Point(1.0, 1.0), c, d)
  {
    hide At;
    forall s, t ensures !Meet(Point(0.0, 0.0), Point(1.0, 1.0), c, d, s, t) {
      if Within(t) {
        DiagonalAt(s);
        AboveDiagonal(c, d, t);
      }
    }
  }

  lemma TopMissed()
    ensures !ShareAPoint(Point(1.0, 1.0), Point(0.0, 1.0), Point(0.5, 0.50000000001), Point(0.0, 0.0))
  {
    forall s, t ensures !Meet(Point(1.0, 1.0), Point(0.0, 1.0), Point(0.5, 0.50000000001), Point(0.0, 0.0), s, t) {
    }
  }

  /** A simple polygon whose last vertex is 10^-11 off the first edge: it is reported. */
  lemma SimpleYetReported()
    ensures
      var v := [Point(0.0, 0.0), Point(1.0, 1.0), Point(0.0, 1.0), Point(0.5, 0.50000000001)];
      Simple(v) && Crossings(v, EPS) != []
  {
    hide Simple, Crossings, ShareAPoint, NearTouch;
    var v := [Point(0.0, 0.0), Point(1.0, 1.0), Point(0.0, 1.0), Point(0.5, 0.50000000001)];
    DiagonalMissed(v[2], v[3]);
    TopMissed();
    FourVerticesSimple(v);
    NearDiagonal();
    assert EdgesNearTouch(v, 0, 2, EPS);
    PassedExactly(v, EPS);
  }

  lemma NearDiagonal()
    ensures NearTouch(Point(0.0, 0.0), Point(1.0, 1.0), Point(0.0, 1.0), Point(0.5, 0.50000000001), EPS)
  {
  }

  // ---------- fewer than four vertices ----------

  ghost predicate AllEqual(v: seq<Point>)
  {
    forall i, j :: 0 <= i < |v| && 0 <= j < |v| ==> v[i] == v[j]
  }

  lemma CrossCycles(a: Point, b: Point, c: Point)
    ensures CrossProduct(a, b, c) == CrossProduct(b, c, a) == CrossProduct(c, a, b)
  {
  }

  /** With three vertices off a line, neighbouring edges have only their vertex in common. */
  lemma CornerIsAll(a: Point, c: Point, b: Point, s: real, t: real)
    requires CrossProduct(a, c, b) != 0.0 && Meet(a, c, c, b, s, t)
    ensures At(a, c, s) == c
  {
    hide CrossProduct, At;
    if At(a, c, s) != c {
      Spike(a, c, b, s, t);
      if r :| Within(r) && At(c, b, r) == a {
        CrossOnLine(c, b, r);
        CrossCycles(a, c, b);
      } else {
        var r :| Within(r) && At(a, c, r) == b;
        CrossOnLine(a, c, r);
      }
    }
  }

  lemma OffLineIsSimple(v: seq<Point>)
    requires |v| == 3 && CrossProduct(v[0], v[1], v[2]) != 0.0
    ensures Simple(v)
  {
    hide CrossProduct, At, Within;
    CrossCycles(v[0], v[1], v[2]);
    forall i, j, s, t | 0 <= i < 3 && 0 <= j < 3 && i != j && EdgesMeet(v, i, j, s, t)
      ensures (EdgeEnd(i, |v|) == j && At(v[i], v[j], s) == v[j])
           || (EdgeEnd(j, |v|) == i && At(v[j], v[i], t) == v[i])
    {
      if EdgeEnd(i, |v|) == j {
        CornerIsAll(v[i], v[j], v[EdgeEnd(j, |v|)], s, t);
      } else {
        assert Meet(v[j], v[i], v[i], v[EdgeEnd(i, |v|)], t, s);
        CornerIsAll(v[j], v[i], v[EdgeEnd(i, |v|)], t, s);
      }
    }
  }

  /** Of three points on a line one lies between the others. */
  lemma MiddleVertex(v: seq<Point>) returns (i: nat, r: real)
    requires |v| == 3 && CrossProduct(v[0], v[1], v[2]) == 0.0
    ensures i < 3 && Within(r) && At(v[i], v[EdgeEnd(i, 3)], r) == v[EdgeEnd(EdgeEnd(i, 3), 3)]
  {
    hide CrossProduct, At, EdgeEnd;
    EndsOfSegment(v[0], v[1]);
    if v[0] == v[1] {
      EndsOfSegment(v[1], v[2]);
      i, r := 1, 0.0;
    } else {
      var g := LineParameter(v[0], v[1], v[2]);
      if g < 0.0 {
        i := 1;
        r := Fraction(1.0, g, 0.0);
        var back := 1.0 + r * (g - 1.0);
        assert back == 0.0;
        Reparametrise(v[0], v[1], 1.0, g, r);
      } else if g <= 1.0 {
        i, r := 0, g;
      } else {
        i := 2;
        r := Fraction(g, 0.0, 1.0);
        var back := g + r * (0.0 - g);
        assert back == 1.0;
        Reparametrise(v[0], v[1], g, 0.0, r);
      }
    }
  }

  lemma FlatIsNotSimple(v: seq<Point>)
    requires |v| == 3 && CrossProduct(v[0], v[1], v[2]) == 0.0 && !AllEqual(v)
    ensures !Simple(v)
  {
    hide CrossProduct, At;
    var i, r := MiddleVertex(v);
    var j := EdgeEnd(i, 3);
    var k := EdgeEnd(j, 3);
    if v[k] != v[j] {
      EndsOfSegment(v[j], v[k]);
      assert EdgesMeet(v, i, j, r, 1.0);
    } else {
      EndsOfSegment(v[k], v[i]);
      assert EdgesMeet(v, k, i, 0.0, r);
    }
  }

  lemma PointIsSimple(v: seq<Point>)
    requires |v| < 4 && AllEqual(v)
    ensures Simple(v)
  {
    forall i, j, s, t | 0 <= i < |v| && 0 <= j < |v| && i != j && EdgesMeet(v, i, j, s, t)
      ensures (EdgeEnd(i, |v|) == j && At(v[i], v[j], s) == v[j])
           || (EdgeEnd(j, |v|) == i && At(v[j], v[i], t) == v[i])
    {
      AtOnePoint(v[i], s);
      AtOnePoint(v[i], t);
      assert v[i] == v[j];
    }
  }

  lemma AtOnePoint(p: Point, t: real)
    ensures At(p, p, t) == p
  {
  }

  lemma ThereAndBack(v: seq<Point>)
    requires |v| == 2 && v[0] != v[1]
    ensures !Simple(v)
  {
    var s := 0.5;
    Halfway(v[0], v[1]);
    Halfway(v[1], v[0]);
    assert EdgesMeet(v, 0, 1, s, s);
  }

  lemma Halfway(p: Point, q: Point)
    ensures At(p, q, 0.5) == Point((p.x + q.x) / 2.0, (p.y + q.y) / 2.0)
    ensures p != q ==> At(p, q, 0.5) != q
  {
  }

  /**
   Fewer than four vertices always pass, and are simple exactly if they are all one point or
   three that are not on one line.
   */
  lemma FewVerticesPass(v: seq<Point>, eps: real)
    requires |v| < 4
    ensures Crossings(v, eps) == []
    ensures Simple(v) <==> AllEqual(v) || (|v| == 3 && CrossProduct(v[0], v[1], v[2]) != 0.0)
  {
    FewVertices(v, eps);
    if AllEqual(v) {
      PointIsSimple(v);
    } else if |v| == 2 {
      ThereAndBack(v);
    } else if |v| == 3 {
      if CrossProduct(v[0], v[1], v[2]) == 0.0 {
        FlatIsNotSimple(v);
      } else {
        OffLineIsSimple(v);
      }
    }
  }

  /** So a flat triangle passes that is not simple. */
  lemma FlatTrianglePasses(eps: real)
    ensures
      var v := [Point(0.0, 0.0), Point(2.0, 0.0), Point(1.0, 0.0)];
      Crossings(v, eps) == [] && !Simple(v)
  {
    hide CrossProduct, Simple, Crossings;
    var v := [Point(0.0, 0.0), Point(2.0, 0.0), Point(1.0, 0.0)];
    FewVerticesPass(v, eps);
    FlatCross(2.0, 1.0);
    assert v[0] != v[1];
  }

  lemma FlatCross(x: real, y: real)
    ensures CrossProduct(Point(0.0, 0.0), Point(x, 0.0), Point(y, 0.0)) == 0.0
  {
  }
}
