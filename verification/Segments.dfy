/**
 Segment intersection by cross products (src/clients/node/src/geo.ts), over exact real
 coordinates. `eps` is the tolerance of the four collinear tests.
 */
module Segments {
  datatype Point = Point(x: real, y: real)

  function Min(a: real, b: real): real { if a < b then a else b }

  function Max(a: real, b: real): real { if a < b then b else a }

  function Abs(a: real): real { if a < 0.0 then -a else a }

  function CrossProduct(o: Point, a: Point, b: Point): real
  {
    (a.x - o.x) * (b.y - o.y) - (a.y - o.y) * (b.x - o.x)
  }

  /** q lies in the bounding box of p and r. */
  predicate OnSegment(p: Point, q: Point, r: Point)
  {
    Min(p.x, r.x) <= q.x <= Max(p.x, r.x) && Min(p.y, r.y) <= q.y <= Max(p.y, r.y)
  }

  /** The cross product is the length of oa squared, times how far to the left of oa, in lengths of oa, b is. */
  lemma CrossMeasuresLeft(o: Point, a: Point, along: real, left: real)
    ensures
      var dx, dy := a.x - o.x, a.y - o.y;
      var b := Point(o.x + along * dx - left * dy, o.y + along * dy + left * dx);
      CrossProduct(o, a, b) == left * (dx * dx + dy * dy)
  {
    var dx, dy := a.x - o.x, a.y - o.y;
    assert dx * (along * dy) == dy * (along * dx);
  }

  predicate Opposite(a: real, b: real)
  {
    (a > 0.0 && b < 0.0) || (a < 0.0 && b > 0.0)
  }

  predicate SegmentsIntersect(p1: Point, p2: Point, p3: Point, p4: Point, eps: real)
  {
    var d1 := CrossProduct(p3, p4, p1);
    var d2 := CrossProduct(p3, p4, p2);
    var d3 := CrossProduct(p1, p2, p3);
    var d4 := CrossProduct(p1, p2, p4);
    if Opposite(d1, d2) && Opposite(d3, d4) then true
    else if Abs(d1) < eps && OnSegment(p3, p1, p4) then true
    else if Abs(d2) < eps && OnSegment(p3, p2, p4) then true
    else if Abs(d3) < eps && OnSegment(p1, p3, p2) then true
    else if Abs(d4) < eps && OnSegment(p1, p4, p2) then true
    else false
  }

  // ---------- what it should mean ----------

  /** The point a fraction t of the way from p to q. */
  function At(p: Point, q: Point, t: real): Point
  {
    Point(p.x + t * (q.x - p.x), p.y + t * (q.y - p.y))
  }

  ghost predicate Within(t: real) { 0.0 <= t <= 1.0 }

  ghost predicate Meet(p1: Point, p2: Point, p3: Point, p4: Point, s: real, t: real)
  {
    Within(s) && Within(t) && At(p1, p2, s) == At(p3, p4, t)
  }

  /** The closed segments p1p2 and p3p4 have a point in common. */
  ghost predicate ShareAPoint(p1: Point, p2: Point, p3: Point, p4: Point)
  {
    exists s, t :: Meet(p1, p2, p3, p4, s, t)
  }

  /** The cross product is affine along a segment. */
  lemma CrossAlong(a: Point, b: Point, p: Point, q: Point, t: real)
    ensures CrossProduct(a, b, At(p, q, t)) ==
            (1.0 - t) * CrossProduct(a, b, p) + t * CrossProduct(a, b, q)
  {
  }

  lemma CrossOnLine(a: Point, b: Point, t: real)
    ensures CrossProduct(a, b, At(a, b, t)) == 0.0
  {
  }

  function Along(u: real, v: real, t: real): real
  {
    u + t * (v - u)
  }

  lemma AtAlong(p: Point, q: Point, t: real)
    ensures At(p, q, t) == Point(Along(p.x, q.x, t), Along(p.y, q.y, t))
  {
  }

  /** In the box each coordinate is that of a point of the segment, if not of the same point. */
  lemma BoxCoordinates(p: Point, q: Point, r: Point) returns (s: real, t: real)
    requires OnSegment(p, q, r)
    ensures Within(s) && Within(t) && q.x == At(p, r, s).x && q.y == At(p, r, t).y
  {
    hide Min, Max, At, Along;
    s := BoxFraction(p.x, r.x, q.x);
    t := BoxFraction(p.y, r.y, q.y);
    AtAlong(p, r, s);
    AtAlong(p, r, t);
  }

  /** And the box has all of these. */
  lemma CoordinatesInBox(p: Point, r: Point, s: real, t: real)
    requires Within(s) && Within(t)
    ensures OnSegment(p, Point(At(p, r, s).x, At(p, r, t).y), r)
  {
    hide Min, Max;
    Between(p.x, r.x, r.x - p.x, s);
    Between(p.y, r.y, r.y - p.y, t);
  }

  /** A point of the segment is in its bounding box. */
  lemma Between(u: real, v: real, d: real, t: real)
    requires Within(t) && d == v - u
    ensures Min(u, v) <= u + t * d <= Max(u, v)
  {
    PartOf(t, d);
    Offset(u, v, t * d);
  }

  lemma Offset(u: real, v: real, part: real)
    requires 0.0 <= part <= v - u || v - u <= part <= 0.0
    ensures Min(u, v) <= u + part <= Max(u, v)
  {
  }

  lemma PartOf(t: real, d: real)
    requires Within(t)
    ensures 0.0 <= t * d <= d || d <= t * d <= 0.0
  {
    Complement(t, d);
    if 0.0 <= d {
      NotNegative(t, d);
      NotNegative(1.0 - t, d);
    } else {
      NotPositive(t, d);
      NotPositive(1.0 - t, d);
    }
  }

  lemma Complement(t: real, d: real)
    ensures (1.0 - t) * d == d - t * d
  {
  }

  lemma NotPositive(x: real, y: real)
    requires 0.0 <= x && y <= 0.0
    ensures x * y <= 0.0
  {
  }

  lemma NotNegative(x: real, y: real)
    requires 0.0 <= x && 0.0 <= y
    ensures 0.0 <= x * y
  {
  }

  lemma MulNegated(t: real, d: real)
    ensures t * -d == -(t * d)
  {
  }

  lemma PointInBox(p: Point, q: Point, t: real)
    requires Within(t)
    ensures OnSegment(p, At(p, q, t), q)
  {
    Between(p.x, q.x, q.x - p.x, t);
    Between(p.y, q.y, q.y - p.y, t);
  }

  /** Conversely a collinear point of the bounding box is on the segment. */
  lemma BoxPointOnSegment(p: Point, q: Point, e: Point) returns (t: real)
    requires CrossProduct(p, q, e) == 0.0 && OnSegment(p, e, q)
    ensures Within(t) && At(p, q, t) == e
  {
    hide CrossProduct, At;
    var dx, dy := q.x - p.x, q.y - p.y;
    if dx != 0.0 {
      t := Fraction(p.x, q.x, e.x);
      EqualProducts(p, q, e);
      SameFraction(dx, dy, e.x - p.x, e.y - p.y, t);
    } else if dy != 0.0 {
      t := Fraction(p.y, q.y, e.y);
    } else {
      t := 0.0;
    }
    AtOffset(p, q, e, t, dx, dy);
  }

  lemma EqualProducts(p: Point, q: Point, e: Point)
    requires CrossProduct(p, q, e) == 0.0
    ensures (q.x - p.x) * (e.y - p.y) == (q.y - p.y) * (e.x - p.x)
  {
  }

  lemma AtOffset(p: Point, q: Point, e: Point, t: real, dx: real, dy: real)
    requires dx == q.x - p.x && dy == q.y - p.y
    requires e.x == p.x + (if dx == 0.0 then 0.0 else t * dx) && e.y == p.y + (if dy == 0.0 then 0.0 else t * dy)
    ensures At(p, q, t) == e
  {
  }

  lemma Fraction(u: real, v: real, w: real) returns (t: real)
    requires u != v && Min(u, v) <= w <= Max(u, v)
    ensures Within(t) && w == u + t * (v - u)
  {
    t := (w - u) / (v - u);
    var n, d := if u < v then w - u else u - w, if u < v then v - u else u - v;
    assert t * d == n && 0.0 <= n <= d && 0.0 < d;
    UnitRatio(t, n, d);
  }

  lemma BoxFraction(u: real, v: real, w: real) returns (t: real)
    requires Min(u, v) <= w <= Max(u, v)
    ensures Within(t) && w == Along(u, v, t)
  {
    if u == v {
      t := 0.0;
      assert w == u && t * (v - u) == 0.0;
    } else {
      t := Fraction(u, v, w);
    }
  }

  lemma UnitRatio(t: real, n: real, d: real)
    requires t * d == n && 0.0 <= n <= d && 0.0 < d
    ensures Within(t)
  {
    assert (1.0 - t) * d == d - n;
  }

  lemma SameFraction(dx: real, dy: real, ex: real, ey: real, t: real)
    requires dx != 0.0 && dx * ey == dy * ex && ex == t * dx
    ensures ey == t * dy
  {
    assert dx * ey == dx * (t * dy);
  }

  // ---------- soundness: a report is right, or near ----------

  /** Two properly crossing segments meet at the parameters the cross products give. */
  lemma ProperCrossing(p1: Point, p2: Point, p3: Point, p4: Point)
    requires Opposite(CrossProduct(p3, p4, p1), CrossProduct(p3, p4, p2))
    requires Opposite(CrossProduct(p1, p2, p3), CrossProduct(p1, p2, p4))
    ensures ShareAPoint(p1, p2, p3, p4)
  {
    var d1, d2 := CrossProduct(p3, p4, p1), CrossProduct(p3, p4, p2);
    var d3, d4 := CrossProduct(p1, p2, p3), CrossProduct(p1, p2, p4);
    var s := SplitPoint(d1, d2);
    var t := SplitPoint(d3, d4);
    assert Meet(p1, p2, p3, p4, s, t) by {
      assert d4 - d3 == d1 - d2;
      var d := d1 - d2;
      assert s * d == d1 && t * d == -d3;
      CrossingIdentity(p1, p2, p3, p4, d, s, t);
    }
  }

  lemma SplitPoint(a: real, b: real) returns (s: real)
    requires Opposite(a, b)
    ensures 0.0 < s < 1.0 && s * (a - b) == a
  {
    s := a / (a - b);
  }

  lemma CrossingIdentity(p1: Point, p2: Point, p3: Point, p4: Point, d: real, s: real, t: real)
    requires d == CrossProduct(p3, p4, p1) - CrossProduct(p3, p4, p2) && d != 0.0
    requires s * d == CrossProduct(p3, p4, p1) && t * d == -CrossProduct(p1, p2, p3)
    ensures At(p1, p2, s) == At(p3, p4, t)
  {
    var wx, wy := p1.x - p3.x, p1.y - p3.y;
    var rx, ry := p2.x - p1.x, p2.y - p1.y;
    var qx, qy := p4.x - p3.x, p4.y - p3.y;
    assert d == qy * rx - qx * ry by {
      CrossDifference(qx, qy, wx, wy, rx, ry);
      assert p2.x - p3.x == wx + rx && p2.y - p3.y == wy + ry;
    }
    assert s * d == qx * wy - qy * wx;
    assert t * d == rx * wy - ry * wx by {
      NegatedCross(rx, ry, wx, wy);
      assert p3.x - p1.x == -wx && p3.y - p1.y == -wy;
    }
    MeetingCoordinate(d, s, t, wx, rx, qx, rx, ry, qx, qy, wx, wy);
    MeetingCoordinate(d, s, t, wy, ry, qy, rx, ry, qx, qy, wx, wy);
  }

  lemma CrossDifference(qx: real, qy: real, wx: real, wy: real, rx: real, ry: real)
    ensures (qx * wy - qy * wx) - (qx * (wy + ry) - qy * (wx + rx)) == qy * rx - qx * ry
  {
    assert qx * (wy + ry) == qx * wy + qx * ry;
    assert qy * (wx + rx) == qy * wx + qy * rx;
  }

  lemma NegatedCross(rx: real, ry: real, wx: real, wy: real)
    ensures -(rx * (-wy) - ry * (-wx)) == rx * wy - ry * wx
  {
  }

  /** One coordinate (w, r, q being the x or the y components) of the meeting point. */
  lemma MeetingCoordinate(d: real, s: real, t: real, w: real, r: real, q: real,
                          rx: real, ry: real, qx: real, qy: real, wx: real, wy: real)
    requires d != 0.0
    requires d == qy * rx - qx * ry && s * d == qx * wy - qy * wx && t * d == rx * wy - ry * wx
    requires (w == wx && r == rx && q == qx) || (w == wy && r == ry && q == qy)
    ensures w + s * r == t * q
  {
    ThreeVectors(rx, ry, qx, qy, wx, wy);
    assert d * w + (s * d) * r - (t * d) * q == 0.0;
    Factor(d, s, t, w, r, q);
  }

  lemma Factor(d: real, s: real, t: real, w: real, r: real, q: real)
    requires d != 0.0 && d * w + (s * d) * r - (t * d) * q == 0.0
    ensures w + s * r == t * q
  {
    assert (s * d) * r == d * (s * r);
    assert (t * d) * q == d * (t * q);
    assert d * (w + s * r - t * q) == d * w + d * (s * r) - d * (t * q);
  }

  /** In the plane any three vectors satisfy this identity, coordinate by coordinate. */
  lemma ThreeVectors(rx: real, ry: real, qx: real, qy: real, wx: real, wy: real)
    ensures (qy * rx - qx * ry) * wx + (qx * wy - qy * wx) * rx - (rx * wy - ry * wx) * qx == 0.0
    ensures (qy * rx - qx * ry) * wy + (qx * wy - qy * wx) * ry - (rx * wy - ry * wx) * qy == 0.0
  {
    Expand(qy, rx, qx, ry, wx);
    Expand(qx, wy, qy, wx, rx);
    Expand(rx, wy, ry, wx, qx);
    Expand(qy, rx, qx, ry, wy);
    Expand(qx, wy, qy, wx, ry);
    Expand(rx, wy, ry, wx, qy);
  }

  lemma Expand(a: real, b: real, c: real, d: real, e: real)
    ensures (a * b - c * d) * e == a * b * e - c * d * e
  {
  }

  lemma EndsOfSegment(p: Point, q: Point)
    ensures At(p, q, 0.0) == p && At(p, q, 1.0) == q
  {
  }

  /** One of the four endpoints lies exactly on the other segment. */
  ghost predicate EndpointTouches(p1: Point, p2: Point, p3: Point, p4: Point)
  {
    || (CrossProduct(p3, p4, p1) == 0.0 && OnSegment(p3, p1, p4))
    || (CrossProduct(p3, p4, p2) == 0.0 && OnSegment(p3, p2, p4))
    || (CrossProduct(p1, p2, p3) == 0.0 && OnSegment(p1, p3, p2))
    || (CrossProduct(p1, p2, p4) == 0.0 && OnSegment(p1, p4, p2))
  }

  lemma TouchIsShared(p1: Point, p2: Point, p3: Point, p4: Point)
    requires EndpointTouches(p1, p2, p3, p4)
    ensures ShareAPoint(p1, p2, p3, p4)
  {
    EndsOfSegment(p1, p2);
    EndsOfSegment(p3, p4);
    if CrossProduct(p3, p4, p1) == 0.0 && OnSegment(p3, p1, p4) {
      var t := BoxPointOnSegment(p3, p4, p1);
      assert Meet(p1, p2, p3, p4, 0.0, t);
    } else if CrossProduct(p3, p4, p2) == 0.0 && OnSegment(p3, p2, p4) {
      var t := BoxPointOnSegment(p3, p4, p2);
      assert Meet(p1, p2, p3, p4, 1.0, t);
    } else if CrossProduct(p1, p2, p3) == 0.0 && OnSegment(p1, p3, p2) {
      var s := BoxPointOnSegment(p1, p2, p3);
      assert Meet(p1, p2, p3, p4, s, 0.0);
    } else {
      var s := BoxPointOnSegment(p1, p2, p4);
      assert Meet(p1, p2, p3, p4, s, 1.0);
    }
  }

  // ---------- completeness: a common point is never missed ----------

  ghost predicate ProperlyCross(p1: Point, p2: Point, p3: Point, p4: Point)
  {
    Opposite(CrossProduct(p3, p4, p1), CrossProduct(p3, p4, p2)) &&
    Opposite(CrossProduct(p1, p2, p3), CrossProduct(p1, p2, p4))
  }

  /** A convex combination that vanishes has opposite or vanishing ends. */
  lemma VanishingCombination(a: real, b: real, t: real)
    requires Within(t) && (1.0 - t) * a + t * b == 0.0
    ensures Opposite(a, b) || (a == 0.0 && b == 0.0) || (a == 0.0 && t == 0.0) || (b == 0.0 && t == 1.0)
  {
    if a == 0.0 {
      assert t * b == 0.0;
    } else if b == 0.0 {
      assert (1.0 - t) * a == 0.0;
    } else if a > 0.0 && b > 0.0 {
      PositiveCombination(a, b, t);
    } else if a < 0.0 && b < 0.0 {
      PositiveCombination(-a, -b, t);
    }
  }

  lemma PositiveCombination(a: real, b: real, t: real)
    requires Within(t) && a > 0.0 && b > 0.0
    ensures (1.0 - t) * a + t * b > 0.0
  {
    assert (1.0 - t) * a >= 0.0 && t * b >= 0.0;
    assert t > 0.0 ==> t * b > 0.0;
  }

  lemma SharedIsSeen(p1: Point, p2: Point, p3: Point, p4: Point, s: real, t: real)
    requires Meet(p1, p2, p3, p4, s, t)
    ensures ProperlyCross(p1, p2, p3, p4) || EndpointTouches(p1, p2, p3, p4)
  {
    var d1, d2 := CrossProduct(p3, p4, p1), CrossProduct(p3, p4, p2);
    var d3, d4 := CrossProduct(p1, p2, p3), CrossProduct(p1, p2, p4);
    CrossAlong(p3, p4, p1, p2, s);
    CrossOnLine(p3, p4, t);
    VanishingCombination(d1, d2, s);
    CrossAlong(p1, p2, p3, p4, t);
    CrossOnLine(p1, p2, s);
    VanishingCombination(d3, d4, t);
    EndsOfSegment(p1, p2);
    EndsOfSegment(p3, p4);
    PointInBox(p3, p4, t);
    PointInBox(p1, p2, s);
    if d1 == 0.0 && d2 == 0.0 && d3 == 0.0 && d4 == 0.0 {
      CollinearOverlap(p1, p2, p3, p4, s, t);
    } else if d1 == 0.0 && d2 == 0.0 {
      DegenerateLine(p1, p2, p3, p4);
    } else if d3 == 0.0 && d4 == 0.0 {
      DegenerateLine(p3, p4, p1, p2);
    }
  }

  /** If p1 and p2 are on the line p3p4 but not conversely, p3p4 is no line but a point. */
  lemma DegenerateLine(p1: Point, p2: Point, p3: Point, p4: Point)
    requires CrossProduct(p3, p4, p1) == 0.0 && CrossProduct(p3, p4, p2) == 0.0
    requires CrossProduct(p1, p2, p3) != 0.0 || CrossProduct(p1, p2, p4) != 0.0
    ensures p3 == p4
  {
    var qx, qy := p4.x - p3.x, p4.y - p3.y;
    var wx, wy := p1.x - p3.x, p1.y - p3.y;
    var vx, vy := p2.x - p3.x, p2.y - p3.y;
    assert qx * wy == qy * wx && qx * vy == qy * vx;
    var d3 := CrossProduct(p1, p2, p3);
    assert d3 == wx * vy - wy * vx;
    ParallelPair(qx, qy, wx, wy, vx, vy);
    assert CrossProduct(p1, p2, p4) == d3 by {
      assert CrossProduct(p1, p2, p4) - d3 == CrossProduct(p3, p4, p1) - CrossProduct(p3, p4, p2);
    }
  }

  /** Two vectors parallel to a nonzero third are parallel to each other. */
  lemma ParallelPair(qx: real, qy: real, wx: real, wy: real, vx: real, vy: real)
    requires qx * wy == qy * wx && qx * vy == qy * vx
    ensures (qx == 0.0 && qy == 0.0) || wx * vy == wy * vx
  {
    if qx != 0.0 {
      assert qx * (wx * vy) == (qx * vy) * wx == (qy * vx) * wx == (qy * wx) * vx == (qx * wy) * vx == qx * (wy * vx);
    } else if qy != 0.0 {
      assert qy * (wx * vy) == (qy * wx) * vy == (qx * wy) * vy == (qx * vy) * wy == (qy * vx) * wy == qy * (wy * vx);
    }
  }

  /** On one line, overlapping segments contain an endpoint of one another. */
  lemma CollinearOverlap(p1: Point, p2: Point, p3: Point, p4: Point, s: real, t: real)
    requires Meet(p1, p2, p3, p4, s, t)
    requires CrossProduct(p3, p4, p1) == 0.0 && CrossProduct(p3, p4, p2) == 0.0
    requires CrossProduct(p1, p2, p3) == 0.0 && CrossProduct(p1, p2, p4) == 0.0
    ensures EndpointTouches(p1, p2, p3, p4)
  {
    PointInBox(p3, p4, t);
    PointInBox(p1, p2, s);
    if p3 == p4 {
      assert At(p3, p4, t) == p3;
    } else {
      var a := LineParameter(p3, p4, p1);
      var b := LineParameter(p3, p4, p2);
      assert At(p1, p2, s) == At(p3, p4, a + s * (b - a)) by {
        Reparametrise(p3, p4, a, b, s);
      }
      SameParameter(p3, p4, a + s * (b - a), t);
      if Within(a) {
        PointInBox(p3, p4, a);
      } else if Within(b) {
        PointInBox(p3, p4, b);
      } else {
        ZeroBetween(a, b, b - a, s);
        var r := Fraction(a, b, 0.0);
        Reparametrise(p3, p4, a, b, r);
        EndsOfSegment(p3, p4);
        PointInBox(p1, p2, r);
      }
    }
  }

  lemma ZeroBetween(a: real, b: real, d: real, s: real)
    requires Within(s) && d == b - a && Within(a + s * d) && !Within(a) && !Within(b)
    ensures Min(a, b) <= 0.0 <= Max(a, b)
  {
    Between(a, b, d, s);
  }

  lemma LineParameter(p: Point, q: Point, e: Point) returns (a: real)
    requires p != q && CrossProduct(p, q, e) == 0.0
    ensures e == At(p, q, a)
  {
    var dx, dy := q.x - p.x, q.y - p.y;
    if dx != 0.0 {
      a := (e.x - p.x) / dx;
      SameFraction(dx, dy, e.x - p.x, e.y - p.y, a);
    } else {
      a := (e.y - p.y) / dy;
    }
  }

  lemma Reparametrise(p: Point, q: Point, a: real, b: real, s: real)
    ensures At(At(p, q, a), At(p, q, b), s) == At(p, q, a + s * (b - a))
  {
    ReparametriseOne(p.x, q.x - p.x, a, b, s);
    ReparametriseOne(p.y, q.y - p.y, a, b, s);
  }

  lemma ReparametriseOne(u: real, d: real, a: real, b: real, s: real)
    ensures (u + a * d) + s * ((u + b * d) - (u + a * d)) == u + (a + s * (b - a)) * d
  {
    assert (u + b * d) - (u + a * d) == (b - a) * d;
    assert s * ((b - a) * d) == (s * (b - a)) * d;
    assert (a + s * (b - a)) * d == a * d + (s * (b - a)) * d;
  }

  lemma SameParameter(p: Point, q: Point, a: real, b: real)
    requires p != q && At(p, q, a) == At(p, q, b)
    ensures a == b
  {
    assert (a - b) * (q.x - p.x) == 0.0 && (a - b) * (q.y - p.y) == 0.0;
  }

  // ---------- the main results ----------

  /** An endpoint in the other segment's box, off its line by less than the tolerance. */
  ghost predicate NearTouch(p1: Point, p2: Point, p3: Point, p4: Point, eps: real)
  {
    || (0.0 < Abs(CrossProduct(p3, p4, p1)) < eps && OnSegment(p3, p1, p4))
    || (0.0 < Abs(CrossProduct(p3, p4, p2)) < eps && OnSegment(p3, p2, p4))
    || (0.0 < Abs(CrossProduct(p1, p2, p3)) < eps && OnSegment(p1, p3, p2))
    || (0.0 < Abs(CrossProduct(p1, p2, p4)) < eps && OnSegment(p1, p4, p2))
  }

  /** The exact meaning of the test for every positive tolerance, degenerate segments included. */
  lemma IntersectMeaning(p1: Point, p2: Point, p3: Point, p4: Point, eps: real)
    requires eps > 0.0
    ensures SegmentsIntersect(p1, p2, p3, p4, eps) <==>
            ShareAPoint(p1, p2, p3, p4) || NearTouch(p1, p2, p3, p4, eps)
  {
    if ShareAPoint(p1, p2, p3, p4) {
      var s, t :| Meet(p1, p2, p3, p4, s, t);
      SharedIsSeen(p1, p2, p3, p4, s, t);
    }
    if ProperlyCross(p1, p2, p3, p4) {
      ProperCrossing(p1, p2, p3, p4);
    } else if EndpointTouches(p1, p2, p3, p4) {
      TouchIsShared(p1, p2, p3, p4);
    }
  }

  function Smallest(d: real, eps: real): (e: real)
    requires eps > 0.0
    ensures 0.0 < e <= eps && (d != 0.0 ==> e <= Abs(d))
  {
    if d == 0.0 then eps else Min(Abs(d), eps)
  }

  /** For any four points, every small enough tolerance makes the test exact. */
  lemma SmallToleranceIsExact(p1: Point, p2: Point, p3: Point, p4: Point) returns (limit: real)
    ensures limit > 0.0
    ensures forall eps :: 0.0 < eps <= limit ==>
      (SegmentsIntersect(p1, p2, p3, p4, eps) <==> ShareAPoint(p1, p2, p3, p4))
  {
    hide CrossProduct, ShareAPoint;
    limit := Smallest(CrossProduct(p3, p4, p1), 1.0);
    limit := Smallest(CrossProduct(p3, p4, p2), limit);
    limit := Smallest(CrossProduct(p1, p2, p3), limit);
    limit := Smallest(CrossProduct(p1, p2, p4), limit);
    forall eps | 0.0 < eps <= limit
      ensures SegmentsIntersect(p1, p2, p3, p4, eps) <==> ShareAPoint(p1, p2, p3, p4)
    {
      IntersectMeaning(p1, p2, p3, p4, eps);
      assert !NearTouch(p1, p2, p3, p4, eps);
    }
  }

  /** The tolerance of the source. */
  const EPS: real := 0.0000000001

  function Multiple(g: real, i: int): real
  {
    g * (i as real)
  }

  ghost predicate OnGrid(p: Point, g: real)
  {
    exists i, j :: p == Point(Multiple(g, i), Multiple(g, j))
  }

  /** The cross product of grid points is a whole number of grid cells. */
  lemma CrossOnGrid(o: Point, a: Point, b: Point, g: real) returns (n: int)
    requires OnGrid(o, g) && OnGrid(a, g) && OnGrid(b, g)
    ensures CrossProduct(o, a, b) == Multiple(g * g, n)
  {
    var oi, oj :| o == Point(Multiple(g, oi), Multiple(g, oj));
    var ai, aj :| a == Point(Multiple(g, ai), Multiple(g, aj));
    var bi, bj :| b == Point(Multiple(g, bi), Multiple(g, bj));
    GridDifference(g, ai, oi);
    GridDifference(g, bj, oj);
    GridDifference(g, aj, oj);
    GridDifference(g, bi, oi);
    n := CrossOfMultiples(o, a, b, g, ai - oi, bj - oj, aj - oj, bi - oi);
  }

  lemma CrossOfMultiples(o: Point, a: Point, b: Point, g: real, i: int, j: int, k: int, l: int)
    returns (n: int)
    requires a.x - o.x == Multiple(g, i) && b.y - o.y == Multiple(g, j)
    requires a.y - o.y == Multiple(g, k) && b.x - o.x == Multiple(g, l)
    ensures CrossProduct(o, a, b) == Multiple(g * g, n)
  {
    n := i * j - k * l;
    GridProduct(g, i, j);
    GridProduct(g, k, l);
    GridDifference(g * g, i * j, k * l);
    SameProduct(a.x - o.x, b.y - o.y, Multiple(g, i), Multiple(g, j));
    SameProduct(a.y - o.y, b.x - o.x, Multiple(g, k), Multiple(g, l));
  }

  lemma SameProduct(u: real, v: real, u': real, v': real)
    requires u == u' && v == v'
    ensures u * v == u' * v'
  {
  }

  lemma GridDifference(g: real, i: int, j: int)
    ensures Multiple(g, i) - Multiple(g, j) == Multiple(g, i - j)
  {
    assert (i - j) as real == i as real - j as real;
  }

  lemma GridProduct(g: real, i: int, j: int)
    ensures Multiple(g, i) * Multiple(g, j) == Multiple(g * g, i * j)
  {
    ProductAsReal(i, j);
    Regroup(g, i as real, j as real);
  }

  lemma Regroup(g: real, x: real, y: real)
    ensures (g * x) * (g * y) == g * g * (x * y)
  {
  }

  lemma {:induction false} ProductAsReal(i: int, j: int)
    ensures (i * j) as real == (i as real) * (j as real)
    decreases if i < 0 then -i else i
  {
    if i > 0 {
      ProductAsReal(i - 1, j);
      assert i * j == (i - 1) * j + j;
    } else if i < 0 {
      ProductAsReal(i + 1, j);
      assert i * j == (i + 1) * j - j;
    }
  }

  /** Off its line, a grid point is off by at least one cell. */
  lemma FarOnGrid(o: Point, a: Point, b: Point, g: real, eps: real)
    requires OnGrid(o, g) && OnGrid(a, g) && OnGrid(b, g) && g * g >= eps
    ensures !(0.0 < Abs(CrossProduct(o, a, b)) < eps)
  {
    var n := CrossOnGrid(o, a, b, g);
    assert g * g >= 0.0;
    WholeCells(g * g, n, eps);
  }

  lemma WholeCells(cell: real, n: int, eps: real)
    requires eps <= cell && 0.0 <= cell
    ensures !(0.0 < Abs(Multiple(cell, n)) < eps)
  {
    hide Multiple;
    if n >= 1 {
      Cells(cell, n);
    } else if n <= -1 {
      Cells(cell, -n);
      Opposites(cell, n);
    } else {
      NoCells(cell);
    }
  }

  lemma Cells(cell: real, n: int)
    requires 0.0 <= cell && n >= 1
    ensures Multiple(cell, n) >= cell
  {
    AtLeastOne(cell, n as real);
  }

  lemma Opposites(cell: real, n: int)
    ensures Multiple(cell, -n) == -Multiple(cell, n)
  {
    assert (-n) as real == -(n as real);
    MulNegated(cell, n as real);
  }

  lemma NoCells(cell: real)
    ensures Multiple(cell, 0) == 0.0
  {
  }

  lemma AtLeastOne(cell: real, x: real)
    requires 0.0 <= cell && 1.0 <= x
    ensures cell * x >= cell
  {
    NotNegative(cell, x - 1.0);
    assert cell * (x - 1.0) == cell * x - cell;
  }

  /** On a grid of cell area at least eps (10^-5 degrees for the source's tolerance) the test is exact. */
  lemma ExactOnGrid(p1: Point, p2: Point, p3: Point, p4: Point, g: real, eps: real)
    requires OnGrid(p1, g) && OnGrid(p2, g) && OnGrid(p3, g) && OnGrid(p4, g)
    requires 0.0 < eps <= g * g
    ensures SegmentsIntersect(p1, p2, p3, p4, eps) <==> ShareAPoint(p1, p2, p3, p4)
  {
    FarOnGrid(p3, p4, p1, g, eps);
    FarOnGrid(p3, p4, p2, g, eps);
    FarOnGrid(p1, p2, p3, g, eps);
    FarOnGrid(p1, p2, p4, g, eps);
    IntersectMeaning(p1, p2, p3, p4, eps);
  }

  /** On a finer grid it is not: these two segments are reported and have no common point. */
  lemma NearMissReported()
    ensures
      var p1, p2 := Point(0.0, 0.000001), Point(-1.0, 0.000001);
      var p3, p4 := Point(0.0, 0.0), Point(0.00002, 0.00002);
      SegmentsIntersect(p1, p2, p3, p4, EPS) && !ShareAPoint(p1, p2, p3, p4)
    ensures EPS * 10_000_000_000.0 == 1.0
  {
    var p1, p2 := Point(0.0, 0.000001), Point(-1.0, 0.000001);
    var p3, p4 := Point(0.0, 0.0), Point(0.00002, 0.00002);
    assert Abs(CrossProduct(p3, p4, p1)) < EPS && OnSegment(p3, p1, p4);
    forall s, t ensures !Meet(p1, p2, p3, p4, s, t) {
      if Meet(p1, p2, p3, p4, s, t) {
        assert false;
      }
    }
  }
}
