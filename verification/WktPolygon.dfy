/** WKT polygons (src/clients/go/pkg/types/geo_format.go): printer and parser. */
module WktPolygon {
  import opened Wrappers
  import opened WktText

  /** A vertex in nanodegrees. */
  datatype Vertex = Vertex(lat: int, lon: int)

  datatype Polygon = Polygon(exterior: seq<Vertex>, holes: seq<seq<Vertex>>)

  datatype FormatError =
    | ExpectedPolygon | MissingParentheses | NoRing | RingNotEnclosed | TooFewVertices
    | InvalidPoint | InvalidLongitude | InvalidLatitude | LatitudeOutOfBounds | LongitudeOutOfBounds

  datatype Float = Finite(r: real) | PosInf | NegInf | NaN

  /**
   The number conversions, float64 included: `show` is %g of NanoToDegrees, `parse` is
   strconv.ParseFloat and `toNano` is DegreesToNano.
   */
  datatype Numbers = Numbers(show: int -> string, parse: string -> Option<Float>, toNano: Float -> int)

  // ---------- printing ----------

  function PointText(f: Numbers, v: Vertex): string
  {
    f.show(v.lon) + " " + f.show(v.lat)
  }

  function PointTexts(f: Numbers, ring: seq<Vertex>): (r: seq<string>)
    ensures |r| == |ring| && forall k :: 0 <= k < |r| ==> r[k] == PointText(f, ring[k])
  {
    seq(|ring|, k requires 0 <= k < |ring| => PointText(f, ring[k]))
  }

  function RingText(f: Numbers, ring: seq<Vertex>): string
  {
    "(" + Join(PointTexts(f, ring), ", ") + ")"
  }

  function Rings(p: Polygon): seq<seq<Vertex>>
  {
    [p.exterior] + p.holes
  }

  function RingTexts(f: Numbers, rings: seq<seq<Vertex>>): (r: seq<string>)
    ensures |r| == |rings| && forall k :: 0 <= k < |r| ==> r[k] == RingText(f, rings[k])
  {
    seq(|rings|, k requires 0 <= k < |rings| => RingText(f, rings[k]))
  }

  function Text(f: Numbers, p: Polygon): string
  {
    "POLYGON(" + Join(RingTexts(f, Rings(p)), ", ") + ")"
  }

  /** Longitude before latitude, a blank between them, a comma and a blank between points. */
  lemma TriangleText(f: Numbers, a: Vertex, b: Vertex, c: Vertex)
    ensures RingText(f, [a, b, c]) ==
      "(" + (f.show(a.lon) + " " + f.show(a.lat)) + ", " + (f.show(b.lon) + " " + f.show(b.lat))
      + ", " + (f.show(c.lon) + " " + f.show(c.lat)) + ")"
  {
    hide Join;
    var texts := PointTexts(f, [a, b, c]);
    assert texts == [PointText(f, a), PointText(f, b), PointText(f, c)];
    JoinedThree(PointText(f, a), PointText(f, b), PointText(f, c), ", ");
    Enclosed("(", texts[0], ", ", texts[1], texts[2], ")");
  }

  lemma JoinedTwo(a: string, b: string, sep: string)
    ensures Join([a, b], sep) == a + sep + b
  {
    assert [a, b][1..] == [b];
  }

  lemma JoinedThree(a: string, b: string, c: string, sep: string)
    ensures Join([a, b, c], sep) == a + sep + (b + sep + c)
  {
    assert [a, b, c][1..] == [b, c];
    JoinedTwo(b, c, sep);
  }

  lemma Enclosed(open: string, a: string, sep: string, b: string, c: string, end: string)
    ensures open + (a + sep + (b + sep + c)) + end == open + a + sep + b + sep + c + end
  {
  }

  /** The exterior first, then the hole. */
  lemma OneHoleText(f: Numbers, exterior: seq<Vertex>, hole: seq<Vertex>)
    ensures Text(f, Polygon(exterior, [hole])) ==
            "POLYGON(" + (RingText(f, exterior) + ", " + RingText(f, hole)) + ")"
  {
    hide Join, RingText;
    assert RingTexts(f, [exterior] + [hole]) == [RingText(f, exterior), RingText(f, hole)];
    JoinedTwo(RingText(f, exterior), RingText(f, hole), ", ");
  }

  method ToWKTPolygon(f: Numbers, exterior: seq<Vertex>, holes: seq<seq<Vertex>>) returns (text: string)
    ensures text == Text(f, Polygon(exterior, holes))
  {
    var first := RingToWKT(f, exterior);
    var rings := [first];
    for k := 0 to |holes|
      invariant rings == RingTexts(f, [exterior] + holes[..k])
    {
      var ring := RingToWKT(f, holes[k]);
      rings := rings + [ring];
    }
    assert holes[..|holes|] == holes;
    text := "POLYGON(" + Join(rings, ", ") + ")";
  }

  method RingToWKT(f: Numbers, ring: seq<Vertex>) returns (text: string)
    ensures text == RingText(f, ring)
  {
    var points := [];
    for i := 0 to |ring|
      invariant points == PointTexts(f, ring[..i])
    {
      points := points + [f.show(ring[i].lon) + " " + f.show(ring[i].lat)];
    }
    assert ring[..|ring|] == ring;
    text := "(" + Join(points, ", ") + ")";
  }

  // ---------- parsing ----------

  /** The rings found from position i on, at the given parenthesis depth. */
  function RingsFrom(content: string, i: nat, depth: int, ringStart: nat): seq<string>
    requires ringStart <= i <= |content|
    decreases |content| - i
  {
    if i == |content| then []
    else if content[i] == '(' then
      RingsFrom(content, i + 1, depth + 1, if depth == 0 then i else ringStart)
    else if content[i] == ')' then
      (if depth == 1 then [content[ringStart..i + 1]] else [])
      + RingsFrom(content, i + 1, depth - 1, ringStart)
    else RingsFrom(content, i + 1, depth, ringStart)
  }

  /** How many parentheses are open before position i. */
  function Depth(content: string, i: nat): int
    requires i <= |content|
  {
    if i == 0 then 0
    else
      Depth(content, i - 1)
      + (if content[i - 1] == '(' then 1 else if content[i - 1] == ')' then -1 else 0)
  }

  /** From j to k: an opening parenthesis outside all others, up to where it is closed. */
  ghost predicate Group(content: string, j: nat, k: nat)
  {
    && j < k < |content| && content[j] == '(' && Depth(content, j) == 0
    && content[k] == ')' && Depth(content, k + 1) == 0
    && (forall l :: j < l <= k ==> Depth(content, l) >= 1)
  }

  /** The scan at position i knows the depth and, inside a group, where the group began. */
  ghost predicate ScanState(content: string, i: nat, depth: int, ringStart: nat)
  {
    && ringStart <= i <= |content| && depth == Depth(content, i)
    && (depth >= 1 ==>
          && ringStart < i && content[ringStart] == '(' && Depth(content, ringStart) == 0
          && (forall l :: ringStart < l <= i ==> Depth(content, l) >= 1))
  }

  /** All groups that end at i or later, by their ends. */
  ghost predicate GroupsFrom(content: string, i: nat, groups: seq<(nat, nat)>)
  {
    && (forall j: nat, k: nat :: (j, k) in groups <==> Group(content, j, k) && k >= i)
    && (forall m, n :: 0 <= m < n < |groups| ==> groups[m].1 < groups[n].1)
  }

  ghost predicate TextsOf(content: string, groups: seq<(nat, nat)>, rings: seq<string>)
  {
    && |rings| == |groups|
    && (forall m :: 0 <= m < |groups| ==>
          groups[m].0 <= groups[m].1 < |content| && rings[m] == content[groups[m].0..groups[m].1 + 1])
  }

  function NextDepth(content: string, i: nat, depth: int): int
    requires i < |content|
  {
    depth + (if content[i] == '(' then 1 else if content[i] == ')' then -1 else 0)
  }

  function NextStart(content: string, i: nat, depth: int, ringStart: nat): nat
    requires i < |content|
  {
    if content[i] == '(' && depth == 0 then i else ringStart
  }

  lemma ScanStateNext(content: string, i: nat, depth: int, ringStart: nat)
    requires i < |content| && ScanState(content, i, depth, ringStart)
    ensures ScanState(content, i + 1, NextDepth(content, i, depth), NextStart(content, i, depth, ringStart))
  {
  }

  lemma GroupEndsHere(content: string, i: nat, depth: int, ringStart: nat, j: nat)
    requires i < |content| && ScanState(content, i, depth, ringStart)
    ensures Group(content, j, i) <==> j == ringStart && depth == 1 && content[i] == ')'
  {
    assert Depth(content, i + 1) == depth - 1 <==> content[i] == ')';
  }

  lemma NoGroupsLeft(content: string)
    ensures GroupsFrom(content, |content|, [])
  {
    hide Depth;
  }

  lemma GroupsMore(content: string, i: nat, start: nat, ends: bool, rest: seq<(nat, nat)>)
    requires i < |content| && start <= i && GroupsFrom(content, i + 1, rest)
    requires forall j: nat :: Group(content, j, i) <==> ends && j == start
    ensures GroupsFrom(content, i, (if ends then [(start, i)] else []) + rest)
  {
    hide Group;
    var groups := (if ends then [(start, i)] else []) + rest;
    forall m, n | 0 <= m < n < |groups| ensures groups[m].1 < groups[n].1 {
      if ends && m == 0 {
        assert groups[n] == rest[n - 1] && (rest[n - 1].0, rest[n - 1].1) in rest;
      }
    }
    forall j: nat, k: nat ensures (j, k) in groups <==> Group(content, j, k) && k >= i {
      assert (j, k) in groups <==> (ends && (j, k) == (start, i)) || (j, k) in rest;
    }
  }

  lemma ScanStep(content: string, i: nat, depth: int, ringStart: nat)
    requires ringStart <= i < |content|
    ensures RingsFrom(content, i, depth, ringStart) ==
            (if content[i] == ')' && depth == 1 then [content[ringStart..i + 1]] else [])
            + RingsFrom(content, i + 1, NextDepth(content, i, depth), NextStart(content, i, depth, ringStart))
  {
  }

  lemma TextsMore(content: string, i: nat, start: nat, ends: bool, rest: seq<(nat, nat)>, rings: seq<string>)
    requires start <= i < |content| && TextsOf(content, rest, rings)
    ensures TextsOf(content, (if ends then [(start, i)] else []) + rest,
                    (if ends then [content[start..i + 1]] else []) + rings)
  {
  }

  /** The scan finds exactly the groups, in order, whatever the content. */
  lemma {:induction false} ScanFindsGroups(content: string, i: nat, depth: int, ringStart: nat)
    returns (groups: seq<(nat, nat)>)
    requires ringStart <= i <= |content| && ScanState(content, i, depth, ringStart)
    ensures GroupsFrom(content, i, groups) && TextsOf(content, groups, RingsFrom(content, i, depth, ringStart))
    decreases |content| - i
  {
    hide ScanState, Group, Depth, RingsFrom, TextsOf, GroupsFrom;
    if i == |content| {
      groups := [];
      NoGroupsLeft(content);
      NoRingsLeft(content, depth, ringStart);
    } else {
      var ends := content[i] == ')' && depth == 1;
      var nextDepth, nextStart := NextDepth(content, i, depth), NextStart(content, i, depth, ringStart);
      ScanStateNext(content, i, depth, ringStart);
      var rest := ScanFindsGroups(content, i + 1, nextDepth, nextStart);
      groups := (if ends then [(ringStart, i)] else []) + rest;
      forall j: nat ensures Group(content, j, i) <==> ends && j == ringStart {
        GroupEndsHere(content, i, depth, ringStart, j);
      }
      GroupsMore(content, i, ringStart, ends, rest);
      ScanStep(content, i, depth, ringStart);
      TextsMore(content, i, ringStart, ends, rest, RingsFrom(content, i + 1, nextDepth, nextStart));
    }
  }

  lemma NoRingsLeft(content: string, depth: int, ringStart: nat)
    requires ringStart <= |content|
    ensures TextsOf(content, [], RingsFrom(content, |content|, depth, ringStart))
  {
  }

  /** For the scan as the parser starts it. */
  lemma RingsAreGroups(content: string) returns (groups: seq<(nat, nat)>)
    ensures forall j: nat, k: nat :: (j, k) in groups <==> Group(content, j, k)
    ensures forall m, n :: 0 <= m < n < |groups| ==> groups[m].1 < groups[n].1
    ensures TextsOf(content, groups, RingsFrom(content, 0, 0, 0))
  {
    hide Group, TextsOf, RingsFrom;
    groups := ScanFindsGroups(content, 0, 0, 0);
  }

  method FindRings(content: string) returns (rings: seq<string>)
    ensures rings == RingsFrom(content, 0, 0, 0)
  {
    rings := [];
    var depth: int, ringStart := 0, 0;
    for i := 0 to |content|
      invariant ringStart <= i
      invariant rings + RingsFrom(content, i, depth, ringStart) == RingsFrom(content, 0, 0, 0)
    {
      if content[i] == '(' {
        if depth == 0 {
          ringStart := i;
        }
        depth := depth + 1;
      } else if content[i] == ')' {
        depth := depth - 1;
        if depth == 0 {
          rings := rings + [content[ringStart..i + 1]];
        }
      }
    }
  }

  /** The comparisons of float64; both are false of NaN. */
  predicate Less(x: Float, bound: real)
  {
    x.NegInf? || (x.Finite? && x.r < bound)
  }

  predicate Greater(x: Float, bound: real)
  {
    x.PosInf? || (x.Finite? && x.r > bound)
  }

  /** validateCoordinates */
  function OutOfBounds(lat: Float, lon: Float): Option<FormatError>
  {
    if Less(lat, -90.0) || Greater(lat, 90.0) then Some(LatitudeOutOfBounds)
    else if Less(lon, -180.0) || Greater(lon, 180.0) then Some(LongitudeOutOfBounds)
    else None
  }

  function PointOf(f: Numbers, text: string): Result<Vertex, FormatError>
  {
    var parts := SplitAtBlanks(TrimSpace(text));
    if |parts| < 2 then Err(InvalidPoint)
    else
      var lon, lat := f.parse(parts[0]), f.parse(parts[1]);
      if lon.None? then Err(InvalidLongitude)
      else if lat.None? then Err(InvalidLatitude)
      else
        match OutOfBounds(lat.value, lon.value)
        case Some(e) => Err(e)
        case None => Ok(Vertex(f.toNano(lat.value), f.toNano(lon.value)))
  }

  /** The longitude is the first word, the latitude the second; whatever follows a further blank is ignored. */
  lemma PointByWords(f: Numbers, before: string, lon: string, gap: string, lat: string, more: string)
    requires Word(lon) && Word(lat) && gap != [] && (forall k :: 0 <= k < |gap| ==> IsBlank(gap[k]))
    requires (forall k :: 0 <= k < |before| ==> IsSpace(before[k])) && (more == [] || IsBlank(more[0]))
    ensures
      PointOf(f, before + (lon + gap + lat + more)) ==
      match (f.parse(lon), f.parse(lat))
      case (None, _) => Err(InvalidLongitude)
      case (_, None) => Err(InvalidLatitude)
      case (Some(x), Some(y)) =>
        if y.PosInf? || y.NegInf? || (y.Finite? && !(-90.0 <= y.r <= 90.0)) then Err(LatitudeOutOfBounds)
        else if x.PosInf? || x.NegInf? || (x.Finite? && !(-180.0 <= x.r <= 180.0)) then Err(LongitudeOutOfBounds)
        else Ok(Vertex(f.toNano(y), f.toNano(x)))
  {
    hide IsSpace, IsBlank, TrimLeft, TrimRight, SplitAtBlanks;
    var words := lon + gap + lat;
    assert lon + gap + lat + more == words + more;
    assert words[0] == lon[0] && words[|words| - 1] == lat[|lat| - 1];
    TrimLeftSkips(before, words + more);
    var kept := TrimRightKeeps(words, more);
    TwoWords(lon, gap, lat, kept);
  }

  /** One word alone is no point. */
  lemma PointNeedsTwoWords(f: Numbers, before: string, word: string, after: string)
    requires Word(word) && (forall k :: 0 <= k < |before| ==> IsSpace(before[k]))
    requires forall k :: 0 <= k < |after| ==> IsSpace(after[k])
    ensures PointOf(f, before + (word + after)) == Err(InvalidPoint)
  {
    hide IsSpace, TrimLeft, TrimRight, SplitAtBlanks;
    TrimLeftSkips(before, word + after);
    var kept := TrimRightKeeps(word, after);
    assert word + [] == word;
    OneWord(word);
  }

  /** What the first two words of a point parse to. */
  function Coordinates(f: Numbers, text: string): Option<(Float, Float)>
  {
    var parts := SplitAtBlanks(TrimSpace(text));
    if |parts| < 2 || f.parse(parts[0]).None? || f.parse(parts[1]).None? then None
    else Some((f.parse(parts[1]).value, f.parse(parts[0]).value))
  }

  predicate InRange(lat: Float, lon: Float)
  {
    lat.Finite? && -90.0 <= lat.r <= 90.0 && lon.Finite? && -180.0 <= lon.r <= 180.0
  }

  /** Exactly the points of two numbers pass that are, each, NaN or in range. */
  lemma PointAccepted(f: Numbers, text: string)
    ensures PointOf(f, text).Ok? <==>
      && Coordinates(f, text).Some?
      && var (lat, lon) := Coordinates(f, text).value;
         InRange(if lat.NaN? then Finite(0.0) else lat, if lon.NaN? then Finite(0.0) else lon)
  {
  }

  ghost predicate AnyNaN(f: Numbers, text: string)
  {
    Coordinates(f, text).Some? && (Coordinates(f, text).value.0.NaN? || Coordinates(f, text).value.1.NaN?)
  }

  /** All points, or the first error. */
  function PointsOf(f: Numbers, texts: seq<string>): Result<seq<Vertex>, FormatError>
    decreases |texts|
  {
    if texts == [] then Ok([])
    else
      match PointsOf(f, texts[..|texts| - 1])
      case Err(e) => Err(e)
      case Ok(init) =>
        match PointOf(f, texts[|texts| - 1])
        case Err(e) => Err(e)
        case Ok(v) => Ok(init + [v])
  }

  function RingOf(f: Numbers, text: string): Result<seq<Vertex>, FormatError>
  {
    var ring := TrimSpace(text);
    if |ring| < 2 || ring[0] != '(' || ring[|ring| - 1] != ')' then Err(RingNotEnclosed)
    else
      var points := Split(ring[1..|ring| - 1], ',');
      if |points| < 3 then Err(TooFewVertices) else PointsOf(f, points)
  }

  function RingsOf(f: Numbers, texts: seq<string>): Result<seq<seq<Vertex>>, FormatError>
    decreases |texts|
  {
    if texts == [] then Ok([])
    else
      match RingsOf(f, texts[..|texts| - 1])
      case Err(e) => Err(e)
      case Ok(init) =>
        match RingOf(f, texts[|texts| - 1])
        case Err(e) => Err(e)
        case Ok(ring) => Ok(init + [ring])
  }

  function Parsed(f: Numbers, wkt: string): Result<Polygon, FormatError>
  {
    var s := TrimSpace(wkt);
    if !HasPrefixIgnoringCase(s, "POLYGON") then Err(ExpectedPolygon)
    else
      var outerStart, outerEnd := Index(s, '('), LastIndex(s, ')');
      if outerStart.None? || outerEnd.None? || outerStart.value >= outerEnd.value then Err(MissingParentheses)
      else
        var texts := RingsFrom(s[outerStart.value + 1..outerEnd.value], 0, 0, 0);
        if texts == [] then Err(NoRing)
        else
          match RingsOf(f, texts)
          case Err(e) => Err(e)
          case Ok(rings) =>
            if rings == [] then Err(NoRing) else Ok(Polygon(rings[0], rings[1..]))
  }

  /** The points of an accepted list are in range, each, exactly if it has no NaN. */
  lemma {:induction false} AcceptedInRange(f: Numbers, texts: seq<string>, k: nat)
    requires PointsOf(f, texts).Ok? && k < |texts|
    ensures Coordinates(f, texts[k]).Some?
    ensures InRange(Coordinates(f, texts[k]).value.0, Coordinates(f, texts[k]).value.1) <==> !AnyNaN(f, texts[k])
    decreases |texts|
  {
    hide PointOf, Coordinates, InRange;
    if k == |texts| - 1 {
      PointAccepted(f, texts[k]);
      RangeUnlessNaN(f, texts[k]);
    } else {
      AcceptedInRange(f, texts[..|texts| - 1], k);
    }
  }

  lemma RangeUnlessNaN(f: Numbers, text: string)
    requires PointOf(f, text).Ok?
    ensures Coordinates(f, text).Some?
    ensures InRange(Coordinates(f, text).value.0, Coordinates(f, text).value.1) <==> !AnyNaN(f, text)
  {
  }

  /** So every vertex of an accepted ring is in range exactly if no token of it parses to NaN. */
  lemma RingInRange(f: Numbers, text: string)
    requires RingOf(f, text).Ok?
    ensures
      var ring := TrimSpace(text);
      |ring| >= 2 &&
      var points := Split(ring[1..|ring| - 1], ',');
      (forall k :: 0 <= k < |points| ==>
         Coordinates(f, points[k]).Some? &&
         InRange(Coordinates(f, points[k]).value.0, Coordinates(f, points[k]).value.1))
      <==> (forall k :: 0 <= k < |points| ==> !AnyNaN(f, points[k]))
  {
    hide Coordinates, InRange, AnyNaN, PointsOf, Split, TrimSpace;
    var ring := TrimSpace(text);
    var points := Split(ring[1..|ring| - 1], ',');
    forall k | 0 <= k < |points|
      ensures Coordinates(f, points[k]).Some?
      ensures InRange(Coordinates(f, points[k]).value.0, Coordinates(f, points[k]).value.1) <==> !AnyNaN(f, points[k])
    {
      AcceptedInRange(f, points, k);
    }
  }

  method ParseRing(f: Numbers, text: string) returns (r: Result<seq<Vertex>, FormatError>)
    ensures r == RingOf(f, text)
  {
    hide TrimSpace, Split, SplitAtBlanks, OutOfBounds;
    var ring := TrimSpace(text);
    if |ring| < 2 || ring[0] != '(' || ring[|ring| - 1] != ')' {
      return Err(RingNotEnclosed);
    }
    var points := Split(ring[1..|ring| - 1], ',');
    if |points| < 3 {
      return Err(TooFewVertices);
    }
    var result: seq<Vertex> := [];
    for i := 0 to |points|
      invariant PointsOf(f, points[..i]) == Ok(result)
    {
      FirstFailureStays(f, points, i + 1);
      assert points[..i + 1][..i] == points[..i];
      var parts := SplitAtBlanks(TrimSpace(points[i]));
      if |parts| < 2 {
        return Err(InvalidPoint);
      }
      var lon := f.parse(parts[0]);
      if lon.None? {
        return Err(InvalidLongitude);
      }
      var lat := f.parse(parts[1]);
      if lat.None? {
        return Err(InvalidLatitude);
      }
      var bounds := OutOfBounds(lat.value, lon.value);
      if bounds.Some? {
        return Err(bounds.value);
      }
      result := result + [Vertex(f.toNano(lat.value), f.toNano(lon.value))];
    }
    assert points[..|points|] == points;
    return Ok(result);
  }

  lemma {:induction false} FirstFailureStays(f: Numbers, texts: seq<string>, i: nat)
    requires i <= |texts|
    ensures PointsOf(f, texts[..i]).Err? ==> PointsOf(f, texts) == PointsOf(f, texts[..i])
    decreases |texts|
  {
    if i < |texts| {
      var init := texts[..|texts| - 1];
      FirstFailureStays(f, init, i);
      assert init[..i] == texts[..i];
    } else {
      assert texts[..i] == texts;
    }
  }

  lemma {:induction false} FirstBadRingStays(f: Numbers, texts: seq<string>, i: nat)
    requires i <= |texts|
    ensures RingsOf(f, texts[..i]).Err? ==> RingsOf(f, texts) == RingsOf(f, texts[..i])
    decreases |texts|
  {
    if i < |texts| {
      var init := texts[..|texts| - 1];
      FirstBadRingStays(f, init, i);
      assert init[..i] == texts[..i];
    } else {
      assert texts[..i] == texts;
    }
  }

  lemma RingsNext(f: Numbers, texts: seq<string>, i: nat)
    requires i < |texts| && RingsOf(f, texts[..i]).Ok?
    ensures RingsOf(f, texts[..i + 1]) ==
      match RingOf(f, texts[i])
      case Err(e) => Err(e)
      case Ok(ring) => Ok(RingsOf(f, texts[..i]).value + [ring])
  {
    assert texts[..i + 1][..i] == texts[..i];
  }

  method ParseWKTPolygon(f: Numbers, wkt: string) returns (r: Result<Polygon, FormatError>)
    ensures r == Parsed(f, wkt)
  {
    hide RingOf, RingsFrom;
    var s := TrimSpace(wkt);
    if !HasPrefixIgnoringCase(s, "POLYGON") {
      return Err(ExpectedPolygon);
    }
    var outerStart, outerEnd := Index(s, '('), LastIndex(s, ')');
    if outerStart.None? || outerEnd.None? || outerStart.value >= outerEnd.value {
      return Err(MissingParentheses);
    }
    var rings := FindRings(s[outerStart.value + 1..outerEnd.value]);
    if |rings| == 0 {
      return Err(NoRing);
    }
    assert rings[..0] == [];
    RingsNext(f, rings, 0);
    FirstBadRingStays(f, rings, 1);
    var exterior := ParseRing(f, rings[0]);
    if exterior.Err? {
      return Err(exterior.error);
    }
    var holes: seq<seq<Vertex>> := [];
    assert [] + [exterior.value] == [exterior.value] + holes;
    for i := 1 to |rings|
      invariant RingsOf(f, rings[..i]) == Ok([exterior.value] + holes)
    {
      RingsNext(f, rings, i);
      FirstBadRingStays(f, rings, i + 1);
      var hole := ParseRing(f, rings[i]);
      if hole.Err? {
        return Err(hole.error);
      }
      assert [exterior.value] + holes + [hole.value] == [exterior.value] + (holes + [hole.value]);
      holes := holes + [hole.value];
    }
    assert rings[..|rings|] == rings;
    assert ([exterior.value] + holes)[1..] == holes;
    return Ok(Polygon(exterior.value, holes));
  }
}
