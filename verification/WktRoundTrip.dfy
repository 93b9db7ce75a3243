/** Printing a polygon as WKT and parsing it again. */
module WktRoundTrip {
  import opened Wrappers
  import opened WktText
  import opened WktPolygon

  // ---------- what is asked of the number format ----------

  /** Characters that no number uses: separators, parentheses and white space. */
  predicate Plain(c: char)
  {
    c != ',' && c != '(' && c != ')' && !IsSpace(c)
  }

  ghost predicate Token(s: string)
  {
    s != [] && forall k :: 0 <= k < |s| ==> Plain(s[k])
  }

  /** The coordinate is printed as a token that parses. */
  ghost predicate Printable(f: Numbers, n: int)
  {
    Token(f.show(n)) && f.parse(f.show(n)).Some?
  }

  ghost predicate PrintableRing(f: Numbers, ring: seq<Vertex>)
  {
    forall v :: v in ring ==> Printable(f, v.lat) && Printable(f, v.lon)
  }

  ghost predicate PrintableRings(f: Numbers, rings: seq<seq<Vertex>>)
  {
    forall k :: 0 <= k < |rings| ==> PrintableRing(f, rings[k])
  }

  /** What comes back for one coordinate after printing, parsing and converting. */
  function Returned(f: Numbers, n: int): int
    requires f.parse(f.show(n)).Some?
  {
    f.toNano(f.parse(f.show(n)).value)
  }

  ghost predicate InBounds(f: Numbers, v: Vertex)
    requires f.parse(f.show(v.lat)).Some? && f.parse(f.show(v.lon)).Some?
  {
    OutOfBounds(f.parse(f.show(v.lat)).value, f.parse(f.show(v.lon)).value).None?
  }

  ghost predicate GoodRing(f: Numbers, ring: seq<Vertex>)
    requires PrintableRing(f, ring)
  {
    |ring| >= 3 && forall v :: v in ring ==> InBounds(f, v)
  }

  ghost function ReturnedRing(f: Numbers, ring: seq<Vertex>): seq<Vertex>
    requires PrintableRing(f, ring)
  {
    seq(|ring|, k requires 0 <= k < |ring| =>
      assert ring[k] in ring; Vertex(Returned(f, ring[k].lat), Returned(f, ring[k].lon)))
  }

  // ---------- one point, one ring ----------

  lemma PointTextShape(f: Numbers, v: Vertex)
    requires Printable(f, v.lat) && Printable(f, v.lon)
    ensures
      var t := PointText(f, v);
      && |t| >= 3 && !IsSpace(t[0]) && !IsSpace(t[|t| - 1])
      && ',' !in t && '(' !in t && ')' !in t
      && SplitAtBlanks(t) == [f.show(v.lon), f.show(v.lat)]
  {
    var lon, lat := f.show(v.lon), f.show(v.lat);
    var t := PointText(f, v);
    assert t[0] == lon[0] && t[|t| - 1] == lat[|lat| - 1];
    forall k | 0 <= k < |t|
      ensures t[k] != ',' && t[k] != '(' && t[k] != ')'
    {
      if k < |lon| {
        assert t[k] == lon[k];
      } else if k > |lon| {
        assert t[k] == lat[k - |lon| - 1];
      }
    }
    assert t == lon + " " + lat + "";
    TwoWords(lon, " ", lat, "");
  }

  /** A point parses to itself, with or without the blank after the comma. */
  lemma PointParses(f: Numbers, v: Vertex)
    requires Printable(f, v.lat) && Printable(f, v.lon)
    ensures
      var r := PointOf(f, PointText(f, v));
      && r == PointOf(f, " " + PointText(f, v))
      && (r.Ok? <==> InBounds(f, v))
      && (r.Ok? ==> r.value == Vertex(Returned(f, v.lat), Returned(f, v.lon)))
  {
    PointTextShape(f, v);
    TrimNothing(PointText(f, v));
    TrimOneSpace(PointText(f, v));
  }

  /** The comma-separated pieces of a ring: every point but the first keeps a leading blank. */
  function Pieces(texts: seq<string>): (r: seq<string>)
    requires texts != []
    ensures |r| == |texts|
  {
    seq(|texts|, k requires 0 <= k < |texts| => if k == 0 then texts[0] else " " + texts[k])
  }

  lemma JoinMore(texts: seq<string>, sep: string)
    requires |texts| > 1
    ensures Join(texts, sep) == texts[0] + sep + Join(texts[1..], sep)
  {
  }

  lemma {:induction false} SplitJoined(texts: seq<string>)
    requires texts != [] && forall k :: 0 <= k < |texts| ==> ',' !in texts[k]
    ensures Split(Join(texts, ", "), ',') == Pieces(texts)
    decreases |texts|
  {
    hide Split, Index;
    if |texts| == 1 {
      SplitNone(texts[0], ',');
      assert Pieces(texts) == [texts[0]];
    } else {
      hide Join;
      var rest := [" " + texts[1]] + texts[2..];
      var tail := Join(texts[1..], ", ");
      JoinMore(texts, ", ");
      JoinAfterBlank(texts[1..]);
      assert texts[1..][1..] == texts[2..];
      assert texts[0] + ", " + tail == texts[0] + [','] + (" " + tail);
      SplitFirst(texts[0], " " + tail, ',');
      forall k | 0 <= k < |rest| ensures ',' !in rest[k] {
        if k > 0 {
          assert rest[k] == texts[k + 1];
        }
      }
      SplitJoined(rest);
      PiecesMore(texts);
    }
  }

  lemma PiecesMore(texts: seq<string>)
    requires |texts| > 1
    ensures Pieces(texts) == [texts[0]] + Pieces([" " + texts[1]] + texts[2..])
  {
  }

  lemma JoinAfterBlank(texts: seq<string>)
    requires texts != []
    ensures " " + Join(texts, ", ") == Join([" " + texts[0]] + texts[1..], ", ")
  {
    var rest := [" " + texts[0]] + texts[1..];
    if |texts| > 1 {
      assert rest[1..] == texts[1..];
    }
  }

  /** Parsing pieces that are, up to blanks, the texts of the ring's first points. */
  lemma {:induction false} PointsParse(f: Numbers, ring: seq<Vertex>, pieces: seq<string>)
    requires PrintableRing(f, ring) && |pieces| == |ring|
    requires forall k :: 0 <= k < |ring| ==>
      pieces[k] == PointText(f, ring[k]) || pieces[k] == " " + PointText(f, ring[k])
    ensures
      var r := PointsOf(f, pieces);
      && (r.Ok? <==> forall v :: v in ring ==> InBounds(f, v))
      && (r.Ok? ==> r.value == ReturnedRing(f, ring))
    decreases |ring|
  {
    hide PointOf, PointText, InBounds, Returned;
    if ring != [] {
      var init, v := ring[..|ring| - 1], ring[|ring| - 1];
      assert ring == init + [v];
      assert v in ring;
      PointsParse(f, init, pieces[..|ring| - 1]);
      PointParses(f, v);
      AllButLast(f, ring);
      if PointsOf(f, pieces).Ok? {
        ReturnedLast(f, ring);
      }
    }
  }

  lemma AllButLast(f: Numbers, ring: seq<Vertex>)
    requires PrintableRing(f, ring) && ring != []
    ensures PrintableRing(f, ring[..|ring| - 1]) && ring[|ring| - 1] in ring
    ensures (forall u :: u in ring ==> InBounds(f, u)) <==>
            (forall u :: u in ring[..|ring| - 1] ==> InBounds(f, u)) && InBounds(f, ring[|ring| - 1])
  {
    hide InBounds;
    assert ring == ring[..|ring| - 1] + [ring[|ring| - 1]];
  }

  lemma ReturnedLast(f: Numbers, ring: seq<Vertex>)
    requires PrintableRing(f, ring) && ring != []
    ensures PrintableRing(f, ring[..|ring| - 1]) && ring[|ring| - 1] in ring
    ensures
      var v := ring[|ring| - 1];
      ReturnedRing(f, ring) ==
      ReturnedRing(f, ring[..|ring| - 1]) + [Vertex(Returned(f, v.lat), Returned(f, v.lon))]
  {
    hide Returned;
    assert ring == ring[..|ring| - 1] + [ring[|ring| - 1]];
  }

  lemma {:induction false} JoinHasNo(texts: seq<string>, c: char)
    requires c != ',' && c != ' ' && forall k :: 0 <= k < |texts| ==> c !in texts[k]
    ensures c !in Join(texts, ", ")
    decreases |texts|
  {
    if |texts| > 1 {
      JoinHasNo(texts[1..], c);
      assert c !in texts[0];
    }
  }

  lemma RingInside(f: Numbers, ring: seq<Vertex>)
    requires PrintableRing(f, ring)
    ensures
      var inside := Join(PointTexts(f, ring), ", ");
      '(' !in inside && ')' !in inside
  {
    var texts := PointTexts(f, ring);
    forall k | 0 <= k < |texts| ensures '(' !in texts[k] && ')' !in texts[k] && ',' !in texts[k] {
      assert ring[k] in ring;
      PointTextShape(f, ring[k]);
    }
    JoinHasNo(texts, '(');
    JoinHasNo(texts, ')');
  }

  /** A printed ring parses exactly if it has three vertices and all are in bounds. */
  lemma RingParses(f: Numbers, ring: seq<Vertex>)
    requires PrintableRing(f, ring)
    ensures
      var r := RingOf(f, RingText(f, ring));
      && (r.Ok? <==> GoodRing(f, ring))
      && (r.Ok? ==> r.value == ReturnedRing(f, ring))
  {
    hide PointText, PointsOf, Split, Join, InBounds, Returned;
    var texts := PointTexts(f, ring);
    var inside := Join(texts, ", ");
    var text := RingText(f, ring);
    TrimNothing(text);
    assert text[1..|text| - 1] == inside;
    if ring == [] {
      EmptyInside();
    } else {
      forall k | 0 <= k < |texts| ensures ',' !in texts[k] {
        assert ring[k] in ring;
        PointTextShape(f, ring[k]);
      }
      SplitJoined(texts);
      if |ring| >= 3 {
        PointsParse(f, ring, Pieces(texts));
      }
    }
  }

  lemma EmptyInside()
    ensures Split(Join([], ", "), ',') == [""]
  {
    SplitNone("", ',');
  }

  // ---------- the depth-counting scan ----------

  lemma {:induction false} ScanSkips(content: string, i: nat, j: nat, depth: int, start: nat)
    requires start <= i <= j <= |content|
    requires forall k :: i <= k < j ==> content[k] != '(' && content[k] != ')'
    ensures RingsFrom(content, i, depth, start) == RingsFrom(content, j, depth, start)
    decreases j - i
  {
    if i < j {
      ScanSkips(content, i + 1, j, depth, start);
    }
  }

  /** One ring at depth zero is found whole. */
  lemma ScanRing(content: string, i: nat, inside: string, start: nat)
    requires '(' !in inside && ')' !in inside
    requires start <= i && i + |inside| + 2 <= |content|
    requires content[i..i + |inside| + 2] == "(" + inside + ")"
    ensures RingsFrom(content, i, 0, start) ==
            ["(" + inside + ")"] + RingsFrom(content, i + |inside| + 2, 0, i)
  {
    var ring := "(" + inside + ")";
    var close := i + |inside| + 1;
    var found := content[i..close + 1];
    assert found == ring;
    assert content[i] == found[0] && content[close] == found[|inside| + 1];
    forall k | i + 1 <= k < close
      ensures content[k] != '(' && content[k] != ')'
    {
      assert content[k] == found[k - i] == inside[k - i - 1];
    }
    ScanSkips(content, i + 1, close, 1, i);
  }

  lemma Cut(content: string, i: nat, head: string, tail: string)
    requires i <= |content| && content[i..] == head + ", " + tail
    ensures
      var after := i + |head|;
      && after + 2 <= |content| && content[i..after] == head
      && content[after] == ',' && content[after + 1] == ' ' && content[after + 2..] == tail
  {
    var after := i + |head|;
    assert content[i..after] == content[i..][..|head|];
    assert content[after] == content[i..][|head|] && content[after + 1] == content[i..][|head| + 1];
    assert content[after + 2..] == content[i..][|head| + 2..];
  }

  lemma ScanEnd(content: string, start: nat)
    requires start <= |content|
    ensures RingsFrom(content, |content|, 0, start) == []
  {
  }

  lemma JoinFew(texts: seq<string>, sep: string)
    ensures texts == [] ==> Join(texts, sep) == ""
    ensures |texts| == 1 ==> Join(texts, sep) == texts[0] && Join(texts[1..], sep) == ""
  {
  }

  /** The first of several printed texts is read, and the separator after it skipped. */
  lemma ScanOne(content: string, i: nat, start: nat, inside: string, texts: seq<string>) returns (next: nat)
    requires texts != [] && texts[0] == "(" + inside + ")" && '(' !in inside && ')' !in inside
    requires start <= i <= |content| && content[i..] == Join(texts, ", ")
    ensures i <= next <= |content| && content[next..] == Join(texts[1..], ", ")
    ensures RingsFrom(content, i, 0, start) == [texts[0]] + RingsFrom(content, next, 0, i)
  {
    hide RingsFrom, Join;
    JoinFew(texts, ", ");
    next := i + |texts[0]|;
    if |texts| == 1 {
      assert content[i..next] == content[i..];
      ScanRing(content, i, inside, start);
      assert content[next..] == "";
    } else {
      JoinMore(texts, ", ");
      Cut(content, i, texts[0], Join(texts[1..], ", "));
      ScanRing(content, i, inside, start);
      ScanSkips(content, next, next + 2, 0, i);
      next := next + 2;
    }
  }

  /** Printed rings, from one of them on. */
  lemma {:induction false} ScanFindsRings(f: Numbers, content: string, i: nat, start: nat, rings: seq<seq<Vertex>>)
    requires PrintableRings(f, rings) && start <= i <= |content|
    requires content[i..] == Join(RingTexts(f, rings), ", ")
    ensures RingsFrom(content, i, 0, start) == RingTexts(f, rings)
    decreases |rings|
  {
    hide PointTexts, PrintableRing, RingsFrom, Join;
    var texts := RingTexts(f, rings);
    JoinFew(texts, ", ");
    if rings == [] {
      ScanEnd(content, start);
    } else {
      RingInside(f, rings[0]);
      var next := ScanOne(content, i, start, Join(PointTexts(f, rings[0]), ", "), texts);
      assert RingTexts(f, rings[1..]) == texts[1..];
      ScanFindsRings(f, content, next, i, rings[1..]);
    }
  }

  // ---------- the polygon ----------

  ghost predicate GoodRings(f: Numbers, rings: seq<seq<Vertex>>)
    requires PrintableRings(f, rings)
  {
    forall k :: 0 <= k < |rings| ==> GoodRing(f, rings[k])
  }

  ghost function ReturnedRings(f: Numbers, rings: seq<seq<Vertex>>): seq<seq<Vertex>>
    requires PrintableRings(f, rings)
  {
    seq(|rings|, k requires 0 <= k < |rings| => ReturnedRing(f, rings[k]))
  }

  lemma {:induction false} RingsParse(f: Numbers, rings: seq<seq<Vertex>>)
    requires PrintableRings(f, rings)
    ensures
      var r := RingsOf(f, RingTexts(f, rings));
      && (r.Ok? <==> GoodRings(f, rings))
      && (r.Ok? ==> r.value == ReturnedRings(f, rings))
    decreases |rings|
  {
    hide RingOf, RingText, GoodRing, ReturnedRing, PrintableRing;
    if rings != [] {
      var init, ring := rings[..|rings| - 1], rings[|rings| - 1];
      assert RingTexts(f, rings)[..|rings| - 1] == RingTexts(f, init);
      RingsParse(f, init);
      RingParses(f, ring);
      LastRing(f, rings);
    } else {
      assert RingTexts(f, rings) == [] && ReturnedRings(f, rings) == [];
    }
  }

  lemma LastRing(f: Numbers, rings: seq<seq<Vertex>>)
    requires PrintableRings(f, rings) && rings != []
    ensures
      var init, ring := rings[..|rings| - 1], rings[|rings| - 1];
      && (GoodRings(f, rings) <==> GoodRings(f, init) && GoodRing(f, ring))
      && ReturnedRings(f, rings) == ReturnedRings(f, init) + [ReturnedRing(f, ring)]
  {
    hide GoodRing, ReturnedRing, PrintableRing;
    var init := rings[..|rings| - 1];
    if GoodRings(f, rings) {
      forall k | 0 <= k < |init| ensures GoodRing(f, init[k]) {
        assert GoodRing(f, rings[k]);
      }
    }
    if GoodRings(f, init) && GoodRing(f, rings[|rings| - 1]) {
      forall k | 0 <= k < |rings| ensures GoodRing(f, rings[k]) {
        assert k < |init| ==> GoodRing(f, init[k]);
      }
    }
  }

  lemma LastIndexIs(s: string, c: char)
    requires s != [] && s[|s| - 1] == c
    ensures LastIndex(s, c) == Some(|s| - 1)
  {
  }

  /** The outer shell of the text is undone, whatever the content. */
  lemma ShellParses(content: string)
    ensures
      var s := "POLYGON(" + content + ")";
      && TrimSpace(s) == s && HasPrefixIgnoringCase(s, "POLYGON")
      && Index(s, '(') == Some(7) && LastIndex(s, ')') == Some(|s| - 1)
      && s[8..|s| - 1] == content
  {
    var s := "POLYGON(" + content + ")";
    TrimNothing(s);
    assert forall k :: 0 <= k < 7 ==> s[k] == "POLYGON("[k];
    assert s[7] == "POLYGON("[7];
    IndexIs(s, '(', 7);
    LastIndexIs(s, ')');
  }

  /**
   Any number of rings, in order: a printed polygon parses exactly when every ring has at
   least three vertices and every vertex is in bounds, and then each coordinate is what its
   own text gives back.
   */
  lemma PrintThenParse(f: Numbers, p: Polygon)
    requires PrintableRings(f, Rings(p))
    ensures
      var r := Parsed(f, Text(f, p));
      && (r.Ok? <==> GoodRings(f, Rings(p)))
      && (r.Ok? ==> Rings(r.value) == ReturnedRings(f, Rings(p)))
  {
    hide RingText, Join, RingsFrom, RingsOf, GoodRing, ReturnedRing, TrimSpace, HasPrefixIgnoringCase, Index, LastIndex;
    var texts := RingTexts(f, Rings(p));
    var content := Join(texts, ", ");
    ShellParses(content);
    assert content[0..] == content;
    ScanFindsRings(f, content, 0, 0, Rings(p));
    RingsParse(f, Rings(p));
    if GoodRings(f, Rings(p)) {
      var rings := ReturnedRings(f, Rings(p));
      assert rings == [rings[0]] + rings[1..];
    }
  }

  ghost predicate RoundTripping(f: Numbers, p: Polygon)
    requires PrintableRings(f, Rings(p))
  {
    forall k, v :: 0 <= k < |Rings(p)| && v in Rings(p)[k] ==>
      Returned(f, v.lat) == v.lat && Returned(f, v.lon) == v.lon
  }

  /** So the polygon survives exactly when each of its numbers does. */
  lemma PolygonRoundTrip(f: Numbers, p: Polygon)
    requires PrintableRings(f, Rings(p)) && GoodRings(f, Rings(p))
    ensures Parsed(f, Text(f, p)) == Ok(p) <==> RoundTripping(f, p)
  {
    PrintThenParse(f, p);
    var rings, back := Rings(p), ReturnedRings(f, Rings(p));
    if RoundTripping(f, p) {
      forall k | 0 <= k < |rings| ensures back[k] == rings[k] {
        forall i | 0 <= i < |rings[k]| ensures back[k][i] == rings[k][i] {
          assert rings[k][i] in rings[k];
        }
      }
      assert back == rings;
      var q := Parsed(f, Text(f, p)).value;
      assert q.exterior == Rings(p)[0] && q.holes == Rings(p)[1..];
    } else {
      var k: nat, v: Vertex :| 0 <= k < |rings| && v in rings[k] &&
        !(Returned(f, v.lat) == v.lat && Returned(f, v.lon) == v.lon);
      var i :| 0 <= i < |rings[k]| && rings[k][i] == v;
      assert back[k][i] != rings[k][i];
    }
  }
}
