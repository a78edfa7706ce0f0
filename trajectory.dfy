/**
 * The trajectory renderer shared by both replay scripts: for a frame index t,
 * each flight's first t+1 rows, a dashed polyline through them when there are
 * at least two, a marker with a tooltip at the latest one, and a colour picked
 * by the flight's position in the flight list. The map library is modelled
 * only as the list of layers added to a map.
 */
module Trajectory {
  import opened Wrappers
  import opened FlightLog

  /** A shapely Point: x is the longitude, y the latitude. */
  datatype Point = Point(x: Coord, y: Coord)

  /** A map location in folium's (latitude, longitude) order. */
  datatype LatLon = LatLon(lat: Coord, lon: Coord)

  /** The geometry column: `Point(lon, lat)` for each row. */
  function Geometry(r: Row): Point
  {
    Point(r.longitude, r.latitude)
  }

  /** A point read back as `(point.y, point.x)`. */
  function Vertex(p: Point): LatLon
  {
    LatLon(p.y, p.x)
  }

  function Min(a: int, b: int): int
  {
    if a <= b then a else b
  }

  // ----- per-flight selection -----

  /** `gdf.loc[gdf["Flight"] == f]`: the rows of flight f, in file order. */
  function RowsOf(rows: seq<Row>, f: FlightId): (r: seq<Row>)
    ensures |r| <= |rows|
  {
    if rows == [] then []
    else
      var n := |rows| - 1;
      RowsOf(rows[..n], f) + (if rows[n].flight == f then [rows[n]] else [])
  }

  /** The selection keeps exactly the rows whose Flight is f. */
  lemma {:induction false} RowsOfMembers(rows: seq<Row>, f: FlightId)
    ensures forall x :: x in RowsOf(rows, f) <==> x in rows && x.flight == f
  {
    if rows != [] {
      var n := |rows| - 1;
      assert rows == rows[..n] + [rows[n]];
      RowsOfMembers(rows[..n], f);
    }
  }

  lemma RowsOfSnoc(rows: seq<Row>, x: Row, f: FlightId)
    ensures RowsOf(rows + [x], f) == RowsOf(rows, f) + (if x.flight == f then [x] else [])
  {
    assert (rows + [x])[..|rows|] == rows;
  }

  /** The selection keeps file order: selecting on the first n rows gives a
      prefix of the selection on the whole table. */
  lemma {:induction false} RowsOfPrefix(rows: seq<Row>, n: nat, f: FlightId)
    requires n <= |rows|
    ensures RowsOf(rows[..n], f) <= RowsOf(rows, f)
    decreases |rows|
  {
    if n == |rows| {
      assert rows[..n] == rows;
    } else {
      var m := |rows| - 1;
      assert rows[..m][..n] == rows[..n];
      RowsOfPrefix(rows[..m], n, f);
    }
  }

  /** The selection has one row for each time f occurs in the Flight column. */
  lemma {:induction false} RowsOfCount(rows: seq<Row>, f: FlightId)
    ensures |RowsOf(rows, f)| == multiset(FlightColumn(rows))[f]
  {
    if rows != [] {
      var m := |rows| - 1;
      RowsOfCount(rows[..m], f);
      assert FlightColumn(rows) == FlightColumn(rows[..m]) + [rows[m].flight];
    }
  }

  /** A flight that occurs in the table has at least one row. */
  lemma RowsOfNonEmpty(rows: seq<Row>, f: FlightId)
    requires f in FlightColumn(rows)
    ensures |RowsOf(rows, f)| >= 1
  {
    var k :| 0 <= k < |rows| && FlightColumn(rows)[k] == f;
    RowsOfMembers(rows, f);
    assert rows[k] in RowsOf(rows, f);
  }

  /** `...iloc[:t + 1]` on the rows of flight f: its first t+1 rows, or all of
      them when it has fewer. The cut counts the flight's own rows, not the
      position in the whole table. */
  function Subset(rows: seq<Row>, f: FlightId, t: nat): seq<Row>
  {
    var all := RowsOf(rows, f);
    all[..Min(t + 1, |all|)]
  }

  /** The subset at t is the flight's rows up to its (t+1)-th, and only rows of f. */
  lemma SubsetIsFlightPrefix(rows: seq<Row>, f: FlightId, t: nat)
    ensures |Subset(rows, f, t)| == Min(t + 1, |RowsOf(rows, f)|)
    ensures Subset(rows, f, t) <= RowsOf(rows, f)
    ensures forall x :: x in Subset(rows, f, t) ==> x in rows && x.flight == f
  {
    RowsOfMembers(rows, f);
  }

  /** A later frame only extends a flight's subset: no point disappears. */
  lemma SubsetGrows(rows: seq<Row>, f: FlightId, t: nat, t': nat)
    requires t <= t'
    ensures Subset(rows, f, t) <= Subset(rows, f, t')
  {
  }

  /** For a flight of the table the subset is never empty, so `iloc[-1]`
      exists, and its last row is the flight's (t+1)-th row or its last. */
  lemma SubsetNonEmpty(rows: seq<Row>, f: FlightId, t: nat)
    requires f in UniqueFlights(rows)
    ensures |Subset(rows, f, t)| >= 1
    ensures Subset(rows, f, t)[|Subset(rows, f, t)| - 1]
         == RowsOf(rows, f)[Min(t, |RowsOf(rows, f)| - 1)]
  {
    RowsOfNonEmpty(rows, f);
  }

  /** The cut is per flight, not a position in the whole table: with rows
      a1, b1, a2, a3 in file order (a's of one flight, b1 of another), frame 1
      already holds a1 and a2, though a2 is the third row of the file. */
  lemma PerFlightCut(a1: Row, b1: Row, a2: Row, a3: Row)
    requires a1.flight == a2.flight == a3.flight != b1.flight
    ensures Subset([a1, b1, a2, a3], a1.flight, 1) == [a1, a2]
    ensures Subset([a1, b1, a2, a3], b1.flight, 1) == [b1]
    ensures a1.flight in FlightColumn([a1, b1, a2, a3])
         && |FlightLayers([a1, b1, a2, a3], 0, a1.flight, 1)| == 2
    ensures b1.flight in FlightColumn([a1, b1, a2, a3])
         && |FlightLayers([a1, b1, a2, a3], 1, b1.flight, 1)| == 1
  {
    var rows := [a1, b1, a2, a3];
    var r1, r2, r3 := [a1], [a1, b1], [a1, b1, a2];
    assert r1[..0] == [] && r2[..1] == r1 && r3[..2] == r2 && rows[..3] == r3;
    assert RowsOf(r1, a1.flight) == [a1] && RowsOf(r1, b1.flight) == [];
    assert RowsOf(r2, a1.flight) == [a1] && RowsOf(r2, b1.flight) == [b1];
    assert RowsOf(r3, a1.flight) == [a1, a2] && RowsOf(r3, b1.flight) == [b1];
    assert RowsOf(rows, a1.flight) == [a1, a2, a3];
    assert RowsOf(rows, b1.flight) == [b1];
    assert FlightColumn(rows)[0] == a1.flight && FlightColumn(rows)[1] == b1.flight;
    FlightLayersShape(rows, 0, a1.flight, 1);
    FlightLayersShape(rows, 1, b1.flight, 1);
  }

  /** The drawn vertices: `[(p.y, p.x) for p in subset geometry]`. */
  function Points(sub: seq<Row>): (pts: seq<LatLon>)
    ensures |pts| == |sub|
    ensures forall k :: 0 <= k < |sub| ==> pts[k] == LatLon(sub[k].latitude, sub[k].longitude)
  {
    seq(|sub|, k requires 0 <= k < |sub| => Vertex(Geometry(sub[k])))
  }

  // ----- colours -----

  const LINE_COLORS: seq<string> := ["blue", "red", "green", "purple", "orange", "brown"]

  /** `line_colors[i % len(line_colors)]`. */
  function ColorOf(i: nat): string
  {
    LINE_COLORS[i % |LINE_COLORS|]
  }

  /** Colours repeat every six flights and two flights share a colour exactly
      when their positions agree modulo six. */
  lemma ColorCycle(i: nat, j: nat)
    ensures ColorOf(i) in LINE_COLORS
    ensures ColorOf(i + |LINE_COLORS|) == ColorOf(i)
    ensures ColorOf(i) == ColorOf(j) <==> i % 6 == j % 6
  {
    assert (i + 6) % 6 == i % 6;
  }

  // ----- tooltip -----

  /** The bold label in front of each shown value, in the order of the tooltip. */
  const TOOLTIP_HEADS: seq<string> := [
    "<strong>Flight:</strong> ", "<strong>Flight Type:</strong> ", "<strong>Depart:</strong> ",
    "<strong>Arrival:</strong> ", "<strong>Latitude:</strong> ", "<strong>Longitude:</strong> "]

  /** The six values the tooltip shows, in the order of TOOLTIP_HEADS. */
  function TooltipValues(r: Row): seq<Text>
  {
    [r.flight, r.flightType, r.depart, r.arrival, r.latitude, r.longitude]
  }

  /** Labelled values joined by `<br>`, with no `<br>` after the last. */
  function RenderFields(heads: seq<string>, values: seq<Text>): string
    requires |heads| == |values| > 0
  {
    var n := |heads| - 1;
    if n == 0 then heads[0] + values[0]
    else RenderFields(heads[..n], values[..n]) + "<br>" + heads[n] + values[n]
  }

  /** The marker tooltip for the latest row of a flight. */
  function Tooltip(r: Row): string
  {
    RenderFields(TOOLTIP_HEADS, TooltipValues(r))
  }

  /** The tooltip spelled out: the six fields in order, each behind its bold
      label, separated by `<br>`. */
  lemma TooltipText(r: Row)
    ensures Tooltip(r) ==
      "<strong>Flight:</strong> " + r.flight + "<br>"
      + "<strong>Flight Type:</strong> " + r.flightType + "<br>"
      + "<strong>Depart:</strong> " + r.depart + "<br>"
      + "<strong>Arrival:</strong> " + r.arrival + "<br>"
      + "<strong>Latitude:</strong> " + r.latitude + "<br>"
      + "<strong>Longitude:</strong> " + r.longitude
  {
    var hs, vs := TOOLTIP_HEADS, TooltipValues(r);
    assert RenderFields(hs[..1], vs[..1]) == hs[0] + vs[0];
    assert RenderFields(hs[..2], vs[..2]) == RenderFields(hs[..1], vs[..1]) + "<br>" + hs[1] + vs[1] by {
      assert hs[..2][..1] == hs[..1] && vs[..2][..1] == vs[..1];
    }
    assert RenderFields(hs[..3], vs[..3]) == RenderFields(hs[..2], vs[..2]) + "<br>" + hs[2] + vs[2] by {
      assert hs[..3][..2] == hs[..2] && vs[..3][..2] == vs[..2];
    }
    assert RenderFields(hs[..4], vs[..4]) == RenderFields(hs[..3], vs[..3]) + "<br>" + hs[3] + vs[3] by {
      assert hs[..4][..3] == hs[..3] && vs[..4][..3] == vs[..3];
    }
    assert RenderFields(hs[..5], vs[..5]) == RenderFields(hs[..4], vs[..4]) + "<br>" + hs[4] + vs[4] by {
      assert hs[..5][..4] == hs[..4] && vs[..5][..4] == vs[..4];
    }
    assert RenderFields(hs, vs) == RenderFields(hs[..5], vs[..5]) + "<br>" + hs[5] + vs[5];
  }

  lemma Assoc(a: string, b: string, c: string)
    ensures (a + b) + c == a + (b + c)
  {
  }

  /** The joined text read from the front: first value, then `<br>` and the rest. */
  lemma {:induction false} RenderFieldsFront(heads: seq<string>, values: seq<Text>)
    requires |heads| == |values| > 1
    ensures RenderFields(heads, values)
         == heads[0] + (values[0] + ("<br>" + RenderFields(heads[1..], values[1..])))
  {
    var n := |heads| - 1;
    var a, b := heads[0], values[0];
    var hs, vs := heads[1..], values[1..];
    var last := "<br>" + heads[n] + values[n];
    var front := RenderFields(heads[..n], values[..n]);
    // front + "<br>" + heads[n] + values[n] regrouped as front + last
    Assoc(front, "<br>", heads[n]);
    Assoc(front, "<br>" + heads[n], values[n]);
    assert RenderFields(heads, values) == front + last;
    if n == 1 {
      assert front == a + b;
      assert RenderFields(hs, vs) == heads[1] + values[1];
      Assoc("<br>", heads[1], values[1]);
      Assoc(a, b, last);
    } else {
      var middle := RenderFields(heads[..n][1..], values[..n][1..]);
      assert hs[..n - 1] == heads[..n][1..] && vs[..n - 1] == values[..n][1..];
      RenderFieldsFront(heads[..n], values[..n]);
      assert front == a + (b + ("<br>" + middle));
      Assoc(middle, "<br>", heads[n]);
      Assoc(middle, "<br>" + heads[n], values[n]);
      assert RenderFields(hs, vs) == middle + last;
      Assoc(a, b + ("<br>" + middle), last);
      Assoc(b, "<br>" + middle, last);
      Assoc("<br>", middle, last);
    }
  }

  /** Splits `s` before its first '<'. */
  function SplitAtTag(s: string): (p: (string, string))
    ensures p.0 + p.1 == s
    ensures '<' !in p.0
    ensures p.1 == [] || p.1[0] == '<'
  {
    if s == [] || s[0] == '<' then ([], s)
    else
      var q := SplitAtTag(s[1..]);
      ([s[0]] + q.0, q.1)
  }

  lemma {:induction false} SplitAtTagValue(v: string, tail: string)
    requires '<' !in v
    requires tail == [] || tail[0] == '<'
    ensures SplitAtTag(v + tail) == (v, tail)
  {
    var s := v + tail;
    if v == [] {
      assert s == tail;
    } else {
      assert v == [v[0]] + v[1..];
      assert s[0] == v[0] && s[0] != '<';
      assert s[1..] == v[1..] + tail;
      SplitAtTagValue(v[1..], tail);
      assert SplitAtTag(s) == ([s[0]] + SplitAtTag(s[1..]).0, SplitAtTag(s[1..]).1);
    }
  }

  /** Reads the values back out of labelled, `<br>`-separated text. */
  function ParseFields(heads: seq<string>, s: string): Option<seq<Text>>
    decreases |heads|
  {
    if heads == [] then None
    else if !(heads[0] <= s) then None
    else
      var p := SplitAtTag(s[|heads[0]|..]);
      if |heads| == 1 then
        if p.1 == [] then Some([p.0]) else None
      else if !("<br>" <= p.1) then None
      else
        match ParseFields(heads[1..], p.1[4..])
        case None => None
        case Some(vs) => Some([p.0] + vs)
  }

  /** The parser on the last labelled value: it must end the text. */
  lemma ParseFieldsLast(heads: seq<string>, v: Text)
    requires |heads| == 1
    requires '<' !in v
    ensures ParseFields(heads, heads[0] + v) == Some([v])
  {
    var s := heads[0] + v;
    assert s[|heads[0]|..] == v;
    SplitAtTagValue(v, "");
    assert v + "" == v;
  }

  /** The parser's step over a labelled value followed by `<br>` and text the
      rest of the labels read back. */
  lemma ParseFieldsCons(heads: seq<string>, v: Text, rest: string, vs: seq<Text>)
    requires |heads| > 1
    requires '<' !in v
    requires ParseFields(heads[1..], rest) == Some(vs)
    ensures ParseFields(heads, heads[0] + (v + ("<br>" + rest))) == Some([v] + vs)
  {
    var tail := "<br>" + rest;
    var s := heads[0] + (v + tail);
    assert s[|heads[0]|..] == v + tail;
    SplitAtTagValue(v, tail);
    assert tail[4..] == rest;
  }

  lemma {:induction false} ParseRenderFields(heads: seq<string>, values: seq<Text>)
    requires |heads| == |values| > 0
    requires forall k :: 0 <= k < |values| ==> '<' !in values[k]
    ensures ParseFields(heads, RenderFields(heads, values)) == Some(values)
  {
    if |heads| == 1 {
      ParseFieldsLast(heads, values[0]);
      assert values == [values[0]];
    } else {
      var hs, vs := heads[1..], values[1..];
      assert forall k :: 0 <= k < |vs| ==> vs[k] == values[k + 1];
      ParseRenderFields(hs, vs);
      var rest := RenderFields(hs, vs);
      RenderFieldsFront(heads, values);
      ParseFieldsCons(heads, values[0], rest, vs);
      assert [values[0]] + vs == values;
    }
  }

  /** The tooltip can be read back into the row's six shown fields, in order,
      as long as no field contains '<'. */
  lemma TooltipRoundTrip(r: Row)
    requires forall k :: 0 <= k < 6 ==> '<' !in TooltipValues(r)[k]
    ensures ParseFields(TOOLTIP_HEADS, Tooltip(r)) == Some(TooltipValues(r))
  {
    ParseRenderFields(TOOLTIP_HEADS, TooltipValues(r));
  }

  // ----- draw commands -----

  /** The folium layers the replay adds to a map. */
  datatype Layer =
    | PolyLine(locations: seq<LatLon>, color: string, weight: nat, opacity: real, dashArray: string)
    | CircleMarker(location: LatLon, radius: nat, color: string, tooltip: string, sticky: bool,
                   fillColor: string, fillOpacity: real)

  /** The dashed line through a flight's points, in the flight's colour. */
  function TrailLine(points: seq<LatLon>, i: nat): Layer
  {
    PolyLine(points, ColorOf(i), 2, 0.8, "5, 5")
  }

  /** The white-rimmed marker at a flight's latest row, filled with its colour. */
  function LatestMarker(latest: Row, i: nat): Layer
  {
    CircleMarker(Vertex(Geometry(latest)), 5, "white", Tooltip(latest), true, ColorOf(i), 0.5)
  }

  /** The layers of flight f, number i in the flight list, at frame t. */
  function FlightLayers(rows: seq<Row>, i: nat, f: FlightId, t: nat): seq<Layer>
    requires f in FlightColumn(rows)
  {
    RowsOfNonEmpty(rows, f);
    var sub := Subset(rows, f, t);
    var points := Points(sub);
    (if |points| > 1 then [TrailLine(points, i)] else []) + [LatestMarker(sub[|sub| - 1], i)]
  }

  /** A flight's layers: a line exactly when its subset has two or more
      points, through the subset's (latitude, longitude) pairs in order; then
      always one marker at the subset's last row, carrying that row's tooltip;
      the line colour and the marker fill are both colour number i. */
  lemma FlightLayersShape(rows: seq<Row>, i: nat, f: FlightId, t: nat)
    requires f in FlightColumn(rows)
    ensures var sub := Subset(rows, f, t);
      var ls := FlightLayers(rows, i, f, t);
      && |sub| >= 1
      && |ls| == (if |sub| >= 2 then 2 else 1)
      && ls[|ls| - 1].CircleMarker?
      && ls[|ls| - 1].location == LatLon(sub[|sub| - 1].latitude, sub[|sub| - 1].longitude)
      && ls[|ls| - 1].tooltip == Tooltip(sub[|sub| - 1])
      && ls[|ls| - 1].fillColor == ColorOf(i)
      && (|ls| == 2 ==> ls[0].PolyLine? && ls[0].locations == Points(sub) && ls[0].color == ColorOf(i))
  {
    RowsOfNonEmpty(rows, f);
  }

  /** All layers of one frame: flight by flight, in the order of `flights`. */
  function FrameLayers(rows: seq<Row>, flights: seq<FlightId>, t: nat): seq<Layer>
    requires forall f :: f in flights ==> f in FlightColumn(rows)
  {
    if flights == [] then []
    else
      var n := |flights| - 1;
      FrameLayers(rows, flights[..n], t) + FlightLayers(rows, n, flights[n], t)
  }

  /** The first row of a flight of the table. */
  function FirstRow(rows: seq<Row>, f: FlightId): Row
    requires f in FlightColumn(rows)
  {
    RowsOfNonEmpty(rows, f);
    RowsOf(rows, f)[0]
  }

  /** A flight's first row is the row where its Flight value first occurs
      in the file. */
  lemma FirstRowIsFirstInFile(rows: seq<Row>, f: FlightId)
    requires f in FlightColumn(rows)
    ensures FirstRow(rows, f) == rows[FirstIndex(FlightColumn(rows), f)]
  {
    var c := FlightColumn(rows);
    var k := FirstIndex(c, f);
    RowsOfCount(rows[..k], f);
    assert FlightColumn(rows[..k]) == c[..k];
    assert rows[..k + 1] == rows[..k] + [rows[k]];
    RowsOfSnoc(rows[..k], rows[k], f);
    RowsOfPrefix(rows, k + 1, f);
  }

  lemma FlightLayersAtZero(rows: seq<Row>, i: nat, f: FlightId)
    requires f in FlightColumn(rows)
    ensures FlightLayers(rows, i, f, 0) == [LatestMarker(FirstRow(rows, f), i)]
  {
    RowsOfNonEmpty(rows, f);
    assert Subset(rows, f, 0) == [FirstRow(rows, f)];
  }

  /** At frame 0 every flight has one point: the frame is one marker per
      flight, in flight order, at the flight's first row, and no line. */
  lemma {:induction false} FirstFrameMarkersOnly(rows: seq<Row>, flights: seq<FlightId>)
    requires forall f :: f in flights ==> f in FlightColumn(rows)
    ensures |FrameLayers(rows, flights, 0)| == |flights|
    ensures forall i :: 0 <= i < |flights| ==>
      FrameLayers(rows, flights, 0)[i] == LatestMarker(FirstRow(rows, flights[i]), i)
  {
    if flights != [] {
      var n := |flights| - 1;
      var pre := flights[..n];
      FirstFrameMarkersOnly(rows, pre);
      FlightLayersAtZero(rows, n, flights[n]);
      var all := FrameLayers(rows, flights, 0);
      assert all == FrameLayers(rows, pre, 0) + [LatestMarker(FirstRow(rows, flights[n]), n)];
      forall i | 0 <= i < |flights|
        ensures all[i] == LatestMarker(FirstRow(rows, flights[i]), i)
      {
        if i < n {
          assert flights[i] == pre[i];
        }
      }
    }
  }

  // ----- every row is drawn in the final frame -----

  /** The subsets of all listed flights at frame t, one after another. */
  function Trajectories(rows: seq<Row>, flights: seq<FlightId>, t: nat): seq<Row>
  {
    if flights == [] then []
    else
      var n := |flights| - 1;
      Trajectories(rows, flights[..n], t) + Subset(rows, flights[n], t)
  }

  lemma {:induction false} TrajectoriesOfEmptyLog(flights: seq<FlightId>, t: nat)
    ensures Trajectories([], flights, t) == []
  {
    if flights != [] {
      TrajectoriesOfEmptyLog(flights[..|flights| - 1], t);
    }
  }

  /** Once t + 1 reaches the table length, a flight's subset is all its rows. */
  lemma SubsetWhole(rows: seq<Row>, f: FlightId, t: nat)
    requires |rows| <= t + 1
    ensures Subset(rows, f, t) == RowsOf(rows, f)
  {
  }

  /** The multiset bookkeeping of one step of TrajectoriesSnoc: the earlier
      flights gain x when x is theirs, the last flight gains x when x is its. */
  lemma SnocCount(before: seq<Row>, after: seq<Row>, mine: seq<Row>, mine': seq<Row>, x: Row, inEarlier: bool, inLast: bool)
    requires !(inEarlier && inLast)
    requires multiset(after) == multiset(before) + (if inEarlier then multiset{x} else multiset{})
    requires mine' == mine + (if inLast then [x] else [])
    ensures multiset(after + mine')
         == multiset(before + mine) + (if inEarlier || inLast then multiset{x} else multiset{})
  {
  }

  lemma {:induction false} TrajectoriesSnoc(rows: seq<Row>, x: Row, flights: seq<FlightId>, t: nat)
    requires |rows| + 1 <= t + 1
    requires NoDuplicates(flights)
    ensures multiset(Trajectories(rows + [x], flights, t))
         == multiset(Trajectories(rows, flights, t)) + (if x.flight in flights then multiset{x} else multiset{})
  {
    if flights != [] {
      var n := |flights| - 1;
      var p, g := flights[..n], flights[n];
      assert flights == p + [g];
      assert NoDuplicates(p);
      TrajectoriesSnoc(rows, x, p, t);
      RowsOfSnoc(rows, x, g);
      SubsetWhole(rows + [x], g, t);
      SubsetWhole(rows, g, t);
      var inEarlier, inLast := x.flight in p, x.flight == g;
      assert !(inEarlier && inLast) by {
        forall k | 0 <= k < n ensures p[k] != g {
          assert flights[k] != flights[n];
        }
      }
      assert x.flight in flights <==> inEarlier || inLast;
      SnocCount(Trajectories(rows, p, t), Trajectories(rows + [x], p, t),
                RowsOf(rows, g), RowsOf(rows + [x], g), x, inEarlier, inLast);
    }
  }

  lemma {:induction false} TrajectoriesCoverLog(rows: seq<Row>, flights: seq<FlightId>, t: nat)
    requires |rows| <= t + 1
    requires NoDuplicates(flights)
    requires forall k :: 0 <= k < |rows| ==> rows[k].flight in flights
    ensures multiset(Trajectories(rows, flights, t)) == multiset(rows)
  {
    if rows == [] {
      TrajectoriesOfEmptyLog(flights, t);
    } else {
      var n := |rows| - 1;
      assert rows == rows[..n] + [rows[n]];
      TrajectoriesCoverLog(rows[..n], flights, t);
      TrajectoriesSnoc(rows[..n], rows[n], flights, t);
    }
  }

  /** At the last frame `t = len - 1` every flight's subset is all of its rows,
      so the trajectories together hold every row of the table, each once. */
  lemma FinalFrameHoldsEveryRow(rows: seq<Row>)
    requires |rows| > 0
    ensures forall f :: f in UniqueFlights(rows) ==> Subset(rows, f, |rows| - 1) == RowsOf(rows, f)
    ensures multiset(Trajectories(rows, UniqueFlights(rows), |rows| - 1)) == multiset(rows)
  {
    var u := UniqueFlights(rows);
    forall f | f in u
      ensures Subset(rows, f, |rows| - 1) == RowsOf(rows, f)
    {
      SubsetWhole(rows, f, |rows| - 1);
    }
    forall k | 0 <= k < |rows|
      ensures rows[k].flight in u
    {
      assert FlightColumn(rows)[k] == rows[k].flight;
    }
    TrajectoriesCoverLog(rows, u, |rows| - 1);
  }

  /** A layer shows a location when the location is one of a line's vertices
      or a marker's position. */
  predicate Shows(l: Layer, p: LatLon)
  {
    (l.PolyLine? && p in l.locations) || (l.CircleMarker? && l.location == p)
  }

  /** Adding flight number i to the first i flights adds its layers at the end. */
  lemma FrameLayersSnoc(rows: seq<Row>, flights: seq<FlightId>, i: nat, t: nat)
    requires forall f :: f in flights ==> f in FlightColumn(rows)
    requires i < |flights|
    ensures forall f :: f in flights[..i + 1] ==> f in FlightColumn(rows)
    ensures FrameLayers(rows, flights[..i + 1], t)
         == FrameLayers(rows, flights[..i], t) + FlightLayers(rows, i, flights[i], t)
  {
    assert flights[..i + 1][..i] == flights[..i];
  }

  /** The layers of the first m flights come first in the frame, in order. */
  lemma {:induction false} FrameLayersPrefix(rows: seq<Row>, flights: seq<FlightId>, m: nat, t: nat)
    requires forall f :: f in flights ==> f in FlightColumn(rows)
    requires m <= |flights|
    ensures forall f :: f in flights[..m] ==> f in FlightColumn(rows)
    ensures FrameLayers(rows, flights[..m], t) <= FrameLayers(rows, flights, t)
    decreases |flights|
  {
    if m == |flights| {
      assert flights[..m] == flights;
    } else {
      var n := |flights| - 1;
      var pre := flights[..n];
      assert pre[..m] == flights[..m];
      assert forall f :: f in pre ==> f in FlightColumn(rows);
      FrameLayersPrefix(rows, pre, m, t);
    }
  }

  /** Every layer of flight number i is a layer of the frame. */
  lemma FrameLayersHoldFlight(rows: seq<Row>, flights: seq<FlightId>, t: nat, i: nat, l: Layer)
    requires forall f :: f in flights ==> f in FlightColumn(rows)
    requires i < |flights|
    requires l in FlightLayers(rows, i, flights[i], t)
    ensures l in FrameLayers(rows, flights, t)
  {
    FrameLayersSnoc(rows, flights, i, t);
    FrameLayersPrefix(rows, flights, i + 1, t);
  }

  /** The final frame draws the position of every row k of the table: the
      layer l, on the row's flight's line or as that flight's marker. */
  lemma FinalFrameDrawsRow(rows: seq<Row>, k: nat) returns (l: Layer)
    requires k < |rows|
    ensures forall f :: f in UniqueFlights(rows) ==> f in FlightColumn(rows)
    ensures l in FrameLayers(rows, UniqueFlights(rows), |rows| - 1)
    ensures Shows(l, LatLon(rows[k].latitude, rows[k].longitude))
  {
    var u := UniqueFlights(rows);
    var t := |rows| - 1;
    var x := rows[k];
    assert FlightColumn(rows)[k] == x.flight;
    assert x.flight in u;
    var i :| 0 <= i < |u| && u[i] == x.flight;
    SubsetWhole(rows, x.flight, t);
    RowsOfMembers(rows, x.flight);
    assert x in Subset(rows, x.flight, t);
    l := FlightLayersShowRow(rows, i, x.flight, t, x);
    FrameLayersHoldFlight(rows, u, t, i, l);
  }

  /** Every row of a flight's subset is shown by one of the flight's layers:
      a vertex of its line, or its marker when the subset is that one row. */
  lemma FlightLayersShowRow(rows: seq<Row>, i: nat, f: FlightId, t: nat, x: Row) returns (l: Layer)
    requires f in FlightColumn(rows)
    requires x in Subset(rows, f, t)
    ensures l in FlightLayers(rows, i, f, t)
    ensures Shows(l, LatLon(x.latitude, x.longitude))
  {
    var sub := Subset(rows, f, t);
    var j :| 0 <= j < |sub| && sub[j] == x;
    var ls := FlightLayers(rows, i, f, t);
    FlightLayersShape(rows, i, f, t);
    if |sub| >= 2 {
      assert Points(sub)[j] == LatLon(x.latitude, x.longitude);
      l := ls[0];
    } else {
      l := ls[|ls| - 1];
    }
  }

  // ----- frame indices -----

  /** Python's `range(start, stop, step)` for a positive step. */
  function Range(start: nat, stop: nat, step: nat): (r: seq<nat>)
    requires step > 0
    ensures start < stop <==> |r| > 0
    ensures forall k :: 0 <= k < |r| ==> start <= r[k] < stop
    ensures forall k :: 0 < k < |r| ==> r[k] == r[k - 1] + step
    ensures |r| > 0 ==> r[0] == start && r[|r| - 1] + step >= stop
    decreases stop - start
  {
    if start >= stop then [] else [start] + Range(start + step, stop, step)
  }

  /** With step 1 the range visits every index from start to stop - 1 once, in order. */
  lemma {:induction false} RangeByOne(start: nat, stop: nat)
    requires start <= stop
    ensures |Range(start, stop, 1)| == stop - start
    ensures forall k :: 0 <= k < stop - start ==> Range(start, stop, 1)[k] == start + k
    decreases stop - start
  {
    if start < stop {
      RangeByOne(start + 1, stop);
    }
  }

  // ----- the map and the time counter -----

  /** A rendered map: its fixed view and the layers added to it, in order. */
  datatype MapView = MapView(location: LatLon, zoomStart: nat, tiles: string, layers: seq<Layer>)

  const MAP_CENTER: LatLon := LatLon("36.2048", "138.2529")
  const ZOOM_START: nat := 5
  const TILES: string := "Cartodb dark_matter"

  /** A folium map: a fixed view, and the children that `add_to` appends. */
  class FoliumMap {
    const location: LatLon
    const zoomStart: nat
    const tiles: string
    var children: seq<Layer>

    constructor (location: LatLon, zoomStart: nat, tiles: string)
      ensures this.location == location && this.zoomStart == zoomStart && this.tiles == tiles
      ensures children == []
    {
      this.location := location;
      this.zoomStart := zoomStart;
      this.tiles := tiles;
      children := [];
    }

    /** `layer.add_to(map)`. */
    method Add(layer: Layer)
      modifies this
      ensures children == old(children) + [layer]
    {
      children := children + [layer];
    }

    /** What the map renders to. */
    function View(): MapView
      reads this
    {
      MapView(location, zoomStart, tiles, children)
    }
  }

  /** The html of the time counter: the time of the row at the frame index. */
  const COUNTER_INITIAL: string := "<div id='time_counter'>Time Counter: </div>"

  function CounterHtml(time: Text): string
  {
    "<div id='time_counter'>Time Counter: " + time + "</div>"
  }

  /** The time-counter DivIcon, whose html the frame loop rewrites. */
  class DivIcon {
    var html: string

    constructor (html: string)
      ensures this.html == html
    {
      this.html := html;
    }
  }

  /** The result of a replay: the maps shown, in order, and the counter's html
      when the loop ends. */
  datatype Playback = Playback(shown: seq<MapView>, counter: string)

  /** The map of frame t: a fresh centred map with the frame's layers. */
  function FrameMap(rows: seq<Row>, flights: seq<FlightId>, t: nat): MapView
    requires forall f :: f in flights ==> f in FlightColumn(rows)
  {
    MapView(MAP_CENTER, ZOOM_START, TILES, FrameLayers(rows, flights, t))
  }

  /** The loop over `enumerate(unique_flights)`: for each flight, add the line
      when it has more than one point, then the marker at its latest row. */
  method RenderFrame(m: FoliumMap, rows: seq<Row>, flights: seq<FlightId>, t: nat)
    requires forall f :: f in flights ==> f in FlightColumn(rows)
    modifies m
    ensures m.children == old(m.children) + FrameLayers(rows, flights, t)
  {
    for i := 0 to |flights|
      invariant forall f :: f in flights[..i] ==> f in FlightColumn(rows)
      invariant m.children == old(m.children) + FrameLayers(rows, flights[..i], t)
    {
      FrameLayersSnoc(rows, flights, i, t);
      AddFlight(m, rows, i, flights[i], t);
    }
    assert flights[..|flights|] == flights;
  }

  /** The body of the flight loop for flight f, number i: the line when the
      subset has more than one point, then the marker at its latest row. */
  method AddFlight(m: FoliumMap, rows: seq<Row>, i: nat, f: FlightId, t: nat)
    requires f in FlightColumn(rows)
    modifies m
    ensures m.children == old(m.children) + FlightLayers(rows, i, f, t)
  {
    RowsOfNonEmpty(rows, f);
    var subset := Subset(rows, f, t);
    var points := Points(subset);
    if |points| > 1 {
      m.Add(TrailLine(points, i));
    }
    var latest := subset[|subset| - 1];
    m.Add(LatestMarker(latest, i));
  }
}
