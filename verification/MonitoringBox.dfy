/**
 The area polled for hotspots, derived from the active zones
 (`resolveMonitoringArea` and `parseBbox`, workers/src/clients/monitoring-area.ts).
 */
module MonitoringBox {
  import opened Wrappers

  datatype Point = Point(longitude: real, latitude: real)

  datatype Zone = Zone(isActive: bool, vertices: seq<Point>)

  datatype Box = Box(west: real, south: real, east: real, north: real)

  datatype Area = Area(box: Box, centroid: Point, derived: bool)

  datatype AreaError = NoActiveZones | NotABox | Degenerate

  function Min(a: real, b: real): real {
    if a < b then a else b
  }

  function Max(a: real, b: real): real {
    if a < b then b else a
  }

  /** The vertices ST_Extent looks at. */
  function ActiveVertices(zones: seq<Zone>): seq<Point> {
    if zones == [] then []
    else ActiveVertices(zones[..|zones| - 1])
         + if zones[|zones| - 1].isActive then zones[|zones| - 1].vertices else []
  }

  /** ST_Extent: nothing over no vertices. */
  function Extent(points: seq<Point>): Option<Box> {
    if points == [] then None
    else
      var p := points[|points| - 1];
      var e := Extent(points[..|points| - 1]);
      if e.None? then Some(Box(p.longitude, p.latitude, p.longitude, p.latitude))
      else Some(Box(Min(e.value.west, p.longitude), Min(e.value.south, p.latitude),
                    Max(e.value.east, p.longitude), Max(e.value.north, p.latitude)))
  }

  function Clamp(n: real, lo: real, hi: real): real {
    Min(hi, Max(lo, n))
  }

  /** `Math.round(n * 10_000) / 10_000`: halves go up. */
  function Round4(n: real): real {
    (n * 10_000.0 + 0.5).Floor as real / 10_000.0
  }

  /** The four numbers of a box text; None where `Number` gives nothing finite. */
  function ParseBbox(parts: seq<Option<real>>, derived: bool): (r: Result<Area, AreaError>)
    ensures r == Err(NotABox) <==> |parts| != 4 || exists k :: 0 <= k < |parts| && parts[k].None?
    ensures r.Ok? ==>
              && |parts| == 4 && r.value.derived == derived
              && [Some(r.value.box.west), Some(r.value.box.south), Some(r.value.box.east), Some(r.value.box.north)] == parts
              && r.value.box.west < r.value.box.east && r.value.box.south < r.value.box.north
              && r.value.centroid.longitude - r.value.box.west == r.value.box.east - r.value.centroid.longitude
              && r.value.centroid.latitude - r.value.box.south == r.value.box.north - r.value.centroid.latitude
  {
    if |parts| != 4 || exists k :: 0 <= k < |parts| && parts[k].None? then Err(NotABox)
    else
      var box := Box(parts[0].value, parts[1].value, parts[2].value, parts[3].value);
      if box.west >= box.east || box.south >= box.north then Err(Degenerate)
      else Ok(Area(box, Point((box.west + box.east) / 2.0, (box.south + box.north) / 2.0), derived))
  }

  /** The padded, clamped and rounded extent. */
  function Rounded(e: Box, padding: real): Box {
    Box(Round4(Clamp(e.west - padding, -180.0, 180.0)), Round4(Clamp(e.south - padding, -90.0, 90.0)),
        Round4(Clamp(e.east + padding, -180.0, 180.0)), Round4(Clamp(e.north + padding, -90.0, 90.0)))
  }

  /** An operator's box wins; otherwise the active zones decide. */
  function ResolveMonitoringArea(setting: Option<seq<Option<real>>>, zones: seq<Zone>, padding: real)
    : Result<Area, AreaError>
  {
    if setting.Some? then ParseBbox(setting.value, false)
    else
      var extent := Extent(ActiveVertices(zones));
      if extent.None? then Err(NoActiveZones)
      else
        var b := Rounded(extent.value, padding);
        ParseBbox([Some(b.west), Some(b.south), Some(b.east), Some(b.north)], true)
  }

  // ---------------------------------------------------------------------
  // Coverage
  // ---------------------------------------------------------------------

  predicate Inside(box: Box, p: Point) {
    box.west <= p.longitude <= box.east && box.south <= p.latitude <= box.north
  }

  const WORLD: Box := Box(-180.0, -90.0, 180.0, 90.0)

  lemma {:induction false} ExtentContains(points: seq<Point>, i: nat)
    requires i < |points|
    ensures Extent(points).Some? && Inside(Extent(points).value, points[i])
    decreases |points|
  {
    var n := |points| - 1;
    if i < n {
      ExtentContains(points[..n], i);
      assert points[..n][i] == points[i];
    }
  }

  lemma {:induction false} ActiveVertexCounts(zones: seq<Zone>, z: nat, v: nat)
    requires z < |zones| && zones[z].isActive && v < |zones[z].vertices|
    ensures zones[z].vertices[v] in ActiveVertices(zones)
    decreases |zones|
  {
    var n := |zones| - 1;
    if z < n {
      ActiveVertexCounts(zones[..n], z, v);
    }
  }

  /** Rounding moves a coordinate by at most half a unit of the fourth decimal. */
  lemma RoundingError(n: real)
    ensures n - 0.00005 < Round4(n) <= n + 0.00005
  {
    var x := n * 10_000.0 + 0.5;
    assert x.Floor as real <= x < x.Floor as real + 1.0;
  }

  lemma LowerSide(x: real, low: real, bound: int, padding: real)
    requires low <= x && bound > 0 && -(bound as real) <= x <= bound as real && padding >= 0.00005
    ensures Round4(Clamp(low - padding, -(bound as real), bound as real)) <= x
  {
    var c := Clamp(low - padding, -(bound as real), bound as real);
    RoundingError(c);
    if c == -(bound as real) {
      WholeDegreesStay(-bound);
    }
  }

  lemma UpperSide(x: real, high: real, bound: int, padding: real)
    requires x <= high && bound > 0 && -(bound as real) <= x <= bound as real && padding >= 0.00005
    ensures x <= Round4(Clamp(high + padding, -(bound as real), bound as real))
  {
    var c := Clamp(high + padding, -(bound as real), bound as real);
    RoundingError(c);
    if c == bound as real {
      WholeDegreesStay(bound);
    }
  }

  lemma WholeDegreesStay(d: int)
    ensures Round4(d as real) == d as real
  {
    assert ((10_000 * d) as real + 0.5).Floor == 10_000 * d;
    assert d as real * 10_000.0 == (10_000 * d) as real;
  }

  /** Everything on Earth that lies within the zones' extent is polled. */
  lemma RoundedCovers(e: Box, p: Point, padding: real)
    requires Inside(e, p) && Inside(WORLD, p) && padding >= 0.00005
    ensures Inside(Rounded(e, padding), p)
  {
    hide Round4, Clamp;
    LowerSide(p.longitude, e.west, 180, padding);
    LowerSide(p.latitude, e.south, 90, padding);
    UpperSide(p.longitude, e.east, 180, padding);
    UpperSide(p.latitude, e.north, 90, padding);
  }

  /** A padding is safe when no set of zones gives a derived box that leaves out
      a vertex of an active zone. */
  ghost predicate PaddingIsSafe(padding: real) {
    forall zones: seq<Zone>, p: Point ::
      p in ActiveVertices(zones) && Inside(WORLD, p) && ResolveMonitoringArea(None, zones, padding).Ok? ==>
        Inside(ResolveMonitoringArea(None, zones, padding).value.box, p)
  }

  lemma DerivedBoxCovers(zones: seq<Zone>, p: Point, padding: real)
    requires padding >= 0.00005 && p in ActiveVertices(zones) && Inside(WORLD, p)
    requires ResolveMonitoringArea(None, zones, padding).Ok?
    ensures Inside(ResolveMonitoringArea(None, zones, padding).value.box, p)
  {
    var points := ActiveVertices(zones);
    var i :| 0 <= i < |points| && points[i] == p;
    ExtentContains(points, i);
    hide Rounded, Extent, ActiveVertices;
    RoundedCovers(Extent(points).value, p, padding);
  }

  /** The two corners of a zone that a smaller padding fails to cover: the first
      is rounded inwards, past itself. */
  function Corner(padding: real): Point {
    Point(padding + 0.00005, padding + 0.00005)
  }

  lemma SmallPaddingMissesACorner(padding: real)
    requires 0.0 <= padding < 0.00005
    ensures var zones := [Zone(true, [Corner(padding), Point(1.0, 1.0)])];
            var area := ResolveMonitoringArea(None, zones, padding);
            && Corner(padding) in ActiveVertices(zones) && Inside(WORLD, Corner(padding))
            && area.Ok? && !Inside(area.value.box, Corner(padding))
  {
    var corners := [Corner(padding), Point(1.0, 1.0)];
    var zones := [Zone(true, corners)];
    assert zones[..0] == [] && ActiveVertices([]) == [];
    assert ActiveVertices(zones) == corners;
    assert corners[..1] == [Corner(padding)] && corners[..1][..0] == [];
    var e := Box(padding + 0.00005, padding + 0.00005, 1.0, 1.0);
    assert Extent(corners[..1]) == Some(Box(e.west, e.south, e.west, e.south));
    assert Extent(corners) == Some(e);
    assert Corner(padding) == corners[0];
    var b := Rounded(e, padding);
    assert b == Box(0.0001, 0.0001, 1.0, 1.0) by {
      assert (0.00005 * 10_000.0 + 0.5).Floor == 1;
      assert ((1.0 + padding) * 10_000.0 + 0.5).Floor == 10_000;
    }
  }

  /** The derived box contains every vertex of every active zone, for all zones,
      exactly when the padding is at least half a unit of the last decimal; the
      configuration accepts any padding from zero up. */
  lemma PaddingIsSafeExactly(padding: real)
    requires 0.0 <= padding <= 5.0
    ensures PaddingIsSafe(padding) <==> padding >= 0.00005
  {
    hide ResolveMonitoringArea, ActiveVertices;
    if padding >= 0.00005 {
      forall zones: seq<Zone>, p: Point
        | p in ActiveVertices(zones) && Inside(WORLD, p) && ResolveMonitoringArea(None, zones, padding).Ok?
        ensures Inside(ResolveMonitoringArea(None, zones, padding).value.box, p)
      {
        DerivedBoxCovers(zones, p, padding);
      }
    } else {
      SmallPaddingMissesACorner(padding);
    }
  }

  lemma {:induction false} ExtentIsAttained(points: seq<Point>)
    requires points != []
    ensures var e := Extent(points);
            && e.Some?
            && (exists p :: p in points && p.longitude == e.value.west)
            && (exists p :: p in points && p.latitude == e.value.south)
            && (exists p :: p in points && p.longitude == e.value.east)
            && (exists p :: p in points && p.latitude == e.value.north)
    decreases |points|
  {
    var n := |points| - 1;
    assert points[n] in points;
    if points[..n] == [] {
      assert Extent(points[..n]) == None;
    } else {
      ExtentIsAttained(points[..n]);
      assert forall p :: p in points[..n] ==> p in points;
    }
  }

  /** A side of the box: within half a unit of the padded coordinate of a vertex,
      or at the edge of the world. */
  ghost predicate SideOf(side: real, vertex: real, padding: real, bound: real) {
    -0.00005 <= side - Clamp(vertex + padding, -bound, bound) <= 0.00005
  }

  /** The box is no larger than it has to be: each side stands off some vertex by
      the padding, cut at the edge of the world and rounded. */
  lemma DerivedBoxIsTight(zones: seq<Zone>, padding: real)
    requires ResolveMonitoringArea(None, zones, padding).Ok?
    ensures var box := ResolveMonitoringArea(None, zones, padding).value.box;
            var points := ActiveVertices(zones);
            && (exists p :: p in points && SideOf(box.west, p.longitude, -padding, 180.0))
            && (exists p :: p in points && SideOf(box.south, p.latitude, -padding, 90.0))
            && (exists p :: p in points && SideOf(box.east, p.longitude, padding, 180.0))
            && (exists p :: p in points && SideOf(box.north, p.latitude, padding, 90.0))
  {
    var points := ActiveVertices(zones);
    assert Extent([]) == None;
    ExtentIsAttained(points);
    var e := Extent(points).value;
    hide Extent, ActiveVertices, Round4, Clamp;
    RoundingError(Clamp(e.west - padding, -180.0, 180.0));
    RoundingError(Clamp(e.south - padding, -90.0, 90.0));
    RoundingError(Clamp(e.east + padding, -180.0, 180.0));
    RoundingError(Clamp(e.north + padding, -90.0, 90.0));
    var w :| w in points && w.longitude == e.west;
    var s :| s in points && s.latitude == e.south;
    var f :| f in points && f.longitude == e.east;
    var n :| n in points && n.latitude == e.north;
    assert e.west + -padding == e.west - padding && e.south + -padding == e.south - padding;
    var box := ResolveMonitoringArea(None, zones, padding).value.box;
    assert SideOf(box.west, w.longitude, -padding, 180.0);
    assert SideOf(box.south, s.latitude, -padding, 90.0);
    assert SideOf(box.east, f.longitude, padding, 180.0);
    assert SideOf(box.north, n.latitude, padding, 90.0);
  }

  /** An operator's box is taken as it is, whatever the zones are. */
  lemma OperatorWins(parts: seq<Option<real>>, zones: seq<Zone>, padding: real)
    ensures ResolveMonitoringArea(Some(parts), zones, padding) == ResolveMonitoringArea(Some(parts), [], 0.0)
    ensures var r := ResolveMonitoringArea(Some(parts), zones, padding);
            r.Ok? ==> !r.value.derived && |parts| == 4
                      && [Some(r.value.box.west), Some(r.value.box.south), Some(r.value.box.east), Some(r.value.box.north)] == parts
  {
  }

  lemma SidesDiffer(low: real, high: real, x: real, bound: int, padding: real)
    requires low <= x <= high && bound >= 90 && -(bound as real) <= x <= bound as real
    requires 0.00005 < padding <= 5.0
    ensures Round4(Clamp(low - padding, -(bound as real), bound as real))
          < Round4(Clamp(high + padding, -(bound as real), bound as real))
  {
    var a := Clamp(low - padding, -(bound as real), bound as real);
    var b := Clamp(high + padding, -(bound as real), bound as real);
    var units := 10_000 * bound;
    assert bound as real * 10_000.0 == units as real;
    if a == -(bound as real) {
      assert (units as real + 0.5).Floor == units && (-(units as real) + 0.5).Floor == -units;
      assert b * 10_000.0 + 0.5 > -(units as real) + 1.0;
      assert (b * 10_000.0 + 0.5).Floor >= -units + 1;
    } else if b == bound as real {
      assert (units as real + 0.5).Floor == units;
      assert a * 10_000.0 + 0.5 < units as real;
      assert (a * 10_000.0 + 0.5).Floor < units;
    } else {
      assert b * 10_000.0 + 0.5 > a * 10_000.0 + 0.5 + 1.0;
    }
  }

  /** A box is always derived once an active zone has a vertex on Earth. */
  ghost predicate BoxAlwaysExists(padding: real) {
    forall zones: seq<Zone>, p: Point ::
      p in ActiveVertices(zones) && Inside(WORLD, p) ==> ResolveMonitoringArea(None, zones, padding).Ok?
  }

  lemma DerivedBoxExists(zones: seq<Zone>, p: Point, padding: real)
    requires 0.00005 < padding <= 5.0
    requires p in ActiveVertices(zones) && Inside(WORLD, p)
    ensures ResolveMonitoringArea(None, zones, padding).Ok?
  {
    var points := ActiveVertices(zones);
    var i :| 0 <= i < |points| && points[i] == p;
    ExtentContains(points, i);
    var e := Extent(points).value;
    hide Extent, ActiveVertices, Round4, Clamp;
    SidesDiffer(e.west, e.east, p.longitude, 180, padding);
    SidesDiffer(e.south, e.north, p.latitude, 90, padding);
  }

  /** A zone that is a point at the corner of the world has no box under any
      smaller padding: its eastern and western side round to the same number. */
  lemma CornerOfTheWorldHasNoBox(padding: real)
    requires 0.0 <= padding <= 0.00005
    ensures var zones := [Zone(true, [Point(180.0, 90.0)])];
            && Point(180.0, 90.0) in ActiveVertices(zones)
            && ResolveMonitoringArea(None, zones, padding) == Err(Degenerate)
  {
    var corner := Point(180.0, 90.0);
    var zones := [Zone(true, [corner])];
    assert zones[..0] == [] && ActiveVertices([]) == [];
    assert ActiveVertices(zones) == [corner];
    assert [corner][..0] == [];
    assert Extent([corner]) == Some(Box(180.0, 90.0, 180.0, 90.0));
    assert ((180.0 - padding) * 10_000.0 + 0.5).Floor == 1_800_000;
    assert (180.0 * 10_000.0 + 0.5).Floor == 1_800_000;
  }

  /** For all zones with an active vertex on Earth there is a box exactly when
      the padding is more than half a unit of the last decimal. */
  lemma BoxAlwaysExistsExactly(padding: real)
    requires 0.0 <= padding <= 5.0
    ensures BoxAlwaysExists(padding) <==> padding > 0.00005
  {
    hide ResolveMonitoringArea, ActiveVertices;
    if padding > 0.00005 {
      forall zones: seq<Zone>, p: Point | p in ActiveVertices(zones) && Inside(WORLD, p)
        ensures ResolveMonitoringArea(None, zones, padding).Ok?
      {
        DerivedBoxExists(zones, p, padding);
      }
    } else {
      CornerOfTheWorldHasNoBox(padding);
      assert Inside(WORLD, Point(180.0, 90.0));
    }
  }

  /** The service refuses to poll exactly when no active zone has a vertex. */
  lemma NothingToMonitorExactly(zones: seq<Zone>, padding: real)
    ensures ResolveMonitoringArea(None, zones, padding) == Err(NoActiveZones)
       <==> forall z :: 0 <= z < |zones| && zones[z].isActive ==> zones[z].vertices == []
  {
    var points := ActiveVertices(zones);
    NoActiveVertices(zones);
    if points != [] {
      ExtentContains(points, 0);
    }
  }

  lemma {:induction false} NoActiveVertices(zones: seq<Zone>)
    ensures ActiveVertices(zones) == []
       <==> forall z :: 0 <= z < |zones| && zones[z].isActive ==> zones[z].vertices == []
    decreases |zones|
  {
    if zones != [] {
      var n := |zones| - 1;
      NoActiveVertices(zones[..n]);
      if ActiveVertices(zones) == [] {
        forall z | 0 <= z < |zones| && zones[z].isActive ensures zones[z].vertices == [] {
          assert z < n ==> zones[..n][z] == zones[z];
        }
      } else if ActiveVertices(zones[..n]) != [] {
        var z :| 0 <= z < n && zones[..n][z].isActive && zones[..n][z].vertices != [];
        assert zones[z].isActive && zones[z].vertices != [];
      } else {
        assert zones[n].isActive && zones[n].vertices != [];
      }
    }
  }
}
