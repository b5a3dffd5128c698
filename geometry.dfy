/** The geometry kernel of main.js: vertex-mean centroids, the even-odd point-in-ring
    test and point-to-segment / point-to-polyline distances. The great-circle distance is
    not computed here: every operation that measures meters takes it as a parameter
    `dist`, of which only non-negativity is known. */
module Geometry {
  import opened Common

  /** A GeoJSON position [lng, lat]. */
  datatype Point = Point(lng: real, lat: real)

  /** The great-circle distance in meters (the source's haversine formula). */
  type DistFn = f: (Point, Point) -> real | forall p: Point, q: Point :: f(p, q) >= 0.0
    witness (p: Point, q: Point) => 0.0

  /** The seven GeoJSON geometry types. A MultiPoint's coordinates have the shape of a
      LineString's, so both carry a `path`; a GeometryCollection has no coordinates. */
  datatype Geom =
    | PointGeom(at: Point)
    | MultiPoint(path: seq<Point>)
    | LineString(path: seq<Point>)
    | MultiLineString(lines: seq<seq<Point>>)
    | Polygon(rings: seq<seq<Point>>)
    | MultiPolygon(polygons: seq<seq<seq<Point>>>)
    | GeometryCollection

  /** The geometries whose coordinates are a list of positions. */
  predicate IsPath(g: Geom) {
    g.LineString? || g.MultiPoint?
  }

  /** The shapes `getCentroid` can work on without throwing or dividing by zero: the rings
      it reads exist and are not empty. */
  predicate WellFormed(g: Geom) {
    match g
    case Polygon(rings) => |rings| > 0 && |rings[0]| > 0
    case MultiPolygon(polys) =>
      |polys| > 0 && forall i :: 0 <= i < |polys| ==> |polys[i]| > 0 && |polys[i][0]| > 0
    case _ => true
  }

  // ---------------------------------------------------------------- centroid

  function SumLng(ring: seq<Point>): real {
    if |ring| == 0 then 0.0 else SumLng(ring[..|ring| - 1]) + ring[|ring| - 1].lng
  }

  function SumLat(ring: seq<Point>): real {
    if |ring| == 0 then 0.0 else SumLat(ring[..|ring| - 1]) + ring[|ring| - 1].lat
  }

  /** The arithmetic mean of a list of positions (every vertex counts, a repeated closing
      vertex included). */
  function Mean(ring: seq<Point>): Point
    requires |ring| > 0
  {
    Point(SumLng(ring) / |ring| as real, SumLat(ring) / |ring| as real)
  }

  /** The axis-aligned box [lo, hi] contains every position of `ring`. */
  ghost predicate Boxed(ring: seq<Point>, lo: Point, hi: Point) {
    forall i :: 0 <= i < |ring| ==>
      lo.lng <= ring[i].lng <= hi.lng && lo.lat <= ring[i].lat <= hi.lat
  }

  /** Adding one more value between lo and hi to a sum of m such values. */
  lemma BoundStep(m: real, m1: real, sum: real, x: real, lo: real, hi: real)
    requires m1 == m + 1.0
    requires m * lo <= sum <= m * hi && lo <= x <= hi
    ensures m1 * lo <= sum + x <= m1 * hi
  {
    calc {
      m1 * lo;
      m * lo + lo;
    <= sum + x;
    }
    calc {
      sum + x;
    <= m * hi + hi;
      m1 * hi;
    }
  }

  lemma {:induction false} SumLngBounded(ring: seq<Point>, lo: real, hi: real)
    requires forall i :: 0 <= i < |ring| ==> lo <= ring[i].lng <= hi
    ensures |ring| as real * lo <= SumLng(ring) <= |ring| as real * hi
  {
    if |ring| > 0 {
      var front := ring[..|ring| - 1];
      SumLngBounded(front, lo, hi);
      BoundStep(|front| as real, |ring| as real, SumLng(front), ring[|ring| - 1].lng, lo, hi);
    }
  }

  lemma {:induction false} SumLatBounded(ring: seq<Point>, lo: real, hi: real)
    requires forall i :: 0 <= i < |ring| ==> lo <= ring[i].lat <= hi
    ensures |ring| as real * lo <= SumLat(ring) <= |ring| as real * hi
  {
    if |ring| > 0 {
      var front := ring[..|ring| - 1];
      SumLatBounded(front, lo, hi);
      BoundStep(|front| as real, |ring| as real, SumLat(front), ring[|ring| - 1].lat, lo, hi);
    }
  }

  lemma MeanLngBetween(ring: seq<Point>, lo: real, hi: real)
    requires |ring| > 0 && forall i :: 0 <= i < |ring| ==> lo <= ring[i].lng <= hi
    ensures lo <= Mean(ring).lng <= hi
  {
    SumLngBounded(ring, lo, hi);
    QuotientBetween(SumLng(ring), |ring| as real, lo, hi);
  }

  lemma MeanLatBetween(ring: seq<Point>, lo: real, hi: real)
    requires |ring| > 0 && forall i :: 0 <= i < |ring| ==> lo <= ring[i].lat <= hi
    ensures lo <= Mean(ring).lat <= hi
  {
    SumLatBounded(ring, lo, hi);
    QuotientBetween(SumLat(ring), |ring| as real, lo, hi);
  }

  /** The mean of a list of positions lies inside every box that holds all of them. */
  lemma MeanInsideBox(ring: seq<Point>, lo: Point, hi: Point)
    requires |ring| > 0 && Boxed(ring, lo, hi)
    ensures Boxed([Mean(ring)], lo, hi)
  {
    MeanLngBetween(ring, lo.lng, hi.lng);
    MeanLatBetween(ring, lo.lat, hi.lat);
    assert [Mean(ring)][0] == Mean(ring);
  }

  /** The term of vertex i in the shoelace sum, pairing it with the next vertex cyclically. */
  function ShoelaceTerm(ring: seq<Point>, i: nat): real
    requires i < |ring|
  {
    var next := ring[(i + 1) % |ring|];
    ring[i].lng * next.lat - next.lng * ring[i].lat
  }

  /** The `reduce` of the source over the first k vertices. */
  function ShoelaceSum(ring: seq<Point>, k: nat): real
    requires k <= |ring|
  {
    if k == 0 then 0.0 else ShoelaceSum(ring, k - 1) + ShoelaceTerm(ring, k - 1)
  }

  function Abs(x: real): real { if x < 0.0 then -x else x }

  /** |shoelace sum / 2|: the area the MultiPolygon branch compares. */
  function RingArea(ring: seq<Point>): (a: real)
    ensures a >= 0.0
  {
    Abs(ShoelaceSum(ring, |ring|) / 2.0)
  }

  /** The state (index of the kept polygon, `maxArea`) of the MultiPolygon scan after its
      first k polygons: it starts at polygon 0 with area 0 and moves to a polygon only when
      that polygon's outer ring is strictly larger. */
  function LargestScan(polys: seq<seq<seq<Point>>>, k: nat): (r: (nat, real))
    requires 0 < |polys| && k <= |polys|
    requires forall i :: 0 <= i < |polys| ==> |polys[i]| > 0
    ensures r.0 < |polys| && r.1 >= 0.0
    ensures r.1 == 0.0 ==> r.0 == 0
    ensures r.1 > 0.0 ==> r.0 < k && r.1 == RingArea(polys[r.0][0])
    ensures forall j :: 0 <= j < k ==> RingArea(polys[j][0]) <= r.1
    ensures forall j :: 0 <= j < r.0 ==> RingArea(polys[j][0]) < r.1
  {
    if k == 0 then (0, 0.0)
    else
      var prev := LargestScan(polys, k - 1);
      var area := RingArea(polys[k - 1][0]);
      if area > prev.1 then (k - 1, area) else prev
  }

  /** The polygon whose outer ring `getCentroid` averages for a MultiPolygon. */
  function LargestPolygon(polys: seq<seq<seq<Point>>>): nat
    requires 0 < |polys|
    requires forall i :: 0 <= i < |polys| ==> |polys[i]| > 0
  {
    LargestScan(polys, |polys|).0
  }

  /** The MultiPolygon rule: the kept outer ring has the strictly greatest area, the earliest
      one winning a tie, and the first polygon's ring is kept when no area exceeds 0. */
  lemma LargestPolygonIsEarliestMaximum(polys: seq<seq<seq<Point>>>)
    requires 0 < |polys|
    requires forall i :: 0 <= i < |polys| ==> |polys[i]| > 0
    ensures var k := LargestPolygon(polys);
      && k < |polys|
      && (forall j :: 0 <= j < |polys| ==> RingArea(polys[j][0]) <= RingArea(polys[k][0]))
      && (forall j :: 0 <= j < k ==> RingArea(polys[j][0]) < RingArea(polys[k][0]))
      && ((forall j :: 0 <= j < |polys| ==> RingArea(polys[j][0]) == 0.0) ==> k == 0)
  {
    var r := LargestScan(polys, |polys|);
    if r.1 == 0.0 {
      assert RingArea(polys[0][0]) <= r.1;
    }
  }

  /** What `getCentroid` returns: a Point's own position, the vertex mean of a Polygon's
      outer ring, the vertex mean of a MultiPolygon's largest outer ring, else null. */
  function Centroid(g: Geom): Option<Point>
    requires WellFormed(g)
  {
    match g
    case PointGeom(p) => Some(p)
    case Polygon(rings) => Some(Mean(rings[0]))
    case MultiPolygon(polys) => Some(Mean(polys[LargestPolygon(polys)][0]))
    case _ => None
  }

  /** A centroid exists exactly for Point, Polygon and MultiPolygon, and every area centroid
      lies inside the bounding box of the ring it averages. */
  lemma CentroidCases(g: Geom, lo: Point, hi: Point)
    requires WellFormed(g)
    ensures Centroid(g).Some? <==> g.PointGeom? || g.Polygon? || g.MultiPolygon?
    ensures g.PointGeom? ==> Centroid(g) == Some(g.at)
    ensures g.Polygon? && Boxed(g.rings[0], lo, hi) ==> Boxed([Centroid(g).value], lo, hi)
    ensures g.MultiPolygon? && Boxed(g.polygons[LargestPolygon(g.polygons)][0], lo, hi) ==>
      Boxed([Centroid(g).value], lo, hi)
  {
    if g.Polygon? && Boxed(g.rings[0], lo, hi) {
      MeanInsideBox(g.rings[0], lo, hi);
    }
    if g.MultiPolygon? && Boxed(g.polygons[LargestPolygon(g.polygons)][0], lo, hi) {
      MeanInsideBox(g.polygons[LargestPolygon(g.polygons)][0], lo, hi);
    }
  }

  /** The vertex sums of the 2-by-2 square, without and with the closing vertex. */
  lemma SquareSums()
    ensures SumLng([Point(0.0, 0.0), Point(2.0, 0.0), Point(2.0, 2.0), Point(0.0, 2.0)]) == 4.0
    ensures SumLat([Point(0.0, 0.0), Point(2.0, 0.0), Point(2.0, 2.0), Point(0.0, 2.0)]) == 4.0
    ensures SumLng([Point(0.0, 0.0), Point(2.0, 0.0), Point(2.0, 2.0), Point(0.0, 2.0), Point(0.0, 0.0)]) == 4.0
    ensures SumLat([Point(0.0, 0.0), Point(2.0, 0.0), Point(2.0, 2.0), Point(0.0, 2.0), Point(0.0, 0.0)]) == 4.0
  {
    var o, e, ne, n := Point(0.0, 0.0), Point(2.0, 0.0), Point(2.0, 2.0), Point(0.0, 2.0);
    SumsAppend([], o);
    assert [] + [o] == [o];
    SumsAppend([o], e);
    assert [o] + [e] == [o, e];
    SumsAppend([o, e], ne);
    assert [o, e] + [ne] == [o, e, ne];
    SumsAppend([o, e, ne], n);
    assert [o, e, ne] + [n] == [o, e, ne, n];
    SumsAppend([o, e, ne, n], o);
    assert [o, e, ne, n] + [o] == [o, e, ne, n, o];
  }

  /** The centroid of the 2-by-2 square: (1, 1) without a closing vertex, and (0.8, 0.8)
      with the closing vertex GeoJSON rings carry, since that vertex is counted twice. */
  lemma SquareCentroids()
    ensures Centroid(Polygon([[Point(0.0, 0.0), Point(2.0, 0.0), Point(2.0, 2.0), Point(0.0, 2.0)]]))
      == Some(Point(1.0, 1.0))
    ensures Centroid(Polygon([[Point(0.0, 0.0), Point(2.0, 0.0), Point(2.0, 2.0), Point(0.0, 2.0),
                                Point(0.0, 0.0)]]))
      == Some(Point(0.8, 0.8))
  {
    SquareSums();
  }

  lemma SumsAppend(ring: seq<Point>, q: Point)
    ensures SumLng(ring + [q]) == SumLng(ring) + q.lng
    ensures SumLat(ring + [q]) == SumLat(ring) + q.lat
  {
    assert (ring + [q])[..|ring|] == ring;
  }

  /** `getCentroid` (the loops over the polygons and over the kept ring's vertices). */
  method GetCentroid(g: Geom) returns (c: Option<Point>)
    requires WellFormed(g)
    ensures c == Centroid(g)
  {
    var coords: seq<Point>;
    match g {
      case Polygon(rings) =>
        coords := rings[0];
      case MultiPolygon(polys) =>
        var maxArea := 0.0;
        var largest := 0;
        for k := 0 to |polys|
          invariant (largest, maxArea) == LargestScan(polys, k)
        {
          var area := RingArea(polys[k][0]);
          if area > maxArea {
            maxArea := area;
            largest := k;
          }
        }
        coords := polys[largest][0];
      case PointGeom(p) =>
        return Some(p);
      case _ =>
        return None;
    }
    var sumX, sumY := 0.0, 0.0;
    for i := 0 to |coords|
      invariant sumX == SumLng(coords[..i]) && sumY == SumLat(coords[..i])
    {
      assert coords[..i + 1][..i] == coords[..i];
      sumX := sumX + coords[i].lng;
      sumY := sumY + coords[i].lat;
    }
    assert coords[..|coords|] == coords;
    c := Some(Point(sumX / |coords| as real, sumY / |coords| as real));
  }

  // ---------------------------------------------------------------- point in ring

  /** Whether the horizontal ray from p towards +lng crosses the edge from a (vertex i) to
      b (vertex j): the endpoints straddle p's latitude and the crossing lies east of p. */
  predicate Crosses(p: Point, a: Point, b: Point) {
    Straddles(p, a, b) && p.lng < CrossingLng(p, a, b)
  }

  predicate Straddles(p: Point, a: Point, b: Point) {
    (a.lat > p.lat) != (b.lat > p.lat)
  }

  /** The longitude at which the edge from a to b meets p's latitude. */
  function CrossingLng(p: Point, a: Point, b: Point): real
    requires Straddles(p, a, b)
  {
    (b.lng - a.lng) * (p.lat - a.lat) / (b.lat - a.lat) + a.lng
  }

  /** Edge i joins vertex i to the vertex before it, cyclically (`j = i++` in the source). */
  function Prev(n: nat, i: nat): nat
    requires i < n
  {
    if i == 0 then n - 1 else i - 1
  }

  /** Whether the ray from p crosses edge i of the ring. */
  predicate EdgeCrossed(p: Point, ring: seq<Point>, i: nat)
    requires i < |ring|
  {
    Crosses(p, ring[i], ring[Prev(|ring|, i)])
  }

  /** The crossing flag of every edge, in vertex order. */
  function Crossings(p: Point, ring: seq<Point>): (cs: seq<bool>)
    ensures |cs| == |ring|
    ensures forall i :: 0 <= i < |ring| ==> cs[i] == EdgeCrossed(p, ring, i)
  {
    seq(|ring|, i requires 0 <= i < |ring| => EdgeCrossed(p, ring, i))
  }

  /** The even-odd rule: an odd number of crossed edges. */
  predicate InsideByParity(p: Point, ring: seq<Point>) {
    CountTrue(Crossings(p, ring)) % 2 == 1
  }

  /** The value of a flag that starts `false` and is toggled at every `true` entry. */
  function Toggled(bs: seq<bool>): bool {
    if |bs| == 0 then false else Toggled(bs[..|bs| - 1]) != bs[|bs| - 1]
  }

  /** A flag toggled once per `true` entry ends up set exactly when their count is odd. */
  lemma {:induction false} ToggledIsOddCount(bs: seq<bool>)
    ensures Toggled(bs) <==> CountTrue(bs) % 2 == 1
  {
    if |bs| > 0 {
      ToggledIsOddCount(bs[..|bs| - 1]);
    }
  }

  lemma CrossingAt(p: Point, ring: seq<Point>, i: nat, j: nat)
    requires i < |ring| && j == if i == 0 then |ring| - 1 else i - 1
    ensures Crossings(p, ring)[i] == Crosses(p, ring[i], ring[j])
  {
  }

  lemma ToggledStep(cs: seq<bool>, i: nat)
    requires i < |cs|
    ensures Toggled(cs[..i + 1]) == (Toggled(cs[..i]) != cs[i])
  {
    assert cs[..i + 1][..i] == cs[..i];
  }

  /** `pointInPolygon`: toggles `inside` at every crossed edge. */
  method PointInPolygon(p: Point, ring: seq<Point>) returns (inside: bool)
    ensures inside <==> InsideByParity(p, ring)
  {
    ghost var cs := Crossings(p, ring);
    inside := false;
    var j := |ring| - 1;
    for i := 0 to |ring|
      invariant inside == Toggled(cs[..i])
      invariant j == if i == 0 then |ring| - 1 else i - 1
    {
      var crosses := Crosses(p, ring[i], ring[j]);
      CrossingAt(p, ring, i, j);
      ToggledStep(cs, i);
      if crosses {
        inside := !inside;
      }
      j := i;
    }
    assert cs[..|ring|] == cs;
    ToggledIsOddCount(cs);
  }

  /** A counter over entries that are all `false` stays at 0. */
  lemma CountNone(bs: seq<bool>)
    requires forall i :: 0 <= i < |bs| ==> !bs[i]
    ensures CountTrue(bs) == 0
  {
    CountTrueIsCardinality(bs);
    assert (set i | 0 <= i < |bs| && bs[i]) == {};
  }

  /** With 0 <= t <= 1, a + (b - a) * t is at most any common upper bound of a and b. */
  lemma ConvexBelow(a: real, b: real, t: real, m: real)
    requires 0.0 <= t <= 1.0 && a <= m && b <= m
    ensures (b - a) * t + a <= m
  {
    var x, y := a * (1.0 - t), b * t;
    assert (b - a) * t + a == x + y;
    MulMonoLe(a, m, 1.0 - t);
    MulMonoLe(b, m, t);
    assert x <= m * (1.0 - t) && y <= m * t;
    assert m * (1.0 - t) + m * t == m;
  }

  /** An edge that straddles p's latitude is crossed at a parameter between 0 and 1. */
  lemma StraddleParameter(y: real, ya: real, yb: real)
    requires (ya > y) != (yb > y)
    ensures 0.0 <= (y - ya) / (yb - ya) <= 1.0
  {
    if ya > y {
      var q := (ya - y) / (ya - yb);
      QuotientBetween(ya - y, ya - yb, 0.0, 1.0);
      assert q * (ya - yb) == ya - y;
      assert q * (yb - ya) == y - ya;
      DivUnique(y - ya, yb - ya, q);
    } else {
      QuotientBetween(y - ya, yb - ya, 0.0, 1.0);
    }
  }

  /** No edge whose endpoints both lie west of p (or level with it) is crossed. */
  lemma NotCrossedFromEast(p: Point, a: Point, b: Point)
    requires a.lng <= p.lng && b.lng <= p.lng
    ensures !Crosses(p, a, b)
  {
    if (a.lat > p.lat) != (b.lat > p.lat) {
      var t := (p.lat - a.lat) / (b.lat - a.lat);
      StraddleParameter(p.lat, a.lat, b.lat);
      MulDiv(b.lng - a.lng, p.lat - a.lat, b.lat - a.lat);
      ConvexBelow(a.lng, b.lng, t, p.lng);
    }
  }

  lemma NoneCrossedAbove(p: Point, ring: seq<Point>)
    requires forall i :: 0 <= i < |ring| ==> ring[i].lat <= p.lat
    ensures forall i :: 0 <= i < |ring| ==> !Crossings(p, ring)[i]
  {
  }

  lemma NoneCrossedBelow(p: Point, ring: seq<Point>)
    requires forall i :: 0 <= i < |ring| ==> ring[i].lat > p.lat
    ensures forall i :: 0 <= i < |ring| ==> !Crossings(p, ring)[i]
  {
  }

  lemma NoneCrossedEast(p: Point, ring: seq<Point>)
    requires forall i :: 0 <= i < |ring| ==> ring[i].lng <= p.lng
    ensures forall i :: 0 <= i < |ring| ==> !Crossings(p, ring)[i]
  {
    forall i | 0 <= i < |ring|
      ensures !Crossings(p, ring)[i]
    {
      NotCrossedFromEast(p, ring[i], ring[if i == 0 then |ring| - 1 else i - 1]);
    }
  }

  /** A point at or beyond the northern, southern or eastern edge of a ring's bounding box
      is reported outside (the southern edge itself counts as inside the box). */
  lemma OutsideBoundingBox(p: Point, ring: seq<Point>)
    requires || (forall i :: 0 <= i < |ring| ==> ring[i].lat <= p.lat)
             || (forall i :: 0 <= i < |ring| ==> ring[i].lat > p.lat)
             || (forall i :: 0 <= i < |ring| ==> ring[i].lng <= p.lng)
    ensures !InsideByParity(p, ring)
  {
    if forall i :: 0 <= i < |ring| ==> ring[i].lat <= p.lat {
      NoneCrossedAbove(p, ring);
    } else if forall i :: 0 <= i < |ring| ==> ring[i].lat > p.lat {
      NoneCrossedBelow(p, ring);
    } else {
      NoneCrossedEast(p, ring);
    }
    CountNone(Crossings(p, ring));
  }

  lemma OneCrossingOfFour()
    ensures CountTrue([false, false, true, false]) == 1
  {
    CountTrueAppend([], false);
    assert [] + [false] == [false];
    CountTrueAppend([false], false);
    assert [false] + [false] == [false, false];
    CountTrueAppend([false, false], true);
    assert [false, false] + [true] == [false, false, true];
    CountTrueAppend([false, false, true], false);
    assert [false, false, true] + [false] == [false, false, true, false];
  }

  /** The ray test on the unit-2 square: its centre is inside, a point east of it is not. */
  lemma SquareContainment()
    ensures InsideByParity(Point(1.0, 1.0),
      [Point(0.0, 0.0), Point(2.0, 0.0), Point(2.0, 2.0), Point(0.0, 2.0)])
    ensures !InsideByParity(Point(3.0, 1.0),
      [Point(0.0, 0.0), Point(2.0, 0.0), Point(2.0, 2.0), Point(0.0, 2.0)])
  {
    var sq := [Point(0.0, 0.0), Point(2.0, 0.0), Point(2.0, 2.0), Point(0.0, 2.0)];
    var c := Point(1.0, 1.0);
    CrossingAt(c, sq, 0, 3);
    CrossingAt(c, sq, 1, 0);
    CrossingAt(c, sq, 2, 1);
    CrossingAt(c, sq, 3, 2);
    assert CrossingLng(c, sq[2], sq[1]) == 2.0;
    assert Crossings(c, sq) == [false, false, true, false];
    OneCrossingOfFour();
    OutsideBoundingBox(Point(3.0, 1.0), sq);
  }

  // ---------------------------------------------------------------- distances

  /** The segment has zero extent in raw coordinates (`dx === 0 && dy === 0`). */
  predicate Degenerate(a: Point, b: Point) {
    b.lng - a.lng == 0.0 && b.lat - a.lat == 0.0
  }

  /** The point at parameter t along the segment from a to b. */
  function Lerp(a: Point, b: Point, t: real): Point {
    Point(a.lng + t * (b.lng - a.lng), a.lat + t * (b.lat - a.lat))
  }

  /** Squared length and dot product of planar vectors given by their components. */
  function Norm2(x: real, y: real): real { Sq(x) + Sq(y) }

  function Dot2(ux: real, uy: real, dx: real, dy: real): real { ux * dx + uy * dy }

  /** The value at s of the quadratic c - 2 s d + s^2 l. */
  function Quadratic(c: real, d: real, l: real, s: real): real { c - 2.0 * s * d + s * s * l }

  /** The squared planar length of the segment, in raw coordinates. */
  function SqLength(a: Point, b: Point): (s: real)
    ensures s >= 0.0
    ensures s == 0.0 <==> Degenerate(a, b)
  {
    SumOfSquares(b.lng - a.lng, b.lat - a.lat);
    Norm2(b.lng - a.lng, b.lat - a.lat)
  }

  /** The planar dot product of (p - a) and (b - a). */
  function Dot(p: Point, a: Point, b: Point): real {
    Dot2(p.lng - a.lng, p.lat - a.lat, b.lng - a.lng, b.lat - a.lat)
  }

  /** The parameter of p's orthogonal projection onto the line through a and b. */
  function RawParam(p: Point, a: Point, b: Point): real
    requires !Degenerate(a, b)
  {
    Dot(p, a, b) / SqLength(a, b)
  }

  function Clamp01(x: real): (t: real)
    ensures 0.0 <= t <= 1.0
    ensures 0.0 <= x <= 1.0 ==> t == x
  {
    if x > 1.0 then 1.0 else if x < 0.0 then 0.0 else x
  }

  /** The point of the segment whose distance `pointToSegmentDistance` measures. */
  function ClosestPoint(p: Point, a: Point, b: Point): Point {
    if Degenerate(a, b) then a else Lerp(a, b, Clamp01(RawParam(p, a, b)))
  }

  /** `pointToSegmentDistance`. */
  function PointToSegmentDistance(dist: DistFn, p: Point, a: Point, b: Point): (d: real)
    ensures d >= 0.0
  {
    dist(p, ClosestPoint(p, a, b))
  }

  ghost predicate OnSegment(q: Point, a: Point, b: Point) {
    exists t: real {:trigger Lerp(a, b, t)} :: 0.0 <= t <= 1.0 && q == Lerp(a, b, t)
  }

  /** The squared planar distance between two positions, in raw coordinates. */
  function SqPlanar(p: Point, q: Point): real {
    Norm2(p.lng - q.lng, p.lat - q.lat)
  }

  /** The measured point is a point of the segment (the clamped parameter makes it a convex
      combination of the endpoints); a zero-length segment measures to its start; a
      projection falling before the start or beyond the end measures to that endpoint. */
  lemma ClosestPointOnSegment(dist: DistFn, p: Point, a: Point, b: Point)
    ensures OnSegment(ClosestPoint(p, a, b), a, b)
    ensures Degenerate(a, b) ==> PointToSegmentDistance(dist, p, a, b) == dist(p, a)
    ensures !Degenerate(a, b) && RawParam(p, a, b) <= 0.0 ==>
      PointToSegmentDistance(dist, p, a, b) == dist(p, a)
    ensures !Degenerate(a, b) && RawParam(p, a, b) >= 1.0 ==>
      PointToSegmentDistance(dist, p, a, b) == dist(p, b)
  {
    if Degenerate(a, b) {
      assert a == Lerp(a, b, 0.0);
    } else {
      var t := Clamp01(RawParam(p, a, b));
      assert ClosestPoint(p, a, b) == Lerp(a, b, t);
      if RawParam(p, a, b) <= 0.0 { assert Lerp(a, b, 0.0) == a; }
      if RawParam(p, a, b) >= 1.0 { assert Lerp(a, b, 1.0) == b; }
    }
  }

  lemma SquareExpand(u: real, d: real, s: real)
    ensures Sq(u - s * d) == Quadratic(Sq(u), u * d, Sq(d), s)
  {
  }

  lemma SumOfQuadratics(a1: real, b1: real, c1: real, a2: real, b2: real, c2: real, s: real)
    ensures Quadratic(a1, b1, c1, s) + Quadratic(a2, b2, c2, s) == Quadratic(a1 + a2, b1 + b2, c1 + c2, s)
  {
  }

  lemma ExpandBoth(ux: real, uy: real, dx: real, dy: real, s: real)
    ensures Norm2(ux - s * dx, uy - s * dy) == Quadratic(Norm2(ux, uy), Dot2(ux, uy, dx, dy), Norm2(dx, dy), s)
  {
    SquareExpand(ux, dx, s);
    SquareExpand(uy, dy, s);
    SumOfQuadratics(Sq(ux), ux * dx, Sq(dx), Sq(uy), uy * dy, Sq(dy), s);
  }

  lemma AlongStep(p: Point, a: Point, b: Point, s: real)
    ensures SqPlanar(p, Lerp(a, b, s)) == Norm2((p.lng - a.lng) - s * (b.lng - a.lng), (p.lat - a.lat) - s * (b.lat - a.lat))
  {
    var q := Lerp(a, b, s);
    assert p.lng - q.lng == (p.lng - a.lng) - s * (b.lng - a.lng);
    assert p.lat - q.lat == (p.lat - a.lat) - s * (b.lat - a.lat);
  }

  /** Expanding the squared planar distance from p to the point at parameter s. */
  lemma SqPlanarAlong(p: Point, a: Point, b: Point, s: real)
    ensures SqPlanar(p, Lerp(a, b, s)) == Quadratic(SqPlanar(p, a), Dot(p, a, b), SqLength(a, b), s)
  {
    AlongStep(p, a, b, s);
    ExpandBoth(p.lng - a.lng, p.lat - a.lat, b.lng - a.lng, b.lat - a.lat, s);
  }

  /** The quadratic s |-> c - 2 s dot + s^2 len, with dot = r * len and len > 0, takes on
      [0, 1] its least value at r clamped to [0, 1]. */
  lemma ClampedMinimum(c: real, dot: real, len: real, r: real, s: real)
    requires len > 0.0 && dot == r * len && 0.0 <= s <= 1.0
    ensures Quadratic(c, dot, len, Clamp01(r)) <= Quadratic(c, dot, len, s)
  {
    var t := Clamp01(r);
    var diff := (c - 2.0 * s * dot + s * s * len) - (c - 2.0 * t * dot + t * t * len);
    assert diff == (s - t) * ((s + t) * len - 2.0 * dot);
    assert (s + t) * len - 2.0 * dot == (s + t - 2.0 * r) * len;
    var k := (s - t) * (s + t - 2.0 * r);
    assert diff == k * len;
    if r < 0.0 {
      assert t == 0.0;
      assert k == s * (s - 2.0 * r);
      assert s * (s - 2.0 * r) >= 0.0;
    } else if r > 1.0 {
      assert t == 1.0;
      assert s - 1.0 <= 0.0 && s + 1.0 - 2.0 * r < 0.0;
      assert k == (1.0 - s) * (2.0 * r - s - 1.0);
      assert (1.0 - s) * (2.0 * r - s - 1.0) >= 0.0;
    } else {
      assert t == r;
      assert k == Sq(s - r);
      SquareNonNeg(s - r);
    }
    assert k >= 0.0;
    assert k * len >= 0.0;
  }

  /** Among the points of the segment, the measured one is nearest to p in the planar
      approximation the source projects in. */
  lemma ClosestPointIsPlanarNearest(p: Point, a: Point, b: Point, s: real)
    requires 0.0 <= s <= 1.0
    ensures SqPlanar(p, ClosestPoint(p, a, b)) <= SqPlanar(p, Lerp(a, b, s))
  {
    if Degenerate(a, b) {
      assert Lerp(a, b, s) == a;
    } else {
      var t := Clamp01(RawParam(p, a, b));
      calc {
        SqPlanar(p, ClosestPoint(p, a, b));
        SqPlanar(p, Lerp(a, b, t));
        { SqPlanarAlong(p, a, b, t); }
        Quadratic(SqPlanar(p, a), Dot(p, a, b), SqLength(a, b), t);
      <= { RawParamScales(p, a, b);
           ClampedMinimum(SqPlanar(p, a), Dot(p, a, b), SqLength(a, b), RawParam(p, a, b), s); }
        Quadratic(SqPlanar(p, a), Dot(p, a, b), SqLength(a, b), s);
        { SqPlanarAlong(p, a, b, s); }
        SqPlanar(p, Lerp(a, b, s));
      }
    }
  }

  lemma RawParamScales(p: Point, a: Point, b: Point)
    requires !Degenerate(a, b)
    ensures Dot(p, a, b) == RawParam(p, a, b) * SqLength(a, b)
  {
    var len := SqLength(a, b);
    calc {
      RawParam(p, a, b) * len;
      (Dot(p, a, b) / len) * len;
      Dot(p, a, b);
    }
  }

  /** The distances from p to the consecutive segments of a polyline. */
  function SegmentDistances(dist: DistFn, p: Point, path: seq<Point>): (ds: seq<Ext>)
    ensures |path| < 2 ==> ds == []
    ensures |path| >= 2 ==> |ds| == |path| - 1
  {
    if |path| < 2 then [] else
    seq(|path| - 1, i requires 0 <= i < |path| - 1 =>
      Fin(PointToSegmentDistance(dist, p, path[i], path[i + 1])))
  }

  /** What `pointToLineDistance` returns. */
  function LineDistance(dist: DistFn, p: Point, path: seq<Point>): Ext {
    MinOf(SegmentDistances(dist, p, path))
  }

  /** `pointToLineDistance` is Infinity for fewer than two vertices and otherwise the least
      distance to one of the consecutive segments. */
  lemma LineDistanceIsNearestSegment(dist: DistFn, p: Point, path: seq<Point>)
    ensures |path| < 2 ==> LineDistance(dist, p, path) == Inf
    ensures |path| >= 2 ==> LineDistance(dist, p, path).Fin?
    ensures forall i :: 0 <= i < |path| - 1 ==>
      Le(LineDistance(dist, p, path), Fin(PointToSegmentDistance(dist, p, path[i], path[i + 1])))
    ensures LineDistance(dist, p, path).Fin? ==>
      exists i :: 0 <= i < |path| - 1 &&
        LineDistance(dist, p, path).v == PointToSegmentDistance(dist, p, path[i], path[i + 1])
  {
    var ds := SegmentDistances(dist, p, path);
    forall i | 0 <= i < |path| - 1
      ensures ds[i] == Fin(PointToSegmentDistance(dist, p, path[i], path[i + 1]))
    {
    }
    if |path| >= 2 {
      assert ds[0].Fin?;
    }
    var m := MinOf(ds);
    if m.Fin? {
      var i :| 0 <= i < |ds| && ds[i] == m;
      assert m.v == PointToSegmentDistance(dist, p, path[i], path[i + 1]);
    }
  }

  /** `pointToLineDistance`: the loop keeping the least segment distance seen. */
  method PointToLineDistance(dist: DistFn, p: Point, path: seq<Point>) returns (minDist: Ext)
    ensures minDist == LineDistance(dist, p, path)
  {
    minDist := Inf;
    ghost var ds := SegmentDistances(dist, p, path);
    var i := 0;
    while i < |path| - 1
      invariant 0 <= i <= if |path| < 2 then 0 else |path| - 1
      invariant minDist == MinOf(ds[..i])
    {
      var d := PointToSegmentDistance(dist, p, path[i], path[i + 1]);
      assert ds[i] == Fin(d);
      MinOfStep(ds, i);
      if Lt(Fin(d), minDist) {
        minDist := Fin(d);
      }
      i := i + 1;
    }
    assert ds[..i] == ds;
  }
}
