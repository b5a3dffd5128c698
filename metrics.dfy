/** `calculateNeighborhoodMetrics`: the raw measurements of one filtered neighbourhood —
    parks and shops within the amenity radius of its centroid, how close the bike network
    comes, and the distances the filter already computed. */
module Metrics {
  import opened Common
  import opened Geometry
  import opened Features
  import opened Config
  import opened Filter

  /** The object `calculateNeighborhoodMetrics` returns. */
  datatype RawMetrics = RawMetrics(
    distance: real,
    parksCount: nat,
    groceryCount: nat,
    restaurantCount: nat,
    bikeAccessScore: real,
    minBikeDistance: Ext,
    minTransitDistance: Ext)

  /** What the metrics read of the data without throwing: parks have geometries
      `getCentroid` accepts, every shop has a geometry, and every bike segment has a
      geometry with coordinates (`pointToLineDistance` reads their `length`, which a
      GeometryCollection lacks). */
  predicate Readable(layers: Layers) {
    && AllLocated(layers.neighborhoods)
    && AllLocated(layers.parks)
    && (forall i :: 0 <= i < |layers.groceryRestaurants| ==>
          layers.groceryRestaurants[i].geometry.Some?)
    && (forall i :: 0 <= i < |layers.bikeNetwork| ==> HasCoordinates(layers.bikeNetwork[i]))
  }

  predicate HasCoordinates(f: Feature) {
    f.geometry.Some? && !f.geometry.value.GeometryCollection?
  }

  /** A park counts when it has a centroid within the amenity radius. */
  predicate NearPark(dist: DistFn, c: Point, park: Feature)
    requires Located(park)
  {
    FeatureCentroid(park).Some? && dist(c, FeatureCentroid(park).value) <= AmenityRadius
  }

  /** A shop counts when it is a Point within the amenity radius. */
  predicate NearShop(dist: DistFn, c: Point, shop: Feature) {
    IsPointFeature(shop) && dist(c, shop.geometry.value.at) <= AmenityRadius
  }

  function ParkFlags(dist: DistFn, c: Point, parks: seq<Feature>): (bs: seq<bool>)
    requires AllLocated(parks)
    ensures |bs| == |parks|
    ensures forall i :: 0 <= i < |parks| ==> bs[i] == NearPark(dist, c, parks[i])
  {
    seq(|parks|, i requires 0 <= i < |parks| => NearPark(dist, c, parks[i]))
  }

  /** Which shops are nearby and of the requested kind (groceries or not). */
  function ShopFlags(dist: DistFn, c: Point, shops: seq<Feature>, grocery: bool): (bs: seq<bool>)
    ensures |bs| == |shops|
    ensures forall i :: 0 <= i < |shops| ==>
      bs[i] == (NearShop(dist, c, shops[i]) && IsGrocery(shops[i]) == grocery)
  {
    seq(|shops|, i requires 0 <= i < |shops| =>
      NearShop(dist, c, shops[i]) && IsGrocery(shops[i]) == grocery)
  }

  /** Which shops are nearby, whatever their kind. */
  function NearShopFlags(dist: DistFn, c: Point, shops: seq<Feature>): (bs: seq<bool>)
    ensures |bs| == |shops|
    ensures forall i :: 0 <= i < |shops| ==> bs[i] == NearShop(dist, c, shops[i])
  {
    seq(|shops|, i requires 0 <= i < |shops| => NearShop(dist, c, shops[i]))
  }

  /** The distance the bike scan sees for one segment: `pointToLineDistance` of the
      positions of a LineString or a MultiPoint. The coordinates of a Point, a
      MultiLineString, a Polygon or a MultiPolygon are not a list of positions: indexing a
      number gives `undefined` and subtracting arrays gives NaN, and NaN never passes
      `dist < minBikeDistance`, so such a segment counts as Infinity. */
  function SegmentDistance(dist: DistFn, c: Point, segment: Feature): Ext {
    if segment.geometry.Some? && IsPath(segment.geometry.value) then
      LineDistance(dist, c, segment.geometry.value.path)
    else Inf
  }

  function BikeDistances(dist: DistFn, c: Point, network: seq<Feature>): (ds: seq<Ext>)
    ensures |ds| == |network|
    ensures forall i :: 0 <= i < |network| ==> ds[i] == SegmentDistance(dist, c, network[i])
  {
    seq(|network|, i requires 0 <= i < |network| => SegmentDistance(dist, c, network[i]))
  }

  /** `Math.max(0, 1 - minBikeDistance / 1000)`, with `Infinity` giving 0. */
  function BikeAccess(minBikeDistance: Ext): (score: real)
    ensures score >= 0.0
    ensures minBikeDistance.Inf? ==> score == 0.0
    ensures minBikeDistance.Fin? ==> (score > 0.0 <==> minBikeDistance.v < 1000.0)
    ensures minBikeDistance.Fin? && minBikeDistance.v >= 0.0 ==> score <= 1.0
    ensures minBikeDistance == Fin(0.0) ==> score == 1.0
  {
    match minBikeDistance
    case Inf => 0.0
    case Fin(v) => if 1.0 - v / 1000.0 > 0.0 then 1.0 - v / 1000.0 else 0.0
  }

  /** A nearer bike lane never gives a lower score. */
  lemma BikeAccessMonotone(a: Ext, b: Ext)
    requires Le(a, b)
    ensures BikeAccess(a) >= BikeAccess(b)
  {
    if a.Fin? && b.Fin? {
      assert a.v / 1000.0 <= b.v / 1000.0;
    }
  }

  /** `neighborhood.transitDistance || Infinity`: a distance of 0 is falsy and reads as
      Infinity. */
  function TransitOrInfinity(transitDistance: real): (e: Ext)
    ensures e.Inf? <==> transitDistance == 0.0
    ensures e.Fin? ==> e.v == transitDistance
  {
    if transitDistance == 0.0 then Inf else Fin(transitDistance)
  }

  /** What `calculateNeighborhoodMetrics` returns for a filtered neighbourhood. */
  function NeighborhoodMetrics(dist: DistFn, layers: Layers, n: Candidate): RawMetrics
    requires Readable(layers)
  {
    var c := n.centroid;
    var shops := layers.groceryRestaurants;
    var groceries := CountTrue(ShopFlags(dist, c, shops, true));
    var restaurants := CountTrue(ShopFlags(dist, c, shops, false));
    var minBike := MinOf(BikeDistances(dist, c, layers.bikeNetwork));
    RawMetrics(
      n.distance,
      CountTrue(ParkFlags(dist, c, layers.parks)),
      groceries + restaurants,
      restaurants,
      BikeAccess(minBike),
      minBike,
      TransitOrInfinity(n.transitDistance))
  }

  /** The parks count is the number of parks with a centroid within the radius; the
      `groceryCount` field counts every nearby Point shop (groceries and restaurants
      together) and the restaurants are among them; the bike score lies in [0, 1] and is
      positive exactly when the nearest segment is nearer than 1000 meters. */
  lemma {:induction false} MetricsMeaning(dist: DistFn, layers: Layers, n: Candidate)
    requires Readable(layers)
    ensures var m := NeighborhoodMetrics(dist, layers, n);
      && m.distance == n.distance
      && m.parksCount == |set i | 0 <= i < |layers.parks| && NearPark(dist, n.centroid, layers.parks[i])|
      && m.groceryCount ==
           |set i | 0 <= i < |layers.groceryRestaurants| &&
                    NearShop(dist, n.centroid, layers.groceryRestaurants[i])|
      && m.restaurantCount ==
           |set i | 0 <= i < |layers.groceryRestaurants| &&
                    NearShop(dist, n.centroid, layers.groceryRestaurants[i]) &&
                    !IsGrocery(layers.groceryRestaurants[i])|
      && m.restaurantCount <= m.groceryCount
      && 0.0 <= m.bikeAccessScore <= 1.0
      && (m.bikeAccessScore > 0.0 <==> Lt(m.minBikeDistance, Fin(1000.0)))
  {
    var c := n.centroid;
    var shops := layers.groceryRestaurants;
    var parks := ParkFlags(dist, c, layers.parks);
    var near := NearShopFlags(dist, c, shops);
    var groc := ShopFlags(dist, c, shops, true);
    var rest := ShopFlags(dist, c, shops, false);
    CountTrueIsCardinality(parks);
    assert (set i | 0 <= i < |parks| && parks[i]) ==
      set i | 0 <= i < |layers.parks| && NearPark(dist, c, layers.parks[i]);
    CountTrueSplit(near, groc, rest);
    CountTrueIsCardinality(near);
    assert (set i | 0 <= i < |near| && near[i]) ==
      set i | 0 <= i < |shops| && NearShop(dist, c, shops[i]);
    CountTrueIsCardinality(rest);
    assert (set i | 0 <= i < |rest| && rest[i]) ==
      set i | 0 <= i < |shops| && NearShop(dist, c, shops[i]) && !IsGrocery(shops[i]);
    BikeDistanceNonNeg(dist, c, layers.bikeNetwork);
  }

  /** The nearest bike segment is never at a negative distance. */
  lemma BikeDistanceNonNeg(dist: DistFn, c: Point, network: seq<Feature>)
    ensures var m := MinOf(BikeDistances(dist, c, network));
      m.Fin? ==> m.v >= 0.0
  {
    var ds := BikeDistances(dist, c, network);
    var m := MinOf(ds);
    if m.Fin? {
      var i :| 0 <= i < |ds| && ds[i] == m;
      var seg := network[i];
      assert seg.geometry.Some? && IsPath(seg.geometry.value);
      LineDistanceNonNeg(dist, c, seg.geometry.value.path);
    }
  }

  lemma LineDistanceNonNeg(dist: DistFn, c: Point, path: seq<Point>)
    ensures LineDistance(dist, c, path).Fin? ==> LineDistance(dist, c, path).v >= 0.0
  {
    LineDistanceIsNearestSegment(dist, c, path);
  }
}
