/** The neighbourhood filter of `filterNeighborhoods`: a neighbourhood is kept when its
    centroid exists, the campus is within the threshold distance of it and so is the
    nearest stop of the selected transit type. */
module Filter {
  import opened Common
  import opened Geometry
  import opened Features

  /** The feature collections of `data` the engine reads (the universities are consumed by
      the campus registry). */
  datatype Layers = Layers(
    neighborhoods: seq<Feature>,
    parks: seq<Feature>,
    groceryRestaurants: seq<Feature>,
    bikeNetwork: seq<Feature>,
    busStops: seq<Feature>,
    subwayStops: seq<Feature>,
    bikeShare: seq<Feature>)

  /** An entry of `state.filteredNeighborhoods`. Its transit distance passed the threshold
      test, so it is finite. */
  datatype Candidate = Candidate(
    feature: Feature,
    centroid: Point,
    distance: real,
    transitDistance: real,
    name: string)

  /** The stops `getNearestTransitDistance` scans: the collection named by the transit type,
      and none for any other type. */
  function TransitStops(layers: Layers, transitType: string): (stops: seq<Feature>)
    ensures transitType !in {"bus", "subway", "bikeshare"} ==> stops == []
  {
    if transitType == "bus" then layers.busStops
    else if transitType == "subway" then layers.subwayStops
    else if transitType == "bikeshare" then layers.bikeShare
    else []
  }

  /** The distance to one stop as the scan sees it: stops without a geometry or whose
      geometry is not a Point are skipped, i.e. never lower the minimum. */
  function StopDistance(dist: DistFn, p: Point, f: Feature): Ext {
    if IsPointFeature(f) then Fin(dist(p, f.geometry.value.at)) else Inf
  }

  function StopDistances(dist: DistFn, p: Point, stops: seq<Feature>): (ds: seq<Ext>)
    ensures |ds| == |stops|
    ensures forall i :: 0 <= i < |stops| ==> ds[i] == StopDistance(dist, p, stops[i])
  {
    seq(|stops|, i requires 0 <= i < |stops| => StopDistance(dist, p, stops[i]))
  }

  /** What `getNearestTransitDistance` returns for the given stops. */
  function NearestTransit(dist: DistFn, p: Point, stops: seq<Feature>): Ext {
    MinOf(StopDistances(dist, p, stops))
  }

  /** The nearest-transit distance is no more than the distance to any Point stop, is the
      distance to one of them, and is Infinity exactly when there is no Point stop. */
  lemma NearestTransitIsNearestStop(dist: DistFn, p: Point, stops: seq<Feature>)
    ensures var d := NearestTransit(dist, p, stops);
      forall i :: 0 <= i < |stops| && IsPointFeature(stops[i]) ==>
        Le(d, Fin(dist(p, stops[i].geometry.value.at)))
    ensures NearestTransit(dist, p, stops).Inf? <==>
      forall i :: 0 <= i < |stops| ==> !IsPointFeature(stops[i])
    ensures var d := NearestTransit(dist, p, stops);
      d.Fin? ==> exists i :: (0 <= i < |stops| && IsPointFeature(stops[i]) &&
        d.v == dist(p, stops[i].geometry.value.at))
  {
    var ds := StopDistances(dist, p, stops);
    var d := MinOf(ds);
    forall i | 0 <= i < |stops| && IsPointFeature(stops[i])
      ensures Le(d, Fin(dist(p, stops[i].geometry.value.at)))
    {
      assert ds[i] == Fin(dist(p, stops[i].geometry.value.at));
    }
    if d.Fin? {
      var i :| 0 <= i < |ds| && ds[i] == d;
      assert IsPointFeature(stops[i]);
    }
  }

  /** An unknown transit type leaves no stop to be near: the distance is Infinity. */
  lemma UnknownTransitType(dist: DistFn, p: Point, layers: Layers, transitType: string)
    requires transitType !in {"bus", "subway", "bikeshare"}
    ensures NearestTransit(dist, p, TransitStops(layers, transitType)) == Inf
  {
    assert StopDistances(dist, p, []) == [];
  }

  /** Every neighbourhood must have a geometry `getCentroid` can read. */
  predicate AllLocated(fs: seq<Feature>) {
    forall i :: 0 <= i < |fs| ==> Located(fs[i])
  }

  /** The entry one neighbourhood contributes to the filter, if it passes: a centroid, the
      campus at most `threshold` away from it and a transit stop at most `threshold` away. */
  function Admit(dist: DistFn, stops: seq<Feature>, campus: Point, threshold: real,
                 f: Feature): (r: Option<Candidate>)
    requires Located(f)
    ensures r.Some? <==>
      && FeatureCentroid(f).Some?
      && dist(FeatureCentroid(f).value, campus) <= threshold
      && Le(NearestTransit(dist, FeatureCentroid(f).value, stops), Fin(threshold))
    ensures r.Some? ==>
      && r.value.feature == f
      && r.value.centroid == FeatureCentroid(f).value
      && r.value.distance == dist(r.value.centroid, campus)
      && Fin(r.value.transitDistance) == NearestTransit(dist, r.value.centroid, stops)
      && r.value.name == DisplayName(f)
  {
    var c := FeatureCentroid(f);
    if c.None? then None
    else
      var distance := dist(c.value, campus);
      var transitDist := NearestTransit(dist, c.value, stops);
      if distance <= threshold && Le(transitDist, Fin(threshold)) then
        Some(Candidate(f, c.value, distance, transitDist.v, DisplayName(f)))
      else None
  }

  /** `state.filteredNeighborhoods` after the filter loop: the admitted entries in input
      order. */
  function Filtered(dist: DistFn, stops: seq<Feature>, campus: Point, threshold: real,
                    fs: seq<Feature>): (cs: seq<Candidate>)
    requires AllLocated(fs)
    ensures |cs| <= |fs|
  {
    if |fs| == 0 then []
    else
      var front := fs[..|fs| - 1];
      var a := Admit(dist, stops, campus, threshold, fs[|fs| - 1]);
      Filtered(dist, stops, campus, threshold, front) + if a.Some? then [a.value] else []
  }

  /** Which neighbourhoods pass. */
  function PassFlags(dist: DistFn, stops: seq<Feature>, campus: Point, threshold: real,
                     fs: seq<Feature>): (bs: seq<bool>)
    requires AllLocated(fs)
    ensures |bs| == |fs|
    ensures forall i :: 0 <= i < |fs| ==> bs[i] == Admit(dist, stops, campus, threshold, fs[i]).Some?
  {
    seq(|fs|, i requires 0 <= i < |fs| => Admit(dist, stops, campus, threshold, fs[i]).Some?)
  }

  /** The positions of the neighbourhoods that pass, in increasing order. */
  function Passing(dist: DistFn, stops: seq<Feature>, campus: Point, threshold: real,
                   fs: seq<Feature>): seq<nat>
    requires AllLocated(fs)
  {
    Positions(PassFlags(dist, stops, campus, threshold, fs))
  }

  /** The filter keeps exactly the neighbourhoods that pass, in input order: its k-th entry
      is the one the k-th passing neighbourhood yields. */
  lemma {:induction false} FilteredIsPassing(dist: DistFn, stops: seq<Feature>, campus: Point,
                                             threshold: real, fs: seq<Feature>)
    requires AllLocated(fs)
    ensures var cs := Filtered(dist, stops, campus, threshold, fs);
      var idx := Passing(dist, stops, campus, threshold, fs);
      && |cs| == |idx|
      && forall k :: 0 <= k < |cs| ==>
           Admit(dist, stops, campus, threshold, fs[idx[k]]) == Some(cs[k])
  {
    if |fs| > 0 {
      var n := |fs| - 1;
      var front := fs[..n];
      assert AllLocated(front);
      FilteredIsPassing(dist, stops, campus, threshold, front);
      var bs := PassFlags(dist, stops, campus, threshold, fs);
      assert PassFlags(dist, stops, campus, threshold, front) == bs[..n];
    }
  }

  /** Every kept entry is within the threshold of the campus and of a transit stop, and
      carries its own neighbourhood's centroid, distances and name. */
  lemma {:induction false} FilteredWithinThreshold(dist: DistFn, stops: seq<Feature>, campus: Point,
                                                   threshold: real, fs: seq<Feature>)
    requires AllLocated(fs)
    ensures forall c :: c in Filtered(dist, stops, campus, threshold, fs) ==>
      && c.distance <= threshold
      && c.transitDistance <= threshold
      && c.distance == dist(c.centroid, campus)
      && Fin(c.transitDistance) == NearestTransit(dist, c.centroid, stops)
      && c.feature in fs
  {
    if |fs| > 0 {
      var n := |fs| - 1;
      var front := fs[..n];
      assert AllLocated(front);
      FilteredWithinThreshold(dist, stops, campus, threshold, front);
      assert forall x :: x in front ==> x in fs;
    }
  }

  /** One step of the filter loop: visiting neighbourhood i appends its entry if it has one. */
  lemma FilteredStep(dist: DistFn, stops: seq<Feature>, campus: Point, threshold: real,
                     fs: seq<Feature>, i: nat)
    requires AllLocated(fs) && i < |fs|
    ensures AllLocated(fs[..i]) && AllLocated(fs[..i + 1])
    ensures var a := Admit(dist, stops, campus, threshold, fs[i]);
      Filtered(dist, stops, campus, threshold, fs[..i + 1]) ==
        Filtered(dist, stops, campus, threshold, fs[..i]) + if a.Some? then [a.value] else []
  {
    assert fs[..i + 1][..i] == fs[..i];
  }
}
