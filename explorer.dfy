/** The engine's `state` object and the operations that update it in place: the
    neighbourhood filter of `filterNeighborhoods`, the metrics of
    `calculateNeighborhoodMetrics`, the two passes of `calculateScores` and the re-weighting
    of `updateScores`. The data collections and the distance function are fixed for the
    life of the object; the user's settings are plain fields. */
module Engine {
  import opened Common
  import opened Geometry
  import opened Features
  import opened Config
  import opened Filter
  import opened Metrics
  import opened Scoring

  /** A first-pass entry: the raw metrics, before the second pass adds its fields. */
  function Unscored(m: RawMetrics): Scored {
    Scored(m, 0.0, 0.0, 0.0, 0.0, None, 0.0)
  }

  class Explorer {
    /** `haversineDistance`. */
    const dist: DistFn
    /** The loaded collections of `data`. */
    const data: Layers

    var transitType: string
    var selectedCampus: Option<Point>
    var travelMode: string
    var timeThreshold: int
    var weights: Weights
    var filteredNeighborhoods: seq<Candidate>
    var neighborhoodScores: map<string, Scored>

    /** The initial `state`. */
    constructor (dist: DistFn, data: Layers)
      ensures this.dist == dist && this.data == data
      ensures transitType == "bus" && selectedCampus == None && travelMode == "walk"
      ensures timeThreshold == 15 && weights == DefaultWeights
      ensures filteredNeighborhoods == [] && neighborhoodScores == map[]
      ensures Valid()
    {
      this.dist := dist;
      this.data := data;
      transitType := "bus";
      selectedCampus := None;
      travelMode := "walk";
      timeThreshold := 15;
      weights := DefaultWeights;
      filteredNeighborhoods := [];
      neighborhoodScores := map[];
    }

    /** The invariant every operation keeps: no entry of the scores dictionary has a
        transit criterion, since nothing ever sets `normalizedTransit`. */
    ghost predicate Valid()
      reads this
    {
      forall k :: k in neighborhoodScores ==> neighborhoodScores[k].normalizedTransit.None?
    }

    /** The user's settings are as they were on entry. */
    twostate predicate SettingsKept()
      reads this
    {
      && transitType == old(transitType)
      && selectedCampus == old(selectedCampus)
      && travelMode == old(travelMode)
      && timeThreshold == old(timeThreshold)
      && weights == old(weights)
    }

    /** `getNearestTransitDistance`: the scan over the stops of the selected transit type. */
    method NearestTransitDistance(p: Point) returns (minDist: Ext)
      ensures minDist == NearestTransit(dist, p, TransitStops(data, transitType))
    {
      var features: seq<Feature> := [];
      if transitType == "bus" {
        features := data.busStops;
      } else if transitType == "subway" {
        features := data.subwayStops;
      } else if transitType == "bikeshare" {
        features := data.bikeShare;
      }
      ghost var ds := StopDistances(dist, p, features);
      minDist := Inf;
      for i := 0 to |features|
        invariant minDist == MinOf(ds[..i])
      {
        MinOfStep(ds, i);
        var f := features[i];
        if !IsPointFeature(f) {
          continue;
        }
        var d := dist(p, f.geometry.value.at);
        if Lt(Fin(d), minDist) {
          minDist := Fin(d);
        }
      }
      assert ds[..|features|] == ds;
    }

    /** `calculateNeighborhoodMetrics`: the park count, the shop counts and the bike scan. */
    method CalculateNeighborhoodMetrics(n: Candidate) returns (m: RawMetrics)
      requires Readable(data)
      ensures m == NeighborhoodMetrics(dist, data, n)
    {
      var centroid := n.centroid;

      var parksCount: nat := 0;
      ghost var parkFlags := ParkFlags(dist, centroid, data.parks);
      for i := 0 to |data.parks|
        invariant parksCount == CountTrue(parkFlags[..i])
      {
        CountTrueStep(parkFlags, i);
        var parkCentroid := GetCentroid(data.parks[i].geometry.value);
        if parkCentroid.Some? {
          var d := dist(centroid, parkCentroid.value);
          if d <= AmenityRadius {
            parksCount := parksCount + 1;
          }
        }
      }
      assert parkFlags[..|data.parks|] == parkFlags;

      var groceryCount: nat := 0;
      var restaurantCount: nat := 0;
      var shops := data.groceryRestaurants;
      ghost var groceryFlags := ShopFlags(dist, centroid, shops, true);
      ghost var restaurantFlags := ShopFlags(dist, centroid, shops, false);
      for i := 0 to |shops|
        invariant groceryCount == CountTrue(groceryFlags[..i])
        invariant restaurantCount == CountTrue(restaurantFlags[..i])
      {
        CountTrueStep(groceryFlags, i);
        CountTrueStep(restaurantFlags, i);
        var amenity := shops[i];
        if !amenity.geometry.value.PointGeom? {
          continue;
        }
        var d := dist(centroid, amenity.geometry.value.at);
        if d <= AmenityRadius {
          if IsGrocery(amenity) {
            groceryCount := groceryCount + 1;
          } else {
            restaurantCount := restaurantCount + 1;
          }
        }
      }
      assert groceryFlags[..|shops|] == groceryFlags;
      assert restaurantFlags[..|shops|] == restaurantFlags;

      var minBikeDistance := Inf;
      ghost var bikeDistances := BikeDistances(dist, centroid, data.bikeNetwork);
      for i := 0 to |data.bikeNetwork|
        invariant minBikeDistance == MinOf(bikeDistances[..i])
      {
        MinOfStep(bikeDistances, i);
        var g := data.bikeNetwork[i].geometry.value;
        var d := Inf;
        if IsPath(g) {
          d := PointToLineDistance(dist, centroid, g.path);
        }
        if Lt(d, minBikeDistance) {
          minBikeDistance := d;
        }
      }
      assert bikeDistances[..|data.bikeNetwork|] == bikeDistances;

      m := RawMetrics(n.distance, parksCount, groceryCount + restaurantCount, restaurantCount,
                      BikeAccess(minBikeDistance), minBikeDistance,
                      TransitOrInfinity(n.transitDistance));
    }

    /** `calculateScores`: the first pass stores each neighbourhood's metrics under its name
        and keeps the running maxima; the second pass normalises and weights the entry of
        each filtered name. */
    method CalculateScores()
      requires Readable(data)
      modifies this
      ensures SettingsKept() && filteredNeighborhoods == old(filteredNeighborhoods)
      ensures neighborhoodScores == ScoreTable(dist, data, filteredNeighborhoods, weights)
      ensures Valid()
    {
      neighborhoodScores := map[];
      var maxima := StoreMetrics();
      ghost var stored := neighborhoodScores;
      KeyedKeys(Names(filteredNeighborhoods), MetricsOf(dist, data, filteredNeighborhoods));
      forall j | 0 <= j < |filteredNeighborhoods|
        ensures filteredNeighborhoods[j].name in neighborhoodScores
      {
        assert Names(filteredNeighborhoods)[j] == filteredNeighborhoods[j].name;
      }
      NormalizeScores(maxima);
      ScoreTableByPasses(dist, data, filteredNeighborhoods, stored, weights);
    }

    /** The first pass of `calculateScores`, starting from an empty dictionary: the metrics
        of each filtered neighbourhood are stored under its name, and the running maxima
        (each starting from 0) are returned. */
    method StoreMetrics() returns (maxima: Maxima)
      requires Readable(data) && neighborhoodScores == map[]
      modifies this
      ensures SettingsKept() && filteredNeighborhoods == old(filteredNeighborhoods)
      ensures maxima == MaximaOf(MetricsOf(dist, data, filteredNeighborhoods))
      ensures forall k :: k in neighborhoodScores <==> k in RawTable(dist, data, filteredNeighborhoods)
      ensures forall k :: k in neighborhoodScores ==>
        neighborhoodScores[k] == Unscored(RawTable(dist, data, filteredNeighborhoods)[k])
      ensures Valid()
    {
      var ns := filteredNeighborhoods;
      var maxDistance, maxParks, maxGrocery, maxBikeAccess, maxTransitDistance := 0.0, 0.0, 0.0, 0.0, 0.0;
      ghost var names := Names(ns);
      ghost var all := MetricsOf(dist, data, ns);
      ghost var raw: map<string, RawMetrics> := map[];
      for i := 0 to |ns|
        invariant SettingsKept() && filteredNeighborhoods == ns
        invariant raw == Keyed(names[..i], all[..i])
        invariant neighborhoodScores.Keys == raw.Keys
        invariant forall k :: k in raw ==> neighborhoodScores[k] == Unscored(raw[k])
        invariant Maxima(maxDistance, maxParks, maxGrocery, maxBikeAccess) == MaximaOf(all[..i])
      {
        var metrics := CalculateNeighborhoodMetrics(ns[i]);
        KeyedStep(names, all, i);
        MaximaStep(all, i);
        raw := raw[ns[i].name := metrics];
        neighborhoodScores := neighborhoodScores[ns[i].name := Unscored(metrics)];
        maxDistance := Max(maxDistance, metrics.distance);
        maxParks := Max(maxParks, metrics.parksCount as real);
        maxGrocery := Max(maxGrocery, metrics.groceryCount as real);
        maxBikeAccess := Max(maxBikeAccess, metrics.bikeAccessScore);
        maxTransitDistance := Max(maxTransitDistance, ns[i].transitDistance);
      }
      assert names[..|ns|] == names;
      assert all[..|ns|] == all;
      maxima := Maxima(maxDistance, maxParks, maxGrocery, maxBikeAccess);
    }

    /** The second pass of `calculateScores`: the entry of every filtered name is normalised
        against the maxima and given its weighted final score. */
    method NormalizeScores(maxima: Maxima)
      requires forall j :: 0 <= j < |filteredNeighborhoods| ==>
        filteredNeighborhoods[j].name in neighborhoodScores
      requires Valid()
      modifies this
      ensures SettingsKept() && filteredNeighborhoods == old(filteredNeighborhoods)
      ensures neighborhoodScores ==
        NormalizePass(old(neighborhoodScores), Names(filteredNeighborhoods), maxima, weights)
      ensures Valid()
    {
      var ns := filteredNeighborhoods;
      ghost var names := Names(ns);
      for i := 0 to |ns|
        invariant SettingsKept() && filteredNeighborhoods == ns
        invariant neighborhoodScores == NormalizePass(old(neighborhoodScores), names[..i], maxima, weights)
        invariant Valid()
      {
        assert names[..i + 1][..i] == names[..i];
        var name := ns[i].name;
        var metrics := neighborhoodScores[name];
        var entry := Normalize(metrics.raw, maxima, weights);
        neighborhoodScores := neighborhoodScores[name := entry];
      }
      assert names[..|ns|] == names;
    }

    /** `filterNeighborhoods`: with a campus selected and a valid time threshold, the list
        is rebuilt from the neighbourhoods that pass both distance tests, then scored.
        Without a campus nothing happens; with a time the table lacks the source throws
        before touching the state, which the model renders as no change. */
    method FilterNeighborhoods()
      requires Readable(data) && Valid()
      modifies this
      ensures SettingsKept() && Valid()
      ensures selectedCampus.None? || ThresholdDistance(timeThreshold, travelMode).None? ==>
        filteredNeighborhoods == old(filteredNeighborhoods) &&
        neighborhoodScores == old(neighborhoodScores)
      ensures selectedCampus.Some? && ThresholdDistance(timeThreshold, travelMode).Some? ==>
        && filteredNeighborhoods ==
             Filtered(dist, TransitStops(data, transitType), selectedCampus.value,
                      ThresholdDistance(timeThreshold, travelMode).value, data.neighborhoods)
        && neighborhoodScores == ScoreTable(dist, data, filteredNeighborhoods, weights)
    {
      if selectedCampus.None? {
        return;
      }
      var thresholdDistance := ThresholdDistance(timeThreshold, travelMode);
      if thresholdDistance.None? {
        return;
      }
      var campus := selectedCampus.value;
      var threshold := thresholdDistance.value;
      ghost var stops := TransitStops(data, transitType);
      var fs := data.neighborhoods;

      filteredNeighborhoods := [];
      for i := 0 to |fs|
        invariant SettingsKept()
        invariant AllLocated(fs[..i])
        invariant filteredNeighborhoods == Filtered(dist, stops, campus, threshold, fs[..i])
      {
        FilteredStep(dist, stops, campus, threshold, fs, i);
        var feature := fs[i];
        var centroid := GetCentroid(feature.geometry.value);
        if centroid.None? {
          continue;
        }
        var distance := dist(centroid.value, campus);
        var transitDist := NearestTransitDistance(centroid.value);
        if distance <= threshold && Le(transitDist, Fin(threshold)) {
          filteredNeighborhoods := filteredNeighborhoods +
            [Candidate(feature, centroid.value, distance, transitDist.v, DisplayName(feature))];
        }
      }
      assert fs[..|fs|] == fs;

      CalculateScores();
    }

    /** `updateScores`: each filtered name's entry gets a final score recomputed from its
        stored criteria with the current weights; names without an entry are skipped. Since
        no entry has a transit criterion, every filtered name's entry ends up with the weighted
        sum of its criteria under the current weights, and nothing else in it changes. */
    method UpdateScores()
      requires Valid()
      modifies this
      ensures SettingsKept() && filteredNeighborhoods == old(filteredNeighborhoods)
      ensures neighborhoodScores ==
        RescoreTable(old(neighborhoodScores), Names(filteredNeighborhoods), weights)
      ensures Valid()
      ensures forall k :: k in neighborhoodScores ==>
        && neighborhoodScores[k] == old(neighborhoodScores)[k].(finalScore := neighborhoodScores[k].finalScore)
        && (k in Names(filteredNeighborhoods) ==>
              neighborhoodScores[k].finalScore == WeightedSum(neighborhoodScores[k], weights))
    {
      if |filteredNeighborhoods| == 0 {
        return;
      }
      var ns := filteredNeighborhoods;
      ghost var names := Names(ns);
      for i := 0 to |ns|
        invariant SettingsKept() && filteredNeighborhoods == ns
        invariant neighborhoodScores == RescoreTable(old(neighborhoodScores), names[..i], weights)
      {
        assert names[..i + 1][..i] == names[..i];
        var name := ns[i].name;
        if name !in neighborhoodScores {
          continue;
        }
        var metrics := neighborhoodScores[name];
        var transit := if metrics.normalizedTransit.Some? then metrics.normalizedTransit.value else 0.0;
        var finalScore := metrics.normalizedDistance * weights.distance +
                          metrics.normalizedParks * weights.parks +
                          metrics.normalizedGrocery * weights.grocery +
                          metrics.normalizedBike * weights.bikeAccess +
                          transit * weights.transit;
        assert metrics.(finalScore := finalScore) == Rescore(metrics, weights);
        neighborhoodScores := neighborhoodScores[name := metrics.(finalScore := finalScore)];
      }
      assert names[..|ns|] == names;
      RescoreTableEntries(old(neighborhoodScores), names, weights);
    }
  }
}
