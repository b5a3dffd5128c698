/** `calculateScores` and `updateScores`: each filtered neighbourhood's metrics are scaled
    against the largest value of each metric among all filtered neighbourhoods and combined
    with the weights into a final score; the results live in a dictionary keyed by name. */
module Scoring {
  import opened Common
  import opened Geometry
  import opened Config
  import opened Filter
  import opened Metrics

  /** An entry of `state.neighborhoodScores`: the raw metrics plus the fields the second
      pass adds. `normalizedTransit` is never assigned by the engine; it stays `None`. */
  datatype Scored = Scored(
    raw: RawMetrics,
    normalizedDistance: real,
    normalizedParks: real,
    normalizedGrocery: real,
    normalizedBike: real,
    normalizedTransit: Option<real>,
    finalScore: real)

  /** The running maxima of the first pass (`maxTransitDistance` is computed by the source
      but never read, and is not kept). */
  datatype Maxima = Maxima(distance: real, parks: real, grocery: real, bike: real)

  /** The metrics of every filtered neighbourhood, in filter order. */
  function MetricsOf(dist: DistFn, layers: Layers, ns: seq<Candidate>): (ms: seq<RawMetrics>)
    requires Readable(layers)
    ensures |ms| == |ns|
    ensures forall i :: 0 <= i < |ns| ==> ms[i] == NeighborhoodMetrics(dist, layers, ns[i])
  {
    seq(|ns|, i requires 0 <= i < |ns| => NeighborhoodMetrics(dist, layers, ns[i]))
  }

  /** The four `Math.max` scans of the first pass, each starting from 0. */
  function MaximaOf(ms: seq<RawMetrics>): (mx: Maxima)
    ensures mx.distance >= 0.0 && mx.parks >= 0.0 && mx.grocery >= 0.0 && mx.bike >= 0.0
    ensures forall i :: 0 <= i < |ms| ==>
      && ms[i].distance <= mx.distance
      && ms[i].parksCount as real <= mx.parks
      && ms[i].groceryCount as real <= mx.grocery
      && ms[i].bikeAccessScore <= mx.bike
  {
    Maxima(
      MaxOf(Column(ms, DistanceOf)),
      MaxOf(Column(ms, ParksOf)),
      MaxOf(Column(ms, GroceryOf)),
      MaxOf(Column(ms, BikeOf)))
  }

  // The four fields the maxima are taken over, as reals.
  function DistanceOf(m: RawMetrics): real { m.distance }
  function ParksOf(m: RawMetrics): real { m.parksCount as real }
  function GroceryOf(m: RawMetrics): real { m.groceryCount as real }
  function BikeOf(m: RawMetrics): real { m.bikeAccessScore }

  /** One field of every entry. */
  function Column(ms: seq<RawMetrics>, field: RawMetrics -> real): (xs: seq<real>)
    ensures |xs| == |ms|
    ensures forall i :: 0 <= i < |ms| ==> xs[i] == field(ms[i])
  {
    seq(|ms|, i requires 0 <= i < |ms| => field(ms[i]))
  }

  /** The step of the first pass that visits entry i: each maximum becomes `Math.max` of
      itself and the new metric. */
  lemma MaximaStep(ms: seq<RawMetrics>, i: nat)
    requires i < |ms|
    ensures var mx := MaximaOf(ms[..i]);
      MaximaOf(ms[..i + 1]) ==
        Maxima(Max(mx.distance, ms[i].distance), Max(mx.parks, ms[i].parksCount as real),
               Max(mx.grocery, ms[i].groceryCount as real), Max(mx.bike, ms[i].bikeAccessScore))
  {
    var front := ms[..i];
    var m := ms[i];
    assert ms[..i + 1] == front + [m];
    ColumnAppend(front, m, DistanceOf);
    ColumnAppend(front, m, ParksOf);
    ColumnAppend(front, m, GroceryOf);
    ColumnAppend(front, m, BikeOf);
    MaxOfAppend(Column(front, DistanceOf), m.distance);
    MaxOfAppend(Column(front, ParksOf), m.parksCount as real);
    MaxOfAppend(Column(front, GroceryOf), m.groceryCount as real);
    MaxOfAppend(Column(front, BikeOf), m.bikeAccessScore);
  }

  lemma ColumnAppend(ms: seq<RawMetrics>, m: RawMetrics, field: RawMetrics -> real)
    ensures Column(ms + [m], field) == Column(ms, field) + [field(m)]
  {
  }

  /** The weighted sum of the four normalised criteria; the transit criterion is not part
      of it. */
  function WeightedSum(s: Scored, w: Weights): real {
    Weighted(s.normalizedDistance, w.distance) + Weighted(s.normalizedParks, w.parks) +
    Weighted(s.normalizedGrocery, w.grocery) + Weighted(s.normalizedBike, w.bikeAccess)
  }

  /** One criterion times its weight, kept behind a name so that the solver treats the
      product as a single term. */
  function Weighted(x: real, weight: real): real { x * weight }

  /** The second pass for one entry: each metric scaled to [0, 1] against its maximum
      (distance inverted, so nearer is better), then weighted. */
  function Normalize(m: RawMetrics, mx: Maxima, w: Weights): (s: Scored)
    ensures s.raw == m && s.normalizedTransit.None?
    ensures s.finalScore == WeightedSum(s, w)
    ensures mx.distance == 0.0 ==> s.normalizedDistance == 1.0
    ensures mx.parks == 0.0 ==> s.normalizedParks == 0.0
    ensures mx.grocery == 0.0 ==> s.normalizedGrocery == 0.0
    ensures mx.bike == 0.0 ==> s.normalizedBike == 0.0
  {
    var d := if mx.distance > 0.0 then 1.0 - m.distance / mx.distance else 1.0;
    var p := if mx.parks > 0.0 then m.parksCount as real / mx.parks else 0.0;
    var g := if mx.grocery > 0.0 then m.groceryCount as real / mx.grocery else 0.0;
    var b := if mx.bike > 0.0 then m.bikeAccessScore / mx.bike else 0.0;
    Scored(m, d, p, g, b, None, d * w.distance + p * w.parks + g * w.grocery + b * w.bikeAccess)
  }

  /** A value between 0 and its maximum scales into [0, 1]; the maximum itself scales to 1. */
  lemma RatioBetween(x: real, mx: real)
    requires mx > 0.0 && 0.0 <= x <= mx
    ensures 0.0 <= x / mx <= 1.0
    ensures x == mx ==> x / mx == 1.0
  {
    QuotientBetween(x, mx, 0.0, 1.0);
  }

  /** With non-negative metrics no larger than the maxima, every normalised criterion lies
      in [0, 1]; the holder of a positive maximum gets 1 for parks, shops and bike access,
      and the farthest neighbourhood gets a distance score of 0. */
  lemma NormalizeBounds(m: RawMetrics, mx: Maxima, w: Weights)
    requires 0.0 <= m.distance <= mx.distance
    requires m.parksCount as real <= mx.parks && m.groceryCount as real <= mx.grocery
    requires 0.0 <= m.bikeAccessScore <= mx.bike
    ensures var s := Normalize(m, mx, w);
      && 0.0 <= s.normalizedDistance <= 1.0
      && 0.0 <= s.normalizedParks <= 1.0
      && 0.0 <= s.normalizedGrocery <= 1.0
      && 0.0 <= s.normalizedBike <= 1.0
    ensures var s := Normalize(m, mx, w);
      && (m.parksCount as real == mx.parks > 0.0 ==> s.normalizedParks == 1.0)
      && (m.groceryCount as real == mx.grocery > 0.0 ==> s.normalizedGrocery == 1.0)
      && (m.bikeAccessScore == mx.bike > 0.0 ==> s.normalizedBike == 1.0)
      && (m.distance == mx.distance > 0.0 ==> s.normalizedDistance == 0.0)
  {
    if mx.distance > 0.0 { RatioBetween(m.distance, mx.distance); }
    if mx.parks > 0.0 { RatioBetween(m.parksCount as real, mx.parks); }
    if mx.grocery > 0.0 { RatioBetween(m.groceryCount as real, mx.grocery); }
    if mx.bike > 0.0 { RatioBetween(m.bikeAccessScore, mx.bike); }
  }

  /** The weights of the four criteria the final score uses. */
  function ScoreWeightTotal(w: Weights): real {
    w.distance + w.parks + w.grocery + w.bikeAccess
  }

  predicate NonNegWeights(w: Weights) {
    w.distance >= 0.0 && w.parks >= 0.0 && w.grocery >= 0.0 && w.bikeAccess >= 0.0 && w.transit >= 0.0
  }

  predicate UnitCriteria(s: Scored) {
    && 0.0 <= s.normalizedDistance <= 1.0
    && 0.0 <= s.normalizedParks <= 1.0
    && 0.0 <= s.normalizedGrocery <= 1.0
    && 0.0 <= s.normalizedBike <= 1.0
  }

  /** A criterion in [0, 1] times a non-negative weight lies between 0 and the weight. */
  lemma TermBounds(x: real, w: real)
    requires 0.0 <= x <= 1.0 && w >= 0.0
    ensures 0.0 <= Weighted(x, w) <= w
  {
    MulNonNeg(x, w);
    MulMonoLe(x, 1.0, w);
  }

  /** With criteria in [0, 1] and non-negative weights the weighted sum lies between 0 and
      the total of the four weights. */
  lemma WeightedSumBounds(s: Scored, w: Weights)
    requires UnitCriteria(s) && NonNegWeights(w)
    ensures 0.0 <= WeightedSum(s, w) <= ScoreWeightTotal(w)
  {
    TermBounds(s.normalizedDistance, w.distance);
    TermBounds(s.normalizedParks, w.parks);
    TermBounds(s.normalizedGrocery, w.grocery);
    TermBounds(s.normalizedBike, w.bikeAccess);
  }

  // ---------------------------------------------------------------- the dictionary

  /** The names of the filtered neighbourhoods, in filter order. */
  function Names(ns: seq<Candidate>): (names: seq<string>)
    ensures |names| == |ns|
    ensures forall i :: 0 <= i < |ns| ==> names[i] == ns[i].name
  {
    seq(|ns|, i requires 0 <= i < |ns| => ns[i].name)
  }

  /** `state.neighborhoodScores` after the first pass: each name maps to the metrics of the
      last filtered neighbourhood with that name (a later one overwrites an earlier one). */
  function RawTable(dist: DistFn, layers: Layers, ns: seq<Candidate>): map<string, RawMetrics>
    requires Readable(layers)
  {
    Keyed(Names(ns), MetricsOf(dist, layers, ns))
  }

  /** The dictionary has an entry for exactly the names of the filtered neighbourhoods, and
      the entry of a name is the metrics of the last neighbourhood carrying it. */
  lemma RawTableLastWins(dist: DistFn, layers: Layers, ns: seq<Candidate>, k: string)
    requires Readable(layers)
    ensures k in RawTable(dist, layers, ns) <==> exists i :: 0 <= i < |ns| && ns[i].name == k
    ensures k in RawTable(dist, layers, ns) ==>
      exists i :: (0 <= i < |ns| && ns[i].name == k &&
        RawTable(dist, layers, ns)[k] == NeighborhoodMetrics(dist, layers, ns[i]) &&
        forall j :: 0 <= j < |ns| && ns[j].name == k ==> j <= i)
  {
    var names := Names(ns);
    var ms := MetricsOf(dist, layers, ns);
    KeyedKeys(names, ms);
    if k in names {
      KeyedLastWins(names, ms, k);
    } else {
      assert forall i :: 0 <= i < |ns| ==> ns[i].name != k by {
        forall i | 0 <= i < |ns| ensures ns[i].name != k {
          assert names[i] == ns[i].name;
        }
      }
    }
  }

  /** `state.neighborhoodScores` after `calculateScores`: every entry normalised against the
      maxima over all filtered neighbourhoods (overwritten ones included) with weights `w`. */
  function ScoreTable(dist: DistFn, layers: Layers, ns: seq<Candidate>, w: Weights): (t: map<string, Scored>)
    requires Readable(layers)
    ensures forall k :: k in t <==> k in RawTable(dist, layers, ns)
  {
    var raw := RawTable(dist, layers, ns);
    var mx := MaximaOf(MetricsOf(dist, layers, ns));
    map k | k in raw :: Normalize(raw[k], mx, w)
  }

  /** The dictionary after the second pass of `calculateScores` visits the given names in
      order: each entry found is normalised from its raw metrics. */
  function NormalizePass(t: map<string, Scored>, names: seq<string>, mx: Maxima, w: Weights): (r: map<string, Scored>)
    ensures r.Keys == t.Keys
  {
    if |names| == 0 then t
    else
      var r := NormalizePass(t, names[..|names| - 1], mx, w);
      var k := names[|names| - 1];
      if k in r then r[k := Normalize(r[k].raw, mx, w)] else r
  }

  /** Every listed name's entry is normalised (once, however often it is listed) and every
      other entry is untouched. */
  lemma {:induction false} NormalizePassEntries(t: map<string, Scored>, names: seq<string>, mx: Maxima, w: Weights)
    ensures var r := NormalizePass(t, names, mx, w);
      forall k :: k in t ==> r[k] == if k in names then Normalize(t[k].raw, mx, w) else t[k]
  {
    if |names| > 0 {
      var front := names[..|names| - 1];
      NormalizePassEntries(t, front, mx, w);
      assert forall k :: k in names <==> k in front || k == names[|names| - 1];
    }
  }

  /** The two passes together: a dictionary holding the raw metrics of every filtered name,
      normalised name by name against the maxima of all filtered neighbourhoods, is the
      score table. */
  lemma ScoreTableByPasses(dist: DistFn, layers: Layers, ns: seq<Candidate>, t: map<string, Scored>, w: Weights)
    requires Readable(layers)
    requires forall k :: k in t <==> k in RawTable(dist, layers, ns)
    requires forall k :: k in t ==> t[k].raw == RawTable(dist, layers, ns)[k]
    ensures NormalizePass(t, Names(ns), MaximaOf(MetricsOf(dist, layers, ns)), w) ==
      ScoreTable(dist, layers, ns, w)
  {
    KeyedKeys(Names(ns), MetricsOf(dist, layers, ns));
    NormalizePassCovers(t, Names(ns), RawTable(dist, layers, ns), MaximaOf(MetricsOf(dist, layers, ns)), w);
  }

  /** A pass that visits every key of a dictionary of raw metrics normalises all of it. */
  lemma NormalizePassCovers(t: map<string, Scored>, names: seq<string>, raw: map<string, RawMetrics>,
                            mx: Maxima, w: Weights)
    requires forall k :: k in t <==> k in raw
    requires forall k :: k in t ==> t[k].raw == raw[k] && k in names
    ensures NormalizePass(t, names, mx, w) == map k | k in raw :: Normalize(raw[k], mx, w)
  {
    NormalizePassEntries(t, names, mx, w);
  }

  /** Every score in the dictionary has its criteria in [0, 1] and a final score between 0
      and the total of the four weights, provided the filtered distances are non-negative
      (as `haversineDistance` results are). */
  lemma ScoreTableBounds(dist: DistFn, layers: Layers, ns: seq<Candidate>, w: Weights)
    requires Readable(layers) && NonNegWeights(w)
    requires forall i :: 0 <= i < |ns| ==> ns[i].distance >= 0.0
    ensures var t := ScoreTable(dist, layers, ns, w);
      forall k :: k in t ==>
        UnitCriteria(t[k]) && 0.0 <= t[k].finalScore <= ScoreWeightTotal(w)
  {
    var t := ScoreTable(dist, layers, ns, w);
    var ms := MetricsOf(dist, layers, ns);
    var mx := MaximaOf(ms);
    forall k | k in t
      ensures UnitCriteria(t[k]) && 0.0 <= t[k].finalScore <= ScoreWeightTotal(w)
    {
      RawTableLastWins(dist, layers, ns, k);
      var i :| 0 <= i < |ns| && ns[i].name == k &&
        RawTable(dist, layers, ns)[k] == NeighborhoodMetrics(dist, layers, ns[i]);
      var m := ms[i];
      MetricsMeaning(dist, layers, ns[i]);
      NormalizeBounds(m, mx, w);
      WeightedSumBounds(t[k], w);
    }
  }

  // ---------------------------------------------------------------- re-weighting

  /** `updateScores` for one entry: the final score recomputed from the stored criteria,
      now with the transit term, which is 0 while `normalizedTransit` is unset. */
  function Rescore(s: Scored, w: Weights): (r: Scored)
    ensures r == s.(finalScore := r.finalScore)
    ensures s.normalizedTransit.None? ==> r.finalScore == WeightedSum(s, w)
  {
    var transit := if s.normalizedTransit.Some? then s.normalizedTransit.value else 0.0;
    s.(finalScore := WeightedSum(s, w) + transit * w.transit)
  }

  /** Re-weighting twice is re-weighting once. */
  lemma RescoreIdempotent(s: Scored, w: Weights)
    ensures Rescore(Rescore(s, w), w) == Rescore(s, w)
  {
  }

  /** With the weights it was computed with, a freshly normalised entry is left as it is. */
  lemma RescoreKeepsNormalized(m: RawMetrics, mx: Maxima, w: Weights)
    ensures Rescore(Normalize(m, mx, w), w) == Normalize(m, mx, w)
  {
  }

  /** The dictionary after `updateScores` visits the given names in order, skipping the
      names it has no entry for. */
  function RescoreTable(t: map<string, Scored>, names: seq<string>, w: Weights): (r: map<string, Scored>)
    ensures r.Keys == t.Keys
  {
    if |names| == 0 then t
    else
      var r := RescoreTable(t, names[..|names| - 1], w);
      var k := names[|names| - 1];
      if k in r then r[k := Rescore(r[k], w)] else r
  }

  /** Every listed name's entry is re-weighted (once, however often it is listed) and every
      other entry is untouched. */
  lemma {:induction false} RescoreTableEntries(t: map<string, Scored>, names: seq<string>, w: Weights)
    ensures var r := RescoreTable(t, names, w);
      forall k :: k in t ==> r[k] == if k in names then Rescore(t[k], w) else t[k]
  {
    if |names| > 0 {
      var front := names[..|names| - 1];
      RescoreTableEntries(t, front, w);
      var last := names[|names| - 1];
      var r := RescoreTable(t, names, w);
      forall k | k in t
        ensures r[k] == if k in names then Rescore(t[k], w) else t[k]
      {
        assert k in names <==> k in front || k == last;
        if k == last && k in front {
          RescoreIdempotent(t[k], w);
        }
      }
    }
  }

  /** Re-weighting with the weights the scores were computed with changes nothing: the
      transit term is 0 because `normalizedTransit` is never set. */
  lemma RescoreAfterScore(dist: DistFn, layers: Layers, ns: seq<Candidate>, names: seq<string>, w: Weights)
    requires Readable(layers)
    ensures RescoreTable(ScoreTable(dist, layers, ns, w), names, w) == ScoreTable(dist, layers, ns, w)
  {
    var t := ScoreTable(dist, layers, ns, w);
    RescoreTableEntries(t, names, w);
  }

  /** Re-weighting the whole dictionary twice with the same weights is re-weighting once. */
  lemma RescoreTableIdempotent(t: map<string, Scored>, names: seq<string>, w: Weights)
    ensures RescoreTable(RescoreTable(t, names, w), names, w) == RescoreTable(t, names, w)
  {
    var r := RescoreTable(t, names, w);
    RescoreTableEntries(t, names, w);
    RescoreTableEntries(r, names, w);
    forall k | k in r
      ensures RescoreTable(r, names, w)[k] == r[k]
    {
      if k in names {
        RescoreIdempotent(t[k], w);
      }
    }
  }

  // ---------------------------------------------------------------- more parks

  /** The metrics in filter order with entry i's park count raised to p. */
  function RaiseParks(ms: seq<RawMetrics>, i: nat, p: nat): (raised: seq<RawMetrics>)
    requires i < |ms| && ms[i].parksCount <= p
    ensures |raised| == |ms|
    ensures forall j :: 0 <= j < |ms| && j != i ==> raised[j] == ms[j]
    ensures raised[i].parksCount == p && raised[i] == ms[i].(parksCount := p)
  {
    ms[i := ms[i].(parksCount := p)]
  }

  /** Raising one neighbourhood's park count leaves the distance, shop and bike maxima as they
      were, and the parks maximum becomes `Math.max` of the old maximum and the new count. */
  lemma MaximaRaiseParks(ms: seq<RawMetrics>, i: nat, p: nat)
    requires i < |ms| && ms[i].parksCount <= p
    ensures var mx := MaximaOf(ms);
      MaximaOf(RaiseParks(ms, i, p)) == mx.(parks := Max(mx.parks, p as real))
  {
    var raised := RaiseParks(ms, i, p);
    assert Column(raised, DistanceOf) == Column(ms, DistanceOf);
    assert Column(raised, GroceryOf) == Column(ms, GroceryOf);
    assert Column(raised, BikeOf) == Column(ms, BikeOf);
    assert Column(raised, ParksOf) == Column(ms, ParksOf)[i := p as real];
    MaxOfRaise(Column(ms, ParksOf), i, p as real);
  }

  /** For one entry: a larger park count, normalised against the correspondingly raised
      parks maximum, never gives a smaller parks criterion, leaves the other criteria as they
      were and, with a non-negative parks weight, never lowers the final score. */
  lemma NormalizeMoreParks(m: RawMetrics, mx: Maxima, w: Weights, p: nat)
    requires m.parksCount as real <= mx.parks && m.parksCount <= p && w.parks >= 0.0
    ensures var before := Normalize(m, mx, w);
      var after := Normalize(m.(parksCount := p), mx.(parks := Max(mx.parks, p as real)), w);
      && after.normalizedParks >= before.normalizedParks
      && after.normalizedDistance == before.normalizedDistance
      && after.normalizedGrocery == before.normalizedGrocery
      && after.normalizedBike == before.normalizedBike
      && after.finalScore >= before.finalScore
  {
    var before := Normalize(m, mx, w);
    var after := Normalize(m.(parksCount := p), mx.(parks := Max(mx.parks, p as real)), w);
    RatioGrows(m.parksCount as real, mx.parks, p as real);
    assert after.normalizedParks >= before.normalizedParks;
    MulMonoLe(before.normalizedParks, after.normalizedParks, w.parks);
    assert Weighted(after.normalizedParks, w.parks) >= Weighted(before.normalizedParks, w.parks);
  }

  /** The scaling of `normalizeScores` for a count x against a maximum mx never drops when
      the count grows to y and the maximum to `Math.max(mx, y)`. */
  lemma RatioGrows(x: real, mx: real, y: real)
    requires 0.0 <= x <= mx && x <= y
    ensures (if mx > 0.0 then x / mx else 0.0) <= (if Max(mx, y) > 0.0 then y / Max(mx, y) else 0.0)
  {
    var top := Max(mx, y);
    if mx > 0.0 {
      if y <= mx {
        DivMonoNumerator(x, y, mx);
      } else {
        RatioBetween(x, mx);
        assert y / top == 1.0;
      }
    } else if top > 0.0 {
      RatioBetween(y, top);
    }
  }

  /** For one entry: a larger parks maximum never gives a larger parks criterion and leaves
      the other criteria as they were. */
  lemma NormalizeLargerParksMax(m: RawMetrics, mx: Maxima, w: Weights, top: real)
    requires m.parksCount as real <= mx.parks <= top
    ensures var before := Normalize(m, mx, w);
      var after := Normalize(m, mx.(parks := top), w);
      && after.normalizedParks <= before.normalizedParks
      && after.normalizedDistance == before.normalizedDistance
      && after.normalizedGrocery == before.normalizedGrocery
      && after.normalizedBike == before.normalizedBike
  {
    if mx.parks > 0.0 {
      DivMonoDenominator(m.parksCount as real, mx.parks, top);
    } else if top > 0.0 {
      assert m.parksCount == 0;
      assert 0.0 / top == 0.0;
    }
  }

  /** Over the filtered neighbourhoods in filter order: raising neighbourhood i's park count,
      with a non-negative parks weight, never lowers its final score; no other
      neighbourhood's parks criterion rises; and when the new count does not exceed the old
      parks maximum every other neighbourhood is scored exactly as before. (When it does
      exceed it, the other neighbourhoods' parks criteria can drop.) */
  lemma MoreParksForOne(ms: seq<RawMetrics>, i: nat, p: nat, w: Weights)
    requires i < |ms| && ms[i].parksCount <= p && w.parks >= 0.0
    ensures var raised := RaiseParks(ms, i, p);
      Normalize(raised[i], MaximaOf(raised), w).finalScore >=
        Normalize(ms[i], MaximaOf(ms), w).finalScore
    ensures var raised := RaiseParks(ms, i, p);
      forall j :: 0 <= j < |ms| && j != i ==>
        Normalize(raised[j], MaximaOf(raised), w).normalizedParks <=
          Normalize(ms[j], MaximaOf(ms), w).normalizedParks
    ensures var raised := RaiseParks(ms, i, p);
      p as real <= MaximaOf(ms).parks ==>
        forall j :: 0 <= j < |ms| && j != i ==>
          Normalize(raised[j], MaximaOf(raised), w) == Normalize(ms[j], MaximaOf(ms), w)
  {
    var mx := MaximaOf(ms);
    MaximaRaiseParks(ms, i, p);
    NormalizeMoreParks(ms[i], mx, w, p);
    forall j | 0 <= j < |ms| && j != i
      ensures Normalize(ms[j], mx.(parks := Max(mx.parks, p as real)), w).normalizedParks <=
        Normalize(ms[j], mx, w).normalizedParks
    {
      NormalizeLargerParksMax(ms[j], mx, w, Max(mx.parks, p as real));
    }
  }

  /** The scored dictionary of `calculateScores` built from the names and the metrics of the
      filtered neighbourhoods, in filter order. */
  function ScoredTable(names: seq<string>, ms: seq<RawMetrics>, w: Weights): (t: map<string, Scored>)
    requires |names| == |ms|
    ensures forall k :: k in t <==> k in names
  {
    KeyedKeys(names, ms);
    NormalizeAll(Keyed(names, ms), MaximaOf(ms), w)
  }

  /** Every entry of a raw dictionary normalised against the same maxima. */
  function NormalizeAll(raw: map<string, RawMetrics>, mx: Maxima, w: Weights): (t: map<string, Scored>)
    ensures forall k :: k in t <==> k in raw
    ensures forall k :: k in t ==> t[k].raw == raw[k]
  {
    map k | k in raw :: Normalize(raw[k], mx, w)
  }

  /** `ScoreTable` is the scored dictionary of the filtered names and their metrics. */
  lemma ScoreTableIsScoredTable(dist: DistFn, layers: Layers, ns: seq<Candidate>, w: Weights)
    requires Readable(layers)
    ensures ScoreTable(dist, layers, ns, w) == ScoredTable(Names(ns), MetricsOf(dist, layers, ns), w)
  {
  }

  /** Every park count stored in the raw dictionary is at most the parks maximum of the
      sequence it was built from. */
  lemma KeyedParksBounded(names: seq<string>, ms: seq<RawMetrics>)
    requires |names| == |ms|
    ensures var raw := Keyed(names, ms);
      forall k :: k in raw ==> raw[k].parksCount as real <= MaximaOf(ms).parks
  {
    KeyedKeys(names, ms);
    forall k | k in Keyed(names, ms)
      ensures Keyed(names, ms)[k].parksCount as real <= MaximaOf(ms).parks
    {
      KeyedLastWins(names, ms, k);
    }
  }

  /** The dictionary-level step: raising the park count stored under one name (and the parks
      maximum with it) never lowers that entry's final score, never raises another entry's
      parks criterion, and changes no other entry while the maximum stays the same. */
  lemma NormalizeAllMoreParks(raw: map<string, RawMetrics>, key: string, p: nat, mx: Maxima, w: Weights)
    requires key in raw && raw[key].parksCount <= p && w.parks >= 0.0
    requires forall k :: k in raw ==> raw[k].parksCount as real <= mx.parks
    ensures var before := NormalizeAll(raw, mx, w);
      var after := NormalizeAll(raw[key := raw[key].(parksCount := p)], mx.(parks := Max(mx.parks, p as real)), w);
      && after[key].finalScore >= before[key].finalScore
      && (forall k :: k in before && k != key ==> after[k].normalizedParks <= before[k].normalizedParks)
      && (p as real <= mx.parks ==> forall k :: k in before && k != key ==> after[k] == before[k])
  {
    var top := Max(mx.parks, p as real);
    NormalizeMoreParks(raw[key], mx, w, p);
    forall k | k in raw && k != key
      ensures Normalize(raw[k], mx.(parks := top), w).normalizedParks <= Normalize(raw[k], mx, w).normalizedParks
    {
      NormalizeLargerParksMax(raw[k], mx, w, top);
    }
    if p as real <= mx.parks {
      assert mx.(parks := top) == mx;
    }
  }

  /** The dictionary after `calculateScores` when neighbourhood i, the last one with its name,
      gets a higher park count: the entry under its name never gets a lower final score (with a
      non-negative parks weight), the keys stay the same, no other entry's parks criterion
      rises, and if the new count does not exceed the old parks maximum no other entry
      changes. */
  lemma MoreParksInTable(names: seq<string>, ms: seq<RawMetrics>, i: nat, p: nat, w: Weights)
    requires |names| == |ms| && i < |ms| && ms[i].parksCount <= p && w.parks >= 0.0
    requires forall j :: i < j < |names| ==> names[j] != names[i]
    ensures var before := ScoredTable(names, ms, w);
      var after := ScoredTable(names, RaiseParks(ms, i, p), w);
      && names[i] in before && names[i] in after
      && after[names[i]].finalScore >= before[names[i]].finalScore
      && (forall k :: k in after <==> k in before)
      && (forall k :: k in before && k != names[i] ==> after[k].normalizedParks <= before[k].normalizedParks)
      && (p as real <= MaximaOf(ms).parks ==>
            forall k :: k in before && k != names[i] ==> after[k] == before[k])
  {
    var raised := RaiseParks(ms, i, p);
    var raw := Keyed(names, ms);
    KeyedKeys(names, ms);
    KeyedUpdate(names, ms, i, ms[i]);
    assert ms[i := ms[i]] == ms;
    assert raw[names[i]] == ms[i];
    KeyedUpdate(names, ms, i, raised[i]);
    assert Keyed(names, raised) == raw[names[i] := raw[names[i]].(parksCount := p)];
    MaximaRaiseParks(ms, i, p);
    KeyedParksBounded(names, ms);
    NormalizeAllMoreParks(raw, names[i], p, MaximaOf(ms), w);
  }
}
