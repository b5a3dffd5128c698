# Housing-site scoring engine — a Dafny model

The engine behind a map of Philadelphia that helps a student pick a neighbourhood near a
campus. A campus is selected, together with a travel mode (walk or bike), a time budget and
a transit type (bus, subway or bike share). The engine then:

1. turns the time budget into a distance in meters (`getThresholdDistance`);
2. keeps the neighbourhoods whose centroid is within that distance of the campus and of the
   nearest stop of the chosen transit type, in input order (`filterNeighborhoods`);
3. measures each kept neighbourhood: parks and shops within 500 m, closeness of the bike
   network (`calculateNeighborhoodMetrics`);
4. scales every metric against its maximum over the kept neighbourhoods and combines the
   scaled values with user weights into a final score (`calculateScores`), which can later
   be recomputed under new weights (`updateScores`);
5. lists the neighbourhoods best first and colours each score.

The campus list comes from `processUniversities`. It groups university buildings by
trimmed name and places each campus at the mean of its buildings' centroids. Campuses with
no centroid are dropped, and the rest are sorted by name. The geometry underneath includes:

- vertex-mean centroids of Polygons and MultiPolygons; for a MultiPolygon this is the
  polygon with the largest shoelace area;
- an even-odd point-in-ring test;
- point-to-segment and point-to-polyline distances.

Modules, one per part of `main.js`:

- `Common`: extended reals with an infinity (`Ext`), minimum and maximum scans, counting,
  and dictionaries filled from a list.
- `Geometry`: `getCentroid`, `pointInPolygon`, `pointToSegmentDistance` and
  `pointToLineDistance`.
- `Features`: GeoJSON features and truthy property reads.
- `Config`: the constants of `CONFIG` and `getThresholdDistance`.
- `Sorting`: insertion sort with its sortedness and permutation proofs.
- `Campuses`: `processUniversities`.
- `Filter`: `getNearestTransitDistance` and the admission test of `filterNeighborhoods`.
- `Metrics`: `calculateNeighborhoodMetrics`.
- `Scoring`: the two passes of `calculateScores`, and `updateScores`.
- `Ranking`: the results order and `getScoreColor`.
- `Engine`: the class `Explorer`, which holds the engine's state and the data it reads. Its
  methods are the engine's operations and update `filteredNeighborhoods` and
  `neighborhoodScores` in place.

The great-circle distance is a parameter `dist` of type `DistFn`, about which only
non-negativity is known. `String.trim` and `localeCompare` are parameters too. Every
`forEach` and `for` loop of the modelled code, and the `filter` of main.js:361, is a
method with a `for` or `while` loop. Each such method is proved equal to a function, and the
properties are proved about that function. Three iterations are functions, not loops: the
shoelace `reduce` (main.js:120-123) is the recursive `ShoelaceSum`, and the two `sort`
calls (main.js:360-362 and main.js:1082) are the recursive `InsertionSort`, which stands
in for the library sort.

## Model

| member | source | states |
|---|---|---|
| Common.MinOf | main.js:186-199 | the running minimum started at Infinity is at most every element, is Infinity exactly when every element is, and is otherwise one of the elements |
| Common.MaxOf | main.js:907-921 | the running `Math.max` started at 0 is non-negative, at least every element, and either 0 or one of the elements |
| Common.MaxOfRaise | main.js:918-921 | raising one element to a value at least its old one makes the maximum `Math.max` of the old maximum and the new value |
| Common.KeyedUpdate | main.js:914-916 | changing the value of the last entry with a given key changes exactly that key's value in the dictionary |
| Geometry.GetCentroid | main.js:110-156 | the loop version of `getCentroid` (largest-ring scan, then coordinate sums) returns exactly the centroid function `Centroid` |
| Geometry.CentroidCases | main.js:110-156 | a centroid exists exactly for Point, Polygon and MultiPolygon; a Point is its own centroid; a ring's vertex mean lies inside any box holding the ring, for the first ring of a Polygon and for the chosen ring of a MultiPolygon |
| Geometry.LargestPolygonIsEarliestMaximum | main.js:116-128 | the ring chosen for a MultiPolygon has the greatest shoelace area, every earlier ring has a strictly smaller one, and polygon 0 is chosen when no area exceeds 0 |
| Geometry.RingArea | main.js:120-123 | the compared area (absolute shoelace sum over 2) is non-negative |
| Geometry.MeanInsideBox | main.js:149-155 | the vertex mean of a non-empty ring lies within every bounding box of its vertices |
| Geometry.SquareCentroids | main.js:149-155 | the centroid of the square (0,0)-(2,2) is (1,1), and repeating the closing vertex moves it to (0.8,0.8), since every listed vertex counts |
| Geometry.PointInPolygon | main.js:163-177 | the toggling loop returns true exactly when an odd number of ring edges are crossed by the rightward ray (`InsideByParity`) |
| Geometry.ToggledIsOddCount | main.js:165-174 | toggling a flag once per crossed edge ends true exactly when the number of crossings is odd |
| Geometry.OutsideBoundingBox | main.js:163-177 | a point with the whole ring below, above or to its west is never reported inside |
| Geometry.SquareContainment | main.js:163-177 | (1,1) is inside the square (0,0)-(2,2) and (3,1) is not |
| Geometry.SqLength | main.js:206-209 | the squared segment length is non-negative and zero exactly for a zero-length segment |
| Geometry.Clamp01 | main.js:213-215 | the projection parameter is clamped into [0,1] and is unchanged when already inside |
| Geometry.PointToSegmentDistance | main.js:205-223 | the point-to-segment distance is non-negative |
| Geometry.ClosestPointOnSegment | main.js:205-223 | the projected point lies on the segment; a zero-length segment gives the distance to its start; a parameter at or below 0 gives the distance to the start, one at or above 1 the distance to the end |
| Geometry.ClosestPointIsPlanarNearest | main.js:213-220 | in raw coordinates, the clamped projection is at least as close to the point as every other point of the segment |
| Geometry.LineDistanceIsNearestSegment | main.js:185-200 | the polyline distance is Infinity for fewer than 2 vertices, finite otherwise, at most the distance to every segment and equal to the distance to one of them |
| Geometry.PointToLineDistance | main.js:185-200 | the loop returns exactly the polyline distance `LineDistance` |
| Features.DisplayName | main.js:883 | a neighbourhood's name is `LISTNAME` when truthy, else `NAME` when truthy, else `Unknown`, and is never empty |
| Features.AmenityTagFirst | main.js:977-978 | an amenity's kind is its `amenity` tag when truthy and its `shop` tag otherwise; a grocery always has a kind |
| Config.ThresholdDistance | main.js:670-673 | the threshold exists exactly for 5, 10, 15 and 30 minutes, equals minutes times 250 for `bike` and minutes times 80 for every other mode, and is positive |
| Config.ThresholdMonotone | main.js:16-21 | a longer time never gives a shorter distance, and biking never gives a shorter distance than walking |
| Campuses.GroupOrder | main.js:320-338 | the keys of the campus map in insertion order are distinct and are exactly the trimmed names of the named features |
| Campuses.MembersMeaning | main.js:322-338 | a campus's buildings are features of the input with that trimmed name, and every feature with that trimmed name is among them |
| Campuses.GroupByName | main.js:320-338 | the grouping loop yields the key order `GroupOrder`, a key for exactly those names, and under each key the group of its members with a null centroid |
| Campuses.MeanCentroid | main.js:342-356 | a campus gets a centroid exactly when at least one of its buildings has one |
| Campuses.CentroidsPresent | main.js:345-356 | the list of building centroids is non-empty exactly when some building has a centroid |
| Campuses.GroupCentroid | main.js:342-356 | the summing loop over a campus's buildings returns exactly `MeanCentroid` |
| Campuses.LocateGroups | main.js:341-357 | after the centroid loop every group keeps its key and buildings and carries the mean centroid of its members |
| Campuses.KeepLocated | main.js:360-361 | the loop keeping the groups with a centroid, in map order, returns exactly `KeptGroups` |
| Campuses.KeptGroupsAreCampuses | main.js:341-361 | the kept groups of the located map are exactly the campus list `CampusesOf` defined from the input |
| Campuses.ProcessUniversities | main.js:319-362 | the whole procedure returns exactly `SortedCampuses`, the registry sorted by name |
| Campuses.CampusesOfContents | main.js:341-361 | every listed campus is a map key, carries all its members (at least one) and the mean of their centroids |
| Campuses.CampusesOfCover | main.js:354-361 | a key is listed exactly when its group has a centroid |
| Campuses.CampusesOfDistinct | main.js:329-361 | no two listed campuses share a name |
| Campuses.SortedCampusesOrdered | main.js:360-362 | the final list is sorted by name and is a permutation of the unsorted registry |
| Sorting.InsertionSortStable | main.js:360-362 | the sort is stable: for every element, the elements the comparator ranks equal to it come out in their input order |
| Campuses.SortedCampusesStable | main.js:360-362 | campuses whose names `collate` ranks equal keep their registry (first-seen) order in the final list |
| Campuses.SameCampuses | main.js:360-362 | the final list and the unsorted registry hold the same campuses |
| Campuses.SortedCampusesDistinct | main.js:319-362 | no two campuses of the final list share a name |
| Campuses.SortedCampusesContents | main.js:319-362 | every final campus holds all features with its trimmed name and their mean centroid; a named feature's campus is listed exactly when that campus has a centroid |
| Campuses.NameDeterminesCampus | main.js:329-337 | two registry campuses with the same name are the same campus |
| Filter.NearestTransitIsNearestStop | main.js:678-692 | the nearest-transit distance is at most the distance to every Point stop, is Infinity exactly when there is no Point stop, and is otherwise the distance to one of them |
| Filter.UnknownTransitType | main.js:678-692 | an unknown transit type gives Infinity |
| Filter.Admit | main.js:872-884 | a neighbourhood is admitted exactly when it has a centroid with campus distance and nearest-transit distance at most the threshold, and the entry records the feature, centroid, both distances and display name |
| Filter.FilteredIsPassing | main.js:871-886 | the filter output is, in input order, the admitted entries of exactly the passing neighbourhoods |
| Filter.FilteredWithinThreshold | main.js:877-884 | every kept neighbourhood is an input feature whose campus distance and transit distance are at most the threshold and match `dist` and the nearest-transit distance |
| Metrics.BikeAccess | main.js:996 | the bike access score is non-negative, 0 for an unreachable network, positive exactly below 1000 m, at most 1 for a non-negative distance and 1 at distance 0 |
| Metrics.BikeAccessMonotone | main.js:996 | a nearer bike network never gives a lower score |
| Metrics.TransitOrInfinity | main.js:1005 | `transitDistance || Infinity` is Infinity exactly when the distance is 0, and the distance otherwise |
| Metrics.MetricsMeaning | main.js:954-1007 | parks count is the number of parks near the centroid; the grocery count is the number of all nearby shops (groceries plus restaurants); restaurants are the nearby non-groceries; the bike score lies in [0,1] and is positive exactly when the network is nearer than 1000 m |
| Metrics.BikeDistanceNonNeg | main.js:988-994 | a finite nearest bike distance is non-negative |
| Scoring.MaximaOf | main.js:907-921 | every maximum is non-negative and at least the corresponding metric of every filtered neighbourhood |
| Scoring.MaximaStep | main.js:918-921 | one iteration of the first pass raises each maximum by `Math.max` with the new metrics |
| Scoring.Normalize | main.js:929-947 | an entry keeps its raw metrics, its final score is the weighted sum of the four scaled metrics with no transit term, and a zero maximum gives distance 1 and parks, grocery and bike 0 |
| Scoring.NormalizeBounds | main.js:930-933 | for metrics within the maxima every scaled value lies in [0,1]; the holder of the maximum parks, grocery or bike value gets 1 and the farthest neighbourhood gets distance 0 |
| Scoring.WeightedSumBounds | main.js:936-941 | with scaled values in [0,1] and non-negative weights the final score lies between 0 and the sum of the four weights |
| Scoring.RawTableLastWins | main.js:914-916 | after the first pass the dictionary has exactly the filtered names as keys, each holding the metrics of the last neighbourhood with that name |
| Scoring.NormalizePassEntries | main.js:926-948 | the second pass replaces exactly the visited entries by their normalised form and leaves the others as they were |
| Scoring.ScoreTableByPasses | main.js:903-949 | the second pass over the first pass's dictionary yields `ScoreTable`: every entry normalised against the maxima over all filtered neighbourhoods |
| Scoring.ScoreTableBounds | main.js:926-947 | with non-negative weights and distances, every scored entry has scaled values in [0,1] and a final score between 0 and the weight total |
| Scoring.Rescore | main.js:1017-1028 | re-weighting changes only the final score, which becomes the weighted sum of the stored scaled values plus a transit term that is 0 when `normalizedTransit` is absent |
| Scoring.RescoreIdempotent | main.js:1020-1028 | re-weighting twice with the same weights equals re-weighting once |
| Scoring.RescoreKeepsNormalized | main.js:1020-1026 | re-weighting an entry of the second pass with the same weights reproduces it |
| Scoring.RescoreTableEntries | main.js:1016-1029 | `updateScores` re-weights exactly the entries of filtered names and leaves the others as they were |
| Scoring.RescoreAfterScore | main.js:1012-1029 | with unchanged weights `updateScores` reproduces the dictionary `calculateScores` produced |
| Scoring.RescoreTableIdempotent | main.js:1012-1029 | running `updateScores` twice with the same weights equals running it once |
| Scoring.MaximaRaiseParks | main.js:907-921 | raising one park count keeps the distance, grocery and bike maxima and makes the parks maximum `Math.max` of the old maximum and the new count |
| Scoring.RatioGrows | main.js:931 | the parks scaling never drops when the count grows and the maximum becomes `Math.max` of the old maximum and the new count |
| Scoring.NormalizeMoreParks | main.js:929-941 | for one entry, a higher park count against the raised maximum never lowers the parks criterion, keeps the other three criteria, and with a non-negative parks weight never lowers the final score |
| Scoring.NormalizeLargerParksMax | main.js:931 | a larger parks maximum never raises an entry's parks criterion and keeps the other three criteria |
| Scoring.MoreParksForOne | main.js:903-949 | in filter order, raising one neighbourhood's park count (parks weight non-negative) never lowers its final score and never raises another's parks criterion; if the new count is at most the old parks maximum, every other neighbourhood is scored exactly as before |
| Scoring.ScoredTable | main.js:914-948 | the scored dictionary built from names and metrics has exactly the listed names as keys |
| Scoring.ScoreTableIsScoredTable | main.js:903-949 | `ScoreTable` is the scored dictionary of the filtered names and their metrics |
| Scoring.KeyedParksBounded | main.js:914-918 | every park count stored in the first pass's dictionary is at most the parks maximum |
| Scoring.NormalizeAllMoreParks | main.js:926-947 | raising the park count stored under one name never lowers that entry's final score, never raises another entry's parks criterion, and changes no other entry while the maximum stays the same |
| Scoring.MoreParksInTable | main.js:903-949 | in the dictionary of `calculateScores`, a higher park count for the last neighbourhood with its name keeps the keys, never lowers that name's final score (parks weight non-negative), never raises another entry's parks criterion, and changes no other entry if the new count is at most the old parks maximum |
| Ranking.RanksBeforeTotal | main.js:1082-1086 | the results order (score descending, then filter position) is total and transitive |
| Ranking.RankingIsPermutation | main.js:1082 | the results list holds every filtered neighbourhood exactly once |
| Ranking.RankingOrder | main.js:1082-1086 | down the results list scores never increase, and equal scores keep filter order, as a stable sort does |
| Ranking.RankedScoresDescend | main.js:1082-1086 | down the results list the score read from the dictionary (0 for a missing name) never increases |
| Ranking.ScoreColor | main.js:242-250 | the colour is one of three; red exactly below 0.33 and green exactly from 0.66 on |
| Ranking.ScoreColorMonotone | main.js:242-250 | a higher score never gets a worse colour band |
| Engine.Explorer.constructor | main.js:72-81 | the initial state: bus, no campus, walk, 15 minutes, the default weights, nothing filtered and no scores; it satisfies the invariant `Valid` (no entry has a transit criterion) |
| Engine.Explorer.NearestTransitDistance | main.js:678-692 | the stop scan returns exactly the nearest-transit distance for the current transit type |
| Engine.Explorer.CalculateNeighborhoodMetrics | main.js:954-1007 | the three counting and minimum loops return exactly `NeighborhoodMetrics` |
| Engine.Explorer.StoreMetrics | main.js:904-923 | the first pass leaves the settings and the filter output unchanged, stores each filtered name's metrics (last one wins) and returns the four maxima of `MaximaOf`; `Valid` holds afterwards |
| Engine.Explorer.NormalizeScores | main.js:926-948 | the second pass leaves the settings and the filter output unchanged and normalises every filtered name's entry in place, keeping `Valid` |
| Engine.Explorer.CalculateScores | main.js:903-949 | `calculateScores` leaves the settings and the filter output unchanged and sets the dictionary to `ScoreTable`; `Valid` holds afterwards |
| Engine.Explorer.FilterNeighborhoods | main.js:861-889 | without a selected campus nothing changes; otherwise the filter output becomes `Filtered` for the current transit type and threshold, and the dictionary becomes its `ScoreTable`; `Valid` is kept |
| Engine.Explorer.UpdateScores | main.js:1012-1029 | `updateScores` leaves the settings and the filter output unchanged and re-weights the entries of the filtered names (`RescoreTable`), keeping `Valid`; every entry changes at most in its final score, and a filtered name's final score becomes the weighted sum of its criteria under the current weights |

## Left out

- `haversineDistance` (main.js:90-103): its trigonometry is not modelled. It is the parameter `dist`, of which only non-negativity is known.
- `String.trim` and `localeCompare` (main.js:327, main.js:362) are the parameters `trim` and `collate`. The sortedness proofs assume `collate` is a total preorder.
- Floating point: every number is an exact `real`, and `Infinity` is the `Inf` case of `Ext`. IEEE rounding and NaN are not modelled. `WellFormed` requires every ring the centroid reads to be non-empty, where the source would divide by zero (main.js:155). This is a superset of the source's failures: for a MultiPolygon it also requires the first ring of every polygon to be non-empty, although the source only divides by the chosen polygon's ring. A bike segment is measured as a polyline when it is a LineString or a MultiPoint, whose coordinates have the same shape (main.js:989, main.js:188-196). Any other geometry with coordinates (Point, MultiLineString, Polygon, MultiPolygon) counts as never nearer (`Inf`). In the source, indexing a number gives `undefined` and subtracting arrays gives NaN, and NaN never lowers the minimum either.
- Preconditions exclude a superset of the inputs the source throws on: `Readable` for the metrics data and `Usable` for the named university features. `Readable` requires every bike feature to have a geometry with coordinates. The source throws on a missing geometry and on a GeometryCollection, which has no `coordinates` for main.js:188 to read the `length` of. Engine.Explorer.FilterNeighborhoods requires `Readable` even when no campus is selected, where the source returns before reading any data.
- Engine.Explorer.FilterNeighborhoods: a time threshold outside the table leaves the state unchanged. The source throws there, before it changes any state.
- The transit-selector listener registered inside `getCentroid` (main.js:130-139) is a DOM side effect, and the centroid is modelled without it. In the source it is registered again on every call that reaches that point for a MultiPolygon, so the listeners accumulate and one change of transit type runs `filterNeighborhoods` once per registered listener. Each run recomputes the same state from the same settings.
- `loadData` (main.js:265-314): asynchronous fetching and the fallback collections are I/O. The loaded collections are the constructor argument `data`.
- Rendering and DOM glue are not modelled. This covers the Leaflet layers, the campus dropdown, the UI listeners, `selectCampusByName`, `normalizeWeights`, `updateWeightDisplay`, the DOM half of `resetFilters`, `showLoading`, `showError`, the detail and highlight views, `updateFilteredNeighborhoodsLayer`, and the HTML of `updateResultsPanel`.
- The setters behind the UI listeners are not modelled as methods. The settings (`transitType`, `selectedCampus`, `travelMode`, `timeThreshold`, `weights`) are public fields of `Explorer`. `selectedCampusName` is display-only and is not kept.
- `formatDistance` (main.js:230-235) and `getGradientColor` (main.js:255-258) are float-to-string formatting.
- `maxTransitDistance` (main.js:911, main.js:922) is computed by the first pass but never read, so the model does not keep it.
- Engine.Explorer.StoreMetrics: before the second pass, an entry's scaled fields and final score are undefined in the source. The model stores zeros there (`Unscored`); the second pass overwrites them either way.
- `normalizedTransit` is never assigned by the engine. It is a field that stays `None`: the class invariant `Valid` states this, and every method of `Explorer` keeps it. The transit term of `updateScores` is therefore always 0.
- The state half of `resetFilters` (main.js:823-830) sets the settings back to their defaults and clears both outputs. That is exactly the constructor's initial state (Engine.Explorer.constructor), so it is not modelled separately.
- Scoring.ScoreTableBounds: states only the bounds for the dictionary. The promise of Scoring.NormalizeBounds that the holder of a positive maximum gets 1 holds per entry, not for the dictionary. When names repeat it can fail there: if the first "X" has 5 parks, the last "X" has 2 and "Y" has 3, the parks maximum is 5, "X" is stored as 2/5 and no entry gets 1.
- Scoring.MoreParksInTable: only for a neighbourhood that is the last with its name. Raising an earlier duplicate's park count can raise the parks maximum while the entry stored under that name does not change, so that entry's score can drop.
