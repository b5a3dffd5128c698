/** GeoJSON features as the engine reads them: an optional geometry and a bag of string
    properties, read with JavaScript's truthiness (a missing or empty value is false). */
module Features {
  import opened Common
  import opened Geometry

  datatype Feature = Feature(geometry: Option<Geom>, properties: map<string, string>)

  /** `props[key]` used as a condition or in `a || b`: present and not the empty string. */
  function Prop(props: map<string, string>, key: string): (r: Option<string>)
    ensures r.Some? <==> key in props && props[key] != ""
    ensures r.Some? ==> r.value == props[key] && r.value != ""
  {
    if key in props && props[key] != "" then Some(props[key]) else None
  }

  /** `a || b` on two property reads: the first truthy one, if any. */
  function FirstOf(a: Option<string>, b: Option<string>): Option<string> {
    if a.Some? then a else b
  }

  /** A feature whose geometry the engine can pass to `getCentroid` without throwing. */
  predicate Located(f: Feature) {
    f.geometry.Some? && WellFormed(f.geometry.value)
  }

  /** The centroid of a located feature. */
  function FeatureCentroid(f: Feature): Option<Point>
    requires Located(f)
  {
    Centroid(f.geometry.value)
  }

  /** Whether the feature is a GeoJSON Point. */
  predicate IsPointFeature(f: Feature) {
    f.geometry.Some? && f.geometry.value.PointGeom?
  }

  /** The name a neighbourhood is listed and keyed under:
      `LISTNAME || NAME || 'Unknown'`. */
  function DisplayName(f: Feature): (name: string)
    ensures name != ""
    ensures Prop(f.properties, "LISTNAME").Some? ==> name == f.properties["LISTNAME"]
    ensures Prop(f.properties, "LISTNAME").None? && Prop(f.properties, "NAME").Some? ==>
      name == f.properties["NAME"]
    ensures Prop(f.properties, "LISTNAME").None? && Prop(f.properties, "NAME").None? ==>
      name == "Unknown"
  {
    var n := FirstOf(Prop(f.properties, "LISTNAME"), Prop(f.properties, "NAME"));
    if n.Some? then n.value else "Unknown"
  }

  /** The amenity's kind: `properties.amenity || properties.shop`. */
  function AmenityKind(f: Feature): Option<string> {
    FirstOf(Prop(f.properties, "amenity"), Prop(f.properties, "shop"))
  }

  /** Counted as a grocery exactly when its kind is 'supermarket' or 'grocery'; every other
      nearby amenity, one without a kind included, counts as a restaurant. */
  predicate IsGrocery(f: Feature) {
    var k := AmenityKind(f);
    k == Some("supermarket") || k == Some("grocery")
  }

  /** A shop tag is consulted only when the amenity tag is missing or empty. */
  lemma AmenityTagFirst(f: Feature)
    ensures Prop(f.properties, "amenity").Some? ==> AmenityKind(f) == Some(f.properties["amenity"])
    ensures Prop(f.properties, "amenity").None? ==> AmenityKind(f) == Prop(f.properties, "shop")
    ensures IsGrocery(f) ==> AmenityKind(f).Some?
  {
  }
}
