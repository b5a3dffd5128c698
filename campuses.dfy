/** `processUniversities`: university features are grouped into campuses by their trimmed
    `name`, each campus is placed at the mean of its buildings' centroids, campuses without
    any centroid are dropped and the rest are sorted by name. `String.trim` and
    `localeCompare` are parameters: `trim` maps a name to its cleaned form and `collate(a, b)`
    says that a sorts no later than b. */
module Campuses {
  import opened Common
  import opened Geometry
  import opened Features
  import opened Sorting

  /** An entry of `data.campuses`. */
  datatype Campus = Campus(name: string, buildings: seq<Feature>, centroid: Point)

  /** A value of `campusMap` while it is being filled; `centroid` starts out null. */
  datatype Group = Group(name: string, buildings: seq<Feature>, centroid: Option<Point>)

  /** `feature.properties.name` when it is truthy. */
  function CampusName(f: Feature): Option<string> {
    Prop(f.properties, "name")
  }

  /** Every feature with a name has a geometry `getCentroid` accepts (the source would throw
      on any other); features without a name are never looked at. */
  predicate Usable(fs: seq<Feature>) {
    forall i :: 0 <= i < |fs| ==> CampusName(fs[i]).Some? ==> Located(fs[i])
  }

  /** The `campusMap` key of a named feature. */
  function Key(trim: string -> string, f: Feature): string
    requires CampusName(f).Some?
  {
    trim(CampusName(f).value)
  }

  /** The keys of `campusMap` in insertion order: each key once, where its first feature
      stands. */
  function GroupOrder(trim: string -> string, fs: seq<Feature>): (order: seq<string>)
    ensures forall a, b :: 0 <= a < b < |order| ==> order[a] != order[b]
    ensures forall k :: k in order <==>
      exists i :: 0 <= i < |fs| && CampusName(fs[i]).Some? && Key(trim, fs[i]) == k
  {
    if |fs| == 0 then []
    else
      var front := fs[..|fs| - 1];
      var f := fs[|fs| - 1];
      var order := GroupOrder(trim, front);
      assert forall i :: 0 <= i < |front| ==> front[i] == fs[i];
      if CampusName(f).None? || Key(trim, f) in order then order
      else order + [Key(trim, f)]
  }

  /** The `buildings` of the group with key `key`: its features in input order. */
  function Members(trim: string -> string, fs: seq<Feature>, key: string): seq<Feature> {
    if |fs| == 0 then []
    else
      var front := fs[..|fs| - 1];
      var f := fs[|fs| - 1];
      var m := Members(trim, front, key);
      if CampusName(f).Some? && Key(trim, f) == key then m + [f] else m
  }

  /** The buildings of a key are features of the collection, all named with that key, and
      every feature named with that key is among them. */
  lemma {:induction false} MembersMeaning(trim: string -> string, fs: seq<Feature>, key: string)
    ensures var m := Members(trim, fs, key);
      && (forall j :: 0 <= j < |m| ==> m[j] in fs)
      && (forall j :: 0 <= j < |m| ==> CampusName(m[j]).Some? && Key(trim, m[j]) == key)
      && (forall i :: 0 <= i < |fs| && CampusName(fs[i]).Some? && Key(trim, fs[i]) == key ==>
            fs[i] in m)
  {
    if |fs| > 0 {
      var front := fs[..|fs| - 1];
      MembersMeaning(trim, front, key);
      assert forall i :: 0 <= i < |front| ==> front[i] == fs[i];
    }
  }

  /** The non-null centroids of some buildings, in order. */
  function CentroidsOf(bs: seq<Feature>): (cs: seq<Point>)
    requires forall j :: 0 <= j < |bs| ==> Located(bs[j])
    ensures |cs| <= |bs|
  {
    if |bs| == 0 then []
    else
      var front := CentroidsOf(bs[..|bs| - 1]);
      var c := FeatureCentroid(bs[|bs| - 1]);
      if c.Some? then front + [c.value] else front
  }

  /** The campus position: the mean of the non-null building centroids, if there is one. */
  function MeanCentroid(bs: seq<Feature>): (c: Option<Point>)
    requires forall j :: 0 <= j < |bs| ==> Located(bs[j])
    ensures c.Some? <==> |CentroidsOf(bs)| > 0
    ensures c.Some? <==> exists j :: 0 <= j < |bs| && FeatureCentroid(bs[j]).Some?
  {
    CentroidsPresent(bs);
    var cs := CentroidsOf(bs);
    if |cs| == 0 then None else Some(Mean(cs))
  }

  lemma MembersLocated(trim: string -> string, fs: seq<Feature>, key: string)
    requires Usable(fs)
    ensures forall j :: 0 <= j < |Members(trim, fs, key)| ==> Located(Members(trim, fs, key)[j])
  {
    var m := Members(trim, fs, key);
    MembersMeaning(trim, fs, key);
    forall j | 0 <= j < |m|
      ensures Located(m[j])
    {
      var i :| 0 <= i < |fs| && fs[i] == m[j];
    }
  }

  /** The centroid `processUniversities` gives the group with key `key`. */
  function GroupCentroidOf(trim: string -> string, fs: seq<Feature>, key: string): Option<Point>
    requires Usable(fs)
  {
    MembersLocated(trim, fs, key);
    MeanCentroid(Members(trim, fs, key))
  }

  /** Some building has a centroid exactly when the list of centroids is not empty. */
  lemma {:induction false} CentroidsPresent(bs: seq<Feature>)
    requires forall j :: 0 <= j < |bs| ==> Located(bs[j])
    ensures |CentroidsOf(bs)| > 0 <==> exists j :: 0 <= j < |bs| && FeatureCentroid(bs[j]).Some?
  {
    if |bs| > 0 {
      var front := bs[..|bs| - 1];
      CentroidsPresent(front);
      assert forall j :: 0 <= j < |front| ==> front[j] == bs[j];
    }
  }

  /** The campuses built from the groups with the given keys, in that order, leaving out the
      groups without a centroid (the `.filter(c => c.centroid)`). */
  function CampusesOf(trim: string -> string, fs: seq<Feature>, order: seq<string>): (cs: seq<Campus>)
    requires Usable(fs)
    ensures |cs| <= |order|
  {
    if |order| == 0 then []
    else
      var k := order[|order| - 1];
      var rest := CampusesOf(trim, fs, order[..|order| - 1]);
      var c := GroupCentroidOf(trim, fs, k);
      if c.Some? then rest + [Campus(k, Members(trim, fs, k), c.value)] else rest
  }

  /** The campuses in `campusMap` order, before sorting. */
  function Registry(trim: string -> string, fs: seq<Feature>): seq<Campus>
    requires Usable(fs)
  {
    CampusesOf(trim, fs, GroupOrder(trim, fs))
  }

  function ByName(collate: (string, string) -> bool): (Campus, Campus) -> bool {
    (a: Campus, b: Campus) => collate(a.name, b.name)
  }

  /** `data.campuses`. */
  function SortedCampuses(trim: string -> string, collate: (string, string) -> bool,
                          fs: seq<Feature>): seq<Campus>
    requires Usable(fs)
  {
    InsertionSort(Registry(trim, fs), ByName(collate))
  }

  // ---------------------------------------------------------------- the source's loops

  /** The centroid loop for one campus: sums the non-null building centroids and divides by
      their count, leaving the centroid null when there is none. */
  method GroupCentroid(bs: seq<Feature>) returns (c: Option<Point>)
    requires forall j :: 0 <= j < |bs| ==> Located(bs[j])
    ensures c == MeanCentroid(bs)
  {
    var sumLng, sumLat, count := 0.0, 0.0, 0;
    for i := 0 to |bs|
      invariant sumLng == SumLng(CentroidsOf(bs[..i]))
      invariant sumLat == SumLat(CentroidsOf(bs[..i]))
      invariant count == |CentroidsOf(bs[..i])|
    {
      CentroidsStep(bs, i);
      var centroid := GetCentroid(bs[i].geometry.value);
      if centroid.Some? {
        sumLng := sumLng + centroid.value.lng;
        sumLat := sumLat + centroid.value.lat;
        count := count + 1;
      }
    }
    assert bs[..|bs|] == bs;
    if count > 0 {
      c := Some(Point(sumLng / count as real, sumLat / count as real));
    } else {
      c := None;
    }
  }

  /** What visiting building i adds to the running sums and count. */
  lemma CentroidsStep(bs: seq<Feature>, i: nat)
    requires i < |bs| && forall j :: 0 <= j < |bs| ==> Located(bs[j])
    ensures var c := FeatureCentroid(bs[i]);
      var before := CentroidsOf(bs[..i]);
      var after := CentroidsOf(bs[..i + 1]);
      && SumLng(after) == SumLng(before) + (if c.Some? then c.value.lng else 0.0)
      && SumLat(after) == SumLat(before) + (if c.Some? then c.value.lat else 0.0)
      && |after| == |before| + (if c.Some? then 1 else 0)
  {
    assert bs[..i + 1][..i] == bs[..i];
    var c := FeatureCentroid(bs[i]);
    var before := CentroidsOf(bs[..i]);
    if c.Some? {
      assert (before + [c.value])[..|before|] == before;
    }
  }

  /** A key with buildings has been met. */
  lemma MembersKeyed(trim: string -> string, fs: seq<Feature>, key: string)
    ensures |Members(trim, fs, key)| > 0 ==> key in GroupOrder(trim, fs)
  {
    var m := Members(trim, fs, key);
    MembersMeaning(trim, fs, key);
    if |m| > 0 {
      var i :| 0 <= i < |fs| && fs[i] == m[0];
      assert CampusName(fs[i]).Some? && Key(trim, fs[i]) == key;
    }
  }

  lemma GroupOrderStep(trim: string -> string, fs: seq<Feature>, i: nat)
    requires i < |fs|
    ensures var order := GroupOrder(trim, fs[..i]);
      GroupOrder(trim, fs[..i + 1]) ==
        if CampusName(fs[i]).None? || Key(trim, fs[i]) in order then order
        else order + [Key(trim, fs[i])]
  {
    assert fs[..i + 1][..i] == fs[..i];
  }

  lemma MembersStep(trim: string -> string, fs: seq<Feature>, i: nat, key: string)
    requires i < |fs|
    ensures Members(trim, fs[..i + 1], key) ==
      Members(trim, fs[..i], key) +
        if CampusName(fs[i]).Some? && Key(trim, fs[i]) == key then [fs[i]] else []
  {
    assert fs[..i + 1][..i] == fs[..i];
  }

  /** `campusMap` and its key order once the features `fs` have been grouped. */
  ghost predicate Grouped(trim: string -> string, fs: seq<Feature>, campusMap: map<string, Group>, order: seq<string>) {
    && order == GroupOrder(trim, fs)
    && (forall k :: k in campusMap <==> k in order)
    && (forall k :: k in campusMap ==> campusMap[k] == Group(k, Members(trim, fs, k), None))
  }

  /** The step of the grouping loop that visits an unnamed feature i: nothing changes. */
  lemma GroupedSkip(trim: string -> string, fs: seq<Feature>, i: nat,
                    campusMap: map<string, Group>, order: seq<string>)
    requires i < |fs| && Grouped(trim, fs[..i], campusMap, order) && CampusName(fs[i]).None?
    ensures Grouped(trim, fs[..i + 1], campusMap, order)
  {
    GroupOrderStep(trim, fs, i);
    forall j | j in campusMap
      ensures campusMap[j] == Group(j, Members(trim, fs[..i + 1], j), None)
    {
      MembersStep(trim, fs, i, j);
    }
  }

  /** The step of the grouping loop that visits a named feature i: it is pushed onto the
      group of its key, which is created first if the key is new. */
  lemma GroupedPush(trim: string -> string, fs: seq<Feature>, i: nat,
                    campusMap: map<string, Group>, order: seq<string>)
    requires i < |fs| && Grouped(trim, fs[..i], campusMap, order) && CampusName(fs[i]).Some?
    ensures var k := Key(trim, fs[i]);
      var g := if k in campusMap then campusMap[k] else Group(k, [], None);
      Grouped(trim, fs[..i + 1], campusMap[k := g.(buildings := g.buildings + [fs[i]])],
              if k in campusMap then order else order + [k])
  {
    GroupOrderStep(trim, fs, i);
    var k := Key(trim, fs[i]);
    var g := if k in campusMap then campusMap[k] else Group(k, [], None);
    var next := campusMap[k := g.(buildings := g.buildings + [fs[i]])];
    var nextOrder := if k in campusMap then order else order + [k];
    MembersKeyed(trim, fs[..i], k);
    assert nextOrder == GroupOrder(trim, fs[..i + 1]);
    assert forall j :: j in next <==> j in nextOrder;
    forall j | j in next
      ensures next[j] == Group(j, Members(trim, fs[..i + 1], j), None)
    {
      MembersStep(trim, fs, i, j);
    }
  }

  /** The first loop of `processUniversities`: every named feature is pushed onto the
      buildings of the group keyed by its trimmed name, a group being created (with a null
      centroid) the first time its key is met. */
  method GroupByName(trim: string -> string, fs: seq<Feature>)
    returns (campusMap: map<string, Group>, order: seq<string>)
    ensures order == GroupOrder(trim, fs)
    ensures forall k :: k in campusMap <==> k in order
    ensures forall k :: k in campusMap ==> campusMap[k] == Group(k, Members(trim, fs, k), None)
  {
    campusMap, order := map[], [];
    for i := 0 to |fs|
      invariant Grouped(trim, fs[..i], campusMap, order)
    {
      var name := CampusName(fs[i]);
      if name.None? {
        GroupedSkip(trim, fs, i, campusMap, order);
      } else {
        GroupedPush(trim, fs, i, campusMap, order);
        var cleanName := trim(name.value);
        var g := Group(cleanName, [], None);
        if cleanName in campusMap {
          g := campusMap[cleanName];
        } else {
          order := order + [cleanName];
        }
        campusMap := campusMap[cleanName := g.(buildings := g.buildings + [fs[i]])];
      }
    }
    assert fs[..|fs|] == fs;
  }

  /** `processUniversities`: groups the features into `campusMap` (insertion-ordered, here a
      map plus the list of its keys), computes each campus centroid, keeps the campuses that
      have one and sorts them by name. */
  method ProcessUniversities(trim: string -> string, collate: (string, string) -> bool,
                             fs: seq<Feature>) returns (campuses: seq<Campus>)
    requires Usable(fs)
    ensures campuses == SortedCampuses(trim, collate, fs)
  {
    var campusMap, order := GroupByName(trim, fs);
    var placed := LocateGroups(trim, fs, campusMap, order);
    var kept := KeepLocated(placed, order);
    KeptGroupsAreCampuses(trim, fs, placed, order);
    campuses := InsertionSort(kept, ByName(collate));
  }

  /** The second loop of `processUniversities`: each group in turn gets the mean of its
      buildings' centroids, or keeps its null centroid. */
  method LocateGroups(trim: string -> string, fs: seq<Feature>,
                      campusMap: map<string, Group>, order: seq<string>)
    returns (placed: map<string, Group>)
    requires Usable(fs)
    requires forall k :: k in campusMap <==> k in order
    requires forall k :: k in campusMap ==> campusMap[k] == Group(k, Members(trim, fs, k), None)
    ensures forall k :: k in placed <==> k in order
    ensures forall k :: k in placed ==>
      placed[k] == Group(k, Members(trim, fs, k), GroupCentroidOf(trim, fs, k))
  {
    placed := campusMap;
    for j := 0 to |order|
      invariant forall k :: k in placed <==> k in order
      invariant forall k :: k in placed ==>
        placed[k] == Group(k, Members(trim, fs, k),
                           if k in order[..j] then GroupCentroidOf(trim, fs, k) else None)
    {
      assert order[..j + 1] == order[..j] + [order[j]];
      var g := placed[order[j]];
      MembersLocated(trim, fs, order[j]);
      var c := GroupCentroid(g.buildings);
      placed := placed[order[j] := g.(centroid := c)];
    }
    assert order[..|order|] == order;
  }

  /** The campuses a filled `campusMap` yields in insertion order: its groups that have a
      centroid. */
  function KeptGroups(placed: map<string, Group>, order: seq<string>): (cs: seq<Campus>)
    requires forall k :: k in order ==> k in placed
    ensures |cs| <= |order|
  {
    if |order| == 0 then []
    else
      var rest := KeptGroups(placed, order[..|order| - 1]);
      var g := placed[order[|order| - 1]];
      if g.centroid.Some? then rest + [Campus(g.name, g.buildings, g.centroid.value)] else rest
  }

  /** `Array.from(campusMap.values()).filter(c => c.centroid)`: the groups in insertion
      order, without those whose centroid stayed null. */
  method KeepLocated(placed: map<string, Group>, order: seq<string>) returns (kept: seq<Campus>)
    requires forall k :: k in order ==> k in placed
    ensures kept == KeptGroups(placed, order)
  {
    kept := [];
    for j := 0 to |order|
      invariant kept == KeptGroups(placed, order[..j])
    {
      assert order[..j + 1][..j] == order[..j];
      var g := placed[order[j]];
      if g.centroid.Some? {
        kept := kept + [Campus(g.name, g.buildings, g.centroid.value)];
      }
    }
    assert order[..|order|] == order;
  }

  /** Once every group holds its buildings and its centroid, keeping the located groups
      gives the campuses of those keys. */
  lemma {:induction false} KeptGroupsAreCampuses(trim: string -> string, fs: seq<Feature>,
                                                 placed: map<string, Group>, order: seq<string>)
    requires Usable(fs)
    requires forall k :: k in order ==> k in placed
    requires forall k :: k in placed ==>
      placed[k] == Group(k, Members(trim, fs, k), GroupCentroidOf(trim, fs, k))
    ensures KeptGroups(placed, order) == CampusesOf(trim, fs, order)
  {
    if |order| > 0 {
      var front := order[..|order| - 1];
      KeptGroupsAreCampuses(trim, fs, placed, front);
    }
  }

  // ---------------------------------------------------------------- properties

  /** What every campus built from a list of keys is: one of those keys, with all of that
      key's named features as buildings, placed at the mean of their non-null centroids. */
  lemma {:induction false} CampusesOfContents(trim: string -> string, fs: seq<Feature>, order: seq<string>)
    requires Usable(fs)
    ensures forall c :: c in CampusesOf(trim, fs, order) ==>
      && c.name in order
      && c.buildings == Members(trim, fs, c.name)
      && |c.buildings| > 0
      && GroupCentroidOf(trim, fs, c.name) == Some(c.centroid)
  {
    if |order| > 0 {
      var k := order[|order| - 1];
      var front := order[..|order| - 1];
      CampusesOfContents(trim, fs, front);
      CampusesOfStep(trim, fs, order);
      var rest := CampusesOf(trim, fs, front);
      var mc := GroupCentroidOf(trim, fs, k);
      assert forall x :: x in front ==> x in order;
      if mc.Some? {
        MembersLocated(trim, fs, k);
        assert |Members(trim, fs, k)| > 0;
        assert forall c :: c in rest + [Campus(k, Members(trim, fs, k), mc.value)] ==>
          c in rest || c == Campus(k, Members(trim, fs, k), mc.value);
      }
    }
  }

  /** A key yields a campus exactly when one of its buildings has a centroid. */
  lemma {:induction false} CampusesOfCover(trim: string -> string, fs: seq<Feature>, order: seq<string>)
    requires Usable(fs)
    ensures forall k :: k in order ==>
      ((exists c :: c in CampusesOf(trim, fs, order) && c.name == k) <==>
        GroupCentroidOf(trim, fs, k).Some?)
  {
    if |order| > 0 {
      var k := order[|order| - 1];
      var front := order[..|order| - 1];
      CampusesOfCover(trim, fs, front);
      CampusesOfContents(trim, fs, front);
      CampusesOfStep(trim, fs, order);
      var rest := CampusesOf(trim, fs, front);
      var cs := CampusesOf(trim, fs, order);
      var mc := GroupCentroidOf(trim, fs, k);
      forall x | x in order
        ensures (exists c :: c in cs && c.name == x) <==> GroupCentroidOf(trim, fs, x).Some?
      {
        if x == k && mc.Some? {
          assert cs[|cs| - 1].name == x;
        } else if x == k {
          assert cs == rest;
          if x !in front {
            assert forall c :: c in rest ==> c.name != x;
          }
        } else {
          assert x in front;
          if mc.Some? {
            assert forall c :: c in cs ==> c in rest || c.name == k;
          }
        }
      }
    }
  }

  /** The last key of a list adds its campus after the others', if it has a centroid. */
  lemma CampusesOfStep(trim: string -> string, fs: seq<Feature>, order: seq<string>)
    requires Usable(fs) && |order| > 0
    ensures var k := order[|order| - 1];
      var c := GroupCentroidOf(trim, fs, k);
      var rest := CampusesOf(trim, fs, order[..|order| - 1]);
      CampusesOf(trim, fs, order) ==
        if c.Some? then rest + [Campus(k, Members(trim, fs, k), c.value)] else rest
  {
  }

  /** Campus names are distinct when the keys are. */
  lemma {:induction false} CampusesOfDistinct(trim: string -> string, fs: seq<Feature>, order: seq<string>)
    requires Usable(fs)
    requires forall a, b :: 0 <= a < b < |order| ==> order[a] != order[b]
    ensures var cs := CampusesOf(trim, fs, order);
      forall a, b :: 0 <= a < b < |cs| ==> cs[a].name != cs[b].name
  {
    if |order| > 0 {
      var k := order[|order| - 1];
      var front := order[..|order| - 1];
      CampusesOfDistinct(trim, fs, front);
      CampusesOfContents(trim, fs, front);
      var rest := CampusesOf(trim, fs, front);
      CampusesOfStep(trim, fs, order);
      var m := Members(trim, fs, k);
      var mc := GroupCentroidOf(trim, fs, k);
      assert k !in front;
      if mc.Some? {
        var cs := rest + [Campus(k, m, mc.value)];
        forall a, b | 0 <= a < b < |cs|
          ensures cs[a].name != cs[b].name
        {
          if b == |rest| {
            assert cs[a] == rest[a] && rest[a] in rest;
          } else {
            assert cs[a] == rest[a] && cs[b] == rest[b];
          }
        }
      }
    }
  }

  /** `data.campuses` is the registry sorted by name: ordered, and a rearrangement of it. */
  lemma SortedCampusesOrdered(trim: string -> string, collate: (string, string) -> bool,
                              fs: seq<Feature>)
    requires Usable(fs) && TotalPreorder(collate)
    ensures Sorted(SortedCampuses(trim, collate, fs), ByName(collate))
    ensures multiset(SortedCampuses(trim, collate, fs)) == multiset(Registry(trim, fs))
  {
    var le := ByName(collate);
    assert TotalPreorder(le) by {
      assert forall a: Campus, b: Campus :: le(a, b) == collate(a.name, b.name);
    }
    InsertionSortSorted(Registry(trim, fs), le);
  }

  /** Campuses whose names `collate` ranks equal keep their registry order, as the stable
      `sort` keeps them. */
  lemma SortedCampusesStable(trim: string -> string, collate: (string, string) -> bool,
                             fs: seq<Feature>, c: Campus)
    requires Usable(fs) && TotalPreorder(collate)
    ensures Ties(SortedCampuses(trim, collate, fs), ByName(collate), c) ==
      Ties(Registry(trim, fs), ByName(collate), c)
  {
    var le := ByName(collate);
    assert TotalPreorder(le) by {
      assert forall a: Campus, b: Campus :: le(a, b) == collate(a.name, b.name);
    }
    InsertionSortStable(Registry(trim, fs), le, c);
  }

  /** The sorted campuses are the registry's campuses. */
  lemma SameCampuses(trim: string -> string, collate: (string, string) -> bool, fs: seq<Feature>)
    requires Usable(fs) && TotalPreorder(collate)
    ensures forall c :: c in SortedCampuses(trim, collate, fs) <==> c in Registry(trim, fs)
  {
    var cs := SortedCampuses(trim, collate, fs);
    var reg := Registry(trim, fs);
    SortedCampusesOrdered(trim, collate, fs);
    forall c | c in cs
      ensures c in reg
    {
      assert c in multiset(cs);
    }
    forall c | c in reg
      ensures c in cs
    {
      assert c in multiset(reg);
    }
  }

  /** No two entries of `data.campuses` share a name. */
  lemma SortedCampusesDistinct(trim: string -> string, collate: (string, string) -> bool,
                               fs: seq<Feature>)
    requires Usable(fs) && TotalPreorder(collate)
    ensures var cs := SortedCampuses(trim, collate, fs);
      forall a, b :: 0 <= a < b < |cs| ==> cs[a].name != cs[b].name
  {
    var order := GroupOrder(trim, fs);
    var reg := Registry(trim, fs);
    var cs := SortedCampuses(trim, collate, fs);
    SortedCampusesOrdered(trim, collate, fs);
    SameCampuses(trim, collate, fs);
    CampusesOfDistinct(trim, fs, order);
    assert reg == CampusesOf(trim, fs, order);
    forall x, y | 0 <= x < y < |reg|
      ensures reg[x] != reg[y]
    {
      assert reg[x].name != reg[y].name;
    }
    NoRepeats(cs, reg);
    forall a, b | 0 <= a < b < |cs|
      ensures cs[a].name != cs[b].name
    {
      assert cs[a] in reg && cs[b] in reg;
      NameDeterminesCampus(trim, fs, cs[a], cs[b]);
    }
  }

  /** Each entry of `data.campuses` lists all features that carry its name and sits at the
      mean of their non-null centroids; a name has an entry exactly when one of its
      buildings has a centroid. */
  lemma SortedCampusesContents(trim: string -> string, collate: (string, string) -> bool,
                               fs: seq<Feature>)
    requires Usable(fs) && TotalPreorder(collate)
    ensures var cs := SortedCampuses(trim, collate, fs);
      forall c :: c in cs ==>
        && c.buildings == Members(trim, fs, c.name)
        && |c.buildings| > 0
        && GroupCentroidOf(trim, fs, c.name) == Some(c.centroid)
    ensures var cs := SortedCampuses(trim, collate, fs);
      forall i :: 0 <= i < |fs| && CampusName(fs[i]).Some? ==>
        ((exists c :: c in cs && c.name == Key(trim, fs[i])) <==>
          GroupCentroidOf(trim, fs, Key(trim, fs[i])).Some?)
  {
    var order := GroupOrder(trim, fs);
    SameCampuses(trim, collate, fs);
    CampusesOfContents(trim, fs, order);
    CampusesOfCover(trim, fs, order);
  }

  /** Two registry campuses with the same name are equal. */
  lemma NameDeterminesCampus(trim: string -> string, fs: seq<Feature>, c: Campus, d: Campus)
    requires Usable(fs)
    requires c in Registry(trim, fs) && d in Registry(trim, fs)
    ensures c.name == d.name ==> c == d
  {
    CampusesOfContents(trim, fs, GroupOrder(trim, fs));
  }
}
