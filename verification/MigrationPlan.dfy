/**
 * The tracked resources: how generate_data.py attaches order and dependencies to them and renumbers
 * them with deprecated kinds last, and what app.js then offers as ready to migrate.
 */
module MigrationPlan {
  import opened Ordering
  import opened Graphs
  import opened Kahn
  import opened MigrationOrder

  datatype Resource = Resource(kind: Kind, dependencies: seq<Kind>, state: string, deprecated: bool,
                               sortOrder: int, downstreamCount: nat)
  {
    predicate Completed() { state == "Completed" }
    /** Still to be migrated: neither completed nor deprecated. */
    predicate Pending() { !Completed() && !deprecated }
  }

  type Tracked = map<Kind, Resource>

  ghost predicate Keyed(resources: Tracked) {
    forall k :: k in resources ==> resources[k].kind == k
  }

  // ---------------------------------------------------------------- attaching order and dependencies

  /** What the first pass works from: numbers, downstream counts, dependency sets, and the kinds for
      which some migration step is already done. */
  datatype Facts = Facts(topo: map<Kind, nat>, counts: map<Kind, nat>, dependencies: map<Kind, set<Kind>>, started: set<Kind>)

  /** The state once the steps are known: an uncompleted kind with any step done is in progress, and
      every other state stays. */
  ghost predicate StateSettled(before: Resource, after: Resource, started: set<Kind>) {
    && (before.state != "Completed" && before.kind in started ==> after.state == "In Progress")
    && (before.state == "Completed" || before.kind !in started ==> after.state == before.state)
  }

  /** The resource as the first pass leaves it. */
  ghost predicate Annotated(before: Resource, after: Resource, tracked: set<Kind>, facts: Facts) {
    && after.kind == before.kind && after.deprecated == before.deprecated
    && StateSettled(before, after, facts.started)
    && after.sortOrder == (if before.kind in facts.topo then facts.topo[before.kind] else 9999)
    && after.downstreamCount == CountOf(facts.counts, before.kind)
    && (if before.kind in facts.dependencies
        then Enumerates(map[], after.dependencies, facts.dependencies[before.kind] * tracked)
        else after.dependencies == before.dependencies)
  }

  method Annotate(resources0: Tracked, facts: Facts) returns (resources: Tracked)
    requires Keyed(resources0)
    ensures resources.Keys == resources0.Keys
    ensures forall k :: k in resources0 ==> Annotated(resources0[k], resources[k], resources0.Keys, facts)
  {
    resources := resources0;
    var rest := resources0.Keys;
    while rest != {}
      invariant rest <= resources0.Keys && resources.Keys == resources0.Keys
      invariant forall k :: k in rest ==> resources[k] == resources0[k]
      invariant forall k :: k in resources0.Keys - rest ==> Annotated(resources0[k], resources[k], resources0.Keys, facts)
      decreases rest
    {
      var kind :| kind in rest;
      var res := AnnotateOne(resources[kind], resources0.Keys, facts);
      hide Annotated;
      resources := resources[kind := res];
      rest := rest - {kind};
    }
  }

  method AnnotateOne(before: Resource, tracked: set<Kind>, facts: Facts) returns (res: Resource)
    ensures Annotated(before, res, tracked, facts)
  {
    var kind := before.kind;
    res := before.(sortOrder := if kind in facts.topo then facts.topo[kind] else 9999,
                   downstreamCount := CountOf(facts.counts, kind));
    if kind in facts.dependencies {
      var validDeps := SortedListing(map[], set d | d in facts.dependencies[kind] && d in tracked);
      assert facts.dependencies[kind] * tracked == set d | d in facts.dependencies[kind] && d in tracked;
      res := res.(dependencies := validDeps);
    }
    if res.state != "Completed" && kind in facts.started {
      res := res.(state := "In Progress");
    }
  }

  // ---------------------------------------------------------------- renumbering

  function OrderOf(resources: Tracked, k: Kind): int {
    if k in resources then resources[k].sortOrder else 9999
  }

  function ByOrder(resources: Tracked): (Kind, Kind) -> bool {
    (a, b) => OrderOf(resources, a) < OrderOf(resources, b)
  }

  lemma ByOrderIsStrictWeak(resources: Tracked)
    ensures StrictWeakOrder(ByOrder(resources))
  {
  }

  /** Deprecated kinds last, then by old number, then in the order the resources were entered. */
  ghost predicate ComesBefore(kinds: seq<Kind>, resources: Tracked, a: Kind, b: Kind) {
    && a in resources && b in resources
    && if resources[a].deprecated != resources[b].deprecated then resources[b].deprecated
       else if resources[a].sortOrder != resources[b].sortOrder then resources[a].sortOrder < resources[b].sortOrder
       else Precedes(kinds, a, b)
  }

  lemma ComesBeforeTotal(kinds: seq<Kind>, resources: Tracked, a: Kind, b: Kind)
    requires NoDuplicates(kinds) && Elems(kinds) == resources.Keys && a in resources && b in resources
    ensures !(ComesBefore(kinds, resources, a, b) && ComesBefore(kinds, resources, b, a))
    ensures a == b || ComesBefore(kinds, resources, a, b) || ComesBefore(kinds, resources, b, a)
  {
    PrecedesAsymmetric(kinds, a, b);
    assert a in Elems(kinds) && b in Elems(kinds);
    var i :| 0 <= i < |kinds| && kinds[i] == a;
    var j :| 0 <= j < |kinds| && kinds[j] == b;
  }

  /** `after` is `before` with the numbers from 1 to n in that order, and nothing else changed. */
  ghost predicate Renumbered(kinds: seq<Kind>, before: Tracked, after: Tracked) {
    && after.Keys == before.Keys
    && (forall k :: k in before ==>
          after[k] == before[k].(sortOrder := after[k].sortOrder) && 1 <= after[k].sortOrder <= |before|)
    && (forall a, b :: a in before && b in before ==>
          (after[a].sortOrder < after[b].sortOrder <==> ComesBefore(kinds, before, a, b)))
  }

  /** The list the final numbers follow. */
  ghost predicate Lineup(kinds: seq<Kind>, resources: Tracked, list: seq<Kind>) {
    && NoDuplicates(list) && Elems(list) == resources.Keys
    && forall i, j :: 0 <= i < j < |list| ==> ComesBefore(kinds, resources, list[i], list[j])
  }

  lemma NumberMeansPosition(kinds: seq<Kind>, before: Tracked, after: Tracked, list: seq<Kind>, k: Kind)
    requires Lineup(kinds, before, list) && NumberedUpTo(before, after, list, |list|) && k in before
    ensures 1 <= after[k].sortOrder <= |before| && |before| == |list|
    ensures list[after[k].sortOrder - 1] == k
    ensures after[k] == before[k].(sortOrder := after[k].sortOrder)
  {
    DistinctLength(list);
    assert |before.Keys| == |before|;
    assert k in Elems(list);
    var i :| 0 <= i < |list| && list[i] == k;
  }

  lemma LineupNumbers(kinds: seq<Kind>, before: Tracked, after: Tracked, list: seq<Kind>)
    requires NoDuplicates(kinds) && Elems(kinds) == before.Keys
    requires Lineup(kinds, before, list) && NumberedUpTo(before, after, list, |list|)
    ensures Renumbered(kinds, before, after)
  {
    hide ComesBefore;
    forall k | k in before
      ensures after[k] == before[k].(sortOrder := after[k].sortOrder) && 1 <= after[k].sortOrder <= |before|
    {
      NumberMeansPosition(kinds, before, after, list, k);
    }
    forall a, b | a in before && b in before
      ensures after[a].sortOrder < after[b].sortOrder <==> ComesBefore(kinds, before, a, b)
    {
      LineupKeepsPair(kinds, before, after, list, a, b);
    }
  }

  lemma LineupKeepsPair(kinds: seq<Kind>, before: Tracked, after: Tracked, list: seq<Kind>, a: Kind, b: Kind)
    requires NoDuplicates(kinds) && Elems(kinds) == before.Keys
    requires Lineup(kinds, before, list) && NumberedUpTo(before, after, list, |list|) && a in before && b in before
    ensures after[a].sortOrder < after[b].sortOrder <==> ComesBefore(kinds, before, a, b)
  {
    NumberMeansPosition(kinds, before, after, list, a);
    NumberMeansPosition(kinds, before, after, list, b);
    ComesBeforeTotal(kinds, before, a, b);
    hide NumberedUpTo, ComesBefore;
    var i, j := after[a].sortOrder - 1, after[b].sortOrder - 1;
    assert i < j ==> ComesBefore(kinds, before, list[i], list[j]);
    assert j < i ==> ComesBefore(kinds, before, list[j], list[i]);
  }

  /** `part` keeps the order of `kinds`. */
  ghost predicate Sublist(part: seq<Kind>, kinds: seq<Kind>) {
    forall a, b :: Precedes(part, a, b) ==> Precedes(kinds, a, b)
  }

  lemma SublistStep(part: seq<Kind>, kinds: seq<Kind>, x: Kind)
    requires Sublist(part, kinds) && Elems(part) <= Elems(kinds)
    ensures Sublist(part + [x], kinds + [x]) && Sublist(part, kinds + [x])
  {
    var longer := kinds + [x];
    forall a, b | Precedes(kinds, a, b) ensures Precedes(longer, a, b) {
      var i, j :| 0 <= i < j < |kinds| && kinds[i] == a && kinds[j] == b;
      assert longer[i] == a && longer[j] == b;
    }
    forall a, b | Precedes(part + [x], a, b) ensures Precedes(longer, a, b) {
      var i, j :| 0 <= i < j < |part + [x]| && (part + [x])[i] == a && (part + [x])[j] == b;
      if j < |part| {
        assert part[i] == a && part[j] == b;
        assert Precedes(part, a, b);
      } else {
        assert a in Elems(part);
        var k :| 0 <= k < |kinds| && kinds[k] == a;
        assert longer[k] == a && longer[|kinds|] == b;
      }
    }
  }

  lemma SortedSplitIsLineup(kinds: seq<Kind>, resources: Tracked, active: seq<Kind>, deprecated: seq<Kind>)
    requires NoDuplicates(active) && NoDuplicates(deprecated) && Sublist(active, kinds) && Sublist(deprecated, kinds)
    requires Elems(active) == set k | k in resources && !resources[k].deprecated
    requires Elems(deprecated) == set k | k in resources && resources[k].deprecated
    ensures Lineup(kinds, resources, StableSort(ByOrder(resources), active) + StableSort(ByOrder(resources), deprecated))
  {
    SortedKinds(resources, active);
    SortedKinds(resources, deprecated);
    TiesInOrder(kinds, resources, active);
    TiesInOrder(kinds, resources, deprecated);
    SplitIsLineup(kinds, resources, StableSort(ByOrder(resources), active), StableSort(ByOrder(resources), deprecated));
  }

  /** Among kinds sorted by number, those with equal numbers stand in the order of `kinds`. */
  ghost predicate TiesFollow(kinds: seq<Kind>, resources: Tracked, s: seq<Kind>) {
    forall i, j :: 0 <= i < j < |s| && OrderOf(resources, s[i]) == OrderOf(resources, s[j]) ==> Precedes(kinds, s[i], s[j])
  }

  lemma TiesInOrder(kinds: seq<Kind>, resources: Tracked, part: seq<Kind>)
    requires NoDuplicates(part) && Sublist(part, kinds)
    ensures TiesFollow(kinds, resources, StableSort(ByOrder(resources), part))
  {
    var s := StableSort(ByOrder(resources), part);
    SortedKinds(resources, part);
    forall i, j | 0 <= i < j < |s| && OrderOf(resources, s[i]) == OrderOf(resources, s[j]) ensures Precedes(kinds, s[i], s[j]) {
      hide Precedes, StableSort;
      TieInOrder(resources, part, i, j);
    }
  }

  lemma TieInOrder(resources: Tracked, part: seq<Kind>, i: nat, j: nat)
    requires NoDuplicates(part)
    requires var s := StableSort(ByOrder(resources), part); i < j < |s| && OrderOf(resources, s[i]) == OrderOf(resources, s[j])
    ensures var s := StableSort(ByOrder(resources), part); Precedes(part, s[i], s[j])
  {
    hide StableSort;
    var s := StableSort(ByOrder(resources), part);
    SortedKinds(resources, part);
    ByOrderIsStrictWeak(resources);
    assert s[i] in Elems(s) && s[j] in Elems(s);
    var p :| 0 <= p < |part| && part[p] == s[i];
    var q :| 0 <= q < |part| && part[q] == s[j];
    if q < p {
      PrecedesAsymmetric(s, s[i], s[j]);
      StableSortKeepsOrder(ByOrder(resources), part, q, p);
    }
  }

  lemma SplitIsLineup(kinds: seq<Kind>, resources: Tracked, a: seq<Kind>, d: seq<Kind>)
    requires NoDuplicates(a) && NoDuplicates(d) && Sorted(ByOrder(resources), a) && Sorted(ByOrder(resources), d)
    requires TiesFollow(kinds, resources, a) && TiesFollow(kinds, resources, d)
    requires Elems(a) == set k | k in resources && !resources[k].deprecated
    requires Elems(d) == set k | k in resources && resources[k].deprecated
    ensures Lineup(kinds, resources, a + d)
  {
    hide Precedes;
    var list := a + d;
    ElemsConcat(a, d);
    forall i | 0 <= i < |a| ensures a[i] in resources && !resources[a[i]].deprecated { assert a[i] in Elems(a); }
    forall i | 0 <= i < |d| ensures d[i] in resources && resources[d[i]].deprecated { assert d[i] in Elems(d); }
    forall i, j | 0 <= i < j < |list| ensures list[i] != list[j] && ComesBefore(kinds, resources, list[i], list[j]) {
      if j < |a| {
        assert !ByOrder(resources)(a[j], a[i]);
      } else if i >= |a| {
        assert !ByOrder(resources)(d[j - |a|], d[i - |a|]);
      }
    }
  }

  lemma SortedKinds(resources: Tracked, kinds: seq<Kind>)
    requires NoDuplicates(kinds)
    ensures Sorted(ByOrder(resources), StableSort(ByOrder(resources), kinds))
    ensures NoDuplicates(StableSort(ByOrder(resources), kinds))
    ensures Elems(StableSort(ByOrder(resources), kinds)) == Elems(kinds)
  {
    var s := StableSort(ByOrder(resources), kinds);
    ByOrderIsStrictWeak(resources);
    StableSortCorrect(ByOrder(resources), kinds);
    MultisetNoDuplicates(s, kinds);
    forall x ensures x in s <==> x in kinds {
      assert x in multiset(s) <==> x in multiset(kinds);
    }
  }

  method Renumber(kinds: seq<Kind>, resources0: Tracked) returns (resources: Tracked)
    requires NoDuplicates(kinds) && Elems(kinds) == resources0.Keys
    ensures Renumbered(kinds, resources0, resources)
  {
    var active, deprecated := [], [];
    for i := 0 to |kinds|
      invariant Sorting(kinds[..i], resources0, active, false) && Sorting(kinds[..i], resources0, deprecated, true)
    {
      hide Sorting;
      var kind := kinds[i];
      assert kind in Elems(kinds) && kind !in kinds[..i];
      assert kinds[..i + 1] == kinds[..i] + [kind];
      SortingStep(kinds[..i], resources0, active, false, kind);
      SortingStep(kinds[..i], resources0, deprecated, true, kind);
      if resources0[kind].deprecated {
        deprecated := deprecated + [kind];
      } else {
        active := active + [kind];
      }
    }
    assert kinds[..|kinds|] == kinds;
    SortedSplitIsLineup(kinds, resources0, active, deprecated);
    resources := NumberLineup(kinds, resources0, StableSort(ByOrder(resources0), active), StableSort(ByOrder(resources0), deprecated));
  }

  /** `part` holds those of `kinds` with the given deprecation flag, in order. */
  ghost predicate Sorting(kinds: seq<Kind>, resources: Tracked, part: seq<Kind>, flag: bool) {
    && NoDuplicates(part) && Sublist(part, kinds)
    && Elems(part) == set k | k in Elems(kinds) && k in resources && resources[k].deprecated == flag
  }

  lemma SortingStep(kinds: seq<Kind>, resources: Tracked, part: seq<Kind>, flag: bool, kind: Kind)
    requires Sorting(kinds, resources, part, flag) && kind in resources && kind !in kinds
    ensures Sorting(kinds + [kind], resources, if resources[kind].deprecated == flag then part + [kind] else part, flag)
  {
    SublistStep(part, kinds, kind);
    ElemsAppend(kinds, kind);
    ElemsAppend(part, kind);
    assert kind !in Elems(part);
  }

  ghost predicate NumberedUpTo(before: Tracked, after: Tracked, list: seq<Kind>, n: nat) {
    && after.Keys == before.Keys && n <= |list|
    && (forall i :: 0 <= i < n ==> list[i] in before && after[list[i]] == before[list[i]].(sortOrder := i + 1))
    && (forall i :: n <= i < |list| ==> list[i] in before && after[list[i]] == before[list[i]])
  }

  lemma NumberedStart(kinds: seq<Kind>, before: Tracked, list: seq<Kind>)
    requires Lineup(kinds, before, list)
    ensures NumberedUpTo(before, before, list, 0)
  {
    assert forall i :: 0 <= i < |list| ==> list[i] in Elems(list);
  }

  lemma NumberedStep(kinds: seq<Kind>, before: Tracked, after: Tracked, list: seq<Kind>, n: nat, kind: Kind)
    requires Lineup(kinds, before, list) && NumberedUpTo(before, after, list, n) && n < |list| && kind == list[n]
    ensures kind in after
    ensures NumberedUpTo(before, after[kind := after[kind].(sortOrder := n + 1)], list, n + 1)
  {
    hide ComesBefore;
  }

  method NumberLineup(ghost kinds: seq<Kind>, resources0: Tracked, active: seq<Kind>, deprecated: seq<Kind>) returns (resources: Tracked)
    requires NoDuplicates(kinds) && Elems(kinds) == resources0.Keys && Lineup(kinds, resources0, active + deprecated)
    ensures Renumbered(kinds, resources0, resources)
  {
    hide *;
    ghost var list := active + deprecated;
    NumberedStart(kinds, resources0, list);
    resources := resources0;
    var currentOrder := 1;
    for i := 0 to |active|
      invariant currentOrder == i + 1
      invariant NumberedUpTo(resources0, resources, list, i)
    {
      NumberedStep(kinds, resources0, resources, list, i, active[i]);
      resources := resources[active[i] := resources[active[i]].(sortOrder := currentOrder)];
      currentOrder := currentOrder + 1;
    }
    for i := 0 to |deprecated|
      invariant currentOrder == |active| + i + 1
      invariant NumberedUpTo(resources0, resources, list, |active| + i)
    {
      NumberedStep(kinds, resources0, resources, list, |active| + i, deprecated[i]);
      resources := resources[deprecated[i] := resources[deprecated[i]].(sortOrder := currentOrder)];
      currentOrder := currentOrder + 1;
    }
    LineupNumbers(kinds, resources0, resources, list);
  }

  // ---------------------------------------------------------------- the whole of parse_data's ordering

  /** What build_dependency_graph guarantees: edges only between known kinds. */
  ghost predicate BuiltFrom(known: set<Kind>, dependencies: map<Kind, set<Kind>>) {
    dependencies.Keys <= known && forall k :: k in dependencies ==> dependencies[k] <= known
  }

  /** Every dependency is tracked, and between kinds that are not deprecated it has the smaller number. */
  ghost predicate WellOrdered(data: Tracked) {
    && Keyed(data)
    && (forall a, b :: a in data && b in data && a != b ==> data[a].sortOrder != data[b].sortOrder)
    && forall k, d :: k in data && d in data[k].dependencies ==>
         d in data && (!data[k].deprecated && !data[d].deprecated ==> data[d].sortOrder < data[k].sortOrder)
  }

  /** create_default_resource starts every resource with an empty dependency list. */
  ghost predicate Defaults(resources: Tracked) {
    Keyed(resources) && forall k :: k in resources ==> resources[k].dependencies == []
  }

  /** A kind's number before deprecated kinds move to the end; kinds with no definition come after 9998 others. */
  ghost function Place(g: Graph, k: Kind): int {
    if k in g then 1 + |NumberedFirst(g, k)| else 9999
  }

  /** The order of the final numbers, with no queue and no sort in it. */
  ghost predicate PlacedBefore(g: Graph, kinds: seq<Kind>, resources: Tracked, a: Kind, b: Kind)
    requires a in resources && b in resources
  {
    if resources[a].deprecated != resources[b].deprecated then resources[b].deprecated
    else if a in g && b in g then NumberedBefore(g, a, b)
    else if Place(g, a) != Place(g, b) then Place(g, a) < Place(g, b)
    else Precedes(kinds, a, b)
  }

  /** What both passes leave of one resource apart from its numbers. */
  ghost predicate Kept(before: Resource, after: Resource, dependencies: map<Kind, set<Kind>>, started: set<Kind>, tracked: set<Kind>) {
    && after.kind == before.kind && after.deprecated == before.deprecated
    && StateSettled(before, after, started)
    && Enumerates(map[], after.dependencies, (if before.kind in dependencies then dependencies[before.kind] else {}) * tracked)
  }

  method OrderResources(known: set<Kind>, dependencies: map<Kind, set<Kind>>, started: set<Kind>, kinds: seq<Kind>,
                        resources0: Tracked) returns (resources: Tracked)
    requires BuiltFrom(known, dependencies) && Defaults(resources0)
    requires NoDuplicates(kinds) && Elems(kinds) == resources0.Keys
    ensures resources.Keys == resources0.Keys
    ensures forall k :: k in resources ==>
              Kept(resources0[k], resources[k], dependencies, started, resources0.Keys) && 1 <= resources[k].sortOrder <= |resources|
    ensures forall k :: k in resources ==> (resources[k].state == "Completed" <==> resources0[k].state == "Completed")
    ensures forall k :: k in resources ==>
              resources[k].downstreamCount == if k in known then |Downstream(LocalGraph(known, dependencies), k)| else 0
    ensures forall a, b :: a in resources && b in resources ==>
              (resources[a].sortOrder < resources[b].sortOrder <==>
               PlacedBefore(LocalGraph(known, dependencies), kinds, resources0, a, b))
    ensures Acyclic(LocalGraph(known, dependencies)) ==> WellOrdered(resources)
  {
    hide *;
    LocalGraphClosed(known, dependencies);
    var g := BuildLocalGraph(known, dependencies);
    var rev := BuildReverse(g);
    var counts := CountDownstream(g, rev);
    var topo := NumberKinds(g, rev, counts);
    var facts := Facts(topo, counts, dependencies, started);
    DefaultsKeyed(resources0);
    var annotated := Annotate(resources0, facts);
    resources := Renumber(kinds, annotated);
    PipelineMade(facts, kinds, resources0, annotated, resources);
    PipelineKeeps(facts, kinds, resources0, annotated, resources);
    PipelineCounts(g, facts, kinds, resources0, annotated, resources);
    forall k | k in resources ensures resources[k].state == "Completed" <==> resources0[k].state == "Completed" {
      KeptCompleted(resources0[k], resources[k], dependencies, started, resources0.Keys);
    }
    forall a, b | a in resources && b in resources
      ensures resources[a].sortOrder < resources[b].sortOrder <==> PlacedBefore(g, kinds, resources0, a, b)
    {
      PipelinePlaces(g, facts, kinds, resources0, annotated, resources, a, b);
    }
    if Acyclic(g) {
      OrderedPipeline(known, facts, kinds, resources0, annotated, resources);
    }
  }

  lemma DefaultsKeyed(resources: Tracked)
    requires Defaults(resources)
    ensures Keyed(resources)
  {
  }

  /** Everything the two passes did, as a relation between the maps. */
  ghost predicate Pipeline(facts: Facts, kinds: seq<Kind>, resources0: Tracked, annotated: Tracked, resources: Tracked) {
    && annotated.Keys == resources0.Keys && Renumbered(kinds, annotated, resources)
    && NoDuplicates(kinds) && Elems(kinds) == resources0.Keys
    && forall k :: k in resources0 ==> Annotated(resources0[k], annotated[k], resources0.Keys, facts)
  }

  lemma PipelineMade(facts: Facts, kinds: seq<Kind>, resources0: Tracked, annotated: Tracked, resources: Tracked)
    requires annotated.Keys == resources0.Keys && Renumbered(kinds, annotated, resources)
    requires NoDuplicates(kinds) && Elems(kinds) == resources0.Keys
    requires forall k :: k in resources0 ==> Annotated(resources0[k], annotated[k], resources0.Keys, facts)
    ensures Pipeline(facts, kinds, resources0, annotated, resources)
  {
  }

  lemma PipelineKeeps(facts: Facts, kinds: seq<Kind>, resources0: Tracked, annotated: Tracked, resources: Tracked)
    requires Pipeline(facts, kinds, resources0, annotated, resources) && Defaults(resources0)
    ensures resources.Keys == resources0.Keys
    ensures forall k :: k in resources ==>
              Kept(resources0[k], resources[k], facts.dependencies, facts.started, resources0.Keys) && 1 <= resources[k].sortOrder <= |resources|
  {
    assert |annotated| == |annotated.Keys| == |resources.Keys| == |resources|;
    forall k | k in resources
      ensures Kept(resources0[k], resources[k], facts.dependencies, facts.started, resources0.Keys) && 1 <= resources[k].sortOrder <= |resources|
    {
      assert resources[k] == annotated[k].(sortOrder := resources[k].sortOrder);
      AnnotatedKeeps(resources0[k], annotated[k], resources0.Keys, facts);
    }
  }

  lemma KeptCompleted(before: Resource, after: Resource, dependencies: map<Kind, set<Kind>>, started: set<Kind>, tracked: set<Kind>)
    requires Kept(before, after, dependencies, started, tracked)
    ensures after.state == "Completed" <==> before.state == "Completed"
  {
    assert "In Progress"[0] != "Completed"[0];
  }

  lemma PipelineCounts(g: Graph, facts: Facts, kinds: seq<Kind>, resources0: Tracked, annotated: Tracked, resources: Tracked)
    requires Pipeline(facts, kinds, resources0, annotated, resources) && Keyed(resources0) && facts.counts == DownstreamCounts(g)
    ensures resources.Keys == resources0.Keys
    ensures forall k :: k in resources ==> resources[k].downstreamCount == if k in g then |Downstream(g, k)| else 0
  {
    hide Downstream;
    forall k | k in resources ensures resources[k].downstreamCount == if k in g then |Downstream(g, k)| else 0 {
      assert Annotated(resources0[k], annotated[k], resources0.Keys, facts);
      assert resources[k] == annotated[k].(sortOrder := resources[k].sortOrder);
    }
  }

  lemma AnnotatedKeeps(before: Resource, after: Resource, tracked: set<Kind>, facts: Facts)
    requires Annotated(before, after, tracked, facts) && before.dependencies == []
    ensures Kept(before, after, facts.dependencies, facts.started, tracked)
  {
  }

  /** The first pass gives every kind its place, so the second pass's order is PlacedBefore. */
  lemma PipelinePlaces(g: Graph, facts: Facts, kinds: seq<Kind>, resources0: Tracked, annotated: Tracked, resources: Tracked, a: Kind, b: Kind)
    requires Closed(g) && TopoOrder(g, facts.topo) && Keyed(resources0)
    requires Pipeline(facts, kinds, resources0, annotated, resources)
    requires a in resources && b in resources && resources.Keys == resources0.Keys
    ensures resources[a].sortOrder < resources[b].sortOrder <==> PlacedBefore(g, kinds, resources0, a, b)
  {
    AnnotatedPlace(g, resources0[a], annotated[a], resources0.Keys, facts);
    AnnotatedPlace(g, resources0[b], annotated[b], resources0.Keys, facts);
    assert resources[a].sortOrder < resources[b].sortOrder <==> ComesBefore(kinds, annotated, a, b);
    hide Renumbered, Annotated, NumberedBefore, TopoOrder, NumberedFirst, Precedes;
    if a in g && b in g {
      PrecedesAsymmetric(kinds, a, b);
      NumberedBeforeTotal(g, a, b);
      if NumberedBefore(g, a, b) {
        SmallerRank(g, a, b);
      } else if NumberedBefore(g, b, a) {
        SmallerRank(g, b, a);
      }
    }
  }

  lemma AnnotatedPlace(g: Graph, before: Resource, after: Resource, tracked: set<Kind>, facts: Facts)
    requires TopoOrder(g, facts.topo) && Annotated(before, after, tracked, facts)
    ensures after.sortOrder == Place(g, before.kind) && after.deprecated == before.deprecated
  {
    hide NumberedFirst;
  }

  lemma OrderedPipeline(known: set<Kind>, facts: Facts, kinds: seq<Kind>, resources0: Tracked, annotated: Tracked, resources: Tracked)
    requires BuiltFrom(known, facts.dependencies) && Defaults(resources0) && Pipeline(facts, kinds, resources0, annotated, resources)
    requires Acyclic(LocalGraph(known, facts.dependencies)) && TopoOrder(LocalGraph(known, facts.dependencies), facts.topo)
    ensures WellOrdered(resources)
  {
    hide *;
    PipelineKeeps(facts, kinds, resources0, annotated, resources);
    forall a, b | a in resources && b in resources && a != b ensures resources[a].sortOrder != resources[b].sortOrder {
      RenumberedApart(facts, kinds, resources0, annotated, resources, a, b);
    }
    forall k, d | k in resources && d in resources[k].dependencies
      ensures d in resources && (resources[k].deprecated == resources[d].deprecated ==>
                resources[d].sortOrder < resources[k].sortOrder)
    {
      DependencyPlaced(known, facts, kinds, resources0, annotated, resources, k, d);
    }
    OrderedPlacesWell(resources0, resources, facts);
  }

  lemma OrderedPlacesWell(resources0: Tracked, resources: Tracked, facts: Facts)
    requires Defaults(resources0) && resources.Keys == resources0.Keys
    requires forall k :: k in resources ==> Kept(resources0[k], resources[k], facts.dependencies, facts.started, resources0.Keys)
    requires forall a, b :: a in resources && b in resources && a != b ==> resources[a].sortOrder != resources[b].sortOrder
    requires forall k, d :: k in resources && d in resources[k].dependencies ==>
               d in resources && (resources[k].deprecated == resources[d].deprecated ==>
                 resources[d].sortOrder < resources[k].sortOrder)
    ensures WellOrdered(resources)
  {
    hide Enumerates;
  }

  lemma DependencyPlaced(known: set<Kind>, facts: Facts, kinds: seq<Kind>, resources0: Tracked, annotated: Tracked, resources: Tracked,
                         k: Kind, d: Kind)
    requires BuiltFrom(known, facts.dependencies) && Defaults(resources0) && Pipeline(facts, kinds, resources0, annotated, resources)
    requires Acyclic(LocalGraph(known, facts.dependencies)) && TopoOrder(LocalGraph(known, facts.dependencies), facts.topo)
    requires k in resources && d in resources[k].dependencies
    ensures d in resources && (resources[k].deprecated == resources[d].deprecated ==> resources[d].sortOrder < resources[k].sortOrder)
  {
    hide TopoOrder, Acyclic, BuiltFrom, LocalGraph, Pipeline, Enumerates;
    PipelineKeeps(facts, kinds, resources0, annotated, resources);
    ListedDependency(resources0[k], resources[k], facts.dependencies, facts.started, resources0.Keys, d);
    assert Kept(resources0[d], resources[d], facts.dependencies, facts.started, resources0.Keys);
    DependencyAnnotatedFirst(known, facts.dependencies, facts.topo, k, d);
    DependencyRenumberedFirst(facts, kinds, resources0, annotated, resources, k, d);
  }

  lemma ListedDependency(before: Resource, after: Resource, dependencies: map<Kind, set<Kind>>, started: set<Kind>,
                         tracked: set<Kind>, d: Kind)
    requires Kept(before, after, dependencies, started, tracked) && d in after.dependencies
    ensures d in tracked && before.kind in dependencies && d in dependencies[before.kind]
  {
    assert d in Elems(after.dependencies);
  }

  lemma RenumberedApart(facts: Facts, kinds: seq<Kind>, resources0: Tracked, annotated: Tracked, resources: Tracked, a: Kind, b: Kind)
    requires Pipeline(facts, kinds, resources0, annotated, resources) && a in resources && b in resources && a != b
    ensures resources[a].sortOrder != resources[b].sortOrder
  {
    ComesBeforeTotal(kinds, annotated, a, b);
  }

  lemma DependencyRenumberedFirst(facts: Facts, kinds: seq<Kind>, resources0: Tracked, annotated: Tracked, resources: Tracked, k: Kind, d: Kind)
    requires Pipeline(facts, kinds, resources0, annotated, resources) && Keyed(resources0)
    requires k in resources0 && d in resources0 && k in facts.topo && d in facts.topo && facts.topo[d] < facts.topo[k]
    ensures k in resources && d in resources
    ensures resources0[k].deprecated == resources0[d].deprecated ==> resources[d].sortOrder < resources[k].sortOrder
  {
    assert Annotated(resources0[k], annotated[k], resources0.Keys, facts) && Annotated(resources0[d], annotated[d], resources0.Keys, facts);
    hide Precedes;
    assert resources0[k].deprecated == resources0[d].deprecated ==> ComesBefore(kinds, annotated, d, k);
  }

  lemma DependencyAnnotatedFirst(known: set<Kind>, dependencies: map<Kind, set<Kind>>, topo: map<Kind, nat>, k: Kind, d: Kind)
    requires BuiltFrom(known, dependencies) && k in dependencies && d in dependencies[k]
    requires Acyclic(LocalGraph(known, dependencies)) && TopoOrder(LocalGraph(known, dependencies), topo)
    ensures k in topo && d in topo && topo[d] < topo[k]
  {
    var g := LocalGraph(known, dependencies);
    LocalGraphClosed(known, dependencies);
    AcyclicIffAllSound(g);
    DependencyNumberedFirst(g, topo, d, k);
  }
}
