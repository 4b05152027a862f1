/**
 * dev/migration-tracker/generate_data.py: downstream counts, the priority Kahn loop keyed by
 * (-downstream count, name), and the numbering of the kinds left over by cycles.
 */
module MigrationOrder {
  import opened Ordering
  import opened Graphs
  import opened Kahn

  ghost function DownstreamCounts(g: Graph): map<Kind, nat> {
    map n | n in g :: |Downstream(g, n)|
  }

  // ---------------------------------------------------------------- get_all_downstream

  /** Either still queued, or all direct dependents already visited. */
  ghost predicate Frontier(g: Graph, n: Kind, visited: set<Kind>, queue: seq<Kind>) {
    && visited <= Downstream(g, n)
    && Elems(queue) <= visited + {n}
    && forall x :: x in visited + {n} && x in g ==> x in queue || Dependents(g, x) <= visited
  }

  lemma {:induction false} ClosedHoldsWalk(g: Graph, n: Kind, visited: set<Kind>, p: seq<Kind>, k: nat)
    requires Walk(g, p) && |p| >= 2 && p[|p| - 1] == n && 1 < k <= |p|
    requires forall x :: x in visited + {n} && x in g ==> Dependents(g, x) <= visited
    ensures p[|p| - k] in visited
    decreases k
  {
    var i := |p| - k;
    if k > 2 {
      ClosedHoldsWalk(g, n, visited, p, k - 1);
    }
    assert p[i + 1] in visited + {n};
    assert p[i] in Dependents(g, p[i + 1]);
  }

  lemma ClosedHoldsDownstream(g: Graph, n: Kind, visited: set<Kind>)
    requires Frontier(g, n, visited, [])
    ensures visited == Downstream(g, n)
  {
    forall m | m in Downstream(g, n) ensures m in visited {
      var p :| Connects(g, p, m, n);
      ClosedHoldsWalk(g, n, visited, p, |p|);
    }
  }

  lemma DependentIsDownstream(g: Graph, n: Kind, curr: Kind, d: Kind)
    requires Closed(g) && d in Dependents(g, curr) && (curr == n || curr in Downstream(g, n))
    ensures d in Downstream(g, n)
  {
    EdgeRequires(g, d, curr);
    if curr != n {
      RequiresTransitive(g, d, curr, n);
    }
  }

  /** The frontier while `rest` of the dependents of `curr` are still to be looked at. */
  ghost predicate Scanning(g: Graph, n: Kind, visited: set<Kind>, queue: seq<Kind>, curr: Kind, rest: set<Kind>) {
    && visited <= Downstream(g, n)
    && Elems(queue) <= visited + {n}
    && Dependents(g, curr) - rest <= visited
    && forall x :: x in visited + {n} && x in g && x != curr ==> x in queue || Dependents(g, x) <= visited
  }

  lemma ScanStart(g: Graph, n: Kind, visited: set<Kind>, queue: seq<Kind>)
    requires queue != [] && Frontier(g, n, visited, queue)
    ensures Scanning(g, n, visited, queue[1..], queue[0], Dependents(g, queue[0]))
    ensures queue[0] == n || queue[0] in Downstream(g, n)
  {
    assert queue == [queue[0]] + queue[1..];
    assert queue[0] in Elems(queue);
    assert Elems(queue[1..]) <= Elems(queue);
  }

  lemma ScanStep(g: Graph, n: Kind, visited: set<Kind>, queue: seq<Kind>, curr: Kind, rest: set<Kind>, d: Kind)
    requires Closed(g) && Scanning(g, n, visited, queue, curr, rest) && d in rest && rest <= Dependents(g, curr)
    requires curr == n || curr in Downstream(g, n)
    ensures d in visited ==> Scanning(g, n, visited, queue, curr, rest - {d})
    ensures d !in visited ==> Scanning(g, n, visited + {d}, queue + [d], curr, rest - {d})
    ensures d in g
  {
    DependentIsDownstream(g, n, curr, d);
    ElemsAppend(queue, d);
  }

  lemma ScanEnd(g: Graph, n: Kind, visited: set<Kind>, queue: seq<Kind>, curr: Kind)
    requires Scanning(g, n, visited, queue, curr, {})
    ensures Frontier(g, n, visited, queue)
  {
    assert Dependents(g, curr) - {} == Dependents(g, curr);
  }

  lemma FrontierStart(g: Graph, n: Kind)
    ensures Frontier(g, n, {}, [n])
  {
  }

  lemma OwnDownstream(g: Graph, n: Kind)
    requires n in g
    ensures |Downstream(g, n)| == |Downstream(g, n) - {n}| + if OnCycle(g, n) then 1 else 0
  {
    if n in Downstream(g, n) {
      assert Downstream(g, n) == (Downstream(g, n) - {n}) + {n};
    } else {
      assert Downstream(g, n) - {n} == Downstream(g, n);
    }
  }

  method GetAllDownstream(ghost g: Graph, rev: map<Kind, set<Kind>>, n: Kind) returns (count: nat)
    requires Closed(g) && rev == Reversed(g) && n in rev
    ensures count == |Downstream(g, n)|
    // a kind counts itself exactly when it lies on a cycle
    ensures count == |Downstream(g, n) - {n}| + if OnCycle(g, n) then 1 else 0
  {
    hide Frontier, Scanning, Downstream, Dependents, Closed;
    var visited, queue := {}, [n];
    FrontierStart(g, n);
    while queue != []
      invariant visited <= g.Keys && Elems(queue) <= g.Keys
      invariant Frontier(g, n, visited, queue)
      decreases g.Keys - visited, |queue|
    {
      ScanStart(g, n, visited, queue);
      ghost var before, length := visited, |queue|;
      var curr := queue[0];
      assert curr in Elems(queue) && Elems(queue[1..]) <= Elems(queue);
      queue := queue[1..];
      var rest := rev[curr];
      while rest != {}
        invariant visited <= g.Keys && Elems(queue) <= g.Keys && rest <= rev[curr]
        invariant Scanning(g, n, visited, queue, curr, rest)
        invariant before <= visited && (before == visited ==> |queue| < length)
        decreases rest
      {
        var d :| d in rest;
        ScanStep(g, n, visited, queue, curr, rest, d);
        if d !in visited {
          ElemsAppend(queue, d);
          visited := visited + {d};
          queue := queue + [d];
        }
        rest := rest - {d};
      }
      ScanEnd(g, n, visited, queue, curr);
    }
    ClosedHoldsDownstream(g, n, visited);
    OwnDownstream(g, n);
    count := |visited|;
  }

  method CountDownstream(ghost g: Graph, rev: map<Kind, set<Kind>>) returns (counts: map<Kind, nat>)
    requires Closed(g) && rev == Reversed(g)
    ensures counts == DownstreamCounts(g)
  {
    hide Downstream, Dependents;
    counts := map[];
    var rest := rev.Keys;
    while rest != {}
      invariant rest <= rev.Keys && counts.Keys == rev.Keys - rest
      invariant forall n :: n in counts ==> counts[n] == |Downstream(g, n)|
      decreases rest
    {
      var n :| n in rest;
      var c := GetAllDownstream(g, rev, n);
      counts := counts[n := c];
      rest := rest - {n};
    }
  }

  // ---------------------------------------------------------------- the queue is one static sort

  /** A released kind has strictly fewer downstreams than the kind that released it. */
  lemma ReleasedHasFewer(g: Graph, a: Kind, b: Kind)
    requires Closed(g) && b in g && a in g[b] && !OnCycle(g, b)
    ensures |Downstream(g, b)| < |Downstream(g, a)|
  {
    EdgeRequires(g, b, a);
    forall m | m in Downstream(g, b) ensures m in Downstream(g, a) {
      RequiresTransitive(g, m, b, a);
    }
    assert b in Downstream(g, a) && b !in Downstream(g, b);
    ProperSubsetSmaller(Downstream(g, b), Downstream(g, a), b);
  }

  lemma ProperSubsetSmaller<T>(a: set<T>, b: set<T>, x: T)
    requires a <= b && x in b && x !in a
    ensures |a| < |b|
  {
    assert b == a + (b - a);
    assert |b| == |a| + |b - a|;
    assert x in b - a;
  }

  lemma NextIsLater(g: Graph, order: seq<Kind>, k: nat)
    requires Closed(g) && GreedyRun(g, DownstreamCounts(g), order) && k + 1 < |order|
    ensures Before(DownstreamCounts(g), order[k], order[k + 1])
  {
    var counts := DownstreamCounts(g);
    var a, b := order[k], order[k + 1];
    GreedyRunShape(g, counts, order);
    assert Least(counts, Ready(g, Elems(order[..k])), a);
    assert order[..k + 1] == order[..k] + [a];
    ElemsAppend(order[..k], a);
    if a in g[b] {
      GreedyRunIsReadyRun(g, counts, order);
      DrainedOffCycle(g, order, k + 1);
      ReleasedHasFewer(g, a, b);
    } else {
      assert b !in Elems(order[..k]);
      assert b in Ready(g, Elems(order[..k]));
    }
  }

  /** Whatever the graph, nodes leave the re-sorted queue in ascending order of the static key. */
  lemma {:induction false} DrainAscends(g: Graph, order: seq<Kind>, i: nat, j: nat)
    requires Closed(g) && GreedyRun(g, DownstreamCounts(g), order) && i < j < |order|
    ensures Before(DownstreamCounts(g), order[i], order[j])
    decreases j
  {
    NextIsLater(g, order, j - 1);
    if i < j - 1 {
      DrainAscends(g, order, i, j - 1);
      BeforeTransitive(DownstreamCounts(g), order[i], order[j - 1], order[j]);
    }
  }

  lemma DrainIsSortedSound(g: Graph, order: seq<Kind>)
    requires Closed(g) && CompleteRun(g, DownstreamCounts(g), order)
    ensures Enumerates(DownstreamCounts(g), order, Sound(g))
  {
    CompleteRunDrainsSound(g, DownstreamCounts(g), order);
    forall i, j | 0 <= i < j < |order| ensures Before(DownstreamCounts(g), order[i], order[j]) {
      DrainAscends(g, order, i, j);
    }
  }

  /** On an acyclic graph the whole loop computes one plain sort of all the nodes. */
  lemma DrainIsPlainSort(g: Graph, order: seq<Kind>, nodes: seq<Kind>)
    requires Closed(g) && Acyclic(g) && CompleteRun(g, DownstreamCounts(g), order)
    requires NoDuplicates(nodes) && Elems(nodes) == g.Keys
    ensures order == SortKinds(DownstreamCounts(g), nodes)
  {
    var counts := DownstreamCounts(g);
    DrainIsSortedSound(g, order);
    AcyclicIffAllSound(g);
    SortKindsEnumerates(counts, nodes);
    EnumerationUnique(counts, order, SortKinds(counts, nodes), g.Keys);
  }

  // ---------------------------------------------------------------- numbering

  /** The order the numbers express, with no queue in sight: kinds clear of cycles first, by key;
      then the rest by name. */
  ghost predicate NumberedBefore(g: Graph, a: Kind, b: Kind) {
    if a in Sound(g) && b in Sound(g) then Before(DownstreamCounts(g), a, b)
    else if a in Sound(g) || b in Sound(g) then a in Sound(g)
    else StrLess(a, b)
  }

  ghost function NumberedFirst(g: Graph, a: Kind): set<Kind> {
    set b | b in g && NumberedBefore(g, b, a)
  }

  /** `topo_order` as it must come out. */
  ghost predicate TopoOrder(g: Graph, topo: map<Kind, nat>) {
    topo.Keys == g.Keys && forall a :: a in g ==> topo[a] == 1 + |NumberedFirst(g, a)|
  }

  /** `topo` numbers the members of `order` from 1. */
  ghost predicate Numbers(order: seq<Kind>, topo: map<Kind, nat>) {
    && NoDuplicates(order) && topo.Keys == Elems(order)
    && forall i :: 0 <= i < |order| ==> topo[order[i]] == i + 1
  }

  lemma NumbersExtend(order: seq<Kind>, topo: map<Kind, nat>, x: Kind)
    requires Numbers(order, topo) && x !in Elems(order)
    ensures Numbers(order + [x], topo[x := |order| + 1])
  {
    ElemsAppend(order, x);
    forall i | 0 <= i < |order| ensures order[i] != x {
      assert order[i] in Elems(order);
    }
  }

  lemma NumbersEmpty()
    ensures Numbers([], map[])
  {
  }

  lemma NumberedBeforeTotal(g: Graph, a: Kind, b: Kind)
    ensures a == b || NumberedBefore(g, a, b) || NumberedBefore(g, b, a)
    ensures !(NumberedBefore(g, a, b) && NumberedBefore(g, b, a))
  {
    BeforeStrictTotal(DownstreamCounts(g), a, b);
    BeforeStrictTotal(map[], a, b);
    assert Before(map[], a, b) <==> StrLess(a, b);
    assert Before(map[], b, a) <==> StrLess(b, a);
  }

  lemma NumbersAreRanks(g: Graph, order: seq<Kind>, topo: map<Kind, nat>)
    requires Numbers(order, topo) && Elems(order) == g.Keys
    requires forall i, j :: 0 <= i < j < |order| ==> NumberedBefore(g, order[i], order[j])
    ensures TopoOrder(g, topo)
  {
    hide NumberedBefore;
    forall a | a in g ensures topo[a] == 1 + |NumberedFirst(g, a)| {
      assert a in Elems(order);
      var i :| 0 <= i < |order| && order[i] == a;
      forall b | b in g ensures NumberedBefore(g, b, a) <==> b in order[..i] {
        assert b in Elems(order);
        var j :| 0 <= j < |order| && order[j] == b;
        NumberedBeforeTotal(g, a, b);
        assert j < i ==> order[..i][j] == b;
      }
      assert NumberedFirst(g, a) == Elems(order[..i]);
      DistinctLength(order[..i]);
    }
  }

  lemma LeftoversNumbered(g: Graph, drained: seq<Kind>, tail: seq<Kind>, topo: map<Kind, nat>)
    requires Enumerates(DownstreamCounts(g), drained, Sound(g)) && Enumerates(map[], tail, g.Keys - Sound(g))
    requires Numbers(drained + tail, topo)
    ensures TopoOrder(g, topo)
  {
    var order := drained + tail;
    ElemsConcat(drained, tail);
    forall i, j | 0 <= i < j < |order| ensures NumberedBefore(g, order[i], order[j]) {
      assert i < |drained| ==> drained[i] in Elems(drained);
      assert j < |drained| ==> drained[j] in Elems(drained);
      assert i >= |drained| ==> tail[i - |drained|] in Elems(tail);
      assert j >= |drained| ==> tail[j - |drained|] in Elems(tail);
      if i >= |drained| {
        assert Before(map[], tail[i - |drained|], tail[j - |drained|]);
      }
    }
    NumbersAreRanks(g, order, topo);
  }

  /** The numbers put every dependency of a cycle-free kind first. */
  lemma DependencyNumberedFirst(g: Graph, topo: map<Kind, nat>, a: Kind, b: Kind)
    requires Closed(g) && TopoOrder(g, topo) && b in Sound(g) && a in g[b]
    ensures topo[a] < topo[b]
  {
    EdgeRequires(g, b, a);
    assert a in Sound(g) by {
      forall m | Requires(g, a, m) && OnCycle(g, m) ensures false {
        RequiresTransitive(g, b, a, m);
      }
    }
    ReleasedHasFewer(g, a, b);
    SmallerRank(g, a, b);
  }

  lemma SmallerRank(g: Graph, a: Kind, b: Kind)
    requires a in g && b in g && NumberedBefore(g, a, b)
    ensures |NumberedFirst(g, a)| < |NumberedFirst(g, b)|
  {
    NumberedBeforeTotal(g, a, a);
    forall c | c in NumberedFirst(g, a) ensures c in NumberedFirst(g, b) {
      NumberedBeforeTransitive(g, c, a, b);
    }
    ProperSubsetSmaller(NumberedFirst(g, a), NumberedFirst(g, b), a);
  }

  lemma NumberedBeforeTransitive(g: Graph, a: Kind, b: Kind, c: Kind)
    requires NumberedBefore(g, a, b) && NumberedBefore(g, b, c)
    ensures NumberedBefore(g, a, c)
  {
    var counts := DownstreamCounts(g);
    if Before(counts, a, b) && Before(counts, b, c) {
      BeforeTransitive(counts, a, b, c);
    }
    if StrLess(a, b) && StrLess(b, c) {
      StrLessTransitive(a, b, c);
    }
  }

  /** The `for dependent in sorted(...)` loop; here the queue is only sorted afterwards. */
  method ReleaseDependents(ghost g: Graph, ghost done: set<Kind>, ghost current: Kind, dependents: seq<Kind>,
                           inDegree0: map<Kind, int>, queue0: seq<Kind>)
    returns (inDegree: map<Kind, int>, queue: seq<Kind>)
    requires Closed(g) && DownClosed(g, done) && current in Ready(g, done)
    requires Settled(g, done, inDegree0) && NoDuplicates(queue0) && Elems(queue0) == Ready(g, done) - {current}
    requires NoDuplicates(dependents) && Elems(dependents) == Dependents(g, current)
    ensures Settled(g, done + {current}, inDegree)
    ensures NoDuplicates(queue) && Elems(queue) == Ready(g, done + {current})
  {
    hide Degrees, Settled, Queued, Ready, DownClosed, Closed, Dependents;
    inDegree, queue := inDegree0, queue0;
    DegreesStart(g, done, current, inDegree);
    assert Elems(dependents[..0]) == {};
    for i := 0 to |dependents|
      invariant Degrees(g, done, current, Elems(dependents[..i]), inDegree)
      invariant NoDuplicates(queue) && Elems(queue) == Queued(g, done, current, Elems(dependents[..i]))
    {
      var n := dependents[i];
      ghost var told := Elems(dependents[..i]);
      assert n in Elems(dependents) && n !in told;
      assert dependents[..i + 1] == dependents[..i] + [n];
      ElemsAppend(dependents[..i], n);
      DecrementTells(g, done, current, told, inDegree, n);
      QueuedGrows(g, done, current, told, n);
      inDegree := inDegree[n := inDegree[n] - 1];
      if inDegree[n] == 0 {
        assert n !in Elems(queue);
        ElemsAppend(queue, n);
        queue := queue + [n];
      }
    }
    assert dependents[..|dependents|] == dependents;
    DegreesEnd(g, done, current, inDegree);
    ReadyAfter(g, done, current);
  }

  method NumberKinds(g: Graph, rev: map<Kind, set<Kind>>, counts: map<Kind, nat>) returns (topo: map<Kind, nat>)
    requires Closed(g) && rev == Reversed(g) && counts == DownstreamCounts(g)
    ensures TopoOrder(g, topo)
  {
    hide *;
    var inDegree: map<Kind, int> := map n | n in g :: |g[n]|;
    InitialDegrees(g, inDegree);
    var queue := SortedListing(counts, set n | n in g && inDegree[n] == 0);
    var orderIndex := 1;
    topo := map[];
    ghost var order: seq<Kind> := [];
    RunStart(g, counts);
    NumbersEmpty();
    while queue != []
      invariant GreedyRun(g, counts, order)
      invariant DownClosed(g, Elems(order)) && Settled(g, Elems(order), inDegree)
      invariant Enumerates(counts, queue, Ready(g, Elems(order)))
      invariant Numbers(order, topo) && orderIndex == |order| + 1
      decreases g.Keys - Elems(order)
    {
      RunStep(g, counts, order, queue);
      NumbersExtend(order, topo, queue[0]);
      ghost var done := Elems(order);
      var current := queue[0];
      EnumerationElems(counts, queue[1..], Ready(g, done) - {current});
      EnumerationDistinct(counts, queue[1..], Ready(g, done) - {current});
      queue := queue[1..];
      topo := topo[current := orderIndex];
      orderIndex := orderIndex + 1;
      order := order + [current];
      ReversedAt(g, current);
      var dependents := SortedListing(map[], rev[current]);
      inDegree, queue := ReleaseDependents(g, done, current, dependents, inDegree, queue);
      SortKindsEnumerates(counts, queue);
      queue := SortKinds(counts, queue);
    }
    RunEnd(g, counts, order, queue);
    DrainIsSortedSound(g, order);
    topo := NumberLeftovers(g, order, topo, orderIndex);
  }

  method NumberLeftovers(g: Graph, ghost drained: seq<Kind>, topo0: map<Kind, nat>, orderIndex0: nat)
    returns (topo: map<Kind, nat>)
    requires Closed(g) && Enumerates(DownstreamCounts(g), drained, Sound(g))
    requires Numbers(drained, topo0) && orderIndex0 == |drained| + 1
    ensures TopoOrder(g, topo)
  {
    hide *;
    topo := topo0;
    var orderIndex := orderIndex0;
    var names := SortedListing(map[], g.Keys);
    ghost var tail: seq<Kind> := [];
    LeftoversStart(drained, names, topo);
    for i := 0 to |names|
      invariant Leftovers(drained, tail, names, i, topo) && orderIndex == |drained| + |tail| + 1
    {
      var node := names[i];
      LeftoversStep(g, drained, tail, names, i, topo);
      if node !in topo {
        topo := topo[node := orderIndex];
        orderIndex := orderIndex + 1;
        tail := tail + [node];
      }
    }
    LeftoversDone(g, drained, tail, names, topo);
  }

  /** The names before position `i` that the drain missed are numbered after it, in order. */
  ghost predicate Leftovers(drained: seq<Kind>, tail: seq<Kind>, names: seq<Kind>, i: nat, topo: map<Kind, nat>) {
    && i <= |names| && Numbers(drained + tail, topo)
    && Elems(tail) == Elems(names[..i]) - Elems(drained)
    && forall a, b :: 0 <= a < b < |tail| ==> Before(map[], tail[a], tail[b])
  }

  lemma LeftoversStart(drained: seq<Kind>, names: seq<Kind>, topo: map<Kind, nat>)
    requires Numbers(drained, topo)
    ensures Leftovers(drained, [], names, 0, topo)
  {
    assert drained + [] == drained;
    assert names[..0] == [];
  }

  lemma LeftoversStep(g: Graph, drained: seq<Kind>, tail: seq<Kind>, names: seq<Kind>, i: nat, topo: map<Kind, nat>)
    requires Leftovers(drained, tail, names, i, topo) && i < |names| && Enumerates(map[], names, g.Keys)
    ensures if names[i] in topo then Leftovers(drained, tail, names, i + 1, topo)
            else Leftovers(drained, tail + [names[i]], names, i + 1, topo[names[i] := |drained| + |tail| + 1])
  {
    var node := names[i];
    assert names[..i + 1] == names[..i] + [node];
    ElemsAppend(names[..i], node);
    ElemsConcat(drained, tail);
    EnumerationDistinct(map[], names, g.Keys);
    if node in topo {
      assert node !in names[..i];
    } else {
      NumbersExtend(drained + tail, topo, node);
      ElemsAppend(tail, node);
      TailAscends(names, i, tail);
      assert drained + (tail + [node]) == drained + tail + [node];
    }
  }

  lemma LeftoversDone(g: Graph, drained: seq<Kind>, tail: seq<Kind>, names: seq<Kind>, topo: map<Kind, nat>)
    requires Leftovers(drained, tail, names, |names|, topo) && Enumerates(map[], names, g.Keys)
    requires Enumerates(DownstreamCounts(g), drained, Sound(g))
    ensures TopoOrder(g, topo)
  {
    assert names[..|names|] == names;
    hide Sound, DownstreamCounts, TopoOrder, Before, Numbers;
    LeftoversNumbered(g, drained, tail, topo);
  }

  lemma TailAscends(names: seq<Kind>, i: nat, tail: seq<Kind>)
    requires i < |names| && Elems(tail) <= Elems(names[..i])
    requires forall a, b :: 0 <= a < b < |names| ==> Before(map[], names[a], names[b])
    ensures forall a :: 0 <= a < |tail| ==> Before(map[], tail[a], names[i])
  {
    forall a | 0 <= a < |tail| ensures Before(map[], tail[a], names[i]) {
      assert tail[a] in Elems(tail);
      var k :| 0 <= k < i && names[..i][k] == tail[a];
      assert Before(map[], names[k], names[i]);
    }
  }
}
