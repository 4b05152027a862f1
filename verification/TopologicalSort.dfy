/** hack/directmigration/topological-sort.py: ordering a list of target kinds by dependency. */
module TopologicalSorting {
  import opened Ordering
  import opened Graphs
  import opened Kahn

  lemma SortAppended(counts: map<Kind, nat>, queue: seq<Kind>, members: set<Kind>, n: Kind)
    requires NoDuplicates(queue) && Elems(queue) == members && n !in members
    ensures NoDuplicates(queue + [n]) && Elems(queue + [n]) == members + {n}
    ensures Enumerates(counts, SortKinds(counts, queue + [n]), members + {n})
  {
    ElemsAppend(queue, n);
    assert n !in queue;
    SortKindsEnumerates(counts, queue + [n]);
  }

  /** The `for dependent in sorted(...)` loop, which re-sorts the queue after every append. */
  method ReleaseDependents(ghost g: Graph, ghost done: set<Kind>, ghost current: Kind, dependents: seq<Kind>,
                           inDegree0: map<Kind, int>, queue0: seq<Kind>)
    returns (inDegree: map<Kind, int>, queue: seq<Kind>)
    requires Closed(g) && DownClosed(g, done) && current in Ready(g, done)
    requires Settled(g, done, inDegree0) && Enumerates(map[], queue0, Ready(g, done) - {current})
    requires NoDuplicates(dependents) && Elems(dependents) == Dependents(g, current)
    ensures Settled(g, done + {current}, inDegree)
    ensures Enumerates(map[], queue, Ready(g, done + {current}))
  {
    hide Degrees, Settled, Queued, Ready, Enumerates, DownClosed, Closed, Dependents, SortKinds;
    inDegree, queue := inDegree0, queue0;
    DegreesStart(g, done, current, inDegree);
    assert Elems(dependents[..0]) == {};
    for i := 0 to |dependents|
      invariant Degrees(g, done, current, Elems(dependents[..i]), inDegree)
      invariant Enumerates(map[], queue, Queued(g, done, current, Elems(dependents[..i])))
    {
      var n := dependents[i];
      ghost var told := Elems(dependents[..i]);
      assert n in Elems(dependents) && n !in told;
      assert dependents[..i + 1] == dependents[..i] + [n];
      ElemsAppend(dependents[..i], n);
      DecrementTells(g, done, current, told, inDegree, n);
      QueuedGrows(g, done, current, told, n);
      inDegree := inDegree[n := inDegree[n] - 1];
      if inDegree[n] == 0 {
        EnumerationDistinct(map[], queue, Queued(g, done, current, told));
        EnumerationElems(map[], queue, Queued(g, done, current, told));
        SortAppended(map[], queue, Queued(g, done, current, told), n);
        queue := SortKinds(map[], queue + [n]);
      }
    }
    assert dependents[..|dependents|] == dependents;
    DegreesEnd(g, done, current, inDegree);
    ReadyAfter(g, done, current);
  }

  /** The main loop: drain the queue, always taking the least name. */
  method Drain(g: Graph, rev: map<Kind, set<Kind>>) returns (result: seq<Kind>, inDegree: map<Kind, int>)
    requires Closed(g) && rev == Reversed(g)
    ensures CompleteRun(g, map[], result)
    ensures DownClosed(g, Elems(result)) && Settled(g, Elems(result), inDegree)
  {
    hide *;
    inDegree := map n | n in g :: |g[n]|;
    InitialDegrees(g, inDegree);
    var queue := SortedListing(map[], set n | n in g && inDegree[n] == 0);
    result := [];
    RunStart(g, map[]);
    while queue != []
      invariant GreedyRun(g, map[], result)
      invariant DownClosed(g, Elems(result)) && Settled(g, Elems(result), inDegree)
      invariant Enumerates(map[], queue, Ready(g, Elems(result)))
      decreases g.Keys - Elems(result)
    {
      RunStep(g, map[], result, queue);
      ghost var done := Elems(result);
      var current := queue[0];
      queue := queue[1..];
      result := result + [current];
      ReversedAt(g, current);
      var dependents := SortedListing(map[], rev[current]);
      inDegree, queue := ReleaseDependents(g, done, current, dependents, inDegree, queue);
    }
    RunEnd(g, map[], result, queue);
  }

  ghost function TargetGraph(targetKinds: seq<Kind>, dependencies: map<Kind, set<Kind>>): Graph {
    LocalGraph(Elems(targetKinds), dependencies)
  }

  method TopologicalSort(targetKinds: seq<Kind>, dependencies: map<Kind, set<Kind>>)
    returns (result: seq<Kind>, cycleNodes: seq<Kind>, noDependencies: seq<Kind>)
    // a permutation of the distinct targets
    ensures NoDuplicates(result) && Elems(result) == Elems(targetKinds)
    // the cycle report is exact
    ensures NoDuplicates(cycleNodes)
    ensures forall n :: n in cycleNodes <==> n in targetKinds && ReachesCycle(TargetGraph(targetKinds, dependencies), n)
    // every other kind comes after everything it depends on
    ensures DependenciesFirst(TargetGraph(targetKinds, dependencies), result, cycleNodes)
    // the reported kinds close the list in name order
    ensures |cycleNodes| <= |result|
    ensures var tail := result[|result| - |cycleNodes|..]; Elems(tail) == Elems(cycleNodes) && NameOrdered(tail)
    ensures CompleteRun(TargetGraph(targetKinds, dependencies), map[], result[..|result| - |cycleNodes|])
    // without cycles it is the least of all topological orders
    ensures Acyclic(TargetGraph(targetKinds, dependencies)) ==>
              && cycleNodes == []
              && LeastTopologicalOrder(TargetGraph(targetKinds, dependencies), result)
    ensures NoDuplicates(noDependencies)
    ensures forall n :: n in noDependencies <==> n in targetKinds && TargetGraph(targetKinds, dependencies)[n] == {}
  {
    hide NameOrdered, CompleteRun, LeastTopologicalOrder, ReachesCycle, DependenciesFirst, Settled, DownClosed, SortKinds,
         Closed, Acyclic;
    var nodes := set k | k in targetKinds;
    var g := BuildLocalGraph(nodes, dependencies);
    LocalGraphClosed(nodes, dependencies);
    noDependencies := Listing(set n | n in nodes && |g[n]| == 0);
    NoDependenciesExact(g, noDependencies);
    var rev := BuildReverse(g);
    var inDegree;
    result, inDegree := Drain(g, rev);
    SettledKeys(g, Elems(result), inDegree);
    ghost var drained := result;
    cycleNodes := [];
    if |result| != |nodes| {
      var remaining := Listing(set n | n in nodes && inDegree[n] > 0);
      cycleNodes := remaining;
      result := result + SortKinds(map[], remaining);
    }
    AssembledResult(g, drained, inDegree, result, cycleNodes);
  }

  lemma NoDependenciesExact(g: Graph, q: seq<Kind>)
    requires Elems(q) == set n | n in g && |g[n]| == 0
    ensures forall n :: n in q <==> n in g && g[n] == {}
  {
    forall n ensures n in q <==> n in g && g[n] == {} {
      assert n in q <==> n in Elems(q);
    }
  }

  lemma AssembledResult(g: Graph, drained: seq<Kind>, inDegree: map<Kind, int>, result: seq<Kind>, cycleNodes: seq<Kind>)
    requires Closed(g) && CompleteRun(g, map[], drained)
    requires DownClosed(g, Elems(drained)) && Settled(g, Elems(drained), inDegree)
    requires if |drained| != |g.Keys|
             then NoDuplicates(cycleNodes) && Elems(cycleNodes) == (set n | n in g && inDegree[n] > 0) &&
                  result == drained + SortKinds(map[], cycleNodes)
             else result == drained && cycleNodes == []
    ensures NoDuplicates(result) && Elems(result) == g.Keys && NoDuplicates(cycleNodes)
    ensures forall n :: n in cycleNodes <==> n in g && ReachesCycle(g, n)
    ensures DependenciesFirst(g, result, cycleNodes)
    ensures |result| == |drained| + |cycleNodes|
    ensures Elems(result[|drained|..]) == Elems(cycleNodes) && NameOrdered(result[|drained|..]) && result[..|drained|] == drained
    ensures Acyclic(g) ==> cycleNodes == [] && LeastTopologicalOrder(g, result)
  {
    hide Enumerates, Settled, Closed, CompleteRun, LeastTopologicalOrder, SortKinds, ReachesCycle, DependenciesFirst;
    PositiveDegreeIsStuck(g, Elems(drained), inDegree) by { CompleteRunStops(g, map[], drained); }
    CycleNodesExact(g, drained, cycleNodes);
    SortKindsEnumerates(map[], cycleNodes);
    SortKindsSame(map[], cycleNodes);
    var tail := SortKinds(map[], cycleNodes);
    EnumerationDistinct(map[], tail, Elems(cycleNodes));
    EnumerationElems(map[], tail, Elems(cycleNodes));
    EnumerationIsNameOrdered(tail, Elems(cycleNodes));
    hide NameOrdered;
    assert result == drained + tail;
    assert result[|drained|..] == tail && result[..|drained|] == drained;
    Concatenation(g, drained, tail, cycleNodes);
    AcyclicCase(g, drained, cycleNodes);
    assert cycleNodes == [] ==> drained + tail == drained;
  }

  /** Kinds outside the cycle report come after everything they depend on. */
  ghost predicate DependenciesFirst(g: Graph, result: seq<Kind>, cycleNodes: seq<Kind>) {
    forall i :: 0 <= i < |result| && result[i] !in cycleNodes ==> result[i] in g && g[result[i]] <= Elems(result[..i])
  }

  lemma Concatenation(g: Graph, drained: seq<Kind>, tail: seq<Kind>, cycleNodes: seq<Kind>)
    requires CompleteRun(g, map[], drained) && NoDuplicates(tail)
    requires Elems(tail) == Elems(cycleNodes) == g.Keys - Elems(drained)
    ensures NoDuplicates(drained + tail) && Elems(drained + tail) == g.Keys
    ensures DependenciesFirst(g, drained + tail, cycleNodes)
  {
    GreedyRunShape(g, map[], drained);
    var result := drained + tail;
    ElemsConcat(drained, tail);
    forall i, j | 0 <= i < j < |result| ensures result[i] != result[j] {
      if i < |drained| <= j {
        assert drained[i] in Elems(drained) && tail[j - |drained|] in Elems(tail);
      }
    }
    forall i | |drained| <= i < |result| ensures result[i] in cycleNodes {
      assert tail[i - |drained|] in Elems(tail);
    }
    forall i | 0 <= i < |drained| ensures result[i] in g && g[result[i]] <= Elems(result[..i]) {
      assert result[..i] == drained[..i];
    }
  }

  lemma CycleNodesExact(g: Graph, drained: seq<Kind>, cycleNodes: seq<Kind>)
    requires Closed(g) && CompleteRun(g, map[], drained)
    requires if |drained| != |g.Keys| then Elems(cycleNodes) == g.Keys - Elems(drained) else cycleNodes == []
    ensures Elems(cycleNodes) == g.Keys - Elems(drained)
    ensures forall n :: n in cycleNodes <==> n in g && ReachesCycle(g, n)
  {
    GreedyRunShape(g, map[], drained);
    CompleteRunDrainsSound(g, map[], drained);
    DistinctLength(drained);
    if |drained| == |g.Keys| {
      SubsetSameSize(Elems(drained), g.Keys);
    }
    forall n ensures n in cycleNodes <==> n in g && ReachesCycle(g, n) {
      assert n in cycleNodes <==> n in Elems(cycleNodes);
    }
  }

  lemma SubsetSameSize<T>(a: set<T>, b: set<T>)
    requires a <= b && |a| == |b|
    ensures a == b
  {
    assert b == a + (b - a);
    assert |b| == |a| + |b - a|;
  }

  lemma AcyclicCase(g: Graph, drained: seq<Kind>, cycleNodes: seq<Kind>)
    requires Closed(g) && CompleteRun(g, map[], drained) && Elems(cycleNodes) == g.Keys - Elems(drained)
    ensures Acyclic(g) ==> cycleNodes == [] && LeastTopologicalOrder(g, drained)
  {
    if Acyclic(g) {
      CompleteRunIsLeastOrder(g, drained);
      EmptyElems(cycleNodes);
    }
  }
}
