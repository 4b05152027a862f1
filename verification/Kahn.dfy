/**
 * The parts the two Kahn loops share: building the local graph, the in-degree table and the
 * reversed graph, and what one decrement of the in-degree table means.
 */
module Kahn {
  import opened Ordering
  import opened Graphs

  ghost function LocalGraph(nodes: set<Kind>, dependencies: map<Kind, set<Kind>>): Graph {
    map n | n in nodes :: if n in dependencies then dependencies[n] * nodes else {}
  }

  ghost function Dependents(g: Graph, d: Kind): set<Kind> {
    set n | n in g && d in g[n]
  }

  ghost function Reversed(g: Graph): map<Kind, set<Kind>> {
    map d | d in g :: Dependents(g, d)
  }

  lemma LocalGraphClosed(nodes: set<Kind>, dependencies: map<Kind, set<Kind>>)
    ensures Closed(LocalGraph(nodes, dependencies))
    ensures LocalGraph(nodes, dependencies).Keys == nodes
  {
  }

  /** A list comprehension over a set: the elements in some order. */
  method Listing(s: set<Kind>) returns (q: seq<Kind>)
    ensures NoDuplicates(q) && Elems(q) == s
  {
    q := [];
    var rest := s;
    while rest != {}
      invariant NoDuplicates(q) && Elems(q) == s - rest && rest <= s
      decreases rest
    {
      var x :| x in rest;
      assert x !in Elems(q);
      ElemsAppend(q, x);
      q, rest := q + [x], rest - {x};
    }
  }

  /** `sorted(list(s))` for a set, by the given key. */
  method SortedListing(counts: map<Kind, nat>, s: set<Kind>) returns (q: seq<Kind>)
    ensures Enumerates(counts, q, s) && NoDuplicates(q) && Elems(q) == s
  {
    q := Listing(s);
    SortKindsEnumerates(counts, q);
    q := SortKinds(counts, q);
    EnumerationDistinct(counts, q, s);
  }

  lemma ReversedAt(g: Graph, current: Kind)
    requires current in g
    ensures current in Reversed(g) && Reversed(g)[current] == Dependents(g, current)
  {
  }

  method BuildLocalGraph(nodes: set<Kind>, dependencies: map<Kind, set<Kind>>) returns (g: Graph)
    ensures g == LocalGraph(nodes, dependencies)
  {
    g := map n | n in nodes :: {};
    var rest := nodes;
    while rest != {}
      invariant rest <= nodes && g.Keys == nodes
      invariant forall n :: n in rest ==> g[n] == {}
      invariant forall n :: n in nodes - rest ==> g[n] == LocalGraph(nodes, dependencies)[n]
      decreases rest
    {
      var node :| node in rest;
      if node in dependencies {
        g := g[node := set dep | dep in dependencies[node] && dep in nodes];
      }
      assert g[node] == LocalGraph(nodes, dependencies)[node];
      rest := rest - {node};
    }
    assert g == LocalGraph(nodes, dependencies);
  }

  lemma DependentsAll(g: Graph)
    ensures forall d :: d in g ==> Dependents(g, d) - g.Keys == {}
  {
  }

  lemma DependentsRest(g: Graph, node: Kind, rest: set<Kind>, d: Kind)
    requires node in g && node in rest && d in g
    ensures Dependents(g, d) - (rest - {node}) ==
            if d in g[node] then (Dependents(g, d) - rest) + {node} else Dependents(g, d) - rest
  {
  }

  /** The inner loop: `node` becomes a dependent of each of its dependencies. */
  method AddDependent(rev0: map<Kind, set<Kind>>, node: Kind, deps: set<Kind>) returns (rev: map<Kind, set<Kind>>)
    requires deps <= rev0.Keys
    ensures rev.Keys == rev0.Keys
    ensures forall d :: d in rev ==> rev[d] == if d in deps then rev0[d] + {node} else rev0[d]
  {
    rev := rev0;
    var rest := deps;
    while rest != {}
      invariant rest <= deps && rev.Keys == rev0.Keys
      invariant forall d :: d in rev ==> rev[d] == if d in deps && d !in rest then rev0[d] + {node} else rev0[d]
      decreases rest
    {
      var dep :| dep in rest;
      rev := rev[dep := rev[dep] + {node}];
      rest := rest - {dep};
    }
  }

  method BuildReverse(g: Graph) returns (rev: map<Kind, set<Kind>>)
    requires Closed(g)
    ensures rev == Reversed(g)
  {
    hide Dependents;
    rev := map n | n in g :: {};
    var rest := g.Keys;
    DependentsAll(g);
    while rest != {}
      invariant rest <= g.Keys && rev.Keys == g.Keys
      invariant forall d :: d in g ==> rev[d] == Dependents(g, d) - rest
      decreases rest
    {
      var node :| node in rest;
      forall d | d in g
        ensures Dependents(g, d) - (rest - {node}) ==
                if d in g[node] then (Dependents(g, d) - rest) + {node} else Dependents(g, d) - rest
      {
        DependentsRest(g, node, rest, d);
      }
      rev := AddDependent(rev, node, g[node]);
      rest := rest - {node};
    }
    forall d | d in g ensures rev[d] == Reversed(g)[d] {
      assert Dependents(g, d) - {} == Dependents(g, d);
    }
    assert rev == Reversed(g);
  }

  // ---------------------------------------------------------------- the in-degree table

  /** `done` holds everything its members depend on. */
  ghost predicate DownClosed(g: Graph, done: set<Kind>) {
    done <= g.Keys && forall n :: n in done ==> g[n] <= done
  }

  /** The table while `current` is being processed and `told` have already been decremented. */
  ghost predicate Degrees(g: Graph, done: set<Kind>, current: Kind, told: set<Kind>, inDegree: map<Kind, int>) {
    && inDegree.Keys == g.Keys
    && forall n :: n in g ==> inDegree[n] == |g[n] - (if n in told then done + {current} else done)|
  }

  ghost predicate Settled(g: Graph, done: set<Kind>, inDegree: map<Kind, int>) {
    inDegree.Keys == g.Keys && forall n :: n in g ==> inDegree[n] == |g[n] - done|
  }

  /** What the queue holds while `current` is being processed. */
  ghost function Queued(g: Graph, done: set<Kind>, current: Kind, told: set<Kind>): set<Kind> {
    (Ready(g, done) - {current}) + (set n | n in told && n in g && g[n] <= done + {current})
  }

  lemma DegreesStart(g: Graph, done: set<Kind>, current: Kind, inDegree: map<Kind, int>)
    requires Settled(g, done, inDegree)
    ensures Degrees(g, done, current, {}, inDegree)
    ensures Queued(g, done, current, {}) == Ready(g, done) - {current}
  {
  }

  lemma RemoveOne(s: set<Kind>, done: set<Kind>, current: Kind)
    requires current in s && current !in done
    ensures |s - (done + {current})| == |s - done| - 1
    ensures |s - (done + {current})| == 0 <==> s <= done + {current}
  {
    assert s - (done + {current}) == (s - done) - {current};
    if s <= done + {current} {
      assert s - (done + {current}) == {};
    }
  }

  lemma DecrementTells(g: Graph, done: set<Kind>, current: Kind, told: set<Kind>, inDegree: map<Kind, int>, n: Kind)
    requires Degrees(g, done, current, told, inDegree) && n in Dependents(g, current) && n !in told && current in Ready(g, done)
    ensures n in inDegree
    ensures Degrees(g, done, current, told + {n}, inDegree[n := inDegree[n] - 1])
    ensures inDegree[n] - 1 == 0 <==> g[n] <= done + {current}
    ensures inDegree[n] - 1 >= 0
  {
    RemoveOne(g[n], done, current);
  }

  lemma DegreesEnd(g: Graph, done: set<Kind>, current: Kind, inDegree: map<Kind, int>)
    requires Degrees(g, done, current, Dependents(g, current), inDegree)
    ensures Settled(g, done + {current}, inDegree)
  {
    forall n | n in g ensures inDegree[n] == |g[n] - (done + {current})| {
      if current !in g[n] {
        assert g[n] - (done + {current}) == g[n] - done;
      }
    }
  }

  lemma ReadyAfter(g: Graph, done: set<Kind>, current: Kind)
    requires Closed(g) && DownClosed(g, done) && current in Ready(g, done)
    ensures DownClosed(g, done + {current})
    ensures Ready(g, done + {current}) == Queued(g, done, current, Dependents(g, current))
  {
  }

  lemma QueuedGrows(g: Graph, done: set<Kind>, current: Kind, told: set<Kind>, n: Kind)
    requires DownClosed(g, done) && current in Ready(g, done) && n in Dependents(g, current) && n !in told
    ensures n !in Queued(g, done, current, told)
    ensures Queued(g, done, current, told + {n}) ==
            if g[n] <= done + {current} then Queued(g, done, current, told) + {n} else Queued(g, done, current, told)
  {
  }

  lemma StuckNode(g: Graph, done: set<Kind>, n: Kind)
    requires DownClosed(g, done) && Ready(g, done) == {} && n in g
    ensures |g[n] - done| > 0 <==> n !in done
  {
    if n in done {
      assert g[n] - done == {};
    } else {
      assert n !in Ready(g, done);
      var d :| d in g[n] && d !in done;
      assert d in g[n] - done;
    }
  }

  /** Once nothing is ready, a positive in-degree marks exactly the undrained nodes. */
  lemma PositiveDegreeIsStuck(g: Graph, done: set<Kind>, inDegree: map<Kind, int>)
    requires DownClosed(g, done) && Ready(g, done) == {} && Settled(g, done, inDegree)
    ensures (set n | n in g && inDegree[n] > 0) == g.Keys - done
  {
    forall n | n in g ensures inDegree[n] > 0 <==> n !in done {
      StuckNode(g, done, n);
    }
  }

  lemma EmptyEnumeration(counts: map<Kind, nat>, s: seq<Kind>, members: set<Kind>)
    requires Enumerates(counts, s, members)
    ensures s == [] ==> members == {}
  {
  }

  lemma ZeroDegree(g: Graph, n: Kind)
    requires n in g
    ensures |g[n] - {}| == |g[n]|
    ensures |g[n]| == 0 <==> g[n] <= {}
  {
    assert g[n] - {} == g[n];
  }

  /** The table before anything is drained, and the nodes the queue starts with. */
  lemma InitialDegrees(g: Graph, inDegree: map<Kind, int>)
    requires inDegree.Keys == g.Keys && forall n :: n in g ==> inDegree[n] == |g[n]|
    ensures Settled(g, {}, inDegree) && DownClosed(g, {})
    ensures (set n | n in g && inDegree[n] == 0) == Ready(g, {})
  {
    forall n | n in g ensures inDegree[n] == |g[n] - {}| && (inDegree[n] == 0 <==> g[n] <= {}) {
      ZeroDegree(g, n);
    }
  }

  lemma SettledKeys(g: Graph, done: set<Kind>, inDegree: map<Kind, int>)
    requires Settled(g, done, inDegree)
    ensures inDegree.Keys == g.Keys
  {
  }

  /** A run over `done` that takes the least ready node next. */
  lemma RunStep(g: Graph, counts: map<Kind, nat>, result: seq<Kind>, queue: seq<Kind>)
    requires Closed(g) && GreedyRun(g, counts, result) && DownClosed(g, Elems(result))
    requires queue != [] && Enumerates(counts, queue, Ready(g, Elems(result)))
    ensures queue[0] in g && queue[0] !in Elems(result) && queue[0] in Ready(g, Elems(result))
    ensures GreedyRun(g, counts, result + [queue[0]])
    ensures Elems(result + [queue[0]]) == Elems(result) + {queue[0]}
    ensures DownClosed(g, Elems(result) + {queue[0]})
    ensures Enumerates(counts, queue[1..], Ready(g, Elems(result)) - {queue[0]})
  {
    QueueHeadIsLeast(counts, queue, Ready(g, Elems(result)));
    EnumerationTail(counts, queue, Ready(g, Elems(result)));
    GreedyRunExtend(g, counts, result, queue[0]);
    ElemsAppend(result, queue[0]);
    ReadyAfter(g, Elems(result), queue[0]);
  }

  lemma RunEnd(g: Graph, counts: map<Kind, nat>, result: seq<Kind>, queue: seq<Kind>)
    requires GreedyRun(g, counts, result) && queue == [] && Enumerates(counts, queue, Ready(g, Elems(result)))
    ensures CompleteRun(g, counts, result)
  {
    EmptyEnumeration(counts, queue, Ready(g, Elems(result)));
  }

  lemma RunStart(g: Graph, counts: map<Kind, nat>)
    ensures GreedyRun(g, counts, []) && Elems<Kind>([]) == {}
  {
  }

  lemma QueueHeadIsLeast(counts: map<Kind, nat>, queue: seq<Kind>, ready: set<Kind>)
    requires queue != [] && Enumerates(counts, queue, ready)
    ensures Least(counts, ready, queue[0]) && queue[0] in ready
  {
    assert queue[0] in Elems(queue);
    forall y | y in ready && y != queue[0] ensures Before(counts, queue[0], y) {
      var i :| 0 <= i < |queue| && queue[i] == y;
    }
  }

  lemma ElemsAppend<T>(s: seq<T>, x: T)
    ensures Elems(s + [x]) == Elems(s) + {x}
  {
  }

  lemma ElemsConcat<T>(s: seq<T>, t: seq<T>)
    ensures Elems(s + t) == Elems(s) + Elems(t)
  {
  }
}
