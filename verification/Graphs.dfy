/**
 * Dependency graphs between resource kinds, and the order-independent facts about draining them:
 * which kinds can ever be released, and what a "take the least released kind" run looks like.
 */
module Graphs {
  import opened Ordering

  type Kind = string
  /** `local_graph`: each node with the nodes it depends on. */
  type Graph = map<Kind, set<Kind>>

  ghost predicate Closed(g: Graph) {
    forall n :: n in g ==> g[n] <= g.Keys
  }

  /** Each kind of `p` depends on the next one. */
  ghost predicate Walk(g: Graph, p: seq<Kind>) {
    && p != []
    && (forall i :: 0 <= i < |p| ==> p[i] in g)
    && (forall i :: 0 <= i < |p| - 1 ==> p[i + 1] in g[p[i]])
  }

  ghost predicate Connects(g: Graph, p: seq<Kind>, a: Kind, b: Kind) {
    Walk(g, p) && |p| >= 2 && p[0] == a && p[|p| - 1] == b
  }

  ghost predicate Requires(g: Graph, a: Kind, b: Kind) {
    exists p :: Connects(g, p, a, b)
  }

  ghost predicate OnCycle(g: Graph, n: Kind) { Requires(g, n, n) }

  ghost predicate ReachesCycle(g: Graph, n: Kind) {
    OnCycle(g, n) || exists m :: Requires(g, n, m) && OnCycle(g, m)
  }

  ghost predicate Acyclic(g: Graph) { forall n :: n in g ==> !OnCycle(g, n) }

  /** Everything that transitively depends on `n`: the closure of `rev_graph` from `n`. */
  ghost function Downstream(g: Graph, n: Kind): set<Kind> {
    set m | m in g && Requires(g, m, n)
  }

  /** The kinds from which no dependency cycle can be reached. */
  ghost function Sound(g: Graph): set<Kind> {
    set n | n in g && !ReachesCycle(g, n)
  }

  lemma EdgeRequires(g: Graph, a: Kind, b: Kind)
    requires Closed(g) && a in g && b in g[a]
    ensures Requires(g, a, b)
  {
    assert Connects(g, [a, b], a, b);
  }

  lemma RequiresTransitive(g: Graph, a: Kind, b: Kind, c: Kind)
    requires Requires(g, a, b) && Requires(g, b, c)
    ensures Requires(g, a, c)
  {
    var p :| Connects(g, p, a, b);
    var q :| Connects(g, q, b, c);
    var r := p + q[1..];
    forall i | 0 <= i < |r| - 1 ensures r[i + 1] in g[r[i]] {
      if i >= |p| - 1 {
        assert r[i] == q[i - |p| + 1];
      }
    }
    assert Connects(g, r, a, c);
  }

  lemma AcyclicIffAllSound(g: Graph)
    ensures Acyclic(g) <==> Sound(g) == g.Keys
  {
    if Acyclic(g) {
      forall n | n in g ensures !ReachesCycle(g, n) {
        forall m | Requires(g, n, m) ensures !OnCycle(g, m) {
          var p :| Connects(g, p, n, m);
          assert p[|p| - 1] in g;
        }
      }
    } else {
      var n :| n in g && OnCycle(g, n);
      assert n !in Sound(g);
    }
  }

  // ---------------------------------------------------------------- draining

  /** Nodes with no unfulfilled dependency left once `done` has been processed. */
  ghost function Ready(g: Graph, done: set<Kind>): set<Kind> {
    set n | n in g && n !in done && g[n] <= done
  }

  ghost predicate Least(counts: map<Kind, nat>, s: set<Kind>, x: Kind) {
    x in s && forall y :: y in s && y != x ==> Before(counts, x, y)
  }

  /** Every step takes some node that is ready at that moment. */
  ghost predicate ReadyRun(g: Graph, order: seq<Kind>) {
    forall k :: 0 <= k < |order| ==> order[k] in Ready(g, Elems(order[..k]))
  }

  /** Every step takes the least node, in key order, among those ready at that moment. */
  ghost predicate GreedyRun(g: Graph, counts: map<Kind, nat>, order: seq<Kind>) {
    forall k :: 0 <= k < |order| ==> Least(counts, Ready(g, Elems(order[..k])), order[k])
  }

  /** A greedy run that stops only because nothing is ready any more. */
  ghost predicate CompleteRun(g: Graph, counts: map<Kind, nat>, order: seq<Kind>) {
    GreedyRun(g, counts, order) && Ready(g, Elems(order)) == {}
  }

  lemma CompleteRunStops(g: Graph, counts: map<Kind, nat>, order: seq<Kind>)
    requires CompleteRun(g, counts, order)
    ensures Ready(g, Elems(order)) == {}
  {
  }

  lemma GreedyRunExtend(g: Graph, counts: map<Kind, nat>, order: seq<Kind>, x: Kind)
    requires GreedyRun(g, counts, order) && Least(counts, Ready(g, Elems(order)), x)
    ensures GreedyRun(g, counts, order + [x])
  {
    var r := order + [x];
    forall k | 0 <= k < |r| ensures Least(counts, Ready(g, Elems(r[..k])), r[k]) {
      assert r[..k] == order[..k];
      assert k == |order| ==> order[..k] == order;
    }
  }

  lemma GreedyRunIsReadyRun(g: Graph, counts: map<Kind, nat>, order: seq<Kind>)
    requires GreedyRun(g, counts, order)
    ensures ReadyRun(g, order)
  {
  }

  lemma ReadyRunShape(g: Graph, order: seq<Kind>)
    requires ReadyRun(g, order)
    ensures NoDuplicates(order)
    ensures Elems(order) <= g.Keys
    ensures forall i :: 0 <= i < |order| ==> order[i] in g && g[order[i]] <= Elems(order[..i])
  {
    forall i, j | 0 <= i < j < |order| ensures order[i] != order[j] {
      assert order[j] in Ready(g, Elems(order[..j]));
      assert order[..j][i] == order[i];
    }
  }

  lemma GreedyRunShape(g: Graph, counts: map<Kind, nat>, order: seq<Kind>)
    requires GreedyRun(g, counts, order)
    ensures NoDuplicates(order)
    ensures Elems(order) <= g.Keys
    ensures forall i :: 0 <= i < |order| ==> order[i] in g && g[order[i]] <= Elems(order[..i])
  {
    GreedyRunIsReadyRun(g, counts, order);
    ReadyRunShape(g, order);
  }

  /** Along any walk out of a drained node, every node was drained, and strictly earlier. */
  lemma {:induction false} WalkGoesBack(g: Graph, order: seq<Kind>, p: seq<Kind>, i: nat, k: nat)
    requires ReadyRun(g, order) && Walk(g, p)
    requires i < |order| && order[i] == p[0] && k < |p|
    ensures exists j :: 0 <= j <= i - k && order[j] == p[k]
    decreases k
  {
    if k > 0 {
      WalkGoesBack(g, order, p, i, k - 1);
      var j :| 0 <= j <= i - (k - 1) && order[j] == p[k - 1];
      ReadyRunShape(g, order);
      assert p[k - 1 + 1] in g[p[k - 1]];
      assert p[k] in order[..j];
      var m :| 0 <= m < j && order[..j][m] == p[k];
      assert order[m] == p[k];
    }
  }

  lemma DrainedRequires(g: Graph, order: seq<Kind>, i: nat, b: Kind)
    requires ReadyRun(g, order) && i < |order| && Requires(g, order[i], b)
    ensures b in order[..i]
  {
    var p :| Connects(g, p, order[i], b);
    WalkGoesBack(g, order, p, i, |p| - 1);
    var j :| 0 <= j <= i - (|p| - 1) && order[j] == p[|p| - 1];
    assert order[..i][j] == b;
  }

  lemma DrainedOffCycle(g: Graph, order: seq<Kind>, i: nat)
    requires ReadyRun(g, order) && i < |order|
    ensures !OnCycle(g, order[i])
  {
    ReadyRunShape(g, order);
    if OnCycle(g, order[i]) {
      DrainedRequires(g, order, i, order[i]);
    }
  }

  lemma DrainedIsSound(g: Graph, order: seq<Kind>, i: nat)
    requires ReadyRun(g, order) && i < |order|
    ensures !ReachesCycle(g, order[i])
  {
    DrainedOffCycle(g, order, i);
    forall m | Requires(g, order[i], m) ensures !OnCycle(g, m) {
      DrainedRequires(g, order, i, m);
      var j :| 0 <= j < i && order[..i][j] == m;
      DrainedOffCycle(g, order, j);
    }
  }

  lemma WalkCloses(g: Graph, p: seq<Kind>, i: nat, d: Kind)
    requires Walk(g, p) && i < |p| && p[i] == d && d in g[p[|p| - 1]]
    ensures ReachesCycle(g, p[0])
  {
    var q := p + [d];
    assert forall k :: 0 <= k < |q| - 1 ==> q[k + 1] in g[q[k]] by {
      forall k | 0 <= k < |q| - 1 ensures q[k + 1] in g[q[k]] {
        if k < |p| - 1 { assert p[k + 1] in g[p[k]]; }
      }
    }
    var loop := q[i..];
    assert forall k :: 0 <= k < |loop| - 1 ==> loop[k + 1] in g[loop[k]] by {
      forall k | 0 <= k < |loop| - 1 ensures loop[k + 1] in g[loop[k]] {
        assert q[i + k + 1] in g[q[i + k]];
      }
    }
    assert Connects(g, loop, d, d);
    assert OnCycle(g, d);
    if i > 0 {
      assert Connects(g, p[..i + 1], p[0], d);
      assert Requires(g, p[0], d);
    }
  }

  /** With nothing ready, a walk through undrained nodes can be continued until it closes. */
  lemma {:induction false} StuckReachesCycle(g: Graph, done: set<Kind>, p: seq<Kind>)
    requires Closed(g) && Ready(g, done) == {} && Walk(g, p) && NoDuplicates(p)
    requires forall i :: 0 <= i < |p| ==> p[i] !in done
    ensures ReachesCycle(g, p[0])
    decreases g.Keys - Elems(p)
  {
    var last := p[|p| - 1];
    assert last !in Ready(g, done);
    var d :| d in g[last] && d !in done;
    if d in p {
      var i :| 0 <= i < |p| && p[i] == d;
      WalkCloses(g, p, i, d);
    } else {
      var q := p + [d];
      assert Walk(g, q) by {
        forall k | 0 <= k < |q| - 1 ensures q[k + 1] in g[q[k]] {
          if k < |p| - 1 { assert p[k + 1] in g[p[k]]; }
        }
      }
      assert Elems(q) == Elems(p) + {d};
      StuckReachesCycle(g, done, q);
    }
  }

  /** However it chooses, a run has drained all kinds that reach no cycle exactly when nothing is ready. */
  lemma ReadyRunStopsIff(g: Graph, order: seq<Kind>)
    requires Closed(g) && ReadyRun(g, order)
    ensures Elems(order) <= Sound(g)
    ensures Ready(g, Elems(order)) == {} <==> Elems(order) == Sound(g)
  {
    ReadyRunShape(g, order);
    forall n | n in order ensures n in Sound(g) {
      var i :| 0 <= i < |order| && order[i] == n;
      DrainedIsSound(g, order, i);
    }
    if Ready(g, Elems(order)) == {} {
      forall n | n in g && n !in order ensures ReachesCycle(g, n) {
        StuckReachesCycle(g, Elems(order), [n]);
      }
    } else {
      var n :| n in Ready(g, Elems(order));
      ReadyIsSound(g, order, n);
    }
  }

  lemma ReadyIsSound(g: Graph, order: seq<Kind>, n: Kind)
    requires ReadyRun(g, order) && n in Ready(g, Elems(order))
    ensures n in Sound(g) && n !in Elems(order)
  {
    var longer := order + [n];
    forall k | 0 <= k < |longer| ensures longer[k] in Ready(g, Elems(longer[..k])) {
      assert longer[..k] == order[..k];
      assert k == |order| ==> order[..k] == order;
    }
    DrainedIsSound(g, longer, |order|);
  }

  /** A complete run drains exactly the kinds that reach no cycle, whatever the key. */
  lemma CompleteRunDrainsSound(g: Graph, counts: map<Kind, nat>, order: seq<Kind>)
    requires Closed(g) && CompleteRun(g, counts, order)
    ensures Elems(order) == Sound(g)
  {
    GreedyRunIsReadyRun(g, counts, order);
    ReadyRunStopsIff(g, order);
  }

  /** The key leaves a run no choice, so iteration order of the sets cannot matter. */
  lemma {:induction false} CompleteRunUnique(g: Graph, counts: map<Kind, nat>, a: seq<Kind>, b: seq<Kind>, k: nat)
    requires Closed(g) && CompleteRun(g, counts, a) && CompleteRun(g, counts, b)
    requires k <= |a| && k <= |b| && a[..k] == b[..k]
    ensures a == b
    decreases |a| - k
  {
    GreedyRunShape(g, counts, a);
    GreedyRunShape(g, counts, b);
    CompleteRunDrainsSound(g, counts, a);
    CompleteRunDrainsSound(g, counts, b);
    SameElemsSameLength(a, b);
    if k == |a| {
      assert a[..k] == a && b[..k] == b;
    } else {
      assert Least(counts, Ready(g, Elems(a[..k])), a[k]);
      assert Least(counts, Ready(g, Elems(b[..k])), b[k]);
      BeforeStrictTotal(counts, a[k], b[k]);
      assert a[..k + 1] == a[..k] + [a[k]] && b[..k + 1] == b[..k] + [b[k]];
      CompleteRunUnique(g, counts, a, b, k + 1);
    }
  }

  // ---------------------------------------------------------------- topological orders

  /** `t` lists all of `g` once, each kind after everything it depends on. */
  ghost predicate TopologicalOrder(g: Graph, t: seq<Kind>) {
    && NoDuplicates(t)
    && Elems(t) == g.Keys
    && forall i :: 0 <= i < |t| ==> t[i] in g && g[t[i]] <= Elems(t[..i])
  }

  /** `a` is `b`, or smaller at the first position where they differ. */
  ghost predicate LexAtMost(a: seq<Kind>, b: seq<Kind>) {
    a <= b || exists k :: 0 <= k < |a| && k < |b| && a[..k] == b[..k] && Alphabetical(a[k], b[k])
  }

  lemma {:induction false} GreedyRunLexFrom(g: Graph, a: seq<Kind>, t: seq<Kind>, k: nat)
    requires GreedyRun(g, map[], a) && TopologicalOrder(g, t)
    requires k <= |a| <= |t| && a[..k] == t[..k]
    ensures LexAtMost(a, t)
    decreases |a| - k
  {
    if k == |a| {
      assert a[..k] == a;
    } else {
      assert Least(map[], Ready(g, Elems(a[..k])), a[k]);
      assert t[k] in Ready(g, Elems(a[..k])) by {
        assert t[k] !in t[..k];
      }
      if a[k] == t[k] {
        assert a[..k + 1] == a[..k] + [a[k]] && t[..k + 1] == t[..k] + [t[k]];
        GreedyRunLexFrom(g, a, t, k + 1);
      } else {
        assert Before(map[], a[k], t[k]);
        hide Alphabetical;
        StrLessIsAlphabetical(a[k], t[k]);
      }
    }
  }

  ghost predicate LeastTopologicalOrder(g: Graph, a: seq<Kind>) {
    TopologicalOrder(g, a) && forall t :: TopologicalOrder(g, t) ==> LexAtMost(a, t)
  }

  /** On an acyclic graph the name-ordered run is the least of all topological orders. */
  lemma CompleteRunIsLeastOrder(g: Graph, a: seq<Kind>)
    requires Closed(g) && Acyclic(g) && CompleteRun(g, map[], a)
    ensures LeastTopologicalOrder(g, a)
  {
    GreedyRunShape(g, map[], a);
    CompleteRunDrainsSound(g, map[], a);
    AcyclicIffAllSound(g);
    forall t | TopologicalOrder(g, t) ensures LexAtMost(a, t) {
      SameElemsSameLength(a, t);
      GreedyRunLexFrom(g, a, t, 0);
    }
  }

  lemma {:induction false} DistinctLength<T>(s: seq<T>)
    requires NoDuplicates(s)
    ensures |Elems(s)| == |s|
  {
    if s != [] {
      var t := s[..|s| - 1];
      DistinctLength(t);
      assert s == t + [s[|s| - 1]];
      assert s[|s| - 1] !in t;
      assert Elems(s) == Elems(t) + {s[|s| - 1]};
    }
  }

  lemma SameElemsSameLength<T>(a: seq<T>, b: seq<T>)
    requires NoDuplicates(a) && NoDuplicates(b) && Elems(a) == Elems(b)
    ensures |a| == |b|
  {
    DistinctLength(a);
    DistinctLength(b);
  }
}
