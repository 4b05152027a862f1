/** dev/migration-tracker/app.js: the ready-to-migrate list, and migrations that follow it. */
module MigrationReadiness {
  import opened Ordering
  import opened Graphs
  import opened MigrationPlan

  /** `completedSet`. */
  predicate CompletedKind(data: seq<Resource>, kind: Kind) {
    exists i :: 0 <= i < |data| && data[i].kind == kind && data[i].Completed()
  }

  predicate TrackedKind(data: seq<Resource>, kind: Kind) {
    exists i :: 0 <= i < |data| && data[i].kind == kind
  }

  predicate Offered(data: seq<Resource>, r: Resource) {
    && r.state != "Completed"
    && !r.deprecated
    && forall i :: 0 <= i < |r.dependencies| ==>
         TrackedKind(data, r.dependencies[i]) ==> CompletedKind(data, r.dependencies[i])
  }

  function OfferedAmong(data: seq<Resource>, rest: seq<Resource>): seq<Resource> {
    if rest == [] then []
    else (if Offered(data, rest[0]) then [rest[0]] else []) + OfferedAmong(data, rest[1..])
  }

  function GetReadyToMigrate(data: seq<Resource>): seq<Resource> {
    OfferedAmong(data, data)
  }

  lemma {:induction false} OfferedAmongExact(data: seq<Resource>, rest: seq<Resource>, r: Resource)
    ensures r in OfferedAmong(data, rest) <==> r in rest && Offered(data, r)
  {
    if rest != [] {
      OfferedAmongExact(data, rest[1..], r);
    }
  }

  // ---------------------------------------------------------------- what the generated file guarantees

  ghost predicate DistinctKinds(data: seq<Resource>) {
    forall i, j :: 0 <= i < j < |data| ==> data[i].kind != data[j].kind
  }

  /** WellOrdered, read off the array that data.json holds. */
  ghost predicate OrderedData(data: seq<Resource>) {
    && DistinctKinds(data)
    && forall r, e :: r in data && e in data && e.kind in r.dependencies && !r.deprecated && !e.deprecated ==>
         e.sortOrder < r.sortOrder
  }

  /** Some kind still to be migrated waits for a deprecated kind nobody will migrate. */
  ghost predicate Deadlocked(data: seq<Resource>) {
    exists r, e :: r in data && e in data && r.Pending() && e.kind in r.dependencies && e.deprecated && !e.Completed()
  }

  ghost predicate DataOf(data: seq<Resource>, tracked: Tracked) {
    && DistinctKinds(data)
    && forall r :: r in data <==> r.kind in tracked && tracked[r.kind] == r
  }

  /** The ordering pipeline's result is ordered data, in whatever order the file lists it. */
  lemma GeneratedDataIsOrdered(data: seq<Resource>, tracked: Tracked)
    requires WellOrdered(tracked) && DataOf(data, tracked)
    ensures OrderedData(data)
  {
  }

  ghost function PendingKinds(data: seq<Resource>): set<Kind> {
    set r | r in data && r.Pending() :: r.kind
  }

  /** Ordering the resources neither adds nor removes pending kinds: in the generated file they are the
      input's kinds that are neither completed nor deprecated. */
  lemma PipelineKeepsPending(data: seq<Resource>, resources0: Tracked, resources: Tracked,
                             dependencies: map<Kind, set<Kind>>, started: set<Kind>)
    requires resources.Keys == resources0.Keys && Keyed(resources0) && DataOf(data, resources)
    requires forall k :: k in resources ==> Kept(resources0[k], resources[k], dependencies, started, resources0.Keys)
    ensures PendingKinds(data) == set k | k in resources0 && resources0[k].state != "Completed" && !resources0[k].deprecated
  {
    forall k | k in resources ensures k in PendingKinds(data) <==> resources0[k].state != "Completed" && !resources0[k].deprecated {
      KeptCompleted(resources0[k], resources[k], dependencies, started, resources0.Keys);
      hide Enumerates;
      if k in PendingKinds(data) {
        var r :| r in data && r.Pending() && r.kind == k;
        assert resources[k] == r;
      }
      assert resources[k].kind == k;
      assert resources[k] in data;
    }
    forall k | k in PendingKinds(data) ensures k in resources {
      var r :| r in data && r.Pending() && r.kind == k;
    }
  }

  lemma SameKindSameResource(data: seq<Resource>, r: Resource, e: Resource)
    requires DistinctKinds(data) && r in data && e in data && r.kind == e.kind
    ensures r == e
  {
  }

  /** With distinct kinds, being offered means every tracked dependency is completed. */
  lemma ReadyIff(data: seq<Resource>, r: Resource)
    requires DistinctKinds(data)
    ensures r in GetReadyToMigrate(data) <==>
              && r in data && r.state != "Completed" && !r.deprecated
              && forall e :: e in data && e.kind in r.dependencies ==> e.state == "Completed"
  {
    OfferedAmongExact(data, data, r);
    if r in data && Offered(data, r) {
      forall e | e in data && e.kind in r.dependencies ensures e.Completed() {
        var i :| 0 <= i < |r.dependencies| && r.dependencies[i] == e.kind;
        assert TrackedKind(data, r.dependencies[i]);
        var j :| 0 <= j < |data| && data[j].kind == e.kind && data[j].Completed();
        SameKindSameResource(data, data[j], e);
      }
    }
    if r in data && r.Pending() && forall e :: e in data && e.kind in r.dependencies ==> e.Completed() {
      forall i | 0 <= i < |r.dependencies| && TrackedKind(data, r.dependencies[i])
        ensures CompletedKind(data, r.dependencies[i])
      {
        var j :| 0 <= j < |data| && data[j].kind == r.dependencies[i];
        assert data[j] in data;
      }
    }
  }

  // ---------------------------------------------------------------- migrating

  function CompleteKind(data: seq<Resource>, kind: Kind): seq<Resource> {
    seq(|data|, i requires 0 <= i < |data| => if data[i].kind == kind then data[i].(state := "Completed") else data[i])
  }

  /** `kinds` are completed one after the other, each while the list offers it. */
  ghost predicate Migration(data: seq<Resource>, kinds: seq<Kind>)
    decreases kinds
  {
    kinds == [] || (
      && (exists r :: r in GetReadyToMigrate(data) && r.kind == kinds[0])
      && Migration(CompleteKind(data, kinds[0]), kinds[1..]))
  }

  function After(data: seq<Resource>, kinds: seq<Kind>): seq<Resource>
    decreases kinds
  {
    if kinds == [] then data else After(CompleteKind(data, kinds[0]), kinds[1..])
  }

  lemma CompletedMember(data: seq<Resource>, kind: Kind, r: Resource)
    ensures r in CompleteKind(data, kind) <==>
              || (r in data && r.kind != kind)
              || (r.kind == kind && r.state == "Completed" && exists o :: o in data && o.kind == kind && r == o.(state := "Completed"))
  {
    var after := CompleteKind(data, kind);
    if r in after {
      var i :| 0 <= i < |after| && after[i] == r;
      assert data[i] in data;
    }
    if r in data && r.kind != kind {
      var i :| 0 <= i < |data| && data[i] == r;
      assert after[i] == r;
    }
    forall o | o in data && o.kind == kind && r == o.(state := "Completed") ensures r in after {
      var i :| 0 <= i < |data| && data[i] == o;
      assert after[i] == r;
    }
  }

  /** A member of the new data, traced back to the old one it came from. */
  lemma Origin(data: seq<Resource>, kind: Kind, r: Resource) returns (o: Resource)
    requires r in CompleteKind(data, kind)
    ensures o in data && r == (if o.kind == kind then o.(state := "Completed") else o)
  {
    var after := CompleteKind(data, kind);
    var i :| 0 <= i < |after| && after[i] == r;
    o := data[i];
  }

  lemma CompletionKeepsOrder(data: seq<Resource>, kind: Kind)
    requires OrderedData(data)
    ensures OrderedData(CompleteKind(data, kind))
    ensures Deadlocked(CompleteKind(data, kind)) ==> Deadlocked(data)
  {
    var after := CompleteKind(data, kind);
    forall r, e | r in after && e in after
      ensures e.kind in r.dependencies && !r.deprecated && !e.deprecated ==> e.sortOrder < r.sortOrder
      ensures r.Pending() && e.kind in r.dependencies && e.deprecated && !e.Completed() ==> Deadlocked(data)
    {
      var r0 := Origin(data, kind, r);
      var e0 := Origin(data, kind, e);
    }
  }

  lemma CompletionRemovesOne(data: seq<Resource>, kind: Kind)
    requires DistinctKinds(data)
    ensures DistinctKinds(CompleteKind(data, kind))
    ensures PendingKinds(CompleteKind(data, kind)) == PendingKinds(data) - {kind}
  {
    var after := CompleteKind(data, kind);
    forall k | k in PendingKinds(after) ensures k in PendingKinds(data) - {kind} {
      var r :| r in after && r.Pending() && r.kind == k;
      var o := Origin(data, kind, r);
    }
    forall k | k in PendingKinds(data) - {kind} ensures k in PendingKinds(after) {
      var r :| r in data && r.Pending() && r.kind == k;
      CompletedMember(data, kind, r);
    }
  }

  /** The pending kind with the least number is always offered. */
  lemma LeastPendingIsReady(data: seq<Resource>, r: Resource)
    requires OrderedData(data) && !Deadlocked(data) && r in data && r.Pending()
    requires forall e :: e in data && e.Pending() ==> r.sortOrder <= e.sortOrder
    ensures r in GetReadyToMigrate(data)
  {
    forall e | e in data && e.kind in r.dependencies ensures e.Completed() {
      assert e.deprecated ==> e.Completed();
    }
    ReadyIff(data, r);
  }

  lemma {:induction false} LeastPending(data: seq<Resource>) returns (r: Resource)
    requires exists e :: e in data && e.Pending()
    ensures r in data && r.Pending()
    ensures forall e :: e in data && e.Pending() ==> r.sortOrder <= e.sortOrder
  {
    if exists e :: e in data[1..] && e.Pending() {
      r := LeastPending(data[1..]);
      if data[0].Pending() && data[0].sortOrder < r.sortOrder {
        r := data[0];
      }
      assert data == [data[0]] + data[1..];
    } else {
      r := data[0];
      assert data == [data[0]] + data[1..];
    }
  }

  /** The dashboard runs dry only when there is nothing left to migrate. */
  lemma ReadyListEmptyIff(data: seq<Resource>)
    requires OrderedData(data) && !Deadlocked(data)
    ensures GetReadyToMigrate(data) == [] <==> PendingKinds(data) == {}
  {
    if GetReadyToMigrate(data) != [] {
      var r := GetReadyToMigrate(data)[0];
      assert r in GetReadyToMigrate(data);
      ReadyIff(data, r);
      assert r.kind in PendingKinds(data);
    }
    if PendingKinds(data) != {} {
      var k :| k in PendingKinds(data);
      var e :| e in data && e.Pending() && e.kind == k;
      var r := LeastPending(data);
      LeastPendingIsReady(data, r);
    }
  }

  /** `kinds` are the pending kinds in ascending `sortOrder`. */
  ghost predicate Ascending(data: seq<Resource>, kinds: seq<Kind>) {
    && NoDuplicates(kinds) && Elems(kinds) == PendingKinds(data)
    && forall i, j, r, e :: 0 <= i < j < |kinds| && r in data && e in data && r.kind == kinds[i] && e.kind == kinds[j] ==>
         r.sortOrder <= e.sortOrder
  }

  lemma AscendingTail(data: seq<Resource>, kinds: seq<Kind>)
    requires DistinctKinds(data) && kinds != [] && Ascending(data, kinds)
    ensures Ascending(CompleteKind(data, kinds[0]), kinds[1..])
  {
    var after, tail := CompleteKind(data, kinds[0]), kinds[1..];
    CompletionRemovesOne(data, kinds[0]);
    assert kinds == [kinds[0]] + tail;
    assert kinds[0] !in tail;
    assert Elems(tail) == Elems(kinds) - {kinds[0]};
    forall i, j, r, e | 0 <= i < j < |tail| && r in after && e in after && r.kind == tail[i] && e.kind == tail[j]
      ensures r.sortOrder <= e.sortOrder
    {
      var r0 := Origin(data, kinds[0], r);
      var e0 := Origin(data, kinds[0], e);
      assert tail[i] == kinds[i + 1] && tail[j] == kinds[j + 1];
    }
  }

  lemma FirstIsReady(data: seq<Resource>, kinds: seq<Kind>)
    requires OrderedData(data) && !Deadlocked(data) && kinds != [] && Ascending(data, kinds)
    ensures exists r :: r in GetReadyToMigrate(data) && r.kind == kinds[0]
  {
    assert kinds[0] in Elems(kinds);
    var r :| r in data && r.Pending() && r.kind == kinds[0];
    forall e | e in data && e.Pending() ensures r.sortOrder <= e.sortOrder {
      assert e.kind in Elems(kinds);
      var j :| 0 <= j < |kinds| && kinds[j] == e.kind;
      if j == 0 {
        SameKindSameResource(data, r, e);
      }
    }
    LeastPendingIsReady(data, r);
  }

  lemma {:induction false} AscendingMigrates(data: seq<Resource>, kinds: seq<Kind>)
    requires OrderedData(data) && !Deadlocked(data) && Ascending(data, kinds)
    ensures Migration(data, kinds)
    decreases kinds
  {
    if kinds != [] {
      FirstIsReady(data, kinds);
      AscendingTail(data, kinds);
      CompletionKeepsOrder(data, kinds[0]);
      AscendingMigrates(CompleteKind(data, kinds[0]), kinds[1..]);
    }
  }

  /** What a migration completes cannot have been waiting for something it never completes. */
  lemma {:induction false} MigratedDoesNotWait(data: seq<Resource>, kinds: seq<Kind>, r: Resource, e: Resource)
    requires DistinctKinds(data) && Migration(data, kinds)
    requires r in data && r.kind in kinds && e in data && e.kind !in kinds && !e.Completed()
    ensures e.kind !in r.dependencies
    decreases kinds
  {
    var q :| q in GetReadyToMigrate(data) && q.kind == kinds[0];
    ReadyIff(data, q);
    if r.kind == kinds[0] {
      SameKindSameResource(data, r, q);
    } else {
      CompletionRemovesOne(data, kinds[0]);
      CompletedMember(data, kinds[0], r);
      CompletedMember(data, kinds[0], e);
      MigratedDoesNotWait(CompleteKind(data, kinds[0]), kinds[1..], r, e);
    }
  }

  lemma DeprecatedIsNotPending(data: seq<Resource>, e: Resource)
    requires DistinctKinds(data) && e in data && e.deprecated
    ensures e.kind !in PendingKinds(data)
  {
    forall o | o in data && o.Pending() ensures o.kind != e.kind {
      if o.kind == e.kind {
        SameKindSameResource(data, o, e);
      }
    }
  }

  /** Working through the pending kinds in ascending `sortOrder` finds each one offered in turn,
      exactly when none of them depends on a deprecated kind that is not completed. */
  lemma AscendingMigratesIff(data: seq<Resource>, kinds: seq<Kind>)
    requires OrderedData(data) && Ascending(data, kinds)
    ensures Migration(data, kinds) <==> !Deadlocked(data)
  {
    if !Deadlocked(data) {
      AscendingMigrates(data, kinds);
    } else if Migration(data, kinds) {
      var r, e :| r in data && e in data && r.Pending() && e.kind in r.dependencies && e.deprecated && !e.Completed();
      assert r.kind in PendingKinds(data);
      assert r.kind in Elems(kinds);
      DeprecatedIsNotPending(data, e);
      assert e.kind !in Elems(kinds);
      MigratedDoesNotWait(data, kinds, r, e);
    }
  }

  lemma ReadyIsPending(data: seq<Resource>, q: Resource)
    requires DistinctKinds(data) && q in GetReadyToMigrate(data)
    ensures q.kind in PendingKinds(data)
  {
    ReadyIff(data, q);
  }

  /** Any migration, in any order the list allows, only ever removes what it names. */
  lemma {:induction false} MigrationRemoves(data: seq<Resource>, kinds: seq<Kind>)
    requires OrderedData(data) && Migration(data, kinds)
    ensures OrderedData(After(data, kinds))
    ensures Deadlocked(After(data, kinds)) ==> Deadlocked(data)
    ensures Elems(kinds) <= PendingKinds(data) && NoDuplicates(kinds)
    ensures PendingKinds(After(data, kinds)) == PendingKinds(data) - Elems(kinds)
    decreases kinds
  {
    hide Deadlocked, CompleteKind, PendingKinds, GetReadyToMigrate;
    if kinds != [] {
      var q :| q in GetReadyToMigrate(data) && q.kind == kinds[0];
      ReadyIsPending(data, q);
      CompletionKeepsOrder(data, kinds[0]);
      CompletionRemovesOne(data, kinds[0]);
      MigrationRemoves(CompleteKind(data, kinds[0]), kinds[1..]);
      assert kinds == [kinds[0]] + kinds[1..];
      assert Elems(kinds) == {kinds[0]} + Elems(kinds[1..]);
      assert kinds[0] !in Elems(kinds[1..]);
    }
  }

  /** No choice among the offered kinds can strand the migration: it stops only when everything is
      migrated, having completed each pending kind exactly once. */
  lemma MigrationAlwaysFinishes(data: seq<Resource>, kinds: seq<Kind>)
    requires OrderedData(data) && !Deadlocked(data) && Migration(data, kinds)
    ensures GetReadyToMigrate(After(data, kinds)) == [] <==> PendingKinds(After(data, kinds)) == {}
    ensures GetReadyToMigrate(After(data, kinds)) == [] <==> Elems(kinds) == PendingKinds(data)
    ensures |kinds| <= |PendingKinds(data)|
    ensures |kinds| == |PendingKinds(data)| <==> GetReadyToMigrate(After(data, kinds)) == []
  {
    hide PendingKinds, GetReadyToMigrate, After, OrderedData, Deadlocked, Migration, Elems;
    MigrationRemoves(data, kinds);
    ReadyListEmptyIff(After(data, kinds));
    DistinctLength(kinds);
    var rest := PendingKinds(data) - Elems(kinds);
    assert PendingKinds(data) == Elems(kinds) + rest;
    assert |PendingKinds(data)| == |kinds| + |rest|;
  }

  // ---------------------------------------------------------------- any data, cycles included

  ghost function IncompleteKinds(data: seq<Resource>): set<Kind> {
    set r | r in data && !r.Completed() :: r.kind
  }

  /** Incomplete but deprecated: nobody will migrate it. */
  ghost predicate Abandoned(data: seq<Resource>, k: Kind) {
    exists r :: r in data && r.kind == k && r.deprecated && !r.Completed()
  }

  ghost predicate Needs(data: seq<Resource>, k: Kind, d: Kind) {
    exists r :: r in data && r.kind == k && !r.deprecated && d in r.dependencies
  }

  /** Which incomplete kinds each incomplete kind waits for. */
  ghost function WaitGraph(data: seq<Resource>): Graph {
    map k | k in IncompleteKinds(data) :: set d | d in IncompleteKinds(data) && Needs(data, k, d)
  }

  /** The same, with an abandoned kind waiting for itself. */
  ghost function BlockGraph(data: seq<Resource>): Graph {
    map k | k in IncompleteKinds(data) :: if Abandoned(data, k) then {k} else WaitGraph(data)[k]
  }

  ghost predicate WaitsForAbandoned(data: seq<Resource>, k: Kind) {
    exists p :: Walk(WaitGraph(data), p) && p[0] == k && Abandoned(data, p[|p| - 1])
  }

  /** From `k` a cycle of waiting kinds or an abandoned kind can be reached. */
  ghost predicate Stranded(data: seq<Resource>, k: Kind) {
    ReachesCycle(WaitGraph(data), k) || WaitsForAbandoned(data, k)
  }

  lemma {:induction false} AfterMember(data: seq<Resource>, kinds: seq<Kind>, r: Resource)
    requires r in data
    ensures (if r.kind in kinds then r.(state := "Completed") else r) in After(data, kinds)
    decreases kinds
  {
    if kinds != [] {
      var r' := if r.kind == kinds[0] then r.(state := "Completed") else r;
      CompletedMember(data, kinds[0], r');
      AfterMember(CompleteKind(data, kinds[0]), kinds[1..], r');
      assert r'.kind in kinds <==> r'.kind == kinds[0] || r'.kind in kinds[1..];
    }
  }

  lemma {:induction false} AfterOrigin(data: seq<Resource>, kinds: seq<Kind>, r: Resource) returns (o: Resource)
    requires r in After(data, kinds)
    ensures o in data && r == if o.kind in kinds then o.(state := "Completed") else o
    decreases kinds
  {
    if kinds == [] {
      o := r;
    } else {
      var m := AfterOrigin(CompleteKind(data, kinds[0]), kinds[1..], r);
      o := Origin(data, kinds[0], m);
      assert o.kind in kinds <==> o.kind == kinds[0] || o.kind in kinds[1..];
    }
  }

  lemma {:induction false} AfterDistinct(data: seq<Resource>, kinds: seq<Kind>)
    requires DistinctKinds(data)
    ensures DistinctKinds(After(data, kinds))
    decreases kinds
  {
    if kinds != [] {
      CompletionRemovesOne(data, kinds[0]);
      AfterDistinct(CompleteKind(data, kinds[0]), kinds[1..]);
    }
  }

  ghost predicate ReadyKind(data: seq<Resource>, n: Kind) {
    exists q :: q in GetReadyToMigrate(data) && q.kind == n
  }

  lemma OfferedIsReadyInGraph(data: seq<Resource>, kinds: seq<Kind>, q: Resource)
    requires DistinctKinds(data) && q in GetReadyToMigrate(After(data, kinds))
    ensures q.kind in Ready(BlockGraph(data), Elems(kinds))
  {
    var now := After(data, kinds);
    AfterDistinct(data, kinds);
    ReadyIff(now, q);
    var o := AfterOrigin(data, kinds, q);
    forall r | r in data && r.kind == q.kind ensures r == o {
      SameKindSameResource(data, r, o);
    }
    forall d | d in WaitGraph(data)[q.kind] ensures d in kinds {
      var e :| e in data && !e.Completed() && e.kind == d;
      AfterMember(data, kinds, e);
    }
  }

  lemma ReadyInGraphIsOffered(data: seq<Resource>, kinds: seq<Kind>, n: Kind)
    requires DistinctKinds(data) && n in Ready(BlockGraph(data), Elems(kinds))
    ensures ReadyKind(After(data, kinds), n)
  {
    var now := After(data, kinds);
    AfterDistinct(data, kinds);
    var o :| o in data && !o.Completed() && o.kind == n;
    assert n !in kinds && !Abandoned(data, n);
    AfterMember(data, kinds, o);
    forall e | e in now && e.kind in o.dependencies ensures e.Completed() {
      var e0 := AfterOrigin(data, kinds, e);
      if !e0.Completed() {
        assert Needs(data, n, e0.kind);
        assert e0.kind in BlockGraph(data)[n];
      }
    }
    ReadyIff(now, o);
  }

  lemma {:induction false} MigrationTurn(data: seq<Resource>, kinds: seq<Kind>, k: nat)
    requires Migration(data, kinds) && k < |kinds|
    ensures ReadyKind(After(data, kinds[..k]), kinds[k])
    decreases kinds
  {
    if k > 0 {
      MigrationTurn(CompleteKind(data, kinds[0]), kinds[1..], k - 1);
      assert kinds[..k][1..] == kinds[1..][..k - 1];
    }
  }

  lemma MigrationIsReadyRun(data: seq<Resource>, kinds: seq<Kind>)
    requires DistinctKinds(data) && Migration(data, kinds)
    ensures ReadyRun(BlockGraph(data), kinds)
  {
    forall k | 0 <= k < |kinds| ensures kinds[k] in Ready(BlockGraph(data), Elems(kinds[..k])) {
      MigrationTurn(data, kinds, k);
      var q :| q in GetReadyToMigrate(After(data, kinds[..k])) && q.kind == kinds[k];
      OfferedIsReadyInGraph(data, kinds[..k], q);
    }
  }

  // Cycles in the block graph, read in the wait graph.

  lemma BlockWalkIsWaitWalk(data: seq<Resource>, p: seq<Kind>, n: nat)
    requires Walk(BlockGraph(data), p) && n < |p| && forall i :: 0 <= i < n ==> !Abandoned(data, p[i])
    ensures Walk(WaitGraph(data), p[..n + 1])
  {
    var q := p[..n + 1];
    forall i | 0 <= i < |q| - 1 ensures q[i + 1] in WaitGraph(data)[q[i]] {
      assert p[i + 1] in BlockGraph(data)[p[i]];
    }
  }

  lemma WaitWalkIsBlockWalk(data: seq<Resource>, p: seq<Kind>)
    requires DistinctKinds(data) && Walk(WaitGraph(data), p)
    ensures Walk(BlockGraph(data), p)
  {
    forall i | 0 <= i < |p| - 1 ensures p[i + 1] in BlockGraph(data)[p[i]] {
      assert p[i + 1] in WaitGraph(data)[p[i]];
      AbandonedNeedsNothing(data, p[i], p[i + 1]);
    }
  }

  lemma AbandonedNeedsNothing(data: seq<Resource>, k: Kind, d: Kind)
    requires DistinctKinds(data)
    ensures !(Abandoned(data, k) && Needs(data, k, d))
  {
  }

  lemma {:induction false} FirstAbandoned(data: seq<Resource>, p: seq<Kind>, n: nat) returns (m: nat)
    requires n < |p| && Abandoned(data, p[n])
    ensures m <= n && Abandoned(data, p[m]) && forall i :: 0 <= i < m ==> !Abandoned(data, p[i])
  {
    if i: nat :| i < n && Abandoned(data, p[i]) {
      m := FirstAbandoned(data, p, i);
    } else {
      m := n;
    }
  }

  /** A walk in the block graph either meets an abandoned kind or is a walk in the wait graph. */
  lemma BlockWalkCases(data: seq<Resource>, p: seq<Kind>)
    requires Walk(BlockGraph(data), p)
    ensures Walk(WaitGraph(data), p) || WaitsForAbandoned(data, p[0])
  {
    hide WaitGraph, BlockGraph, Abandoned;
    if n: nat :| n < |p| && Abandoned(data, p[n]) {
      var m := FirstAbandoned(data, p, n);
      BlockWalkIsWaitWalk(data, p, m);
      assert Walk(WaitGraph(data), p[..m + 1]) && p[..m + 1][0] == p[0];
    } else {
      BlockWalkIsWaitWalk(data, p, |p| - 1);
      assert p[..|p| - 1 + 1] == p;
    }
  }

  lemma WaitConnectsAbandoned(data: seq<Resource>, p: seq<Kind>, m: Kind)
    requires p != [] && Connects(WaitGraph(data), p, p[0], m) && WaitsForAbandoned(data, m)
    ensures WaitsForAbandoned(data, p[0])
  {
    var q :| Walk(WaitGraph(data), q) && q[0] == m && Abandoned(data, q[|q| - 1]);
    var r := p + q[1..];
    forall i | 0 <= i < |r| - 1 ensures r[i + 1] in WaitGraph(data)[r[i]] {
      if i >= |p| - 1 {
        assert r[i] == q[i - |p| + 1];
      }
    }
    assert Walk(WaitGraph(data), r) && r[0] == p[0] && r[|r| - 1] == q[|q| - 1];
  }

  lemma BlockedIsStranded(data: seq<Resource>, k: Kind)
    requires ReachesCycle(BlockGraph(data), k)
    ensures Stranded(data, k)
  {
    var b, w := BlockGraph(data), WaitGraph(data);
    if OnCycle(b, k) {
      var p :| Connects(b, p, k, k);
      BlockWalkCases(data, p);
      assert Walk(w, p) ==> Connects(w, p, k, k);
    } else {
      var m :| Requires(b, k, m) && OnCycle(b, m);
      var p :| Connects(b, p, k, m);
      var q :| Connects(b, q, m, m);
      BlockWalkCases(data, p);
      BlockWalkCases(data, q);
      if !WaitsForAbandoned(data, k) {
        assert Connects(w, p, k, m);
        if WaitsForAbandoned(data, m) {
          WaitConnectsAbandoned(data, p, m);
        } else {
          assert Connects(w, q, m, m);
          assert OnCycle(w, m) && Requires(w, k, m);
        }
      }
    }
  }

  lemma WaitRequiresIsBlockRequires(data: seq<Resource>, a: Kind, b: Kind)
    requires DistinctKinds(data) && Requires(WaitGraph(data), a, b)
    ensures Requires(BlockGraph(data), a, b)
  {
    var p :| Connects(WaitGraph(data), p, a, b);
    WaitWalkIsBlockWalk(data, p);
    assert Connects(BlockGraph(data), p, a, b);
  }

  lemma StrandedIsBlocked(data: seq<Resource>, k: Kind)
    requires DistinctKinds(data) && Stranded(data, k)
    ensures ReachesCycle(BlockGraph(data), k)
  {
    var b, w := BlockGraph(data), WaitGraph(data);
    if WaitsForAbandoned(data, k) {
      var p :| Walk(w, p) && p[0] == k && Abandoned(data, p[|p| - 1]);
      WaitWalkIsBlockWalk(data, p);
      var d := p[|p| - 1];
      assert Connects(b, [d, d], d, d);
      assert OnCycle(b, d);
      if |p| > 1 {
        assert Connects(b, p, k, d);
        assert Requires(b, k, d);
      }
    } else if OnCycle(w, k) {
      WaitRequiresIsBlockRequires(data, k, k);
    } else {
      var m :| Requires(w, k, m) && OnCycle(w, m);
      WaitRequiresIsBlockRequires(data, k, m);
      WaitRequiresIsBlockRequires(data, m, m);
    }
  }

  /** The pending kinds from which neither a cycle of waiting kinds nor an abandoned kind is reachable. */
  ghost function Finishable(data: seq<Resource>): set<Kind> {
    set k | k in PendingKinds(data) && !Stranded(data, k)
  }

  lemma FinishableIsSound(data: seq<Resource>)
    requires DistinctKinds(data)
    ensures Finishable(data) == Sound(BlockGraph(data))
  {
    forall k ensures k in Finishable(data) <==> k in Sound(BlockGraph(data)) {
      if k in IncompleteKinds(data) {
        PendingOrAbandoned(data, k);
        if Stranded(data, k) {
          StrandedIsBlocked(data, k);
        }
        if ReachesCycle(BlockGraph(data), k) {
          BlockedIsStranded(data, k);
        }
      }
    }
  }

  lemma PendingOrAbandoned(data: seq<Resource>, k: Kind)
    requires DistinctKinds(data) && k in IncompleteKinds(data)
    ensures k in PendingKinds(data) <==> !Abandoned(data, k)
    ensures Abandoned(data, k) ==> Stranded(data, k)
  {
    if Abandoned(data, k) {
      assert Walk(WaitGraph(data), [k]) && [k][0] == k && Abandoned(data, [k][|[k]| - 1]);
      var r :| r in data && r.kind == k && r.deprecated && !r.Completed();
      DeprecatedIsNotPending(data, r);
    } else {
      var r :| r in data && !r.Completed() && r.kind == k;
    }
  }

  /** On any data with distinct kinds, however the offered kinds are chosen, a migration completes only
      finishable kinds, and the list runs dry exactly when all of those are completed. */
  lemma MigrationRunsDryIff(data: seq<Resource>, kinds: seq<Kind>)
    requires DistinctKinds(data) && Migration(data, kinds)
    ensures NoDuplicates(kinds) && Elems(kinds) <= Finishable(data)
    ensures GetReadyToMigrate(After(data, kinds)) == [] <==> Elems(kinds) == Finishable(data)
  {
    var b := BlockGraph(data);
    MigrationIsReadyRun(data, kinds);
    ReadyRunShape(b, kinds);
    ReadyRunStopsIff(b, kinds);
    FinishableIsSound(data);
    if GetReadyToMigrate(After(data, kinds)) != [] {
      OfferedIsReadyInGraph(data, kinds, GetReadyToMigrate(After(data, kinds))[0]);
    }
    if Ready(b, Elems(kinds)) != {} {
      var n :| n in Ready(b, Elems(kinds));
      ReadyInGraphIsOffered(data, kinds, n);
    }
  }
}
