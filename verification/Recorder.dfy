/**
 * cmd/recorder/main.go: the loop that keeps one watch open per Config Connector CRD, closes stale ones,
 * and publishes counts of resources by namespace and condition.
 */
module Recorder {
  import opened Names
  import opened Ordering

  datatype Gvk = Gvk(group: string, version: string, kind: string)
  datatype Gvr = Gvr(group: string, version: string, resource: string)
  datatype CrdInfo = CrdInfo(gvr: Gvr, gvk: Gvk)

  /** An object in a view: where it lives and the reason of its Ready condition. */
  datatype Object = Object(namespace: string, condition: string)

  /** Views are numbered in the order `WatchKube` opens them. */
  type ViewId = nat
  datatype GaugeKey = GaugeKey(namespace: string, groupKind: string, condition: string)
  type Gauges = map<GaugeKey, nat>

  /** What one pass finds: whether the CRD watch has synced, its CRDs in walk order, and the contents of
      the views that have synced. */
  datatype Findings = Findings(crdsSynced: bool, crds: seq<CrdInfo>, synced: map<ViewId, seq<Object>>)

  function ToLower(s: string): string {
    if s == "" then "" else [if 'A' <= s[0] <= 'Z' then (s[0] - 'A') + 'a' else s[0]] + ToLower(s[1..])
  }

  function GvkToCrdName(gvk: Gvk): string {
    ToLower(gvk.kind) + "s" + "." + gvk.group
  }

  predicate Relevant(ignored: set<string>, crd: CrdInfo) {
    HasSuffix(crd.gvk.group, ".cnrm.cloud.google.com") && GvkToCrdName(crd.gvk) !in ignored
  }

  /** `GroupKind().String()`. */
  function Label(crd: CrdInfo): string {
    if crd.gvk.group == "" then crd.gvk.kind else crd.gvk.kind + "." + crd.gvk.group
  }

  function Seen(ignored: set<string>, crds: seq<CrdInfo>): set<CrdInfo> {
    set c | c in crds && Relevant(ignored, c)
  }

  /** `t` is `s` with its capital letters made small. */
  ghost predicate Lowered(s: string, t: string) {
    |t| == |s| && forall i :: 0 <= i < |s| ==> t[i] as int == s[i] as int + if 'A' <= s[i] <= 'Z' then 32 else 0
  }

  /** `name` is the lower-case plural of the kind, a dot and the group. */
  ghost predicate NamesCrd(name: string, gvk: Gvk) {
    exists t :: Lowered(gvk.kind, t) && name == t + "s." + gvk.group
  }

  /** A Config Connector CRD that is not on the ignore list. */
  ghost predicate Watched(ignored: set<string>, crd: CrdInfo) {
    && (exists p: string :: crd.gvk.group == p + ".cnrm.cloud.google.com")
    && forall name :: name in ignored ==> !NamesCrd(name, crd.gvk)
  }

  lemma {:induction false} ToLowerLowers(s: string)
    ensures Lowered(s, ToLower(s))
  {
    if s != "" {
      ToLowerLowers(s[1..]);
      var t := ToLower(s);
      forall i | 0 <= i < |s| ensures t[i] as int == s[i] as int + if 'A' <= s[i] <= 'Z' then 32 else 0 {
        assert i > 0 ==> s[i] == s[1..][i - 1] && t[i] == ToLower(s[1..])[i - 1];
      }
    }
  }

  lemma CrdNameIff(name: string, gvk: Gvk)
    ensures name == GvkToCrdName(gvk) <==> NamesCrd(name, gvk)
  {
    ToLowerLowers(gvk.kind);
    assert GvkToCrdName(gvk) == ToLower(gvk.kind) + "s." + gvk.group;
    if NamesCrd(name, gvk) {
      var t :| Lowered(gvk.kind, t) && name == t + "s." + gvk.group;
      assert t == ToLower(gvk.kind);
    }
  }

  /** Exactly those CRDs are watched. */
  lemma RelevantIffWatched(ignored: set<string>, crd: CrdInfo)
    ensures Relevant(ignored, crd) <==> Watched(ignored, crd)
  {
    SuffixIff(crd.gvk.group, ".cnrm.cloud.google.com");
    CrdNameIff(GvkToCrdName(crd.gvk), crd.gvk);
    hide GvkToCrdName, NamesCrd, HasSuffix;
    forall name | name in ignored ensures name == GvkToCrdName(crd.gvk) <==> NamesCrd(name, crd.gvk) {
      CrdNameIff(name, crd.gvk);
    }
  }

  lemma SeenAreWatched(ignored: set<string>, crds: seq<CrdInfo>)
    ensures Seen(ignored, crds) == set c | c in crds && Watched(ignored, c)
  {
    forall c: CrdInfo ensures Relevant(ignored, c) <==> Watched(ignored, c) { RelevantIffWatched(ignored, c); }
    hide Relevant, Watched;
  }

  /** The kind, a dot and the group: it names the GroupKind, since kinds contain no dot. */
  lemma LabelNamesGroupKind(c: CrdInfo, d: CrdInfo)
    requires '.' !in c.gvk.kind && '.' !in d.gvk.kind
    ensures c.gvk.group != "" ==> Label(c) == c.gvk.kind + "." + c.gvk.group
    ensures Label(c) == Label(d) <==> c.gvk.group == d.gvk.group && c.gvk.kind == d.gvk.kind
  {
    if Label(c) == Label(d) {
      var n, m := |c.gvk.kind|, |d.gvk.kind|;
      assert c.gvk.group != "" ==> Label(c)[n] == '.' && Label(c)[n + 1..] == c.gvk.group;
      assert d.gvk.group != "" ==> Label(d)[m] == '.' && Label(d)[m + 1..] == d.gvk.group;
      assert Label(c)[..n] == c.gvk.kind && Label(d)[..m] == d.gvk.kind;
      assert forall i :: 0 <= i < n ==> Label(c)[i] == c.gvk.kind[i];
      assert forall i :: 0 <= i < m ==> Label(d)[i] == d.gvk.kind[i];
      assert n == m;
    }
  }

  // ---------------------------------------------------------------- counting one view

  function Count(objects: seq<Object>, ns: string, condition: string): nat {
    multiset(objects)[Object(ns, condition)]
  }

  type Stats = map<string, map<string, nat>>

  function StatAt(stats: Stats, ns: string, condition: string): nat {
    if ns in stats && condition in stats[ns] then stats[ns][condition] else 0
  }

  /** The nested counters hold exactly the positive counts. */
  ghost predicate Tallies(stats: Stats, objects: seq<Object>) {
    && (forall ns, c :: StatAt(stats, ns, c) == Count(objects, ns, c))
    && (forall ns, c :: ns in stats && c in stats[ns] ==> stats[ns][c] > 0)
  }

  function Tally(stats: Stats, o: Object): Stats {
    var counts := if o.namespace in stats then stats[o.namespace] else map[];
    stats[o.namespace := counts[o.condition := (if o.condition in counts then counts[o.condition] else 0) + 1]]
  }

  lemma TallyStep(stats: Stats, objects: seq<Object>, o: Object)
    requires Tallies(stats, objects)
    ensures Tallies(Tally(stats, o), objects + [o])
  {
    var after := Tally(stats, o);
    forall ns, c ensures StatAt(after, ns, c) == Count(objects + [o], ns, c) {
      assert StatAt(stats, ns, c) == Count(objects, ns, c);
      assert StatAt(after, ns, c) == StatAt(stats, ns, c) + if o == Object(ns, c) then 1 else 0;
    }
  }

  method Aggregate(objects: seq<Object>) returns (stats: Stats)
    ensures Tallies(stats, objects)
  {
    stats := map[];
    for i := 0 to |objects|
      invariant Tallies(stats, objects[..i])
    {
      assert objects[..i + 1] == objects[..i] + [objects[i]];
      TallyStep(stats, objects[..i], objects[i]);
      ghost var before := stats;
      var ns, c := objects[i].namespace, objects[i].condition;
      if ns !in stats {
        stats := stats[ns := map[]];
      }
      var counts := stats[ns];
      stats := stats[ns := counts[c := (if c in counts then counts[c] else 0) + 1]];
      assert stats == Tally(before, objects[i]);
    }
    assert objects[..|objects|] == objects;
  }

  /** What recording a view under a GroupKind does to one gauge. */
  function GaugeWith(before: Gauges, groupKind: string, objects: seq<Object>, key: GaugeKey): nat {
    if key.groupKind == groupKind && Count(objects, key.namespace, key.condition) > 0
    then Count(objects, key.namespace, key.condition) else GaugeAt(before, key)
  }

  function GaugeAt(gauges: Gauges, key: GaugeKey): nat {
    if key in gauges then gauges[key] else 0
  }

  ghost predicate Positive(gauges: Gauges) {
    forall k :: k in gauges ==> gauges[k] > 0
  }

  method RecordNamespace(gauges0: Gauges, groupKind: string, ns: string, counts: map<string, nat>) returns (gauges: Gauges)
    requires Positive(gauges0) && forall c :: c in counts ==> counts[c] > 0
    ensures Positive(gauges)
    ensures forall k :: GaugeAt(gauges, k) ==
              if k.groupKind == groupKind && k.namespace == ns && k.condition in counts then counts[k.condition] else GaugeAt(gauges0, k)
  {
    gauges := gauges0;
    var rest := counts.Keys;
    while rest != {}
      invariant rest <= counts.Keys && Positive(gauges)
      invariant forall k :: GaugeAt(gauges, k) ==
                  if k.groupKind == groupKind && k.namespace == ns && k.condition in counts && k.condition !in rest
                  then counts[k.condition] else GaugeAt(gauges0, k)
      decreases rest
    {
      var c :| c in rest;
      gauges := gauges[GaugeKey(ns, groupKind, c) := counts[c]];
      rest := rest - {c};
    }
  }

  method Record(gauges0: Gauges, groupKind: string, objects: seq<Object>) returns (gauges: Gauges)
    requires Positive(gauges0)
    ensures Positive(gauges)
    ensures forall k :: GaugeAt(gauges, k) == GaugeWith(gauges0, groupKind, objects, k)
  {
    var stats := Aggregate(objects);
    gauges := gauges0;
    var rest := stats.Keys;
    while rest != {}
      invariant rest <= stats.Keys && Positive(gauges)
      invariant forall k :: GaugeAt(gauges, k) ==
                  if k.groupKind == groupKind && k.namespace in stats && k.namespace !in rest && k.condition in stats[k.namespace]
                  then stats[k.namespace][k.condition] else GaugeAt(gauges0, k)
      decreases rest
    {
      var ns :| ns in rest;
      gauges := RecordNamespace(gauges, groupKind, ns, stats[ns]);
      rest := rest - {ns};
    }
    forall k ensures GaugeAt(gauges, k) == GaugeWith(gauges0, groupKind, objects, k) {
      assert StatAt(stats, k.namespace, k.condition) == Count(objects, k.namespace, k.condition);
    }
  }

  // ---------------------------------------------------------------- one pass

  type Views = map<CrdInfo, ViewId>

  /** How many objects the view of one CRD holds under a gauge, if the walk publishes it at all. */
  ghost function Share(ignored: set<string>, views: Views, synced: map<ViewId, seq<Object>>, c: CrdInfo, key: GaugeKey): nat {
    if Relevant(ignored, c) && c in views && views[c] in synced && Label(c) == key.groupKind
    then Count(synced[views[c]], key.namespace, key.condition) else 0
  }

  /** The gauge after walking `crds`: the last CRD in the walk with that GroupKind and such objects wins. */
  ghost function GaugeAfter(ignored: set<string>, crds: seq<CrdInfo>, views: Views, synced: map<ViewId, seq<Object>>, key: GaugeKey): nat {
    if crds == [] then 0
    else
      var last := Share(ignored, views, synced, crds[|crds| - 1], key);
      if last > 0 then last else GaugeAfter(ignored, crds[..|crds| - 1], views, synced, key)
  }

  lemma {:induction false} GaugeAfterNewView(ignored: set<string>, crds: seq<CrdInfo>, views: Views, synced: map<ViewId, seq<Object>>,
                                             key: GaugeKey, c: CrdInfo, v: ViewId)
    requires c !in crds || !Relevant(ignored, c)
    ensures GaugeAfter(ignored, crds, views[c := v], synced, key) == GaugeAfter(ignored, crds, views, synced, key)
    decreases crds
  {
    if crds != [] {
      GaugeAfterNewView(ignored, crds[..|crds| - 1], views, synced, key, c, v);
    }
  }

  /** Every view ever opened is either the one live entry of its CRD, or closed, exactly once. */
  ghost predicate Accounted(views: Views, opens: nat, closed: seq<ViewId>) {
    && (forall c :: c in views ==> views[c] < opens && views[c] !in closed)
    && (forall c, d :: c in views && d in views && c != d ==> views[c] != views[d])
    && NoDuplicates(closed)
    && (forall v :: v in closed ==> v < opens)
    && (forall v: nat :: v < opens ==> v in closed || exists c :: c in views && views[c] == v)
  }

  /** No view is open, and none was closed twice. */
  ghost predicate AllClosed(opens: nat, closed: seq<ViewId>) {
    NoDuplicates(closed) && forall v: nat :: v in closed <==> v < opens
  }

  lemma OpenKeepsAccount(views: Views, opens: nat, closed: seq<ViewId>, c: CrdInfo)
    requires Accounted(views, opens, closed) && c !in views
    ensures Accounted(views[c := opens], opens + 1, closed)
  {
    var after := views[c := opens];
    forall v: nat | v < opens + 1 && v !in closed ensures exists d :: d in after && after[d] == v {
      if v == opens {
        assert after[c] == v;
      } else {
        var d :| d in views && views[d] == v;
        assert after[d] == v;
      }
    }
  }

  lemma CloseKeepsAccount(views: Views, opens: nat, closed: seq<ViewId>, c: CrdInfo)
    requires Accounted(views, opens, closed) && c in views
    ensures Accounted(views - {c}, opens, closed + [views[c]])
  {
    var after := views - {c};
    forall v: nat | v < opens && v !in closed + [views[c]] ensures exists d :: d in after && after[d] == v {
      assert v !in closed && v != views[c];
      var d :| d in views && views[d] == v;
      assert after[d] == v;
    }
  }

  lemma SeenStep(ignored: set<string>, crds: seq<CrdInfo>, i: nat)
    requires i < |crds|
    ensures Seen(ignored, crds[..i + 1]) == if Relevant(ignored, crds[i]) then Seen(ignored, crds[..i]) + {crds[i]} else Seen(ignored, crds[..i])
    ensures Seen(ignored, crds[..0]) == {}
  {
    assert crds[..i + 1] == crds[..i] + [crds[i]];
  }

  /** One more CRD of the walk, whose watch may have been opened just now. */
  lemma WalkStep(ignored: set<string>, crds: seq<CrdInfo>, i: nat, views: Views, after: Views, synced: map<ViewId, seq<Object>>, k: GaugeKey)
    requires i < |crds| && Seen(ignored, crds[..i]) <= views.Keys
    requires if Relevant(ignored, crds[i]) && crds[i] !in views then crds[i] in after && after == views[crds[i] := after[crds[i]]] else after == views
    ensures GaugeAfter(ignored, crds[..i + 1], after, synced, k) ==
            if Share(ignored, after, synced, crds[i], k) > 0 then Share(ignored, after, synced, crds[i], k)
            else GaugeAfter(ignored, crds[..i], views, synced, k)
  {
    var c, next := crds[i], crds[..i + 1];
    assert next[..|next| - 1] == crds[..i] && next[|next| - 1] == c;
    if Relevant(ignored, c) && c !in views {
      assert c !in Seen(ignored, crds[..i]);
      GaugeAfterNewView(ignored, crds[..i], views, synced, k, c, after[c]);
    }
  }

  /** The live watches and how many were ever opened. */
  datatype Watches = Watches(views: Views, opens: nat)

  /** Walking CRDs opens a watch for each relevant one that has none, numbered in walk order. */
  function Opened(ignored: set<string>, w: Watches, crds: seq<CrdInfo>): Watches {
    if crds == [] then w
    else
      var before, c := Opened(ignored, w, crds[..|crds| - 1]), crds[|crds| - 1];
      if Relevant(ignored, c) && c !in before.views then Watches(before.views[c := before.opens], before.opens + 1) else before
  }

  function AfterPass(ignored: set<string>, w: Watches, found: Findings): Watches {
    if !found.crdsSynced then w
    else
      var o := Opened(ignored, w, found.crds);
      Watches(map c | c in o.views && c in Seen(ignored, found.crds) :: o.views[c], o.opens)
  }

  function AfterPasses(ignored: set<string>, passes: seq<Findings>): Watches {
    if passes == [] then Watches(map[], 0)
    else AfterPass(ignored, AfterPasses(ignored, passes[..|passes| - 1]), passes[|passes| - 1])
  }

  lemma OpenedStep(ignored: set<string>, w: Watches, crds: seq<CrdInfo>, i: nat)
    requires i < |crds|
    ensures Opened(ignored, w, crds[..0]) == w
    ensures var before, c := Opened(ignored, w, crds[..i]), crds[i];
            Opened(ignored, w, crds[..i + 1]) ==
              if Relevant(ignored, c) && c !in before.views then Watches(before.views[c := before.opens], before.opens + 1) else before
  {
    assert crds[..i + 1][..i] == crds[..i];
  }

  lemma WalkStart(ignored: set<string>, crds: seq<CrdInfo>, views: Views, synced: map<ViewId, seq<Object>>)
    ensures Positive(map[]) && Seen(ignored, crds[..0]) == {}
    ensures forall w :: Opened(ignored, w, crds[..0]) == w
    ensures forall k :: GaugeAt(map[], k) == GaugeAfter(ignored, crds[..0], views, synced, k)
  {
  }

  lemma WalkStepAll(ignored: set<string>, crds: seq<CrdInfo>, i: nat, views: Views, after: Views, synced: map<ViewId, seq<Object>>,
                    gauges: Gauges, gauges': Gauges)
    requires i < |crds| && Seen(ignored, crds[..i]) <= views.Keys
    requires if Relevant(ignored, crds[i]) && crds[i] !in views then crds[i] in after && after == views[crds[i] := after[crds[i]]] else after == views
    requires forall k :: GaugeAt(gauges, k) == GaugeAfter(ignored, crds[..i], views, synced, k)
    requires forall k :: GaugeAt(gauges', k) ==
               if Relevant(ignored, crds[i]) && after[crds[i]] in synced
               then GaugeWith(gauges, Label(crds[i]), synced[after[crds[i]]], k) else GaugeAt(gauges, k)
    ensures forall k :: GaugeAt(gauges', k) == GaugeAfter(ignored, crds[..i + 1], after, synced, k)
  {
    forall k ensures GaugeAt(gauges', k) == GaugeAfter(ignored, crds[..i + 1], after, synced, k) {
      WalkStep(ignored, crds, i, views, after, synced, k);
    }
  }

  class MetricsRecorder {
    const ignored: set<string>
    var statViews: Views
    var opens: nat
    var closed: seq<ViewId>
    var gauges: Gauges

    constructor (ignored: set<string>)
      ensures this.ignored == ignored && statViews == map[] && opens == 0 && closed == [] && gauges == map[]
      ensures Accounted(statViews, opens, closed)
    {
      this.ignored := ignored;
      statViews, opens, closed, gauges := map[], 0, [], map[];
    }

    /** One relevant CRD of the walk: open its watch if missing, publish its counts if synced. */
    method Visit(crd: CrdInfo, synced: map<ViewId, seq<Object>>)
      requires Accounted(statViews, opens, closed) && Positive(gauges)
      modifies this`statViews, this`opens, this`gauges
      ensures Accounted(statViews, opens, closed) && Positive(gauges)
      ensures opens == if crd in old(statViews) then old(opens) else old(opens) + 1
      ensures statViews == if crd in old(statViews) then old(statViews) else old(statViews)[crd := old(opens)]
      ensures forall k :: GaugeAt(gauges, k) ==
                if statViews[crd] in synced then GaugeWith(old(gauges), Label(crd), synced[statViews[crd]], k) else GaugeAt(old(gauges), k)
    {
      hide Accounted, Positive, Count, GaugeWith;
      if crd !in statViews {
        OpenKeepsAccount(statViews, opens, closed, crd);
        statViews := statViews[crd := opens];
        opens := opens + 1;
      }
      if statViews[crd] in synced {
        gauges := Record(gauges, Label(crd), synced[statViews[crd]]);
      }
    }

    /** The walk over the CRDs: note them, open missing watches, publish what has synced. */
    method WalkCrds(crds: seq<CrdInfo>, synced: map<ViewId, seq<Object>>) returns (seen: set<CrdInfo>)
      requires Accounted(statViews, opens, closed) && gauges == map[]
      modifies this`statViews, this`opens, this`gauges
      ensures Accounted(statViews, opens, closed)
      ensures Watches(statViews, opens) == Opened(ignored, Watches(old(statViews), old(opens)), crds)
      ensures seen == Seen(ignored, crds)
      ensures statViews.Keys == old(statViews).Keys + seen
      ensures forall c :: c in old(statViews) ==> statViews[c] == old(statViews)[c]
      ensures Positive(gauges)
      ensures forall k :: GaugeAt(gauges, k) == GaugeAfter(ignored, crds, statViews, synced, k)
    {
      hide Accounted, Positive, Relevant, Count, GaugeWith, GaugeAt, GaugeAfter, Seen, Opened;
      seen := {};
      WalkStart(ignored, crds, statViews, synced);
      for i := 0 to |crds|
        invariant Accounted(statViews, opens, closed)
        invariant Watches(statViews, opens) == Opened(ignored, Watches(old(statViews), old(opens)), crds[..i])
        invariant seen == Seen(ignored, crds[..i])
        invariant statViews.Keys == old(statViews).Keys + seen
        invariant forall c :: c in old(statViews) ==> statViews[c] == old(statViews)[c]
        invariant Positive(gauges)
        invariant forall k :: GaugeAt(gauges, k) == GaugeAfter(ignored, crds[..i], statViews, synced, k)
      {
        var crd := crds[i];
        SeenStep(ignored, crds, i);
        OpenedStep(ignored, Watches(old(statViews), old(opens)), crds, i);
        ghost var views, gauges0 := statViews, gauges;
        if Relevant(ignored, crd) {
          seen := seen + {crd};
          Visit(crd, synced);
        }
        WalkStepAll(ignored, crds, i, views, statViews, synced, gauges0, gauges);
      }
      assert crds[..|crds|] == crds;
    }

    /** Close every watch whose CRD was not seen. */
    method CloseStale(seen: set<CrdInfo>)
      requires Accounted(statViews, opens, closed)
      modifies this`statViews, this`closed
      ensures Accounted(statViews, opens, closed)
      ensures statViews.Keys == old(statViews).Keys * seen
      ensures forall c :: c in statViews ==> statViews[c] == old(statViews)[c]
      ensures old(closed) <= closed
    {
      hide Accounted;
      var rest := statViews.Keys;
      while rest != {}
        invariant rest <= statViews.Keys && Accounted(statViews, opens, closed) && old(closed) <= closed
        invariant statViews.Keys == old(statViews).Keys * (seen + rest)
        invariant forall c :: c in statViews ==> statViews[c] == old(statViews)[c]
        decreases rest
      {
        var crd :| crd in rest;
        if crd !in seen {
          CloseKeepsAccount(statViews, opens, closed, crd);
          closed := closed + [statViews[crd]];
          statViews := statViews - {crd};
        }
        rest := rest - {crd};
      }
    }

    method Pass(found: Findings)
      requires Accounted(statViews, opens, closed)
      modifies this
      ensures Accounted(statViews, opens, closed)
      ensures Watches(statViews, opens) == AfterPass(ignored, Watches(old(statViews), old(opens)), found)
      ensures old(closed) <= closed
      // an unsynced CRD watch publishes nothing and touches no view
      ensures !found.crdsSynced ==> gauges == map[] && statViews == old(statViews) && opens == old(opens) && closed == old(closed)
      // after a full pass the live watches are those of the CRDs seen, and watches are not reopened
      ensures found.crdsSynced ==> statViews.Keys == set c | c in found.crds && Watched(ignored, c)
      ensures forall c :: c in statViews && c in old(statViews) ==> statViews[c] == old(statViews)[c]
      ensures Positive(gauges)
      ensures found.crdsSynced ==>
                forall k :: GaugeAt(gauges, k) == GaugeAfter(ignored, found.crds, statViews, found.synced, k)
    {
      hide Accounted, GaugeAfter, GaugeAt, Opened, Relevant, Watched;
      gauges := map[];
      if !found.crdsSynced {
        return;
      }
      SeenAreWatched(ignored, found.crds);
      var seen := WalkCrds(found.crds, found.synced);
      ghost var all := statViews;
      CloseStale(seen);
      assert statViews == map c | c in all && c in Seen(ignored, found.crds) :: all[c];
      forall k ensures GaugeAfter(ignored, found.crds, all, found.synced, k) == GaugeAfter(ignored, found.crds, statViews, found.synced, k) {
        GaugeAfterLiveOnly(ignored, found.crds, all, statViews, found.synced, k);
      }
    }

    /** The whole loop: some passes, then cancellation. */
    method Run(passes: seq<Findings>)
      requires statViews == map[] && opens == 0 && closed == []
      modifies this
      ensures Watches(statViews, opens) == AfterPasses(ignored, passes)
      ensures AllClosed(opens, closed)
    {
      var i := 0;
      while i < |passes|
        invariant 0 <= i <= |passes| && Accounted(statViews, opens, closed)
        invariant Watches(statViews, opens) == AfterPasses(ignored, passes[..i])
      {
        assert passes[..i + 1][..i] == passes[..i];
        Pass(passes[i]);
        i := i + 1;
      }
      assert passes[..|passes|] == passes;
      CloseAll();
    }

    /** Leaving the loop closes what is live; `statViews` itself is left as it is. */
    method CloseAll()
      requires Accounted(statViews, opens, closed)
      modifies this`closed
      ensures AllClosed(opens, closed)
    {
      var rest := statViews;
      while rest != map[]
        invariant Accounted(rest, opens, closed)
        decreases rest.Keys
      {
        var crd :| crd in rest;
        CloseKeepsAccount(rest, opens, closed, crd);
        closed := closed + [rest[crd]];
        rest := rest - {crd};
      }
    }

    /** The counts `GetMetrics` reports, per live view. */
    method GetMetrics(contents: map<ViewId, seq<Object>>) returns (reports: map<CrdInfo, Stats>)
      requires forall c :: c in statViews ==> statViews[c] in contents
      ensures reports.Keys == statViews.Keys
      ensures forall c :: c in reports ==> Tallies(reports[c], contents[statViews[c]])
    {
      reports := map[];
      var rest := statViews.Keys;
      while rest != {}
        invariant rest <= statViews.Keys && reports.Keys == statViews.Keys - rest
        invariant forall c :: c in reports ==> Tallies(reports[c], contents[statViews[c]])
        decreases rest
      {
        var crd :| crd in rest;
        var stats := Aggregate(contents[statViews[crd]]);
        reports := reports[crd := stats];
        rest := rest - {crd};
      }
    }
  }

  lemma {:induction false} GaugeAfterLiveOnly(ignored: set<string>, crds: seq<CrdInfo>, all: Views, live: Views,
                                              synced: map<ViewId, seq<Object>>, key: GaugeKey)
    requires forall c :: c in crds && Relevant(ignored, c) ==> c in all && c in live && all[c] == live[c]
    ensures GaugeAfter(ignored, crds, all, synced, key) == GaugeAfter(ignored, crds, live, synced, key)
    decreases crds
  {
    if crds != [] {
      GaugeAfterLiveOnly(ignored, crds[..|crds| - 1], all, live, synced, key);
    }
  }

  // ---------------------------------------------------------------- when gauges are plain counts

  /** The gauge each object of a synced view falls under. */
  ghost function ObjectKeys(groupKind: string, objects: seq<Object>): seq<GaugeKey> {
    seq(|objects|, i requires 0 <= i < |objects| => GaugeKey(objects[i].namespace, groupKind, objects[i].condition))
  }

  /** All objects of all synced views of the walk, by gauge. */
  ghost function AllKeys(ignored: set<string>, crds: seq<CrdInfo>, views: Views, synced: map<ViewId, seq<Object>>): seq<GaugeKey> {
    if crds == [] then []
    else
      var c := crds[|crds| - 1];
      AllKeys(ignored, crds[..|crds| - 1], views, synced) +
      if Relevant(ignored, c) && c in views && views[c] in synced then ObjectKeys(Label(c), synced[views[c]]) else []
  }

  lemma {:induction false} ObjectKeysCount(groupKind: string, objects: seq<Object>, key: GaugeKey)
    ensures multiset(ObjectKeys(groupKind, objects))[key] ==
            if key.groupKind == groupKind then Count(objects, key.namespace, key.condition) else 0
  {
    if objects != [] {
      var n := |objects| - 1;
      ObjectKeysCount(groupKind, objects[..n], key);
      assert objects == objects[..n] + [objects[n]];
      assert ObjectKeys(groupKind, objects) ==
             ObjectKeys(groupKind, objects[..n]) + [GaugeKey(objects[n].namespace, groupKind, objects[n].condition)];
    } else {
      assert ObjectKeys(groupKind, objects) == [];
    }
  }

  /** One CRD adds its share to the number of objects under each gauge. */
  lemma ShareCounts(ignored: set<string>, crds: seq<CrdInfo>, views: Views, synced: map<ViewId, seq<Object>>, key: GaugeKey)
    requires crds != []
    ensures var n := |crds| - 1;
            multiset(AllKeys(ignored, crds, views, synced))[key] ==
            multiset(AllKeys(ignored, crds[..n], views, synced))[key] + Share(ignored, views, synced, crds[n], key)
  {
    var n := |crds| - 1;
    var c := crds[n];
    if Relevant(ignored, c) && c in views && views[c] in synced {
      ObjectKeysCount(Label(c), synced[views[c]], key);
    }
  }

  /** The shares of a gauge along the walk. */
  ghost function Shares(ignored: set<string>, crds: seq<CrdInfo>, views: Views, synced: map<ViewId, seq<Object>>, key: GaugeKey): seq<nat> {
    seq(|crds|, i requires 0 <= i < |crds| => Share(ignored, views, synced, crds[i], key))
  }

  ghost predicate OnePositive(s: seq<nat>) { exists i :: 0 <= i < |s| && s[i] > 0 }
  ghost predicate TwoPositive(s: seq<nat>) { exists i, j :: 0 <= i < j < |s| && s[i] > 0 && s[j] > 0 }

  /** Two positions of the walk hold objects under the same gauge. */
  ghost predicate SharedAt(ignored: set<string>, crds: seq<CrdInfo>, views: Views, synced: map<ViewId, seq<Object>>, key: GaugeKey) {
    TwoPositive(Shares(ignored, crds, views, synced, key))
  }

  lemma PositiveStep(s: seq<nat>, x: nat)
    ensures OnePositive(s + [x]) <==> OnePositive(s) || x > 0
    ensures TwoPositive(s + [x]) <==> TwoPositive(s) || (OnePositive(s) && x > 0)
  {
    var t := s + [x];
    if OnePositive(s) {
      var i :| 0 <= i < |s| && s[i] > 0;
      assert t[i] > 0 && t[|s|] == x;
    }
    if TwoPositive(s) {
      var i, j :| 0 <= i < j < |s| && s[i] > 0 && s[j] > 0;
      assert t[i] > 0 && t[j] > 0;
    }
    assert t[|s|] == x;
  }

  ghost function LastPositive(s: seq<nat>): nat {
    if s == [] then 0 else if s[|s| - 1] > 0 then s[|s| - 1] else LastPositive(s[..|s| - 1])
  }

  ghost function Sum(s: seq<nat>): nat {
    if s == [] then 0 else Sum(s[..|s| - 1]) + s[|s| - 1]
  }

  lemma {:induction false} LastPositiveIsSumIff(s: seq<nat>)
    ensures LastPositive(s) <= Sum(s)
    ensures LastPositive(s) == Sum(s) <==> !TwoPositive(s)
    ensures Sum(s) > 0 <==> OnePositive(s)
    ensures LastPositive(s) > 0 <==> OnePositive(s)
  {
    if s != [] {
      var n := |s| - 1;
      LastPositiveIsSumIff(s[..n]);
      assert s == s[..n] + [s[n]];
      PositiveStep(s[..n], s[n]);
      hide OnePositive, TwoPositive;
    }
  }

  lemma SharesStep(ignored: set<string>, crds: seq<CrdInfo>, views: Views, synced: map<ViewId, seq<Object>>, key: GaugeKey)
    requires crds != []
    ensures var n, shares := |crds| - 1, Shares(ignored, crds, views, synced, key);
            |shares| == |crds| && shares[n] == Share(ignored, views, synced, crds[n], key) &&
            shares[..n] == Shares(ignored, crds[..n], views, synced, key)
  {
  }

  lemma {:induction false} GaugeAndCountFromShares(ignored: set<string>, crds: seq<CrdInfo>, views: Views, synced: map<ViewId, seq<Object>>, key: GaugeKey)
    ensures GaugeAfter(ignored, crds, views, synced, key) == LastPositive(Shares(ignored, crds, views, synced, key))
    ensures multiset(AllKeys(ignored, crds, views, synced))[key] == Sum(Shares(ignored, crds, views, synced, key))
    decreases crds
  {
    if crds != [] {
      GaugeAndCountFromShares(ignored, crds[..|crds| - 1], views, synced, key);
      ShareCounts(ignored, crds, views, synced, key);
      SharesStep(ignored, crds, views, synced, key);
      hide Share, AllKeys, Shares;
    }
  }

  /** A gauge never exceeds the number of objects under it, and equals it exactly when they all lie in
      one view of the walk. */
  lemma GaugeIsCountIff(ignored: set<string>, crds: seq<CrdInfo>, views: Views, synced: map<ViewId, seq<Object>>, key: GaugeKey)
    ensures GaugeAfter(ignored, crds, views, synced, key) <= multiset(AllKeys(ignored, crds, views, synced))[key]
    ensures GaugeAfter(ignored, crds, views, synced, key) == multiset(AllKeys(ignored, crds, views, synced))[key] <==>
              !SharedAt(ignored, crds, views, synced, key)
  {
    GaugeAndCountFromShares(ignored, crds, views, synced, key);
    LastPositiveIsSumIff(Shares(ignored, crds, views, synced, key));
  }

  // ---------------------------------------------------------------- totals

  ghost function Total(gauges: Gauges): nat {
    if gauges == map[] then 0 else var k :| k in gauges; gauges[k] + Total(gauges - {k})
  }

  lemma {:induction false} TotalWithout(gauges: Gauges, k: GaugeKey)
    requires k in gauges
    ensures Total(gauges) == gauges[k] + Total(gauges - {k})
    decreases |gauges|
  {
    var j :| j in gauges && Total(gauges) == gauges[j] + Total(gauges - {j});
    if j != k {
      TotalWithout(gauges - {j}, k);
      TotalWithout(gauges - {k}, j);
      assert gauges - {j} - {k} == gauges - {k} - {j};
    }
  }

  /** Gauges that hold the multiplicities of a list sum to its length. */
  lemma {:induction false} TotalOfCounts(gauges: Gauges, keys: seq<GaugeKey>)
    requires Positive(gauges) && forall k :: GaugeAt(gauges, k) == multiset(keys)[k]
    ensures Total(gauges) == |keys|
    decreases |keys|
  {
    if keys == [] {
      forall k ensures k !in gauges {
        assert GaugeAt(gauges, k) == multiset(keys)[k];
      }
    } else {
      var n := |keys| - 1;
      var last := keys[n];
      assert keys == keys[..n] + [last];
      assert forall k :: multiset(keys)[k] == multiset(keys[..n])[k] + if k == last then 1 else 0;
      assert GaugeAt(gauges, last) == multiset(keys)[last];
      TotalWithout(gauges, last);
      if gauges[last] == 1 {
        var fewer := gauges - {last};
        assert forall k :: GaugeAt(fewer, k) == GaugeAt(gauges, k) - if k == last then 1 else 0;
        TotalOfCounts(fewer, keys[..n]);
      } else {
        var fewer := gauges[last := gauges[last] - 1];
        assert forall k :: GaugeAt(fewer, k) == GaugeAt(gauges, k) - if k == last then 1 else 0;
        TotalOfCounts(fewer, keys[..n]);
        TotalWithout(fewer, last);
        assert fewer - {last} == gauges - {last};
      }
    }
  }

  ghost function CountsOf(keys: seq<GaugeKey>): Gauges {
    map k | k in keys :: multiset(keys)[k]
  }

  lemma CountsOfExact(keys: seq<GaugeKey>)
    ensures Positive(CountsOf(keys)) && forall k :: GaugeAt(CountsOf(keys), k) == multiset(keys)[k]
    ensures Total(CountsOf(keys)) == |keys|
  {
    forall k ensures GaugeAt(CountsOf(keys), k) == multiset(keys)[k] {
      assert k in keys <==> k in multiset(keys);
    }
    TotalOfCounts(CountsOf(keys), keys);
  }

  lemma TotalSplit(gauges: Gauges, k: GaugeKey)
    ensures Total(gauges) == GaugeAt(gauges, k) + Total(gauges - {k})
  {
    if k in gauges {
      TotalWithout(gauges, k);
    } else {
      assert gauges - {k} == gauges;
    }
  }

  /** Gauges that are nowhere larger have no larger total, and the same total only if they are the same. */
  lemma {:induction false} TotalMonotone(a: Gauges, b: Gauges)
    requires Positive(a) && Positive(b) && forall k :: GaugeAt(a, k) <= GaugeAt(b, k)
    ensures Total(a) <= Total(b)
    ensures Total(a) == Total(b) <==> forall k :: GaugeAt(a, k) == GaugeAt(b, k)
    decreases |b|
  {
    if b == map[] {
      forall k ensures k !in a {
        assert GaugeAt(a, k) <= GaugeAt(b, k);
      }
    } else {
      var k :| k in b;
      var a', b' := a - {k}, b - {k};
      TotalSplit(a, k);
      TotalSplit(b, k);
      assert forall j :: GaugeAt(a', j) == (if j == k then 0 else GaugeAt(a, j)) && GaugeAt(b', j) == (if j == k then 0 else GaugeAt(b, j));
      TotalMonotone(a', b');
      if Total(a) == Total(b) {
        forall j ensures GaugeAt(a, j) == GaugeAt(b, j) {
          assert GaugeAt(a', j) == GaugeAt(b', j);
        }
      }
      if forall j :: GaugeAt(a, j) == GaugeAt(b, j) {
        forall j ensures GaugeAt(a', j) == GaugeAt(b', j) {
          assert GaugeAt(a, j) == GaugeAt(b, j);
        }
      }
    }
  }

  ghost predicate Publishes(ignored: set<string>, views: Views, synced: map<ViewId, seq<Object>>, c: CrdInfo) {
    Relevant(ignored, c) && c in views && views[c] in synced
  }

  /** Two published CRDs of one GroupKind hold objects with the same namespace and condition. */
  ghost predicate Overlap(ignored: set<string>, views: Views, synced: map<ViewId, seq<Object>>, c: CrdInfo, d: CrdInfo) {
    && Publishes(ignored, views, synced, c) && Publishes(ignored, views, synced, d) && Label(c) == Label(d)
    && exists o :: o in synced[views[c]] && o in synced[views[d]]
  }

  ghost predicate NothingShared(ignored: set<string>, crds: seq<CrdInfo>, views: Views, synced: map<ViewId, seq<Object>>) {
    forall i, j :: 0 <= i < j < |crds| ==> !Overlap(ignored, views, synced, crds[i], crds[j])
  }

  lemma ShareHolds(ignored: set<string>, views: Views, synced: map<ViewId, seq<Object>>, c: CrdInfo, key: GaugeKey)
    ensures Share(ignored, views, synced, c, key) > 0 <==>
              && Publishes(ignored, views, synced, c) && Label(c) == key.groupKind
              && Object(key.namespace, key.condition) in synced[views[c]]
  {
    if Publishes(ignored, views, synced, c) {
      var o := Object(key.namespace, key.condition);
      assert o in synced[views[c]] <==> o in multiset(synced[views[c]]);
    }
  }

  lemma OverlapIsShared(ignored: set<string>, crds: seq<CrdInfo>, views: Views, synced: map<ViewId, seq<Object>>)
    ensures NothingShared(ignored, crds, views, synced) <==> forall key :: !SharedAt(ignored, crds, views, synced, key)
  {
    hide Share, Relevant, Label;
    forall key | SharedAt(ignored, crds, views, synced, key) ensures !NothingShared(ignored, crds, views, synced) {
      var shares := Shares(ignored, crds, views, synced, key);
      var i, j :| 0 <= i < j < |shares| && shares[i] > 0 && shares[j] > 0;
      ShareHolds(ignored, views, synced, crds[i], key);
      ShareHolds(ignored, views, synced, crds[j], key);
      assert Overlap(ignored, views, synced, crds[i], crds[j]);
    }
    if !NothingShared(ignored, crds, views, synced) {
      var i, j :| 0 <= i < j < |crds| && Overlap(ignored, views, synced, crds[i], crds[j]);
      var o :| o in synced[views[crds[i]]] && o in synced[views[crds[j]]];
      var key := GaugeKey(o.namespace, Label(crds[i]), o.condition);
      ShareHolds(ignored, views, synced, crds[i], key);
      ShareHolds(ignored, views, synced, crds[j], key);
      var shares := Shares(ignored, crds, views, synced, key);
      assert shares[i] > 0 && shares[j] > 0;
      assert SharedAt(ignored, crds, views, synced, key);
    }
  }

  ghost predicate PlainCounts(gauges: Gauges, keys: seq<GaugeKey>) {
    forall k :: GaugeAt(gauges, k) == multiset(keys)[k]
  }

  /** After a pass the gauges count every object of every synced view once, equivalently they sum to the
      number of objects, exactly when no namespace and condition is shared within a GroupKind;
      otherwise objects are lost. */
  lemma GaugesCountObjectsIff(ignored: set<string>, crds: seq<CrdInfo>, views: Views, synced: map<ViewId, seq<Object>>, gauges: Gauges)
    requires Positive(gauges) && forall k :: GaugeAt(gauges, k) == GaugeAfter(ignored, crds, views, synced, k)
    ensures var keys := AllKeys(ignored, crds, views, synced);
            && (PlainCounts(gauges, keys) <==> NothingShared(ignored, crds, views, synced))
            && (Total(gauges) == |keys| <==> NothingShared(ignored, crds, views, synced))
            && Total(gauges) <= |keys|
  {
    var keys := AllKeys(ignored, crds, views, synced);
    forall k
      ensures GaugeAt(gauges, k) <= multiset(keys)[k]
      ensures GaugeAt(gauges, k) == multiset(keys)[k] <==> !SharedAt(ignored, crds, views, synced, k)
    {
      GaugeIsCountIff(ignored, crds, views, synced, k);
    }
    OverlapIsShared(ignored, crds, views, synced);
    hide SharedAt, AllKeys, GaugeAfter, NothingShared;
    CountsOfExact(keys);
    TotalMonotone(gauges, CountsOf(keys));
  }

  /** Different CRDs of the walk have different GroupKinds. */
  ghost predicate DistinctLabels(ignored: set<string>, crds: seq<CrdInfo>) {
    forall i, j :: 0 <= i < j < |crds| && Relevant(ignored, crds[i]) && Relevant(ignored, crds[j]) ==> Label(crds[i]) != Label(crds[j])
  }

  /** In particular, GroupKinds that differ never lose an object. */
  lemma DistinctLabelsCountObjects(ignored: set<string>, crds: seq<CrdInfo>, views: Views, synced: map<ViewId, seq<Object>>, gauges: Gauges)
    requires DistinctLabels(ignored, crds) && Positive(gauges)
    requires forall k :: GaugeAt(gauges, k) == GaugeAfter(ignored, crds, views, synced, k)
    ensures PlainCounts(gauges, AllKeys(ignored, crds, views, synced))
    ensures Total(gauges) == |AllKeys(ignored, crds, views, synced)|
  {
    hide AllKeys, GaugeAfter;
    GaugesCountObjectsIff(ignored, crds, views, synced, gauges);
  }

  /** Two CRDs of one GroupKind whose views hold objects in one namespace and condition: one object is lost. */
  lemma SameGroupKindLosesObjects()
    ensures var g := "a.cnrm.cloud.google.com";
            var crds := [CrdInfo(Gvr(g, "v1", "xs"), Gvk(g, "v1", "X")), CrdInfo(Gvr(g, "v1", "xes"), Gvk(g, "v1", "X"))];
            var views, synced := map[crds[0] := 0, crds[1] := 1], map[0 := [Object("ns", "UpToDate")], 1 := [Object("ns", "UpToDate")]];
            var key := GaugeKey("ns", Label(crds[0]), "UpToDate");
            && Relevant({}, crds[0]) && Relevant({}, crds[1]) && crds[0] != crds[1]
            && GaugeAfter({}, crds, views, synced, key) == 1
            && multiset(AllKeys({}, crds, views, synced))[key] == 2
  {
    var g := "a.cnrm.cloud.google.com";
    var crds := [CrdInfo(Gvr(g, "v1", "xs"), Gvk(g, "v1", "X")), CrdInfo(Gvr(g, "v1", "xes"), Gvk(g, "v1", "X"))];
    var views, synced := map[crds[0] := 0, crds[1] := 1], map[0 := [Object("ns", "UpToDate")], 1 := [Object("ns", "UpToDate")]];
    var key := GaugeKey("ns", Label(crds[0]), "UpToDate");
    assert g[1..] == ".cnrm.cloud.google.com";
    assert Relevant({}, crds[0]) && Relevant({}, crds[1]);
    assert Count([Object("ns", "UpToDate")], "ns", "UpToDate") == 1;
    assert Share({}, views, synced, crds[0], key) == 1 && Share({}, views, synced, crds[1], key) == 1;
    assert crds[..1] == [crds[0]] && crds[..1][..0] == [];
    hide Share, Relevant, Label;
    ShareCounts({}, crds, views, synced, key);
    ShareCounts({}, crds[..1], views, synced, key);
    assert AllKeys({}, crds[..1][..0], views, synced) == [];
  }

  /** Where nothing is shared, each gauge is the count `GetMetrics` reports for that CRD, when both look
      at the same contents. */
  lemma GaugeMatchesReport(ignored: set<string>, crds: seq<CrdInfo>, views: Views, synced: map<ViewId, seq<Object>>, gauges: Gauges,
                           i: nat, report: Stats, ns: string, condition: string)
    requires forall k :: GaugeAt(gauges, k) == GaugeAfter(ignored, crds, views, synced, k)
    requires i < |crds| && Relevant(ignored, crds[i]) && crds[i] in views && views[crds[i]] in synced
    requires Tallies(report, synced[views[crds[i]]])
    requires forall j :: 0 <= j < |crds| && j != i ==> Share(ignored, views, synced, crds[j], GaugeKey(ns, Label(crds[i]), condition)) == 0
    ensures GaugeAt(gauges, GaugeKey(ns, Label(crds[i]), condition)) == StatAt(report, ns, condition)
  {
    OnlyShare(ignored, crds, views, synced, GaugeKey(ns, Label(crds[i]), condition), i);
  }

  lemma {:induction false} OnlyShare(ignored: set<string>, crds: seq<CrdInfo>, views: Views, synced: map<ViewId, seq<Object>>, key: GaugeKey, i: nat)
    requires i < |crds| && forall j :: 0 <= j < |crds| && j != i ==> Share(ignored, views, synced, crds[j], key) == 0
    ensures GaugeAfter(ignored, crds, views, synced, key) == Share(ignored, views, synced, crds[i], key)
    decreases crds
  {
    hide Share;
    var n := |crds| - 1;
    assert crds[|crds| - 1] == crds[n];
    if i < n {
      OnlyShare(ignored, crds[..n], views, synced, key, i);
    } else {
      NoShare(ignored, crds[..n], views, synced, key);
    }
  }

  lemma {:induction false} NoShare(ignored: set<string>, crds: seq<CrdInfo>, views: Views, synced: map<ViewId, seq<Object>>, key: GaugeKey)
    requires forall j :: 0 <= j < |crds| ==> Share(ignored, views, synced, crds[j], key) == 0
    ensures GaugeAfter(ignored, crds, views, synced, key) == 0
    decreases crds
  {
    if crds != [] {
      NoShare(ignored, crds[..|crds| - 1], views, synced, key);
    }
  }
}
