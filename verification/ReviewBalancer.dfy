/** dev/tasks/balance_reviews.py: auditing review workloads and assigning reviewers under a hard cap. */
module ReviewBalancer {
  import opened Ordering

  /** GitHub logins, which are never empty. */
  type Login = s: string | s != "" witness "a"

  datatype PullRequest = PullRequest(number: int, title: string, labels: seq<string>, reviewers: seq<Login>, issues: seq<int>)
  datatype Reason = Affinity | Underloaded | Absorption
  datatype Assignment = Assignment(number: int, title: string, user: Login, reason: Reason)

  type Loads = map<Login, nat>
  type Tracking = map<int, set<Login>>
  /** The two dictionaries that every assignment updates. */
  datatype State = State(loads: Loads, tracking: Tracking)

  const CEILING: nat := 10
  const UNDERLOADED: nat := 5

  // ---------------------------------------------------------------- audit

  function TeamReviewers(pr: PullRequest, team: seq<Login>): seq<Login> {
    TeamOnly(pr.reviewers, team)
  }

  function TeamOnly(reviewers: seq<Login>, team: seq<Login>): seq<Login> {
    if reviewers == [] then [] else (if reviewers[0] in team then [reviewers[0]] else []) + TeamOnly(reviewers[1..], team)
  }

  lemma {:induction false} TeamOnlyExact(reviewers: seq<Login>, team: seq<Login>, r: Login)
    ensures multiset(TeamOnly(reviewers, team))[r] == if r in team then multiset(reviewers)[r] else 0
  {
    if reviewers != [] {
      TeamOnlyExact(reviewers[1..], team, r);
      assert reviewers == [reviewers[0]] + reviewers[1..];
    }
  }

  /** How many review requests name `m`. */
  function ReviewCount(prs: seq<PullRequest>, m: Login): nat {
    if prs == [] then 0 else ReviewCount(prs[..|prs| - 1], m) + multiset(prs[|prs| - 1].reviewers)[m]
  }

  /** `r` of the team already reviews a pull request that mentions `issue`. */
  ghost predicate Reviews(prs: seq<PullRequest>, team: seq<Login>, issue: int, r: Login) {
    r in team && exists i :: 0 <= i < |prs| && issue in prs[i].issues && r in prs[i].reviewers
  }

  predicate IsCandidate(pr: PullRequest, team: seq<Login>) {
    TeamReviewers(pr, team) == [] && "overseer/ready-for-human" in pr.labels && "overseer/stop" !in pr.labels
  }

  function Candidates(prs: seq<PullRequest>, team: seq<Login>): seq<PullRequest> {
    if prs == [] then []
    else Candidates(prs[..|prs| - 1], team) + if IsCandidate(prs[|prs| - 1], team) then [prs[|prs| - 1]] else []
  }

  /** Ready for a human, not stopped, and with nobody of the team asked yet. */
  ghost predicate Waiting(pr: PullRequest, team: seq<Login>) {
    && (exists i :: 0 <= i < |pr.labels| && pr.labels[i] == "overseer/ready-for-human")
    && (forall i :: 0 <= i < |pr.labels| ==> pr.labels[i] != "overseer/stop")
    && (forall r :: r in pr.reviewers ==> r !in team)
  }

  /** `candidates` are the waiting pull requests, at the positions `at`, from front to back. */
  ghost predicate PickedAt(prs: seq<PullRequest>, team: seq<Login>, candidates: seq<PullRequest>, at: seq<nat>) {
    && |at| == |candidates| && (forall i, j :: 0 <= i < j < |at| ==> at[i] < at[j])
    && (forall k :: 0 <= k < |at| ==> at[k] < |prs| && candidates[k] == prs[at[k]])
    && (forall i :: 0 <= i < |prs| ==> (i in at <==> Waiting(prs[i], team)))
  }

  lemma CandidateIffWaiting(pr: PullRequest, team: seq<Login>)
    ensures IsCandidate(pr, team) <==> Waiting(pr, team)
  {
    AssignedExact(pr, team);
    if TeamReviewers(pr, team) != [] {
      assert TeamReviewers(pr, team)[0] in TeamReviewers(pr, team);
    }
  }

  lemma {:induction false} CandidatesPicked(prs: seq<PullRequest>, team: seq<Login>) returns (at: seq<nat>)
    ensures PickedAt(prs, team, Candidates(prs, team), at)
  {
    if prs == [] {
      at := [];
    } else {
      var n := |prs| - 1;
      at := CandidatesPicked(prs[..n], team);
      CandidateIffWaiting(prs[n], team);
      hide IsCandidate, Waiting;
      if IsCandidate(prs[n], team) {
        assert forall i :: i in at + [n] <==> i in at || i == n;
        at := at + [n];
      }
    }
  }

  ghost predicate Audited(prs: seq<PullRequest>, team: seq<Login>, loads: Loads, tracking: Tracking) {
    && loads.Keys == Elems(team)
    && (forall m :: m in loads ==> loads[m] == ReviewCount(prs, m))
    && (forall issue :: issue in tracking ==> tracking[issue] != {})
    && (forall issue, r :: Tracks(tracking, issue, r) <==> Reviews(prs, team, issue, r))
  }

  method CountReviews(reviewers: seq<Login>, loads0: Loads) returns (loads: Loads)
    requires forall r :: r in reviewers ==> r in loads0
    ensures loads.Keys == loads0.Keys
    ensures forall m :: m in loads ==> loads[m] == loads0[m] + multiset(reviewers)[m]
  {
    loads := loads0;
    for i := 0 to |reviewers|
      invariant loads.Keys == loads0.Keys
      invariant forall m :: m in loads ==> loads[m] == loads0[m] + multiset(reviewers[..i])[m]
    {
      assert reviewers[..i + 1] == reviewers[..i] + [reviewers[i]];
      loads := loads[reviewers[i] := loads[reviewers[i]] + 1];
    }
    assert reviewers[..|reviewers|] == reviewers;
  }

  predicate Tracks(tracking: Tracking, issue: int, r: Login) {
    issue in tracking && r in tracking[issue]
  }

  function TrackOne(tracking: Tracking, issue: int, who: set<Login>): Tracking {
    tracking[issue := (if issue in tracking then tracking[issue] else {}) + who]
  }

  /** Adding some reviewers to every issue of a pull request. */
  function Tracked(tracking: Tracking, issues: seq<int>, who: set<Login>): Tracking {
    if issues == [] then tracking
    else TrackOne(Tracked(tracking, issues[..|issues| - 1], who), issues[|issues| - 1], who)
  }

  lemma {:induction false} TrackedExact(tracking: Tracking, issues: seq<int>, who: set<Login>)
    ensures forall i :: i in Tracked(tracking, issues, who) <==> i in tracking || i in issues
    ensures forall i, r :: Tracks(Tracked(tracking, issues, who), i, r) <==> Tracks(tracking, i, r) || (i in issues && r in who)
  {
    if issues != [] {
      TrackedExact(tracking, issues[..|issues| - 1], who);
      assert issues == issues[..|issues| - 1] + [issues[|issues| - 1]];
    }
  }

  method TrackAll(tracking0: Tracking, issues: seq<int>, who: set<Login>) returns (tracking: Tracking)
    ensures tracking == Tracked(tracking0, issues, who)
  {
    tracking := tracking0;
    for i := 0 to |issues|
      invariant tracking == Tracked(tracking0, issues[..i], who)
    {
      assert issues[..i + 1][..i] == issues[..i];
      if issues[i] !in tracking {
        tracking := tracking[issues[i] := {}];
      }
      tracking := tracking[issues[i] := tracking[issues[i]] + who];
    }
    assert issues[..|issues|] == issues;
  }

  method AuditWorkloads(prs: seq<PullRequest>, team: seq<Login>)
    returns (loads: Loads, tracking: Tracking, candidates: seq<PullRequest>)
    ensures Audited(prs, team, loads, tracking)
    ensures candidates == Candidates(prs, team)
    ensures exists at :: PickedAt(prs, team, candidates, at)
  {
    ghost var at := CandidatesPicked(prs, team);
    loads := map m | m in team :: 0;
    tracking, candidates := map[], [];
    AuditStart(team, loads);
    assert prs[..0] == [];
    for i := 0 to |prs|
      invariant Audited(prs[..i], team, loads, tracking)
      invariant candidates == Candidates(prs[..i], team)
    {
      hide Audited;
      var pr := prs[i];
      var onTeam := TeamReviewers(pr, team);
      assert prs[..i + 1][..i] == prs[..i];
      AuditLoads(prs[..i], pr, team, loads, tracking);
      ghost var loads0, tracking0 := loads, tracking;
      if onTeam != [] {
        loads := CountReviews(onTeam, loads);
        tracking := TrackAll(tracking, pr.issues, set r | r in onTeam);
      } else if "overseer/ready-for-human" in pr.labels && "overseer/stop" !in pr.labels {
        candidates := candidates + [pr];
      }
      AuditStep(prs, i, team, loads0, tracking0, loads, tracking);
    }
    assert prs[..|prs|] == prs;
  }

  lemma AuditStart(team: seq<Login>, loads: Loads)
    requires loads.Keys == Elems(team) && forall m :: m in loads ==> loads[m] == 0
    ensures Audited([], team, loads, map[])
  {
  }

  lemma AuditLoads(prs: seq<PullRequest>, pr: PullRequest, team: seq<Login>, loads: Loads, tracking: Tracking)
    requires Audited(prs, team, loads, tracking)
    ensures forall r :: r in TeamReviewers(pr, team) ==> r in loads
  {
    AssignedExact(pr, team);
  }

  lemma AssignedExact(pr: PullRequest, team: seq<Login>)
    ensures forall r :: r in TeamReviewers(pr, team) <==> r in team && r in pr.reviewers
    ensures forall r :: r in team ==> multiset(TeamReviewers(pr, team))[r] == multiset(pr.reviewers)[r]
  {
    forall r: Login
      ensures r in TeamReviewers(pr, team) <==> r in team && r in pr.reviewers
      ensures r in team ==> multiset(TeamReviewers(pr, team))[r] == multiset(pr.reviewers)[r]
    {
      TeamOnlyExact(pr.reviewers, team, r);
      assert r in TeamReviewers(pr, team) <==> r in multiset(TeamReviewers(pr, team));
      assert r in pr.reviewers <==> r in multiset(pr.reviewers);
    }
  }

  lemma AuditStep(prs: seq<PullRequest>, i: nat, team: seq<Login>, loads: Loads, tracking: Tracking, loads': Loads, tracking': Tracking)
    requires i < |prs| && Audited(prs[..i], team, loads, tracking)
    requires var onTeam := TeamReviewers(prs[i], team);
             if onTeam != []
             then loads'.Keys == loads.Keys && (forall m :: m in loads' ==> loads'[m] == loads[m] + multiset(onTeam)[m]) &&
                  tracking' == Tracked(tracking, prs[i].issues, set r | r in onTeam)
             else loads' == loads && tracking' == tracking
    ensures Audited(prs[..i + 1], team, loads', tracking')
  {
    AuditLoadsStep(prs, i, team, loads, tracking, loads');
    AuditTrackingStep(prs, i, team, loads, tracking, tracking');
  }

  lemma AuditTrackingStep(prs: seq<PullRequest>, i: nat, team: seq<Login>, loads: Loads, tracking: Tracking, tracking': Tracking)
    requires i < |prs| && Audited(prs[..i], team, loads, tracking)
    requires var onTeam := TeamReviewers(prs[i], team);
             tracking' == if onTeam != [] then Tracked(tracking, prs[i].issues, set r | r in onTeam) else tracking
    ensures forall issue :: issue in tracking' ==> tracking'[issue] != {}
    ensures forall issue, r :: Tracks(tracking', issue, r) <==> Reviews(prs[..i + 1], team, issue, r)
  {
    AssignedExact(prs[i], team);
    ReviewsStep(prs, i, team);
    var onTeam := TeamReviewers(prs[i], team);
    hide TeamReviewers, Reviews, ReviewCount;
    if onTeam != [] {
      TrackedExact(tracking, prs[i].issues, set r | r in onTeam);
      TrackedNonEmpty(tracking, prs[i].issues, (set r | r in onTeam), onTeam[0]);
    }
    hide Tracked, Tracks;
    forall issue, r ensures Tracks(tracking', issue, r) <==> Reviews(prs[..i + 1], team, issue, r) {
      assert onTeam == [] ==> r !in onTeam;
    }
  }

  lemma TrackedNonEmpty(tracking: Tracking, issues: seq<int>, who: set<Login>, w: Login)
    requires w in who && forall i :: i in tracking ==> tracking[i] != {}
    ensures forall i :: i in Tracked(tracking, issues, who) ==> Tracked(tracking, issues, who)[i] != {}
  {
    TrackedExact(tracking, issues, who);
    var after := Tracked(tracking, issues, who);
    hide Tracked;
    forall i | i in after ensures after[i] != {} {
      if i in tracking {
        var r :| r in tracking[i];
        assert Tracks(after, i, r);
      } else {
        assert Tracks(after, i, w);
      }
    }
  }

  lemma AuditLoadsStep(prs: seq<PullRequest>, i: nat, team: seq<Login>, loads: Loads, tracking: Tracking, loads': Loads)
    requires i < |prs| && Audited(prs[..i], team, loads, tracking) && loads'.Keys == loads.Keys
    requires forall m :: m in loads' ==> loads'[m] == loads[m] + multiset(TeamReviewers(prs[i], team))[m]
    ensures forall m :: m in loads' ==> loads'[m] == ReviewCount(prs[..i + 1], m)
  {
    var now, next := prs[..i], prs[..i + 1];
    assert next[..|next| - 1] == now && next[|next| - 1] == prs[i];
    AssignedExact(prs[i], team);
    forall m | m in loads' ensures loads'[m] == ReviewCount(next, m) {
      assert m in Elems(team);
    }
  }

  lemma ReviewsStep(prs: seq<PullRequest>, i: nat, team: seq<Login>)
    requires i < |prs|
    ensures forall issue, r :: Reviews(prs[..i + 1], team, issue, r) <==>
              (Reviews(prs[..i], team, issue, r) || (r in team && issue in prs[i].issues && r in prs[i].reviewers))
  {
    var now, next := prs[..i], prs[..i + 1];
    forall issue, r
      ensures Reviews(next, team, issue, r) <==>
              (Reviews(now, team, issue, r) || (r in team && issue in prs[i].issues && r in prs[i].reviewers))
    {
      if Reviews(now, team, issue, r) {
        var k :| 0 <= k < |now| && issue in now[k].issues && r in now[k].reviewers;
        assert next[k] == now[k];
      }
      assert next[i] == prs[i];
    }
  }

  // ---------------------------------------------------------------- balancing

  /** Ascending `(workload, name)`. */
  predicate Lighter(loads: Loads, a: Login, b: Login)
    requires a in loads && b in loads
  {
    loads[a] < loads[b] || (loads[a] == loads[b] && StrLess(a, b))
  }

  ghost predicate Lightest(loads: Loads, s: set<Login>, u: Login) {
    s <= loads.Keys && u in s &&
    forall v :: v in s && v != u ==> loads[u] < loads[v] || (loads[u] == loads[v] && Alphabetical(u, v))
  }

  method MinByLoad(loads: Loads, s: set<Login>) returns (u: Login)
    requires s != {} && s <= loads.Keys
    ensures Lightest(loads, s, u)
  {
    u :| u in s;
    var rest := s - {u};
    while rest != {}
      invariant rest <= s && u in s - rest && Lightest(loads, s - rest, u)
      decreases rest
    {
      var v :| v in rest;
      var better := Lighter(loads, v, u);
      LighterKeeps(loads, s - rest, u, v);
      assert s - (rest - {v}) == (s - rest) + {v};
      if better {
        u := v;
      }
      rest := rest - {v};
    }
    assert s - {} == s;
  }

  lemma LighterKeeps(loads: Loads, s: set<Login>, u: Login, v: Login)
    requires Lightest(loads, s, u) && v !in s && v in loads
    ensures Lightest(loads, s + {v}, if Lighter(loads, v, u) then v else u)
  {
    hide Alphabetical, StrLess;
    StrLessTotal(u, v);
    StrLessIsAlphabetical(u, v);
    StrLessIsAlphabetical(v, u);
    if Lighter(loads, v, u) {
      forall w | w in s ensures loads[v] < loads[w] || (loads[v] == loads[w] && Alphabetical(v, w)) {
        StrLessIsAlphabetical(u, w);
        StrLessIsAlphabetical(v, w);
        if w != u && StrLess(v, u) && StrLess(u, w) {
          StrLessTransitive(v, u, w);
        }
      }
    }
  }

  predicate Full(team: seq<Login>, loads: Loads)
    requires forall m :: m in team ==> m in loads
  {
    forall m :: m in team ==> loads[m] >= CEILING
  }

  /** Reviewers tracked on one of the issues who still have room. */
  ghost function AffinityCandidates(st: State, issues: seq<int>): set<Login> {
    set r | r in st.loads && st.loads[r] < CEILING && TrackedOn(st, issues, r)
  }

  /** Someone tracked on one of the issues. */
  ghost predicate TrackedOn(st: State, issues: seq<int>, r: Login) {
    exists i :: i in issues && Tracks(st.tracking, i, r)
  }

  /** The selected reviewer and the reason, without the tiers: affinity if anyone there has room,
      otherwise simply the lightest of the whole team. */
  ghost predicate Selected(team: seq<Login>, st: State, issues: seq<int>, u: Login, reason: Reason) {
    if AffinityCandidates(st, issues) != {}
    then reason == Affinity && Lightest(st.loads, AffinityCandidates(st, issues), u)
    else reason == (if u in st.loads && st.loads[u] < UNDERLOADED then Underloaded else Absorption) &&
         Lightest(st.loads, Elems(team), u)
  }

  function Assign(st: State, issues: seq<int>, u: Login): State
    requires u in st.loads
  {
    State(st.loads[u := st.loads[u] + 1], Tracked(st.tracking, issues, {u}))
  }

  /** Everybody that can be asked about has a workload entry. */
  ghost predicate Known(team: seq<Login>, st: State) {
    && (forall m :: m in team ==> m in st.loads)
    && (forall i, r :: Tracks(st.tracking, i, r) ==> r in st.loads)
  }

  /** One loop iteration that assigns: `history` holds the dictionaries before and after each. */
  ghost predicate Turn(team: seq<Login>, pr: PullRequest, a: Assignment, before: State, after: State) {
    && Known(team, before) && !Full(team, before.loads)
    && a.number == pr.number && a.title == pr.title
    && Selected(team, before, pr.issues, a.user, a.reason)
    && a.user in before.loads && after == Assign(before, pr.issues, a.user)
  }

  ghost predicate Run(team: seq<Login>, prs: seq<PullRequest>, assignments: seq<Assignment>, history: seq<State>) {
    && |history| == |assignments| + 1 && |assignments| <= |prs|
    && (forall k :: 0 <= k < |assignments| ==> Turn(team, prs[k], assignments[k], history[k], history[k + 1]))
    && Known(team, history[|assignments|])
    && (|assignments| == |prs| || Full(team, history[|assignments|].loads))
  }

  /** A lightest member under a threshold that some member is below is the lightest of all. */
  lemma TiersCollapse(team: seq<Login>, loads: Loads, bound: nat, u: Login)
    requires forall m :: m in team ==> m in loads
    requires Lightest(loads, (set m | m in team && loads[m] < bound), u)
    ensures Lightest(loads, Elems(team), u)
  {
  }

  method Select(team: seq<Login>, st: State, issues: seq<int>) returns (u: Login, reason: Reason)
    requires Known(team, st) && !Full(team, st.loads)
    ensures u in st.loads && st.loads[u] < CEILING && Selected(team, st, issues, u, reason)
  {
    var affinity := CollectAffinity(st, issues);
    if affinity != {} {
      u := MinByLoad(st.loads, affinity);
      reason := Affinity;
    } else {
      var underloaded := set m | m in team && st.loads[m] < UNDERLOADED;
      if underloaded != {} {
        u := MinByLoad(st.loads, underloaded);
        reason := Underloaded;
        TiersCollapse(team, st.loads, UNDERLOADED, u);
      } else {
        var absorbers := set m | m in team && st.loads[m] < CEILING;
        assert absorbers != {} by {
          var m :| m in team && st.loads[m] < CEILING;
          assert m in absorbers;
        }
        u := MinByLoad(st.loads, absorbers);
        reason := Absorption;
        assert u !in underloaded;
        TiersCollapse(team, st.loads, CEILING, u);
      }
    }
  }

  method CollectAffinity(st: State, issues: seq<int>) returns (affinity: set<Login>)
    requires forall i, r :: Tracks(st.tracking, i, r) ==> r in st.loads
    ensures affinity == AffinityCandidates(st, issues)
    ensures affinity <= st.loads.Keys && forall r :: r in affinity ==> st.loads[r] < CEILING
  {
    affinity := {};
    for k := 0 to |issues|
      invariant affinity == AffinityCandidates(st, issues[..k])
    {
      AffinityStep(st, issues, k);
      if issues[k] in st.tracking {
        var found := set r | r in st.tracking[issues[k]] && r in st.loads && st.loads[r] < CEILING;
        affinity := affinity + found;
      }
    }
    assert issues[..|issues|] == issues;
  }

  lemma AffinityStep(st: State, issues: seq<int>, k: nat)
    requires k < |issues|
    ensures AffinityCandidates(st, issues[..k + 1]) == AffinityCandidates(st, issues[..k]) +
              if issues[k] in st.tracking
              then (set r | r in st.tracking[issues[k]] && r in st.loads && st.loads[r] < CEILING) else {}
  {
    assert issues[..k + 1] == issues[..k] + [issues[k]];
    forall r ensures TrackedOn(st, issues[..k + 1], r) <==> TrackedOn(st, issues[..k], r) || Tracks(st.tracking, issues[k], r) {
      if TrackedOn(st, issues[..k], r) {
        var i :| i in issues[..k] && Tracks(st.tracking, i, r);
        assert i in issues[..k + 1];
      }
      assert issues[k] in issues[..k + 1];
    }
    hide TrackedOn;
    assert forall r :: r in AffinityCandidates(st, issues[..k + 1]) <==>
             r in AffinityCandidates(st, issues[..k]) || (Tracks(st.tracking, issues[k], r) && r in st.loads && st.loads[r] < CEILING);
  }

  function ByNumber(): (PullRequest, PullRequest) -> bool {
    (a: PullRequest, b: PullRequest) => a.number < b.number
  }

  /** `order` lists the candidates by number, and those with equal numbers as they come. */
  ghost predicate NumberOrder(candidates: seq<PullRequest>, order: seq<nat>) {
    && |order| == |candidates| && (forall i :: 0 <= i < |order| ==> order[i] < |candidates|)
    && forall i, j :: 0 <= i < j < |order| ==>
         || candidates[order[i]].number < candidates[order[j]].number
         || (candidates[order[i]].number == candidates[order[j]].number && order[i] < order[j])
  }

  /** The loop's order over the candidates is that one. */
  lemma CandidatesInNumberOrder(candidates: seq<PullRequest>) returns (order: seq<nat>)
    ensures NumberOrder(candidates, order) && |StableSort(ByNumber(), candidates)| == |candidates|
    ensures forall i :: 0 <= i < |order| ==> StableSort(ByNumber(), candidates)[i] == candidates[order[i]]
  {
    order := StableSortPositions(ByNumber(), candidates);
    assert SortingOrder(ByNumber(), candidates, order);
    forall i, j | 0 <= i < j < |order|
      ensures || candidates[order[i]].number < candidates[order[j]].number
              || (candidates[order[i]].number == candidates[order[j]].number && order[i] < order[j])
    {
      assert !ByNumber()(candidates[order[j]], candidates[order[i]]);
    }
  }

  /** The assignments serve the first candidates of that order. */
  ghost predicate Serves(candidates: seq<PullRequest>, assignments: seq<Assignment>, order: seq<nat>) {
    && NumberOrder(candidates, order) && |assignments| <= |candidates|
    && forall k :: 0 <= k < |assignments| ==>
         assignments[k].number == candidates[order[k]].number && assignments[k].title == candidates[order[k]].title
  }

  lemma KnownAfter(team: seq<Login>, st: State, issues: seq<int>, u: Login)
    requires Known(team, st) && u in st.loads
    ensures Known(team, Assign(st, issues, u))
  {
    TrackedExact(st.tracking, issues, {u});
  }

  /** `assignments` and `after` come out of some run over the candidates in number order. */
  ghost predicate Balanced(team: seq<Login>, candidates: seq<PullRequest>, before: State, assignments: seq<Assignment>, after: State) {
    exists history :: RunFrom(team, StableSort(ByNumber(), candidates), before, assignments, history, after)
  }

  ghost predicate RunFrom(team: seq<Login>, prs: seq<PullRequest>, before: State, assignments: seq<Assignment>, history: seq<State>, after: State) {
    Run(team, prs, assignments, history) && history[0] == before && history[|assignments|] == after
  }

  method BalanceReviews(candidates: seq<PullRequest>, team: seq<Login>, loads0: Loads, tracking0: Tracking)
    returns (assignments: seq<Assignment>, loads: Loads, tracking: Tracking)
    requires Known(team, State(loads0, tracking0))
    ensures Balanced(team, candidates, State(loads0, tracking0), assignments, State(loads, tracking))
    // the first by number are served, as many as there are candidates or free places below 10
    ensures exists order :: Serves(candidates, assignments, order)
    ensures TeamTracked(team, State(loads0, tracking0)) ==>
              var room := Capacity(team, loads0); |assignments| == if |candidates| <= room then |candidates| else room
  {
    hide Selected, Known, Tracked, Full;
    var prs := StableSort(ByNumber(), candidates);
    var st := State(loads0, tracking0);
    assignments := [];
    ghost var history := [st];
    var i := 0;
    while i < |prs|
      invariant 0 <= i <= |prs| && |assignments| == i && |history| == i + 1
      invariant history[0] == State(loads0, tracking0) && history[i] == st && Known(team, st)
      invariant forall k :: 0 <= k < i ==> Turn(team, prs[k], assignments[k], history[k], history[k + 1])
    {
      KnownTeam(team, st);
      if Full(team, st.loads) {
        break;
      }
      var u, reason := Select(team, st, prs[i].issues);
      KnownAfter(team, st, prs[i].issues, u);
      var tracked := TrackAll(st.tracking, prs[i].issues, {u});
      var next := State(st.loads[u := st.loads[u] + 1], tracked);
      var a := Assignment(prs[i].number, prs[i].title, u, reason);
      assert Turn(team, prs[i], a, st, next);
      assignments, history, st := assignments + [a], history + [next], next;
      i := i + 1;
    }
    loads, tracking := st.loads, st.tracking;
    assert RunFrom(team, prs, State(loads0, tracking0), assignments, history, st);
    ghost var order := CandidatesInNumberOrder(candidates);
    RunServes(team, candidates, assignments, history, order);
    if TeamTracked(team, State(loads0, tracking0)) {
      AssignmentsMade(team, prs, assignments, history);
    }
  }

  lemma RunServes(team: seq<Login>, candidates: seq<PullRequest>, assignments: seq<Assignment>, history: seq<State>, order: seq<nat>)
    requires Run(team, StableSort(ByNumber(), candidates), assignments, history) && NumberOrder(candidates, order)
    requires |StableSort(ByNumber(), candidates)| == |candidates|
    requires forall i :: 0 <= i < |order| ==> StableSort(ByNumber(), candidates)[i] == candidates[order[i]]
    ensures Serves(candidates, assignments, order)
  {
    hide StableSort;
    var prs := StableSort(ByNumber(), candidates);
    forall k | 0 <= k < |assignments|
      ensures assignments[k].number == candidates[order[k]].number && assignments[k].title == candidates[order[k]].title
    {
      assert Turn(team, prs[k], assignments[k], history[k], history[k + 1]);
    }
  }

  /** Ties are broken by name, so a turn has one outcome. */
  lemma TurnUnique(team: seq<Login>, pr: PullRequest, a: Assignment, b: Assignment, before: State, s: State, t: State)
    requires Turn(team, pr, a, before, s) && Turn(team, pr, b, before, t)
    ensures a == b && s == t
  {
    StrLessTotal(a.user, b.user);
    if StrLess(a.user, b.user) && StrLess(b.user, a.user) {
      StrLessTransitive(a.user, b.user, a.user);
    }
    StrLessIrreflexive(a.user);
    assert a.user == b.user;
  }

  lemma {:induction false} RunsAgree(team: seq<Login>, prs: seq<PullRequest>, a: seq<Assignment>, h: seq<State>, b: seq<Assignment>, i: seq<State>, k: nat)
    requires Run(team, prs, a, h) && Run(team, prs, b, i) && h[0] == i[0] && k <= |a| && k <= |b|
    ensures a[..k] == b[..k] && h[k] == i[k]
    decreases k
  {
    if k > 0 {
      RunsAgree(team, prs, a, h, b, i, k - 1);
      assert Turn(team, prs[k - 1], a[k - 1], h[k - 1], h[k - 1 + 1]);
      assert Turn(team, prs[k - 1], b[k - 1], i[k - 1], i[k - 1 + 1]);
      TurnUnique(team, prs[k - 1], a[k - 1], b[k - 1], h[k - 1], h[k], i[k]);
      assert a[..k] == a[..k - 1] + [a[k - 1]] && b[..k] == b[..k - 1] + [b[k - 1]];
    }
  }

  lemma TurnHasRoom(team: seq<Login>, prs: seq<PullRequest>, a: seq<Assignment>, h: seq<State>, k: nat)
    requires Run(team, prs, a, h) && k < |a|
    ensures Known(team, h[k]) && !Full(team, h[k].loads)
  {
    assert Turn(team, prs[k], a[k], h[k], h[k + 1]);
  }

  lemma NoTurnPastEnd(team: seq<Login>, prs: seq<PullRequest>, a: seq<Assignment>, h: seq<State>, b: seq<Assignment>, i: seq<State>)
    requires Run(team, prs, a, h) && Run(team, prs, b, i) && h[0] == i[0]
    ensures |b| <= |a|
  {
    if |a| < |b| {
      TurnHasRoom(team, prs, b, i, |a|);
      RunsAgree(team, prs, a, h, b, i, |a|);
    }
  }

  /** The outcome does not depend on the order in which sets are iterated. */
  lemma BalancedUnique(team: seq<Login>, candidates: seq<PullRequest>, before: State, a: seq<Assignment>, s: State, b: seq<Assignment>, t: State)
    requires Balanced(team, candidates, before, a, s) && Balanced(team, candidates, before, b, t)
    ensures a == b && s == t
  {
    var prs := StableSort(ByNumber(), candidates);
    var h :| RunFrom(team, prs, before, a, h, s);
    var i :| RunFrom(team, prs, before, b, i, t);
    NoTurnPastEnd(team, prs, a, h, b, i);
    NoTurnPastEnd(team, prs, b, i, a, h);
    RunsAgree(team, prs, a, h, b, i, |a|);
    assert a[..|a|] == a && b[..|b|] == b;
  }

  lemma KnownTeam(team: seq<Login>, st: State)
    requires Known(team, st)
    ensures forall m :: m in team ==> m in st.loads
  {
  }

  // ---------------------------------------------------------------- what every run does

  /** Only team members are tracked; `AuditWorkloads` guarantees it, and assigning keeps it. */
  ghost predicate TeamTracked(team: seq<Login>, st: State) {
    forall i, r :: Tracks(st.tracking, i, r) ==> r in team
  }

  lemma AuditTracksTeam(prs: seq<PullRequest>, team: seq<Login>, loads: Loads, tracking: Tracking)
    requires Audited(prs, team, loads, tracking)
    ensures Known(team, State(loads, tracking)) && TeamTracked(team, State(loads, tracking))
  {
    forall m | m in team ensures m in loads { assert m in Elems(team); }
    forall i, r | Tracks(tracking, i, r) ensures r in loads && r in team { assert Reviews(prs, team, i, r); assert r in Elems(team); }
  }

  /** A turn picks a team member below the ceiling. */
  lemma TurnPicks(team: seq<Login>, pr: PullRequest, a: Assignment, before: State, after: State)
    requires Turn(team, pr, a, before, after) && TeamTracked(team, before)
    ensures a.user in team && before.loads[a.user] < CEILING
    ensures TeamTracked(team, after)
  {
    TrackedExact(before.tracking, pr.issues, {a.user});
    if AffinityCandidates(before, pr.issues) != {} {
      var i :| i in pr.issues && Tracks(before.tracking, i, a.user);
    } else {
      assert a.user in Elems(team);
      var m :| m in team && before.loads[m] < CEILING;
      assert m in Elems(team);
    }
  }

  /** Room left below 10 reviews. */
  function Room(load: nat): nat { if load < 10 then 10 - load else 0 }

  /** Free places of the team. Here and below a member listed twice counts once. */
  function Capacity(team: seq<Login>, loads: Loads): nat
    requires forall m :: m in team ==> m in loads
  {
    if team == [] then 0 else (if team[0] in team[1..] then 0 else Room(loads[team[0]])) + Capacity(team[1..], loads)
  }

  function TotalLoad(team: seq<Login>, loads: Loads): nat
    requires forall m :: m in team ==> m in loads
  {
    if team == [] then 0 else (if team[0] in team[1..] then 0 else loads[team[0]]) + TotalLoad(team[1..], loads)
  }

  lemma {:induction false} OneMore(team: seq<Login>, loads: Loads, u: Login)
    requires (forall m :: m in team ==> m in loads) && u in loads && loads[u] < CEILING
    ensures var after := loads[u := loads[u] + 1];
            var n := if u in team then 1 else 0;
            Capacity(team, after) == Capacity(team, loads) - n && TotalLoad(team, after) == TotalLoad(team, loads) + n
  {
    if team != [] {
      OneMore(team[1..], loads, u);
      assert u in team <==> u == team[0] || u in team[1..];
    }
  }

  lemma {:induction false} NoRoomIffFull(team: seq<Login>, loads: Loads)
    requires forall m :: m in team ==> m in loads
    ensures Capacity(team, loads) == 0 <==> Full(team, loads)
  {
    if team != [] {
      NoRoomIffFull(team[1..], loads);
      assert team == [team[0]] + team[1..];
    }
  }

  lemma {:induction false} RunConserves(team: seq<Login>, prs: seq<PullRequest>, assignments: seq<Assignment>, history: seq<State>, k: nat)
    requires Run(team, prs, assignments, history) && TeamTracked(team, history[0]) && k <= |assignments|
    ensures Known(team, history[k]) && TeamTracked(team, history[k]) && Known(team, history[0])
    ensures Capacity(team, history[k].loads) + k == Capacity(team, history[0].loads)
    ensures TotalLoad(team, history[k].loads) == TotalLoad(team, history[0].loads) + k
    decreases k
  {
    hide Capacity, TotalLoad, Selected, Tracked, TeamTracked, Full;
    assert k < |assignments| ==> Turn(team, prs[k], assignments[k], history[k], history[k + 1]);
    if k > 0 {
      RunConserves(team, prs, assignments, history, k - 1);
      assert Turn(team, prs[k - 1], assignments[k - 1], history[k - 1], history[k - 1 + 1]);
      var a := assignments[k - 1];
      TurnPicks(team, prs[k - 1], a, history[k - 1], history[k]);
      KnownAfter(team, history[k - 1], prs[k - 1].issues, a.user);
      OneMore(team, history[k - 1].loads, a.user);
    }
  }

  /** Exactly as many assignments as there are candidates and free places, whichever is fewer; they go
      to a prefix of the candidates, and the team's total load rises by their number. */
  lemma AssignmentsMade(team: seq<Login>, prs: seq<PullRequest>, assignments: seq<Assignment>, history: seq<State>)
    requires Run(team, prs, assignments, history) && TeamTracked(team, history[0])
    ensures Known(team, history[0]) && Known(team, history[|assignments|])
    ensures var room := Capacity(team, history[0].loads); |assignments| == if |prs| <= room then |prs| else room
    ensures forall k :: 0 <= k < |assignments| ==> assignments[k].number == prs[k].number && assignments[k].title == prs[k].title
    ensures TotalLoad(team, history[|assignments|].loads) == TotalLoad(team, history[0].loads) + |assignments|
  {
    RunConserves(team, prs, assignments, history, |assignments|);
    NoRoomIffFull(team, history[|assignments|].loads);
    forall k | 0 <= k < |assignments| ensures assignments[k].number == prs[k].number && assignments[k].title == prs[k].title {
      assert Turn(team, prs[k], assignments[k], history[k], history[k + 1]);
    }
  }

  /** Loads only grow, and nobody is pushed past the ceiling. */
  lemma {:induction false} LoadsBetween(team: seq<Login>, prs: seq<PullRequest>, assignments: seq<Assignment>, history: seq<State>, j: nat, k: nat, m: Login)
    requires Run(team, prs, assignments, history) && TeamTracked(team, history[0]) && j <= k <= |assignments| && m in history[j].loads
    ensures m in history[k].loads && history[j].loads[m] <= history[k].loads[m]
    ensures history[k].loads[m] <= if history[j].loads[m] < 10 then 10 else history[j].loads[m]
    decreases k
  {
    if j < k {
      LoadsBetween(team, prs, assignments, history, j, k - 1, m);
      TrackedThroughout(team, prs, assignments, history, k - 1);
      assert Turn(team, prs[k - 1], assignments[k - 1], history[k - 1], history[k - 1 + 1]);
      TurnPicks(team, prs[k - 1], assignments[k - 1], history[k - 1], history[k]);
    }
  }

  lemma {:induction false} TrackedThroughout(team: seq<Login>, prs: seq<PullRequest>, assignments: seq<Assignment>, history: seq<State>, k: nat)
    requires Run(team, prs, assignments, history) && TeamTracked(team, history[0]) && k <= |assignments|
    ensures TeamTracked(team, history[k])
    decreases k
  {
    if k > 0 {
      TrackedThroughout(team, prs, assignments, history, k - 1);
      assert Turn(team, prs[k - 1], assignments[k - 1], history[k - 1], history[k - 1 + 1]);
      TurnPicks(team, prs[k - 1], assignments[k - 1], history[k - 1], history[k]);
    }
  }

  /** An assignment passes over the reviewers tracked on the pull request's issues only if all of them
      are at the ceiling, where they stay; and then it goes to the lightest of the whole team. */
  lemma AffinityRespected(team: seq<Login>, prs: seq<PullRequest>, assignments: seq<Assignment>, history: seq<State>, k: nat, r: Login, later: nat)
    requires Run(team, prs, assignments, history) && TeamTracked(team, history[0]) && k < |assignments| && k <= later <= |assignments|
    ensures assignments[k].user in history[k].loads
    ensures assignments[k].reason == Affinity ==> TrackedOn(history[k], prs[k].issues, assignments[k].user)
    ensures assignments[k].reason != Affinity ==>
              && Lightest(history[k].loads, Elems(team), assignments[k].user)
              && assignments[k].reason == if history[k].loads[assignments[k].user] < 5 then Underloaded else Absorption
    ensures assignments[k].reason != Affinity && TrackedOn(history[k], prs[k].issues, r) ==>
              r in history[later].loads && history[later].loads[r] >= 10
    ensures assignments[k].reason == Affinity && TrackedOn(history[k], prs[k].issues, r) && r != assignments[k].user ==>
              r in history[k].loads &&
              (history[k].loads[r] >= 10 || history[k].loads[assignments[k].user] < history[k].loads[r] ||
               (history[k].loads[assignments[k].user] == history[k].loads[r] && Alphabetical(assignments[k].user, r)))
  {
    var st, pr, a := history[k], prs[k], assignments[k];
    assert Turn(team, prs[k], assignments[k], history[k], history[k + 1]);
    if a.reason == Affinity {
      assert a.user in AffinityCandidates(st, pr.issues);
    }
    if TrackedOn(st, pr.issues, r) {
      var i :| i in pr.issues && Tracks(st.tracking, i, r);
      assert st.loads[r] < CEILING ==> r in AffinityCandidates(st, pr.issues);
      LoadsBetween(team, prs, assignments, history, k, later, r);
    }
  }

  /** No two members are further apart than `gap`. */
  ghost predicate WithinGap(team: seq<Login>, loads: Loads, gap: int) {
    forall a, b :: a in team && b in team ==> a in loads && b in loads && loads[a] - loads[b] <= gap
  }

  /** A run in which affinity never decides does not spread the team further than it was, beyond 1. */
  lemma {:induction false} AffinityFreeKeepsGap(team: seq<Login>, prs: seq<PullRequest>, assignments: seq<Assignment>, history: seq<State>, gap: int, k: nat)
    requires Run(team, prs, assignments, history) && k <= |assignments|
    requires gap >= 1 && WithinGap(team, history[0].loads, gap)
    requires forall i :: 0 <= i < |assignments| ==> assignments[i].reason != Affinity
    ensures WithinGap(team, history[k].loads, gap)
    decreases k
  {
    if k > 0 {
      AffinityFreeKeepsGap(team, prs, assignments, history, gap, k - 1);
      assert Turn(team, prs[k - 1], assignments[k - 1], history[k - 1], history[k - 1 + 1]);
      var u, loads := assignments[k - 1].user, history[k - 1].loads;
      assert Lightest(loads, Elems(team), u);
      forall a, b | a in team && b in team ensures history[k].loads[a] - history[k].loads[b] <= gap {
        assert a in Elems(team) && b in Elems(team);
      }
    }
  }

  /** The assignments among the first `k` that went to `m`. */
  ghost function Given(assignments: seq<Assignment>, m: Login, k: nat): nat
    requires k <= |assignments|
  {
    if k == 0 then 0 else Given(assignments, m, k - 1) + if assignments[k - 1].user == m then 1 else 0
  }

  /** Among the first `k` assignments one gave `r` a pull request that mentions `issue`. */
  ghost predicate GivenIssue(prs: seq<PullRequest>, assignments: seq<Assignment>, issue: int, r: Login, k: nat)
    requires k <= |assignments| <= |prs|
  {
    exists j :: 0 <= j < k && issue in prs[j].issues && assignments[j].user == r
  }

  /** What a run does to the two dictionaries: each load grows by the assignments received, and an issue
      comes to track exactly those given a pull request that mentions it. */
  lemma {:induction false} RunEffects(team: seq<Login>, prs: seq<PullRequest>, assignments: seq<Assignment>, history: seq<State>, k: nat)
    requires Run(team, prs, assignments, history) && k <= |assignments|
    ensures history[k].loads.Keys == history[0].loads.Keys
    ensures forall m :: m in history[k].loads ==> history[k].loads[m] == history[0].loads[m] + Given(assignments, m, k)
    ensures forall issue, r :: Tracks(history[k].tracking, issue, r) <==>
              Tracks(history[0].tracking, issue, r) || GivenIssue(prs, assignments, issue, r, k)
    decreases k
  {
    if k > 0 {
      hide Selected, Known, Full, Tracked, Tracks;
      RunEffects(team, prs, assignments, history, k - 1);
      assert Turn(team, prs[k - 1], assignments[k - 1], history[k - 1], history[k - 1 + 1]);
      TrackedExact(history[k - 1].tracking, prs[k - 1].issues, {assignments[k - 1].user});
      forall issue, r
        ensures GivenIssue(prs, assignments, issue, r, k) <==>
                GivenIssue(prs, assignments, issue, r, k - 1) || (issue in prs[k - 1].issues && assignments[k - 1].user == r)
      {
      }
    }
  }

  // ---------------------------------------------------------------- how even the outcome is

  /** Whoever was given a review ends at most one above everybody else. */
  ghost predicate Levelled(team: seq<Login>, before: Loads, after: Loads) {
    && (forall m :: m in team ==> m in before && m in after && before[m] <= after[m])
    && forall a, b :: a in team && b in team && after[a] != before[a] ==> after[b] >= after[a] - 1
  }

  lemma {:induction false} AffinityFreeLevels(team: seq<Login>, prs: seq<PullRequest>, assignments: seq<Assignment>, history: seq<State>, k: nat)
    requires Run(team, prs, assignments, history) && k <= |assignments| && Known(team, history[0])
    requires forall i :: 0 <= i < |assignments| ==> assignments[i].reason != Affinity
    ensures Levelled(team, history[0].loads, history[k].loads)
    decreases k
  {
    if k > 0 {
      AffinityFreeLevels(team, prs, assignments, history, k - 1);
      assert Turn(team, prs[k - 1], assignments[k - 1], history[k - 1], history[k - 1 + 1]);
      assert Lightest(history[k - 1].loads, Elems(team), assignments[k - 1].user);
      LevelledStep(team, history[0].loads, history[k - 1].loads, assignments[k - 1].user);
    }
  }

  lemma LevelledStep(team: seq<Login>, before: Loads, loads: Loads, u: Login)
    requires Levelled(team, before, loads) && Lightest(loads, Elems(team), u)
    ensures Levelled(team, before, loads[u := loads[u] + 1])
  {
    var after := loads[u := loads[u] + 1];
    forall a, b | a in team && b in team && after[a] != before[a] ensures after[b] >= after[a] - 1 {
      assert a in Elems(team) && b in Elems(team);
      assert b == u || loads[u] <= loads[b];
    }
  }

  /** The reviews the team holds above `t` apiece. */
  function Excess(team: seq<Login>, loads: Loads, t: int): nat
    requires forall m :: m in team ==> m in loads
  {
    if team == [] then 0
    else (if team[0] in team[1..] || loads[team[0]] <= t then 0 else loads[team[0]] - t) + Excess(team[1..], loads, t)
  }

  lemma {:induction false} ExcessPointwise(team: seq<Login>, f: Loads, g: Loads, t: int)
    requires forall m :: m in team ==> m in f && m in g && (f[m] <= t || f[m] <= g[m])
    ensures Excess(team, f, t) <= Excess(team, g, t)
  {
    if team != [] {
      ExcessPointwise(team[1..], f, g, t);
    }
  }

  lemma {:induction false} ExcessOfAll(team: seq<Login>, f: Loads, g: Loads, t: int)
    requires forall m :: m in team ==> m in f && m in g && f[m] >= t
    ensures Excess(team, f, t) - Excess(team, g, t) <= TotalLoad(team, f) - TotalLoad(team, g)
  {
    if team != [] {
      ExcessOfAll(team[1..], f, g, t);
    }
  }

  lemma {:induction false} TotalCompares(team: seq<Login>, f: Loads, g: Loads)
    requires forall m :: m in team ==> m in f && m in g && f[m] <= g[m]
    ensures TotalLoad(team, f) <= TotalLoad(team, g)
    ensures (exists m :: m in team && f[m] < g[m]) ==> TotalLoad(team, f) < TotalLoad(team, g)
  {
    if team != [] {
      TotalCompares(team[1..], f, g);
      assert forall m :: m in team <==> m == team[0] || m in team[1..];
    }
  }

  /** `g` is what some other way of handing out the same number of reviews could have led to. */
  ghost predicate Alternative(team: seq<Login>, before: Loads, n: nat, g: Loads) {
    && (forall m :: m in team ==> m in before && m in g && before[m] <= g[m])
    && TotalLoad(team, g) == TotalLoad(team, before) + n
  }

  lemma LevelledIsMostEven(team: seq<Login>, before: Loads, n: nat, f: Loads, g: Loads, t: int)
    requires Levelled(team, before, f) && Alternative(team, before, n, f) && Alternative(team, before, n, g)
    ensures Excess(team, f, t) <= Excess(team, g, t)
  {
    if a :| a in team && f[a] != before[a] && f[a] > t {
      ExcessOfAll(team, f, g, t);
    } else {
      ExcessPointwise(team, f, g, t);
    }
  }

  /** A run in which affinity never decides is as even as can be: above every threshold the team holds
      no more reviews than after any other way of handing out as many. So no other way has a smaller
      maximum, and none has a larger minimum. */
  lemma AffinityFreeIsMostEven(team: seq<Login>, prs: seq<PullRequest>, assignments: seq<Assignment>, history: seq<State>, g: Loads)
    requires Run(team, prs, assignments, history) && TeamTracked(team, history[0])
    requires forall i :: 0 <= i < |assignments| ==> assignments[i].reason != Affinity
    requires Alternative(team, history[0].loads, |assignments|, g)
    ensures Alternative(team, history[0].loads, |assignments|, history[|assignments|].loads)
    ensures forall t :: Excess(team, history[|assignments|].loads, t) <= Excess(team, g, t)
    ensures forall a :: a in team ==> exists b :: b in team && history[|assignments|].loads[a] <= g[b]
    ensures forall a :: a in team ==> exists b :: b in team && history[|assignments|].loads[a] >= g[b]
  {
    var before, f := history[0].loads, history[|assignments|].loads;
    RunConserves(team, prs, assignments, history, |assignments|);
    AffinityFreeLevels(team, prs, assignments, history, |assignments|);
    assert Alternative(team, before, |assignments|, f);
    hide Run, TeamTracked, Known;
    forall t ensures Excess(team, f, t) <= Excess(team, g, t) {
      LevelledIsMostEven(team, before, |assignments|, f, g, t);
    }
    forall a | a in team ensures (exists b :: b in team && f[a] <= g[b]) && exists b :: b in team && f[a] >= g[b] {
      LevelledExtremes(team, before, |assignments|, f, g, a);
    }
  }

  lemma LevelledExtremes(team: seq<Login>, before: Loads, n: nat, f: Loads, g: Loads, a: Login)
    requires Levelled(team, before, f) && Alternative(team, before, n, f) && Alternative(team, before, n, g) && a in team
    ensures (exists b :: b in team && f[a] <= g[b]) && exists b :: b in team && f[a] >= g[b]
  {
    if forall b :: b in team ==> g[b] < f[a] {
      TotalCompares(team, g, f);
    }
    if forall b :: b in team ==> g[b] > f[a] {
      TotalCompares(team, f, g);
    }
  }
}
