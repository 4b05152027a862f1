/**
 * mockgcp/mockiampolicies.go: optimistic concurrency on IAM policies. The hash is symbolic: an etag is
 * either the digest of a policy or bytes that are the digest of nothing.
 */
module IamPolicies {
  import opened Wrappers

  datatype Etag = Digest(policy: Policy) | OtherBytes(bytes: seq<bv8>)
  datatype Binding = Binding(role: string, members: seq<string>, condition: Option<string>)
  datatype Policy = Policy(version: int, bindings: seq<Binding>, auditConfigs: seq<string>, etag: Option<Etag>)

  type Store = map<string, Policy>

  datatype Body = Unreadable | NoPolicy | WithPolicy(policy: Policy)
  datatype Request = Get(resource: string) | Set(resource: string, body: Body)
  datatype Reply = Ok(policy: Policy) | Conflict | Failed | Panicked

  const EMPTY := Policy(0, [], [], None)

  /** `getIAMPolicy`: a resource without a stored policy reads as the empty one, with its digest. */
  function Current(store: Store, resource: string): Policy {
    if resource in store then store[resource] else EMPTY.(etag := Some(Digest(EMPTY)))
  }

  predicate HasConditions(bindings: seq<Binding>) {
    exists i :: 0 <= i < |bindings| && bindings[i].condition.Some?
  }

  function Versioned(p: Policy): Policy {
    if HasConditions(p.bindings) then p else p.(version := 1)
  }

  /** What a successful set stores: the request, versioned, under the digest of itself with the etag
      the request still carried. */
  function Stamp(p: Policy): Policy {
    Versioned(p).(etag := Some(Digest(Versioned(p))))
  }

  predicate Accepts(store: Store, resource: string, body: Body) {
    body.WithPolicy? && (body.policy.etag == None || body.policy.etag == Current(store, resource).etag)
  }

  function Step(store: Store, r: Request): Store {
    if r.Set? && Accepts(store, r.resource, r.body) then store[r.resource := Stamp(r.body.policy)] else store
  }

  function ReplyTo(store: Store, r: Request): Reply {
    match r
    case Get(resource) => Ok(Current(store, resource))
    case Set(_, Unreadable) => Failed
    case Set(_, NoPolicy) => Panicked
    case Set(resource, WithPolicy(p)) => if Accepts(store, resource, r.body) then Ok(Stamp(p)) else Conflict
  }

  // ---------------------------------------------------------------- the server

  class MockIamPolicies {
    var policies: Store

    constructor ()
      ensures policies == map[]
    {
      policies := map[];
    }

    method GetIamPolicy(resourcePath: string) returns (policy: Policy)
      ensures policy == Current(policies, resourcePath)
      ensures resourcePath in policies ==> policy == policies[resourcePath]
      ensures resourcePath !in policies ==> policy == Policy(0, [], [], Some(Digest(Policy(0, [], [], None))))
    {
      if resourcePath in policies {
        policy := policies[resourcePath];
      } else {
        policy := EMPTY;
        policy := policy.(etag := Some(Digest(policy)));
      }
    }

    method ServeGetIamPolicy(resourcePath: string) returns (reply: Reply)
      ensures reply == ReplyTo(policies, Get(resourcePath))
      ensures reply == Ok(if resourcePath in policies then policies[resourcePath]
                          else Policy(0, [], [], Some(Digest(Policy(0, [], [], None)))))
    {
      var policy := GetIamPolicy(resourcePath);
      reply := Ok(policy);
    }

    method ServeSetIamPolicy(resourcePath: string, body: Body) returns (reply: Reply)
      modifies this
      ensures policies == Step(old(policies), Set(resourcePath, body))
      ensures reply == ReplyTo(old(policies), Set(resourcePath, body))
      // which reply
      ensures reply == Failed <==> body.Unreadable?
      ensures reply == Panicked <==> body.NoPolicy?
      ensures reply == Conflict <==>
                && body.WithPolicy? && body.policy.etag.Some?
                && body.policy.etag != (if resourcePath in old(policies) then old(policies)[resourcePath].etag
                                        else Some(Digest(Policy(0, [], [], None))))
      ensures !reply.Ok? ==> policies == old(policies)
      // what an accepted set stores: the request, with version and etag rewritten and nothing else
      ensures reply.Ok? ==>
                && body.WithPolicy?
                && reply.policy.bindings == body.policy.bindings && reply.policy.auditConfigs == body.policy.auditConfigs
                && reply.policy.version == (if exists i :: 0 <= i < |body.policy.bindings| && body.policy.bindings[i].condition.Some?
                                            then body.policy.version else 1)
                && reply.policy.etag == Some(Digest(reply.policy.(etag := body.policy.etag)))
                && resourcePath in policies && policies[resourcePath] == reply.policy
                && policies - {resourcePath} == old(policies) - {resourcePath}
    {
      if body.Unreadable? {
        return Failed;
      }
      var oldPolicy := GetIamPolicy(resourcePath);
      if body.NoPolicy? {
        return Panicked;
      }
      var policy := body.policy;
      if policy.etag.Some? && policy.etag != oldPolicy.etag {
        return Conflict;
      }
      var hasConditions := false;
      var i := 0;
      while i < |policy.bindings|
        invariant 0 <= i <= |policy.bindings| && !hasConditions
        invariant forall j :: 0 <= j < i ==> policy.bindings[j].condition.None?
      {
        if policy.bindings[i].condition.Some? {
          hasConditions := true;
          break;
        }
        i := i + 1;
      }
      if !hasConditions {
        policy := policy.(version := 1);
      }
      policy := policy.(etag := Some(Digest(policy)));
      policies := policies[resourcePath := policy];
      reply := Ok(policy);
    }
  }

  // ---------------------------------------------------------------- runs

  function After(store: Store, run: seq<Request>): Store
    decreases run
  {
    if run == [] then store else After(Step(store, run[0]), run[1..])
  }

  /** The contents hashed into an etag, oldest first: each digest covers a policy and the etag before it. */
  function Stack(e: Option<Etag>): seq<Policy> {
    if e.Some? && e.value.Digest? then Stack(e.value.policy.etag) + [e.value.policy.(etag := None)] else []
  }

  /** What lies under the stack: nothing, or bytes that are no digest. */
  function Root(e: Option<Etag>): Option<Etag> {
    if e.Some? && e.value.Digest? then Root(e.value.policy.etag) else e
  }

  lemma {:induction false} StackDeterminesEtag(e: Option<Etag>, f: Option<Etag>)
    requires Stack(e) == Stack(f) && Root(e) == Root(f)
    ensures e == f
    decreases e
  {
    if e.Some? && e.value.Digest? {
      var p := e.value.policy;
      assert Stack(f) != [];
      var q := f.value.policy;
      assert Stack(e)[..|Stack(e)| - 1] == Stack(p.etag) && Stack(f)[..|Stack(f)| - 1] == Stack(q.etag);
      assert Stack(e)[|Stack(e)| - 1] == p.(etag := None) && Stack(f)[|Stack(f)| - 1] == q.(etag := None);
      StackDeterminesEtag(p.etag, q.etag);
    }
  }

  /** Stored under the digest of its own content. */
  ghost predicate Stamped(p: Policy) {
    exists q :: p == Stamp(q)
  }

  ghost predicate Consistent(store: Store) {
    forall r :: r in store ==> Stamped(store[r]) && Root(store[r].etag) == None
  }

  /** Every state a server can get into, starting empty. */
  lemma {:induction false} ReachableIsConsistent(store: Store, run: seq<Request>)
    requires Consistent(store)
    ensures Consistent(After(store, run))
    decreases run
  {
    if run != [] {
      var r := run[0];
      if r.Set? && Accepts(store, r.resource, r.body) {
        assert Stamped(Stamp(r.body.policy));
        assert Root(Current(store, r.resource).etag) == None;
      }
      ReachableIsConsistent(Step(store, r), run[1..]);
    }
  }

  /** Whatever was read, its etag names it: equal etags mean equal policies. */
  lemma EtagNamesPolicy(a: Store, b: Store, resource: string)
    requires Consistent(a) && Consistent(b)
    ensures Current(a, resource).etag == Current(b, resource).etag <==> Current(a, resource) == Current(b, resource)
  {
    assert resource in a ==> Stamped(a[resource]);
    assert resource in b ==> Stamped(b[resource]);
    assert !HasConditions(EMPTY.bindings);
  }

  /** A set that carries an etag read in any reachable state succeeds in any reachable state exactly
      when the policy stored there is the one that was read, even if etag-less sets came between. */
  lemma ReadEtagSucceedsIff(before: seq<Request>, later: seq<Request>, resource: string, p: Policy)
    requires p.etag == Current(After(map[], before), resource).etag
    ensures ReplyTo(After(map[], later), Set(resource, WithPolicy(p))).Ok? <==>
            Current(After(map[], later), resource) == Current(After(map[], before), resource)
  {
    ReachableIsConsistent(map[], before);
    ReachableIsConsistent(map[], later);
    EtagNamesPolicy(After(map[], later), After(map[], before), resource);
  }

  // ---------------------------------------------------------------- the hash chain

  predicate IsWrite(store: Store, r: Request, resource: string) {
    r.Set? && r.resource == resource && Accepts(store, resource, r.body)
  }

  /** The sets on `resource` that went through. */
  function Writes(store: Store, run: seq<Request>, resource: string): nat
    decreases run
  {
    if run == [] then 0
    else (if IsWrite(store, run[0], resource) then 1 else 0) + Writes(Step(store, run[0]), run[1..], resource)
  }

  /** What was written since the last accepted set without an etag, that set included; since the start
      of the run if there was none. */
  datatype Recent = Recent(restarted: bool, contents: seq<Policy>)

  function Content(p: Policy): Policy { Versioned(p).(etag := None) }

  function Written(store: Store, run: seq<Request>, resource: string): Recent
    decreases run
  {
    if run == [] then Recent(false, [])
    else
      var r, later := run[0], Written(Step(store, run[0]), run[1..], resource);
      if later.restarted || !IsWrite(store, r, resource) then later
      else Recent(r.body.policy.etag == None, [Content(r.body.policy)] + later.contents)
  }

  lemma {:induction false} WrittenCounts(store: Store, run: seq<Request>, resource: string)
    ensures var w := Written(store, run, resource);
            if w.restarted then 0 < |w.contents| <= Writes(store, run, resource) else |w.contents| == Writes(store, run, resource)
    decreases run
  {
    if run != [] {
      WrittenCounts(Step(store, run[0]), run[1..], resource);
    }
  }

  lemma StampStack(p: Policy)
    ensures Stack(Stamp(p).etag) == Stack(p.etag) + [Content(p)]
    ensures Root(Stamp(p).etag) == Root(p.etag)
  {
    assert Versioned(p).etag == p.etag;
  }

  /** Over any run the stack inside a resource's etag is what it was plus what was written, or only what
      was written from the last etag-less set on. */
  lemma {:induction false} EtagStacksWrites(store: Store, run: seq<Request>, resource: string)
    ensures var w, e, f := Written(store, run, resource), Current(store, resource).etag, Current(After(store, run), resource).etag;
            && Stack(f) == (if w.restarted then [] else Stack(e)) + w.contents
            && Root(f) == (if w.restarted then None else Root(e))
    decreases run
  {
    if run != [] {
      var r := run[0];
      var next := Step(store, r);
      EtagStacksWrites(next, run[1..], resource);
      if IsWrite(store, r, resource) {
        assert Current(next, resource) == Stamp(r.body.policy);
        StampStack(r.body.policy);
      } else {
        assert Current(next, resource) == Current(store, resource);
      }
    }
  }

  lemma {:induction false} NoWriteNoChange(store: Store, run: seq<Request>, resource: string)
    requires Writes(store, run, resource) == 0
    ensures Current(After(store, run), resource) == Current(store, resource)
    decreases run
  {
    if run != [] {
      NoWriteNoChange(Step(store, run[0]), run[1..], resource);
    }
  }

  /** The run restarted the chain with an etag-less set and wrote exactly the stack of the etag again. */
  ghost predicate Rebuilt(store: Store, run: seq<Request>, resource: string) {
    var w := Written(store, run, resource);
    w.restarted && w.contents == Stack(Current(store, resource).etag)
  }

  /** Over any run from a reachable state the etag of a resource is unchanged exactly when nothing was
      written, or an etag-less set and the writes after it rebuilt the same stack of contents. */
  lemma EtagUnchangedIff(store: Store, run: seq<Request>, resource: string)
    requires Consistent(store)
    ensures Current(After(store, run), resource).etag == Current(store, resource).etag <==>
            Writes(store, run, resource) == 0 || Rebuilt(store, run, resource)
  {
    var e, f := Current(store, resource).etag, Current(After(store, run), resource).etag;
    EtagStacksWrites(store, run, resource);
    WrittenCounts(store, run, resource);
    assert Root(e) == None;
    if Writes(store, run, resource) == 0 {
      NoWriteNoChange(store, run, resource);
    } else if Rebuilt(store, run, resource) {
      StackDeterminesEtag(e, f);
    }
  }

  /** So a set with the etag read at the start of any run goes through in exactly those cases. */
  lemma SetAfterRunSucceedsIff(store: Store, run: seq<Request>, resource: string, p: Policy)
    requires Consistent(store) && p.etag == Current(store, resource).etag
    ensures ReplyTo(After(store, run), Set(resource, WithPolicy(p))).Ok? <==>
            Writes(store, run, resource) == 0 || Rebuilt(store, run, resource)
  {
    EtagUnchangedIff(store, run, resource);
    assert resource in store ==> Stamped(store[resource]);
    assert p.etag.Some?;
  }

  // ---------------------------------------------------------------- when all sets carry etags

  /** Every set on `resource` says which policy it wants to replace. */
  ghost predicate AllCarryEtags(run: seq<Request>, resource: string) {
    forall i :: 0 <= i < |run| && run[i].Set? && run[i].resource == resource && run[i].body.WithPolicy? ==>
      run[i].body.policy.etag.Some?
  }

  lemma {:induction false} CarriedNeverRestarts(store: Store, run: seq<Request>, resource: string)
    requires AllCarryEtags(run, resource)
    ensures !Written(store, run, resource).restarted
    decreases run
  {
    if run != [] {
      assert AllCarryEtags(run[1..], resource) by {
        assert forall i :: 0 <= i < |run| - 1 ==> run[1..][i] == run[i + 1];
      }
      CarriedNeverRestarts(Step(store, run[0]), run[1..], resource);
    }
  }

  /** Each write stacks exactly its content on the etag it replaced, so no etag ever comes back. */
  lemma EtagCountsWrites(store: Store, run: seq<Request>, resource: string)
    requires AllCarryEtags(run, resource)
    ensures var w := Written(store, run, resource).contents;
            && |w| == Writes(store, run, resource)
            && Stack(Current(After(store, run), resource).etag) == Stack(Current(store, resource).etag) + w
  {
    CarriedNeverRestarts(store, run, resource);
    WrittenCounts(store, run, resource);
    EtagStacksWrites(store, run, resource);
  }

  /** Compare and swap: when all sets carry etags, a set with the etag read at the start goes through
      exactly when no other set on the resource went through in between. */
  lemma CompareAndSwap(store: Store, run: seq<Request>, resource: string, p: Policy)
    requires AllCarryEtags(run, resource) && p.etag == Current(store, resource).etag && p.etag.Some?
    ensures ReplyTo(After(store, run), Set(resource, WithPolicy(p))).Ok? <==> Writes(store, run, resource) == 0
  {
    EtagCountsWrites(store, run, resource);
    if Writes(store, run, resource) == 0 {
      NoWriteNoChange(store, run, resource);
    }
  }

  /** The etags of one resource at two moments of a run agree only if nothing was written between. */
  lemma EtagsNeverRepeat(store: Store, run: seq<Request>, more: seq<Request>, resource: string)
    requires AllCarryEtags(more, resource)
    ensures Current(After(store, run), resource).etag == Current(After(After(store, run), more), resource).etag <==>
            Writes(After(store, run), more, resource) == 0
  {
    EtagCountsWrites(After(store, run), more, resource);
    if Writes(After(store, run), more, resource) == 0 {
      NoWriteNoChange(After(store, run), more, resource);
    }
  }

  /** Sets without an etag break this: the policy can be changed and changed back under a reader. */
  lemma EtaglessSetsCanRestore(resource: string)
    ensures var p := Policy(1, [], ["a"], None);
            var q := Policy(1, [], ["b"], None);
            var set1, set2 := Set(resource, WithPolicy(p)), Set(resource, WithPolicy(q));
            var store := After(map[], [set1]);
            && Writes(store, [set2, set1], resource) == 2
            && ReplyTo(After(store, [set2, set1]), Set(resource, WithPolicy(q.(etag := Current(store, resource).etag)))).Ok?
  {
    var p := Policy(1, [], ["a"], None);
    var q := Policy(1, [], ["b"], None);
    var set1, set2 := Set(resource, WithPolicy(p)), Set(resource, WithPolicy(q));
    assert [set1][1..] == [];
    var store := After(map[], [set1]);
    assert Accepts(map[], resource, WithPolicy(p));
    assert store == After(Step(map[], set1), []) == map[resource := Stamp(p)];
    var s2 := Step(store, set2);
    assert s2 == map[resource := Stamp(q)];
    var s3 := Step(s2, set1);
    assert [set2, set1][1..] == [set1];
    assert After(store, [set2, set1]) == After(s2, [set1]) == After(s3, []);
    assert Writes(s3, [], resource) == 0;
    assert Writes(s2, [set1], resource) == 1;
  }
}
