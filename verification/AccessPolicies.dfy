/**
 * mockgcp/mockaccesscontextmanager/accesspolicy.go: one access policy per parent, and updates guarded
 * by etags that form a hash chain even when clients send none.
 */
module AccessPolicies {
  import opened Wrappers
  import opened Names

  type NonEmptyText = s: string | s != "" witness "x"
  /** What `GetEtag` can return: the empty text, the digest of a policy, or text that is no digest. */
  datatype Etag = NoEtag | Digest(policy: AccessPolicy) | OtherText(text: NonEmptyText)
  datatype AccessPolicy = AccessPolicy(name: string, parent: string, title: string, scopes: seq<string>,
                                       updateTime: Option<int>, etag: Etag)

  type Store = map<string, AccessPolicy>

  /** Requests, with the server's clock readings as inputs. */
  datatype Request = Create(policy: AccessPolicy, policyID: string)
                   | Update(update: AccessPolicy, paths: seq<string>, now: int)
                   | Delete(name: string)
                   | Get(name: string)

  datatype Reply = Ok(policy: AccessPolicy) | Gone | InvalidName | NotFound | Aborted | UnsupportedPath | Internal

  predicate IsAccessPolicyName(name: string) {
    var tokens := Split(name);
    |tokens| == 2 && tokens[0] == "accessPolicies"
  }

  function KeyOf(policyID: string): string { "accessPolicies" + "/" + policyID }

  /** The key a name stands for is the name itself. */
  lemma NameIsItsKey(name: string)
    requires IsAccessPolicyName(name)
    ensures KeyOf(Split(name)[1]) == name
  {
    var tokens := Split(name);
    JoinSplit(name);
    assert tokens[1..] == [tokens[1]];
    assert Join(tokens) == tokens[0] + "/" + Join(tokens[1..]);
  }

  /** The names that are accepted: one token without a slash after the collection. */
  ghost predicate PolicyName(name: string) {
    exists id :: NoSlash(id) && name == "accessPolicies/" + id
  }

  lemma AcceptedNames(name: string)
    ensures IsAccessPolicyName(name) <==> PolicyName(name)
  {
    if IsAccessPolicyName(name) {
      NameIsItsKey(name);
      assert name == "accessPolicies/" + Split(name)[1];
    }
    if PolicyName(name) {
      var id :| NoSlash(id) && name == "accessPolicies/" + id;
      assert name == "accessPolicies" + "/" + id;
      SplitToken("accessPolicies", id);
      SplitPlain(id);
    }
  }

  predicate ParentTaken(store: Store, parent: string) {
    exists k :: k in store && store[k].parent == parent
  }

  predicate MaskSupported(paths: seq<string>) {
    forall i :: 0 <= i < |paths| ==> paths[i] == "title" || paths[i] == "scopes"
  }

  function Masked(existing: AccessPolicy, update: AccessPolicy, paths: seq<string>): AccessPolicy {
    existing.(title := if "title" in paths then update.title else existing.title,
              scopes := if "scopes" in paths then update.scopes else existing.scopes)
  }

  /** Storing a policy under the digest of itself, with the etag it had until then. */
  function Stamp(p: AccessPolicy): AccessPolicy { p.(etag := Digest(p)) }

  predicate CreateAccepted(store: Store, policy: AccessPolicy, policyID: string) {
    !ParentTaken(store, policy.parent) && KeyOf(policyID) !in store
  }

  predicate UpdateAccepted(store: Store, update: AccessPolicy, paths: seq<string>) {
    && IsAccessPolicyName(update.name) && update.name in store
    && (update.etag == NoEtag || update.etag == store[update.name].etag)
    && MaskSupported(paths)
  }

  function Updated(existing: AccessPolicy, update: AccessPolicy, paths: seq<string>, now: int): AccessPolicy {
    Stamp(Masked(existing, update, paths).(updateTime := Some(now)))
  }

  function Step(store: Store, r: Request): Store {
    match r
    case Create(policy, id) =>
      if CreateAccepted(store, policy, id) then store[KeyOf(id) := Stamp(policy.(name := KeyOf(id)))] else store
    case Update(update, paths, now) =>
      if UpdateAccepted(store, update, paths) then store[update.name := Updated(store[update.name], update, paths, now)] else store
    case Delete(name) => if IsAccessPolicyName(name) then store - {name} else store
    case Get(_) => store
  }

  // ---------------------------------------------------------------- the server

  class AccessContextManager {
    var storage: Store

    constructor ()
      ensures storage == map[]
    {
      storage := map[];
    }

    method GetAccessPolicy(name: string) returns (reply: Reply)
      ensures reply == (if !PolicyName(name) then InvalidName else if name in storage then Ok(storage[name]) else NotFound)
    {
      AcceptedNames(name);
      if !IsAccessPolicyName(name) {
        return InvalidName;
      }
      NameIsItsKey(name);
      var fqn := KeyOf(Split(name)[1]);
      if fqn !in storage {
        return NotFound;
      }
      reply := Ok(storage[fqn]);
    }

    method CreateAccessPolicy(policy: AccessPolicy, policyID: string) returns (reply: Reply)
      modifies this
      ensures storage == Step(old(storage), Create(policy, policyID))
      ensures reply.Ok? <==> CreateAccepted(old(storage), policy, policyID)
      ensures reply == Aborted <==> exists k :: k in old(storage) && old(storage)[k].parent == policy.parent
      ensures reply == Aborted || reply == Internal || reply.Ok?
      ensures reply == Internal ==> "accessPolicies/" + policyID in old(storage)
      ensures !reply.Ok? ==> storage == old(storage)
      // what was sent is stored under the new name, with the digest of it as etag
      ensures reply.Ok? ==>
                var key := "accessPolicies/" + policyID;
                && key !in old(storage) && storage == old(storage)[key := reply.policy]
                && reply.policy == policy.(name := key, etag := Digest(policy.(name := key)))
    {
      var policyExists := false;
      var rest := storage.Keys;
      while rest != {}
        invariant rest <= storage.Keys && storage == old(storage)
        invariant policyExists <==> exists k :: k in storage.Keys - rest && storage[k].parent == policy.parent
        decreases rest
      {
        var k :| k in rest;
        if storage[k].parent == policy.parent {
          policyExists := true;
        }
        rest := rest - {k};
      }
      if policyExists {
        return Aborted;
      }
      var fqn := KeyOf(policyID);
      assert fqn == "accessPolicies/" + policyID;
      var obj := policy.(name := fqn);
      obj := obj.(etag := Digest(obj));
      if fqn in storage {
        return Internal;
      }
      storage := storage[fqn := obj];
      reply := Ok(obj);
    }

    method UpdateAccessPolicy(update: AccessPolicy, paths: seq<string>, now: int) returns (reply: Reply)
      modifies this
      ensures storage == Step(old(storage), Update(update, paths, now))
      ensures reply.Ok? <==> UpdateAccepted(old(storage), update, paths)
      ensures reply == InvalidName <==> !PolicyName(update.name)
      ensures reply == NotFound <==> PolicyName(update.name) && update.name !in old(storage)
      ensures reply == Aborted <==>
                && PolicyName(update.name) && update.name in old(storage)
                && update.etag != NoEtag && update.etag != old(storage)[update.name].etag
      ensures reply.Ok? <==>
                && PolicyName(update.name) && update.name in old(storage)
                && (update.etag == NoEtag || update.etag == old(storage)[update.name].etag)
                && forall i :: 0 <= i < |paths| ==> paths[i] == "title" || paths[i] == "scopes"
      // title and scopes are taken from the request iff the mask names them; the rest is kept
      ensures reply.Ok? ==>
                && reply.policy == storage[update.name]
                && var was := old(storage)[update.name];
                   && reply.policy.name == was.name && reply.policy.parent == was.parent
                   && reply.policy.title == (if "title" in paths then update.title else was.title)
                   && reply.policy.scopes == (if "scopes" in paths then update.scopes else was.scopes)
                   && reply.policy.updateTime == Some(now)
                   && reply.policy.etag == Digest(reply.policy.(etag := was.etag))
      // an accepted update changes that policy and no other, a refused one changes nothing
      ensures reply.Ok? <==> storage != old(storage)
      ensures storage - {update.name} == old(storage) - {update.name}
    {
      AcceptedNames(update.name);
      if !IsAccessPolicyName(update.name) {
        return InvalidName;
      }
      NameIsItsKey(update.name);
      var fqn := KeyOf(Split(update.name)[1]);
      if fqn !in storage {
        return NotFound;
      }
      var existing := storage[fqn];
      if update.etag != NoEtag && update.etag != existing.etag {
        return Aborted;
      }
      var updated := existing;
      for i := 0 to |paths|
        invariant MaskSupported(paths[..i]) && updated == Masked(existing, update, paths[..i]) && storage == old(storage)
      {
        assert paths[..i + 1] == paths[..i] + [paths[i]];
        if paths[i] == "title" {
          updated := updated.(title := update.title);
        } else if paths[i] == "scopes" {
          updated := updated.(scopes := update.scopes);
        } else {
          return UnsupportedPath;
        }
      }
      assert paths[..|paths|] == paths;
      updated := updated.(updateTime := Some(now));
      updated := updated.(etag := Digest(updated));
      storage := storage[fqn := updated];
      StampGrows(existing, updated);
      reply := Ok(updated);
    }

    method DeleteAccessPolicy(name: string) returns (reply: Reply)
      modifies this
      ensures storage == Step(old(storage), Delete(name))
      ensures reply == (if PolicyName(name) then Gone else InvalidName)
      ensures storage == if PolicyName(name) then old(storage) - {name} else old(storage)
    {
      AcceptedNames(name);
      if !IsAccessPolicyName(name) {
        return InvalidName;
      }
      NameIsItsKey(name);
      var fqn := KeyOf(Split(name)[1]);
      if fqn !in storage {
        assert storage - {fqn} == storage;
        return Gone;
      }
      storage := storage - {fqn};
      reply := Gone;
    }
  }

  // ---------------------------------------------------------------- runs

  function After(store: Store, run: seq<Request>): Store
    decreases run
  {
    if run == [] then store else After(Step(store, run[0]), run[1..])
  }

  /** No two stored policies share a parent, and each is stored under its own name and digest. */
  ghost predicate Consistent(store: Store) {
    && (forall a, b :: a in store && b in store && store[a].parent == store[b].parent ==> a == b)
    && (forall k :: k in store ==> store[k].name == k && store[k].etag.Digest?)
  }

  lemma {:induction false} ReachableIsConsistent(store: Store, run: seq<Request>)
    requires Consistent(store)
    ensures Consistent(After(store, run))
    decreases run
  {
    if run != [] {
      var next := Step(store, run[0]);
      assert Consistent(next) by {
        forall a, b | a in next && b in next && next[a].parent == next[b].parent ensures a == b {
          assert a in store ==> next[a].parent == store[a].parent;
          assert b in store ==> next[b].parent == store[b].parent;
        }
      }
      ReachableIsConsistent(next, run[1..]);
    }
  }

  // ---------------------------------------------------------------- the hash chain

  /** The contents hashed into an etag, oldest first: each digest covers a policy and the etag before it. */
  function Stack(e: Etag): seq<AccessPolicy> {
    if e.Digest? then Stack(e.policy.etag) + [e.policy.(etag := NoEtag)] else []
  }

  /** What lies under the stack: nothing, or text that is no digest. */
  function Root(e: Etag): Etag {
    if e.Digest? then Root(e.policy.etag) else e
  }

  lemma {:induction false} StackDeterminesEtag(e: Etag, f: Etag)
    requires Stack(e) == Stack(f) && Root(e) == Root(f)
    ensures e == f
    decreases e
  {
    if e.Digest? {
      assert Stack(f) != [];
      var p, q := e.policy, f.policy;
      assert Stack(e)[..|Stack(e)| - 1] == Stack(p.etag) && Stack(f)[..|Stack(f)| - 1] == Stack(q.etag);
      assert Stack(e)[|Stack(e)| - 1] == p.(etag := NoEtag) && Stack(f)[|Stack(f)| - 1] == q.(etag := NoEtag);
      StackDeterminesEtag(p.etag, q.etag);
    }
  }

  lemma StampGrows(existing: AccessPolicy, updated: AccessPolicy)
    requires updated.etag.Digest? && updated.etag.policy.etag == existing.etag
    ensures updated != existing
  {
    assert |Stack(updated.etag)| == |Stack(existing.etag)| + 1;
  }

  predicate IsCreate(store: Store, r: Request, name: string) {
    r.Create? && KeyOf(r.policyID) == name && CreateAccepted(store, r.policy, r.policyID)
  }

  predicate IsUpdate(store: Store, r: Request, name: string) {
    r.Update? && r.update.name == name && UpdateAccepted(store, r.update, r.paths)
  }

  /** What was written under a name since it was last created, and the etag that creation was sent with;
      since the start of the run if the name was not created in it. */
  datatype Recent = Recent(origin: Option<Etag>, contents: seq<AccessPolicy>)

  /** What an accepted request hashes, apart from the etag. */
  function Content(store: Store, r: Request, name: string): AccessPolicy
    requires IsUpdate(store, r, name) || IsCreate(store, r, name)
  {
    (if r.Update? then Masked(store[name], r.update, r.paths).(updateTime := Some(r.now)) else r.policy.(name := name))
    .(etag := NoEtag)
  }

  function Written(store: Store, run: seq<Request>, name: string): Recent
    decreases run
  {
    if run == [] then Recent(None, [])
    else
      var r, later := run[0], Written(Step(store, run[0]), run[1..], name);
      if later.origin.Some? then later
      else if IsCreate(store, r, name) then Recent(Some(r.policy.etag), [Content(store, r, name)] + later.contents)
      else if IsUpdate(store, r, name) then Recent(None, [Content(store, r, name)] + later.contents)
      else later
  }

  lemma WriteStacks(store: Store, r: Request, name: string)
    requires IsUpdate(store, r, name) || IsCreate(store, r, name)
    ensures var e := if r.Create? then r.policy.etag else store[name].etag;
            && name in Step(store, r)
            && Stack(Step(store, r)[name].etag) == Stack(e) + [Content(store, r, name)]
            && Root(Step(store, r)[name].etag) == Root(e)
  {
  }

  /** Over any run, the stack inside the etag of a policy that exists at the end is the stack it started
      from plus every content written since, one for each accepted create or update, conditional or not. */
  lemma {:induction false} EtagStacksWrites(store: Store, run: seq<Request>, name: string)
    requires name in After(store, run)
    ensures var w, f := Written(store, run, name), After(store, run)[name].etag;
            && (w.origin == None ==> name in store)
            && var e := if w.origin.Some? then w.origin.value else store[name].etag;
               Stack(f) == Stack(e) + w.contents && Root(f) == Root(e)
    decreases run
  {
    if run != [] {
      var r := run[0];
      var next := Step(store, r);
      EtagStacksWrites(next, run[1..], name);
      if IsCreate(store, r, name) || IsUpdate(store, r, name) {
        hide Step, Stack, Root, Content;
        WriteStacks(store, r, name);
      } else {
        assert name in next ==> name in store && next[name] == store[name];
      }
    }
  }

  /** The policy lived through the run with nothing written to it. */
  ghost predicate LeftAlone(store: Store, run: seq<Request>, name: string) {
    name in After(store, run) && Written(store, run, name) == Recent(None, [])
  }

  /** The name was created anew in the run, and from there the same contents were stacked on the same root. */
  ghost predicate Rebuilt(store: Store, run: seq<Request>, name: string)
    requires name in store
  {
    var w := Written(store, run, name);
    && name in After(store, run) && w.origin.Some?
    && Root(w.origin.value) == Root(store[name].etag) && Stack(w.origin.value) + w.contents == Stack(store[name].etag)
  }

  /** A conditional update with an etag read at the start of any run goes through exactly when the policy
      was left alone, unconditional updates included, or was deleted and rebuilt under the same name. */
  lemma ConditionalUpdateIff(store: Store, run: seq<Request>, update: AccessPolicy, paths: seq<string>)
    requires Consistent(store) && update.name in store && IsAccessPolicyName(update.name)
    requires update.etag == store[update.name].etag && MaskSupported(paths)
    ensures UpdateAccepted(After(store, run), update, paths) <==>
            LeftAlone(store, run, update.name) || Rebuilt(store, run, update.name)
  {
    var name := update.name;
    if name in After(store, run) {
      EtagStacksWrites(store, run, name);
      var e, f := store[name].etag, After(store, run)[name].etag;
      if LeftAlone(store, run, name) || Rebuilt(store, run, name) {
        StackDeterminesEtag(e, f);
      }
    }
  }

  /** Policy IDs come from the clock: while it moves on, no create in the run takes the name again. */
  ghost predicate FreshIDs(run: seq<Request>, name: string) {
    forall i :: 0 <= i < |run| && run[i].Create? ==> KeyOf(run[i].policyID) != name
  }

  ghost predicate NeverDeleted(run: seq<Request>, name: string) {
    forall i :: 0 <= i < |run| ==> run[i] != Delete(name)
  }

  /** The updates of `name` that went through. */
  function Updates(store: Store, run: seq<Request>, name: string): nat
    decreases run
  {
    if run == [] then 0
    else (if IsUpdate(store, run[0], name) then 1 else 0) + Updates(Step(store, run[0]), run[1..], name)
  }

  lemma {:induction false} FreshWritesAreUpdates(store: Store, run: seq<Request>, name: string)
    requires FreshIDs(run, name)
    ensures var w := Written(store, run, name); w.origin == None && |w.contents| == Updates(store, run, name)
    ensures IsAccessPolicyName(name) ==> (name in After(store, run) <==> name in store && NeverDeleted(run, name))
    decreases run
  {
    if run != [] {
      var next := Step(store, run[0]);
      assert forall i :: 0 <= i < |run| - 1 ==> run[1..][i] == run[i + 1];
      FreshWritesAreUpdates(next, run[1..], name);
      assert NeverDeleted(run, name) <==> run[0] != Delete(name) && NeverDeleted(run[1..], name);
      assert IsAccessPolicyName(name) ==> (name in next <==> name in store && run[0] != Delete(name));
    }
  }

  /** So while IDs are fresh it goes through exactly when the policy was neither deleted nor updated. */
  lemma FreshConditionalUpdateIff(store: Store, run: seq<Request>, update: AccessPolicy, paths: seq<string>)
    requires Consistent(store) && update.name in store && IsAccessPolicyName(update.name) && FreshIDs(run, update.name)
    requires update.etag == store[update.name].etag && MaskSupported(paths)
    ensures UpdateAccepted(After(store, run), update, paths) <==>
            NeverDeleted(run, update.name) && Updates(store, run, update.name) == 0
  {
    ConditionalUpdateIff(store, run, update, paths);
    FreshWritesAreUpdates(store, run, update.name);
  }

  /** A name taken twice breaks this: deleting a policy and creating it again brings its etag back. */
  lemma RecreationRestores(policy: AccessPolicy, id: string)
    requires IsAccessPolicyName(KeyOf(id))
    ensures var create, name := Create(policy, id), KeyOf(id);
            var store := After(map[], [create]);
            && Consistent(store) && name in store
            && After(store, [Delete(name), create]) == store && Rebuilt(store, [Delete(name), create], name)
            && UpdateAccepted(After(store, [Delete(name), create]), store[name], [])
  {
    var create, name := Create(policy, id), KeyOf(id);
    assert [create][1..] == [];
    var store := After(map[], [create]);
    assert store == After(Step(map[], create), []) == map[name := Stamp(policy.(name := name))];
    assert [Delete(name), create][1..] == [create];
    assert Step(store, Delete(name)) == map[];
    assert After(store, [Delete(name), create]) == After(map[], [create]) == store;
    assert Written(store, [], name) == Recent(None, []);
    assert Written(map[], [create], name) == Recent(Some(policy.etag), [Content(map[], create, name)] + []);
    assert Written(store, [Delete(name), create], name) == Written(map[], [create], name);
  }
}
