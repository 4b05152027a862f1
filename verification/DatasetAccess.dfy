/** mockgcp/mockbigquery/datasets.go: the order of dataset access entries, and the datasets stored in it. */
module DatasetAccess {
  import opened Wrappers
  import opened Ordering

  /** An access entry; `target` stands for what the order never looks at (views, routines, datasets). */
  datatype Access = Access(role: Option<string>, groupByEmail: Option<string>, userByEmail: Option<string>,
                           domain: Option<string>, specialGroup: Option<string>, iamMember: Option<string>, target: string)

  /** A generated getter: a missing field reads as "". */
  function Get(o: Option<string>): string { if o.Some? then o.value else "" }

  function RoleKey(a: Access): string {
    var role := Get(a.role);
    if role == "WRITER" then "roles/bigquery.dataEditor"
    else if role == "OWNER" then "roles/bigquery.dataOwner"
    else if role == "READER" then "roles/bigquery.dataViewer"
    else role
  }

  predicate AccessLess(l: Access, r: Access) {
    if RoleKey(l) != RoleKey(r) then StrLess(RoleKey(l), RoleKey(r))
    else if Get(l.groupByEmail) != Get(r.groupByEmail) then StrLess(Get(l.groupByEmail), Get(r.groupByEmail))
    else if Get(l.userByEmail) != Get(r.userByEmail) then StrLess(Get(l.userByEmail), Get(r.userByEmail))
    else if Get(l.domain) != Get(r.domain) then StrLess(Get(l.domain), Get(r.domain))
    else if Get(l.specialGroup) != Get(r.specialGroup) then StrLess(Get(l.specialGroup), Get(r.specialGroup))
    else if Get(l.iamMember) != Get(r.iamMember) then StrLess(Get(l.iamMember), Get(r.iamMember))
    else false
  }

  function AccessOrder(): (Access, Access) -> bool { (l: Access, r: Access) => AccessLess(l, r) }

  /** The basic roles and the roles they are listed as. */
  const ALIASES := map["WRITER" := "roles/bigquery.dataEditor", "OWNER" := "roles/bigquery.dataOwner",
                       "READER" := "roles/bigquery.dataViewer"]

  ghost function Unaliased(role: string): string { if role in ALIASES then ALIASES[role] else role }

  /** The six strings the comparator looks at, most significant first; what is missing counts as empty. */
  ghost function Key(a: Access): seq<string> {
    [Unaliased(if a.role == None then "" else a.role.value),
     if a.groupByEmail == None then "" else a.groupByEmail.value,
     if a.userByEmail == None then "" else a.userByEmail.value,
     if a.domain == None then "" else a.domain.value,
     if a.specialGroup == None then "" else a.specialGroup.value,
     if a.iamMember == None then "" else a.iamMember.value]
  }

  // ---------------------------------------------------------------- the comparator is an order

  /** The first key in which the two differ decides, alphabetically. */
  ghost predicate FirstDecides(a: seq<string>, b: seq<string>) {
    exists k :: 0 <= k < |a| && k < |b| && a[..k] == b[..k] && Alphabetical(a[k], b[k])
  }

  lemma {:induction false} LexLessIff(a: seq<string>, b: seq<string>)
    requires |a| == |b|
    ensures LexLess(a, b) <==> FirstDecides(a, b)
  {
    hide Alphabetical, StrLess;
    if a != [] {
      StrLessIsAlphabetical(a[0], b[0]);
      StrLessIrreflexive(a[0]);
      var s, t := a[1..], b[1..];
      LexLessIff(s, t);
      if a[0] == b[0] {
        if k :| 0 <= k < |s| && k < |t| && s[..k] == t[..k] && Alphabetical(s[k], t[k]) {
          assert a[..k + 1] == [a[0]] + s[..k] && b[..k + 1] == [b[0]] + t[..k] && a[k + 1] == s[k] && b[k + 1] == t[k];
        }
        if k :| 0 <= k < |a| && k < |b| && a[..k] == b[..k] && Alphabetical(a[k], b[k]) {
          assert k > 0;
          assert s[..k - 1] == a[..k][1..] && t[..k - 1] == b[..k][1..] && s[k - 1] == a[k] && t[k - 1] == b[k];
        }
      } else {
        assert forall k :: 0 < k <= |a| ==> a[..k][0] == a[0] && b[..k][0] == b[0];
        assert StrLess(a[0], b[0]) ==> a[..0] == b[..0];
      }
    }
  }

  predicate LexLess(a: seq<string>, b: seq<string>)
    requires |a| == |b|
  {
    a != [] && (if a[0] != b[0] then StrLess(a[0], b[0]) else LexLess(a[1..], b[1..]))
  }

  lemma {:induction false} LexIrreflexive(a: seq<string>)
    ensures !LexLess(a, a)
  {
    if a != [] { LexIrreflexive(a[1..]); }
  }

  lemma {:induction false} LexTransitive(a: seq<string>, b: seq<string>, c: seq<string>)
    requires |a| == |b| == |c| && LexLess(a, b) && LexLess(b, c)
    ensures LexLess(a, c)
  {
    if a[0] == b[0] == c[0] {
      LexTransitive(a[1..], b[1..], c[1..]);
    } else if a[0] != b[0] && b[0] != c[0] {
      StrLessTransitive(a[0], b[0], c[0]);
      StrLessIrreflexive(a[0]);
    }
  }

  lemma {:induction false} LexTotal(a: seq<string>, b: seq<string>)
    requires |a| == |b|
    ensures a == b || LexLess(a, b) || LexLess(b, a)
  {
    if a != [] {
      StrLessTotal(a[0], b[0]);
      LexTotal(a[1..], b[1..]);
      assert a == [a[0]] + a[1..] && b == [b[0]] + b[1..];
    }
  }

  /** The cascade of comparisons is lexicographic order on the six keys. */
  lemma AccessLessIsLex(l: Access, r: Access)
    ensures AccessLess(l, r) <==> LexLess(Key(l), Key(r))
    ensures AccessLess(l, r) <==> FirstDecides(Key(l), Key(r))
    ensures Equivalent(AccessOrder(), l, r) <==> Key(l) == Key(r)
  {
    KeyAsRead(l);
    KeyAsRead(r);
    hide Key, RoleKey, FirstDecides, LexLess, StrLess;
    LexCascade(Key(l), Key(r));
    LexCascade(Key(r), Key(l));
    LexTotal(Key(l), Key(r));
    LexIrreflexive(Key(l));
    LexLessIff(Key(l), Key(r));
  }

  lemma KeyAsRead(a: Access)
    ensures Key(a) == [RoleKey(a), Get(a.groupByEmail), Get(a.userByEmail), Get(a.domain), Get(a.specialGroup), Get(a.iamMember)]
  {
  }

  lemma LexCascade(a: seq<string>, b: seq<string>)
    requires |a| == |b| == 6
    ensures LexLess(a, b) <==>
              if a[0] != b[0] then StrLess(a[0], b[0])
              else if a[1] != b[1] then StrLess(a[1], b[1])
              else if a[2] != b[2] then StrLess(a[2], b[2])
              else if a[3] != b[3] then StrLess(a[3], b[3])
              else if a[4] != b[4] then StrLess(a[4], b[4])
              else if a[5] != b[5] then StrLess(a[5], b[5])
              else false
  {
    var a1, b1 := a[1..], b[1..];
    var a2, b2 := a1[1..], b1[1..];
    var a3, b3 := a2[1..], b2[1..];
    var a4, b4 := a3[1..], b3[1..];
    var a5, b5 := a4[1..], b4[1..];
    assert a5[1..] == [] && b5[1..] == [];
    assert LexLess(a5, b5) <==> (a5[0] != b5[0] && StrLess(a5[0], b5[0]));
    assert LexLess(a3, b3) <==> if a3[0] != b3[0] then StrLess(a3[0], b3[0]) else LexLess(a4, b4);
    assert LexLess(a1, b1) <==> if a1[0] != b1[0] then StrLess(a1[0], b1[0]) else LexLess(a2, b2);
  }

  lemma AccessOrderIsStrictWeak()
    ensures StrictWeakOrder(AccessOrder())
  {
    var lt := AccessOrder();
    forall x ensures !lt(x, x) {
      AccessLessIsLex(x, x);
    }
    forall x, y, z | lt(x, y) && lt(y, z) ensures lt(x, z) {
      AccessLessIsLex(x, y);
      AccessLessIsLex(y, z);
      AccessLessIsLex(x, z);
      LexTransitive(Key(x), Key(y), Key(z));
    }
    forall x, y, z | lt(x, z) ensures lt(x, y) || lt(y, z) {
      AccessLessIsLex(x, y);
      AccessLessIsLex(y, z);
      AccessLessIsLex(x, z);
      LexTotal(Key(x), Key(y));
      if LexLess(Key(y), Key(x)) {
        LexTransitive(Key(y), Key(x), Key(z));
      }
    }
  }

  // ---------------------------------------------------------------- sortAccess

  function SortAccess(access: seq<Access>): seq<Access> {
    StableSort(AccessOrder(), access)
  }

  /** Sorting is a stable permutation, and sorting again changes nothing. */
  lemma SortAccessCorrect(access: seq<Access>)
    ensures Sorted(AccessOrder(), SortAccess(access))
    ensures multiset(SortAccess(access)) == multiset(access)
    ensures forall c :: Class(AccessOrder(), c, SortAccess(access)) == Class(AccessOrder(), c, access)
    ensures SortAccess(SortAccess(access)) == SortAccess(access)
  {
    var lt := AccessOrder();
    AccessOrderIsStrictWeak();
    StableSortCorrect(lt, access);
    StableSortCorrect(lt, SortAccess(access));
    StableSortUnique(lt, SortAccess(SortAccess(access)), SortAccess(access));
  }

  /** Entries the comparator cannot tell apart are the same entry. */
  ghost predicate KeysIdentify(access: seq<Access>) {
    forall a, b :: a in access && b in access && Key(a) == Key(b) ==> a == b
  }

  /** If every entry equivalent to `c` is `x`, the class of `c` is as many copies of `x` as there are. */
  lemma {:induction false} ClassIsCopies(s: seq<Access>, c: Access, x: Access)
    requires Key(x) == Key(c) && forall a :: a in s && Key(a) == Key(c) ==> a == x
    ensures Class(AccessOrder(), c, s) == seq(multiset(s)[x], _ => x)
  {
    if s != [] {
      assert s == [s[0]] + s[1..];
      ClassIsCopies(s[1..], c, x);
      AccessLessIsLex(c, s[0]);
      hide Key, FirstDecides, LexLess, AccessLess;
      assert Equivalent(AccessOrder(), c, s[0]) <==> s[0] == x;
    }
  }

  lemma SameClassWhenIdentified(a: seq<Access>, b: seq<Access>, c: Access)
    requires multiset(a) == multiset(b) && KeysIdentify(a)
    ensures Class(AccessOrder(), c, a) == Class(AccessOrder(), c, b)
  {
    assert forall e :: e in a <==> e in multiset(a);
    assert forall e :: e in b <==> e in multiset(b);
    if x :| x in a && Key(x) == Key(c) {
      ClassIsCopies(a, c, x);
      ClassIsCopies(b, c, x);
    } else {
      ClassIsCopies(a, c, c);
      ClassIsCopies(b, c, c);
    }
  }

  ghost predicate OrderIndependent(access: seq<Access>) {
    forall a, b :: multiset(a) == multiset(access) && multiset(b) == multiset(access) ==> SortAccess(a) == SortAccess(b)
  }

  /** The result does not depend on the input order exactly when equal keys mean equal entries. */
  lemma OrderIndependentIff(access: seq<Access>)
    ensures OrderIndependent(access) <==> KeysIdentify(access)
  {
    AccessOrderIsStrictWeak();
    if KeysIdentify(access) {
      forall a, b | multiset(a) == multiset(access) && multiset(b) == multiset(access) ensures SortAccess(a) == SortAccess(b) {
        SortedAlike(access, a, b);
      }
    } else {
      var x, y :| x in access && y in access && Key(x) == Key(y) && x != y;
      var a := BringFirst(access, x);
      var b := BringFirst(access, y);
      AccessLessIsLex(x, y);
      AccessLessIsLex(x, x);
      assert Class(AccessOrder(), x, a)[0] == x;
      assert Class(AccessOrder(), x, b)[0] == y;
      SortAccessCorrect(a);
      SortAccessCorrect(b);
      assert Class(AccessOrder(), x, SortAccess(a)) != Class(AccessOrder(), x, SortAccess(b));
    }
  }

  lemma SortedAlike(access: seq<Access>, a: seq<Access>, b: seq<Access>)
    requires KeysIdentify(access) && multiset(a) == multiset(access) && multiset(b) == multiset(access)
    ensures SortAccess(a) == SortAccess(b)
  {
    AccessOrderIsStrictWeak();
    SortAccessCorrect(a);
    SortAccessCorrect(b);
    assert KeysIdentify(a) by {
      assert forall e :: e in a ==> e in multiset(a);
      assert forall e :: e in multiset(access) ==> e in access;
    }
    forall c ensures Class(AccessOrder(), c, SortAccess(a)) == Class(AccessOrder(), c, SortAccess(b)) {
      SameClassWhenIdentified(a, b, c);
    }
    StableSortUnique(AccessOrder(), SortAccess(a), SortAccess(b));
  }

  lemma BringFirst(s: seq<Access>, x: Access) returns (t: seq<Access>)
    requires x in s
    ensures multiset(t) == multiset(s) && t != [] && t[0] == x
  {
    var i :| 0 <= i < |s| && s[i] == x;
    t := [x] + s[..i] + s[i + 1..];
    assert s == s[..i] + [x] + s[i + 1..];
  }

  // ---------------------------------------------------------------- the handlers

  datatype Dataset = Dataset(projectId: string, datasetId: string, creationTime: int, lastModifiedTime: int,
                             location: Option<string>, datasetType: Option<string>, description: string, access: seq<Access>)

  type Store = map<string, Dataset>

  datatype Request = Insert(projectId: string, dataset: Dataset, now: int)
                   | Update(projectId: string, datasetId: string, dataset: Dataset, now: int)
                   | Patch(projectId: string, datasetId: string, dataset: Dataset, now: int)
                   | Delete(projectId: string, datasetId: string)

  function DatasetName(projectId: string, datasetId: string): string {
    "projects/" + projectId + "/datasets/" + datasetId
  }

  function DefaultAccess(): seq<Access> {
    [Access(Some("WRITER"), None, None, None, Some("projectWriters"), None, ""),
     Access(Some("OWNER"), None, None, None, Some("projectOwners"), None, ""),
     Access(Some("OWNER"), None, Some("me@example.com"), None, None, None, ""),
     Access(Some("READER"), None, None, None, Some("projectReaders"), None, "")]
  }

  function Inserted(projectId: string, d: Dataset, now: int): Dataset {
    d.(projectId := if d.projectId == "" then projectId else d.projectId,
       creationTime := now, lastModifiedTime := now,
       location := if d.location.None? then Some("US") else d.location,
       datasetType := if d.datasetType.None? then Some("DEFAULT") else d.datasetType,
       access := SortAccess(if d.access == [] then DefaultAccess() else d.access))
  }

  /** Update and patch alike take the request's dataset and keep what identifies the old one. */
  function Replaced(existing: Dataset, d: Dataset, now: int): Dataset {
    d.(projectId := existing.projectId, datasetId := existing.datasetId, creationTime := existing.creationTime,
       lastModifiedTime := now, location := existing.location, datasetType := existing.datasetType, access := SortAccess(d.access))
  }

  function Step(projects: set<string>, store: Store, r: Request): Store {
    if r.projectId !in projects then store
    else match r
      case Insert(p, d, now) =>
        var key := DatasetName(p, d.datasetId);
        if key in store then store else store[key := Inserted(p, d, now)]
      case Update(p, id, d, now) =>
        var key := DatasetName(p, id);
        if key in store then store[key := Replaced(store[key], d, now)] else store
      case Patch(p, id, d, now) =>
        var key := DatasetName(p, id);
        if key in store then store[key := Replaced(store[key], d, now)] else store
      case Delete(p, id) => store - {DatasetName(p, id)}
  }

  function After(projects: set<string>, store: Store, run: seq<Request>): Store
    decreases run
  {
    if run == [] then store else After(projects, Step(projects, store, run[0]), run[1..])
  }

  /** In order, so that sorting again changes nothing. */
  ghost predicate Listed(access: seq<Access>) {
    Sorted(AccessOrder(), access) && SortAccess(access) == access
  }

  ghost predicate AllSorted(store: Store) {
    forall k :: k in store ==> Listed(store[k].access)
  }

  /** In every run every stored dataset lists its access entries in order. */
  lemma {:induction false} ReachableIsSorted(projects: set<string>, store: Store, run: seq<Request>)
    requires AllSorted(store)
    ensures AllSorted(After(projects, store, run))
    decreases run
  {
    if run != [] {
      var next := Step(projects, store, run[0]);
      forall k | k in next ensures Listed(next[k].access) {
        StepIsSorted(projects, store, run[0], k);
      }
      ReachableIsSorted(projects, next, run[1..]);
    }
  }

  lemma StepIsSorted(projects: set<string>, store: Store, r: Request, k: string)
    requires AllSorted(store) && k in Step(projects, store, r)
    ensures Listed(Step(projects, store, r)[k].access)
  {
    hide SortAccess, Listed, DefaultAccess, DatasetName;
    if k !in store || Step(projects, store, r)[k] != store[k] {
      var access: seq<Access> :| Step(projects, store, r)[k].access == SortAccess(access);
      SortedIsListed(access);
    }
  }

  lemma SortedIsListed(access: seq<Access>)
    ensures Listed(SortAccess(access))
  {
    SortAccessCorrect(access);
  }

  /** A dataset updated to the same entries in another order is stored the same, if keys identify them. */
  lemma UpdateOrderDoesNotMatter(existing: Dataset, d: Dataset, e: Dataset, now: int)
    requires e == d.(access := e.access) && multiset(e.access) == multiset(d.access) && KeysIdentify(d.access)
    ensures Replaced(existing, d, now) == Replaced(existing, e, now)
  {
    SortedAlike(d.access, d.access, e.access);
  }

  lemma SortAccessSorts(access: seq<Access>)
    ensures Sorted(AccessOrder(), SortAccess(access)) && multiset(SortAccess(access)) == multiset(access)
  {
    SortAccessCorrect(access);
  }

  lemma NameSpelled(projectId: string, datasetId: string)
    ensures DatasetName(projectId, datasetId) == "projects/" + projectId + "/datasets/" + datasetId
  {
  }

  /** What was sent is stored, with what was missing filled in and the entries sorted. */
  ghost predicate InsertedAs(projectId: string, sent: Dataset, now: int, stored: Dataset) {
    && stored.projectId == (if sent.projectId == "" then projectId else sent.projectId)
    && stored.datasetId == sent.datasetId && stored.description == sent.description
    && stored.creationTime == now && stored.lastModifiedTime == now
    && stored.location == (if sent.location == None then Some("US") else sent.location)
    && stored.datasetType == (if sent.datasetType == None then Some("DEFAULT") else sent.datasetType)
    && Sorted(AccessOrder(), stored.access)
    && multiset(stored.access) ==
       if sent.access == []
       then multiset{Access(Some("WRITER"), None, None, None, Some("projectWriters"), None, ""),
                     Access(Some("OWNER"), None, None, None, Some("projectOwners"), None, ""),
                     Access(Some("OWNER"), None, Some("me@example.com"), None, None, None, ""),
                     Access(Some("READER"), None, None, None, Some("projectReaders"), None, "")}
       else multiset(sent.access)
  }

  lemma InsertedFields(projectId: string, sent: Dataset, now: int)
    ensures InsertedAs(projectId, sent, now, Inserted(projectId, sent, now))
  {
    hide SortAccess, Sorted;
    DefaultsSpelled();
    hide DefaultAccess;
    SortAccessSorts(if sent.access == [] then DefaultAccess() else sent.access);
  }

  lemma DefaultsSpelled()
    ensures DefaultAccess() != []
    ensures multiset(DefaultAccess()) ==
            multiset{Access(Some("WRITER"), None, None, None, Some("projectWriters"), None, ""),
                     Access(Some("OWNER"), None, None, None, Some("projectOwners"), None, ""),
                     Access(Some("OWNER"), None, Some("me@example.com"), None, None, None, ""),
                     Access(Some("READER"), None, None, None, Some("projectReaders"), None, "")}
  {
  }

  class DatasetsServer {
    const projects: set<string>
    var storage: Store

    constructor (projects: set<string>)
      ensures this.projects == projects && storage == map[] && AllSorted(storage)
    {
      this.projects := projects;
      storage := map[];
    }

    method InsertDataset(projectId: string, dataset: Dataset, now: int) returns (ok: bool)
      modifies this`storage
      ensures storage == Step(projects, old(storage), Insert(projectId, dataset, now))
      ensures ok <==> projectId in projects && DatasetName(projectId, dataset.datasetId) !in old(storage)
      ensures !ok ==> storage == old(storage)
      ensures ok ==>
                var key := "projects/" + projectId + "/datasets/" + dataset.datasetId;
                && key !in old(storage) && key in storage && storage - {key} == old(storage)
                && InsertedAs(projectId, dataset, now, storage[key])
    {
      hide SortAccess, Sorted, AccessOrder, DatasetName;
      NameSpelled(projectId, dataset.datasetId);
      hide DefaultAccess, InsertedAs;
      InsertedFields(projectId, dataset, now);
      if projectId !in projects {
        return false;
      }
      var fqn := DatasetName(projectId, dataset.datasetId);
      var obj := dataset;
      if obj.projectId == "" {
        obj := obj.(projectId := projectId);
      }
      obj := obj.(creationTime := now, lastModifiedTime := now);
      if obj.location == None {
        obj := obj.(location := Some("US"));
      }
      if obj.datasetType == None {
        obj := obj.(datasetType := Some("DEFAULT"));
      }
      if |obj.access| == 0 {
        obj := obj.(access := DefaultAccess());
      }
      obj := obj.(access := SortAccess(obj.access));
      if fqn in storage {
        return false;
      }
      storage := storage[fqn := obj];
      ok := true;
    }

    method UpdateDataset(projectId: string, datasetId: string, dataset: Dataset, now: int) returns (ok: bool)
      modifies this`storage
      ensures storage == Step(projects, old(storage), Update(projectId, datasetId, dataset, now))
      ensures ok <==> projectId in projects && DatasetName(projectId, datasetId) in old(storage)
      ensures !ok ==> storage == old(storage)
      // the request's dataset replaces the old one, but for what identifies it, and with the entries sorted
      ensures ok ==>
                var key := "projects/" + projectId + "/datasets/" + datasetId;
                && key in old(storage) && key in storage && storage - {key} == old(storage) - {key}
                && var before, after := old(storage)[key], storage[key];
                   && after.projectId == before.projectId && after.datasetId == before.datasetId
                   && after.creationTime == before.creationTime && after.lastModifiedTime == now
                   && after.location == before.location && after.datasetType == before.datasetType
                   && after.description == dataset.description
                   && Sorted(AccessOrder(), after.access) && multiset(after.access) == multiset(dataset.access)
    {
      hide SortAccess, Sorted, AccessOrder, DatasetName;
      NameSpelled(projectId, datasetId);
      if projectId !in projects {
        return false;
      }
      var fqn := DatasetName(projectId, datasetId);
      if fqn !in storage {
        return false;
      }
      var existing, updated := storage[fqn], dataset;
      updated := updated.(projectId := existing.projectId, datasetId := existing.datasetId);
      updated := updated.(creationTime := existing.creationTime, lastModifiedTime := now);
      updated := updated.(location := existing.location, datasetType := existing.datasetType);
      SortAccessSorts(updated.access);
      updated := updated.(access := SortAccess(updated.access));
      storage := storage[fqn := updated];
      ok := true;
    }

    method DeleteDataset(projectId: string, datasetId: string) returns (ok: bool)
      modifies this`storage
      ensures storage == Step(projects, old(storage), Delete(projectId, datasetId))
      ensures ok <==> projectId in projects && DatasetName(projectId, datasetId) in old(storage)
      ensures storage == if ok then old(storage) - {"projects/" + projectId + "/datasets/" + datasetId} else old(storage)
    {
      var fqn := DatasetName(projectId, datasetId);
      ok := projectId in projects && fqn in storage;
      if projectId in projects {
        storage := storage - {fqn};
      }
    }
  }
}
