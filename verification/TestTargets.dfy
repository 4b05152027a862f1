/**
 * hack/find-test-targets/main.go: which fixtures a set of changed files selects. A changed reference
 * type selects the fixtures that set some field of that type.
 */
module TestTargets {
  import opened Ordering
  import opened Kahn
  import opened FieldPaths
  import opened Wrappers

  // ---------------------------------------------------------------- looking a path up in a manifest

  datatype Json = Null | Text(text: string) | Number(number: real) | Bool(flag: bool)
                | Object(fields: map<string, Json>) | List(items: seq<Json>)

  predicate NonEmpty(v: Json) {
    match v
    case Null => false
    case Text(s) => s != ""
    case Object(fields) => |fields| > 0
    case List(items) => |items| > 0
    case _ => true
  }

  /** Anything but null, the empty text, the empty object and the empty list. */
  ghost predicate HoldsSomething(v: Json) {
    v != Null && v != Text("") && v != Object(map[]) && v != List([])
  }

  lemma NonEmptyIff(v: Json)
    ensures NonEmpty(v) <==> HoldsSomething(v)
  {
    assert v.Object? && |v.fields| == 0 ==> v.fields == map[];
  }

  predicate HasNonEmptyPath(obj: Json, path: FieldPath)
    decreases |path|, obj
  {
    if path == [] then NonEmpty(obj)
    else match obj
      case Object(fields) =>
        path[0] in fields && fields[path[0]] != Null && HasNonEmptyPath(fields[path[0]], path[1..])
      case List(items) => exists i :: 0 <= i < |items| && HasNonEmptyPath(items[i], path)
      case _ => false
  }

  /** A concrete location inside a manifest. */
  datatype Step = Key(name: string) | Item(i: nat)

  ghost function Resolve(obj: Json, at: seq<Step>): Option<Json>
    decreases |at|
  {
    if at == [] then Some(obj)
    else match at[0]
      case Key(name) => if obj.Object? && name in obj.fields then Resolve(obj.fields[name], at[1..]) else None
      case Item(i) => if obj.List? && i < |obj.items| then Resolve(obj.items[i], at[1..]) else None
  }

  /** The location with its list positions forgotten. */
  ghost function KeysOf(at: seq<Step>): FieldPath {
    if at == [] then [] else (if at[0].Key? then [at[0].name] else []) + KeysOf(at[1..])
  }

  /** A location that stops at the field itself, not at an element of the list it may hold. */
  ghost predicate StopsAtField(at: seq<Step>) { at == [] || at[|at| - 1].Key? }

  ghost predicate Witness(obj: Json, path: FieldPath, at: seq<Step>) {
    KeysOf(at) == path && StopsAtField(at) && Resolve(obj, at).Some? && HoldsSomething(Resolve(obj, at).value)
  }

  ghost predicate Selects(obj: Json, path: FieldPath) {
    exists at :: Witness(obj, path, at)
  }

  lemma {:induction false} FoundHasWitness(obj: Json, path: FieldPath) returns (at: seq<Step>)
    requires HasNonEmptyPath(obj, path)
    ensures Witness(obj, path, at)
    decreases |path|, obj
  {
    if path == [] {
      NonEmptyIff(obj);
      at := [];
    } else if obj.Object? {
      var rest := FoundHasWitness(obj.fields[path[0]], path[1..]);
      at := [Key(path[0])] + rest;
      assert at[1..] == rest;
    } else {
      var i :| 0 <= i < |obj.items| && HasNonEmptyPath(obj.items[i], path);
      var rest := FoundHasWitness(obj.items[i], path);
      at := [Item(i)] + rest;
      assert at[1..] == rest;
      assert rest != [];
    }
  }

  lemma {:induction false} KeysOfFieldStop(at: seq<Step>)
    requires StopsAtField(at) && at != []
    ensures KeysOf(at) != []
  {
    if !at[0].Key? {
      KeysOfFieldStop(at[1..]);
    }
  }

  lemma {:induction false} WitnessIsFound(obj: Json, path: FieldPath, at: seq<Step>)
    requires Witness(obj, path, at)
    ensures HasNonEmptyPath(obj, path)
    decreases |at|
  {
    if at == [] {
      NonEmptyIff(obj);
    } else {
      KeysOfFieldStop(at);
      var rest := at[1..];
      if at[0].Key? {
        assert path[1..] == KeysOf(rest);
        WitnessIsFound(obj.fields[path[0]], path[1..], rest);
      } else {
        WitnessIsFound(obj.items[at[0].i], path, rest);
      }
    }
  }

  /** The recursive search finds exactly the paths that lead, through lists at any depth, to a
      non-empty value. */
  lemma HasNonEmptyPathExact(obj: Json, path: FieldPath)
    ensures HasNonEmptyPath(obj, path) <==> Selects(obj, path)
  {
    if HasNonEmptyPath(obj, path) {
      var at := FoundHasWitness(obj, path);
    }
    if Selects(obj, path) {
      var at :| Witness(obj, path, at);
      WitnessIsFound(obj, path, at);
    }
  }

  // ---------------------------------------------------------------- fixtures

  datatype Fixture = Fixture(folder: string, create: Json, update: Option<Json>)

  predicate FixtureHasRefField(fix: Fixture, paths: seq<FieldPath>) {
    exists i :: 0 <= i < |paths| &&
      (HasNonEmptyPath(fix.create, paths[i]) || (fix.update.Some? && HasNonEmptyPath(fix.update.value, paths[i])))
  }

  datatype SpecInfo = SpecInfo(pkg: string, specType: string)

  /** What the resolver indexed: fixtures by kind, structs by package, spec struct by kind. */
  datatype Catalog = Catalog(fixtures: map<string, seq<Fixture>>, packages: map<string, Structs>, specs: map<string, SpecInfo>)
  {
    function FixturesOf(kind: string): seq<Fixture> {
      if kind in fixtures then fixtures[kind] else []
    }

    ghost function RefPaths(kind: string, refType: string): seq<FieldPath> {
      if kind in specs && specs[kind].pkg in packages
      then Paths(packages[specs[kind].pkg], specs[kind].specType, refType, ["spec"], {})
      else []
    }
  }

  /** The path leads to a non-empty value when creating or when updating. */
  ghost predicate PathSelects(fix: Fixture, p: FieldPath) {
    Selects(fix.create, p) || (fix.update.Some? && Selects(fix.update.value, p))
  }

  /** A repetition-free chain of spec fields to the reference type leads to a non-empty value. */
  ghost predicate UsesRef(ix: Catalog, kind: string, refType: string, fix: Fixture, c: seq<Hop>)
    requires kind in ix.specs && ix.specs[kind].pkg in ix.packages
  {
    var structs, s := ix.packages[ix.specs[kind].pkg], ix.specs[kind].specType;
    && Chain(structs, s, refType, c) && Repetitionless(c, {})
    && PathSelects(fix, ["spec"] + NamesOf(structs, s, refType, c))
  }

  ghost predicate RefSelects(ix: Catalog, kind: string, refType: string, fix: Fixture) {
    kind in ix.specs && ix.specs[kind].pkg in ix.packages && exists c :: UsesRef(ix, kind, refType, fix, c)
  }

  lemma FixtureHasRefFieldExact(fix: Fixture, paths: seq<FieldPath>)
    ensures FixtureHasRefField(fix, paths) <==> exists p :: p in paths && PathSelects(fix, p)
  {
    forall i | 0 <= i < |paths|
      ensures HasNonEmptyPath(fix.create, paths[i]) || (fix.update.Some? && HasNonEmptyPath(fix.update.value, paths[i])) <==>
              PathSelects(fix, paths[i])
    {
      HasNonEmptyPathExact(fix.create, paths[i]);
      if fix.update.Some? { HasNonEmptyPathExact(fix.update.value, paths[i]); }
    }
    if p :| p in paths && PathSelects(fix, p) {
      var i :| 0 <= i < |paths| && paths[i] == p;
      assert PathSelects(fix, paths[i]);
    }
  }

  /** The two searches together decide reference use. */
  lemma RefSelectsExact(ix: Catalog, kind: string, refType: string, fix: Fixture)
    ensures FixtureHasRefField(fix, ix.RefPaths(kind, refType)) <==> RefSelects(ix, kind, refType, fix)
  {
    var paths := ix.RefPaths(kind, refType);
    FixtureHasRefFieldExact(fix, paths);
    if kind in ix.specs && ix.specs[kind].pkg in ix.packages {
      var structs, s := ix.packages[ix.specs[kind].pkg], ix.specs[kind].specType;
      if p :| p in paths && PathSelects(fix, p) {
        PathsExact(structs, s, refType, ["spec"], {}, p);
        var c :| Chain(structs, s, refType, c) && Repetitionless(c, {}) && p == ["spec"] + NamesOf(structs, s, refType, c);
        assert UsesRef(ix, kind, refType, fix, c);
      }
      if c :| UsesRef(ix, kind, refType, fix, c) {
        var p := ["spec"] + NamesOf(structs, s, refType, c);
        PathsExact(structs, s, refType, ["spec"], {}, p);
        assert p in paths && PathSelects(fix, p);
      }
    }
  }

  method FindFieldPathsForRef(ix: Catalog, refType: string) returns (result: map<string, seq<FieldPath>>)
    ensures forall kind :: kind in result <==> kind in ix.specs && ix.RefPaths(kind, refType) != []
    ensures forall kind :: kind in result ==> result[kind] == ix.RefPaths(kind, refType)
  {
    result := map[];
    var rest := ix.specs.Keys;
    while rest != {}
      invariant rest <= ix.specs.Keys
      invariant forall kind :: kind in result <==> kind in ix.specs && kind !in rest && ix.RefPaths(kind, refType) != []
      invariant forall kind :: kind in result ==> result[kind] == ix.RefPaths(kind, refType)
      decreases rest
    {
      var kind :| kind in rest;
      var info := ix.specs[kind];
      if info.pkg in ix.packages {
        var visited := new Marks();
        var paths := FindPathsInStruct(ix.packages[info.pkg], info.specType, refType, ["spec"], visited);
        if |paths| > 0 {
          result := result[kind := paths];
        }
      }
      rest := rest - {kind};
    }
  }

  // ---------------------------------------------------------------- ResolveTargets

  /** A changed file, as the path rules classify it. */
  datatype Change = FixtureFile(kind: string, folder: string) | ReferenceFile | ResourceFile(kind: string) | Unrelated

  datatype KindTarget = KindTarget(all: bool, tests: seq<string>)

  type Selection = map<string, set<string>>

  ghost predicate In(sel: Selection, kind: string, folder: string) {
    kind in sel && folder in sel[kind]
  }

  /** `addResult`: a kind or folder that is empty is ignored. */
  function AddResult(sel: Selection, kind: string, folder: string): (r: Selection)
    ensures forall k, f :: In(r, k, f) <==> In(sel, k, f) || (k == kind && f == folder && kind != "" && folder != "")
    ensures NoEmptyEntry(sel) ==> NoEmptyEntry(r)
  {
    if kind == "" || folder == "" then sel
    else sel[kind := (if kind in sel then sel[kind] else {}) + {folder}]
  }

  ghost predicate NoEmptyEntry(sel: Selection) {
    forall k :: k in sel ==> exists f :: f in sel[k]
  }

  ghost predicate HasFolder(fixtures: seq<Fixture>, folder: string) {
    exists i :: 0 <= i < |fixtures| && fixtures[i].folder == folder
  }

  /** A folder with a name: the only kind `addResult` records. */
  ghost predicate HasNamedFolder(fixtures: seq<Fixture>) {
    exists i :: 0 <= i < |fixtures| && fixtures[i].folder != ""
  }

  ghost predicate HasFolderUsing(fixtures: seq<Fixture>, paths: seq<FieldPath>, folder: string) {
    exists i :: 0 <= i < |fixtures| && fixtures[i].folder == folder && FixtureHasRefField(fixtures[i], paths)
  }

  /** Some fixture in `folder` of this kind uses one of the changed reference types. */
  ghost predicate ByReference(ix: Catalog, refTypes: seq<string>, kind: string, folder: string) {
    exists r, i :: 0 <= r < |refTypes| && 0 <= i < |ix.FixturesOf(kind)| &&
      ix.FixturesOf(kind)[i].folder == folder && RefSelects(ix, kind, refTypes[r], ix.FixturesOf(kind)[i])
  }

  /** Why a folder of a kind is to be tested. */
  ghost predicate Wanted(ix: Catalog, changes: seq<Change>, refTypes: seq<string>, kind: string, folder: string) {
    && kind != "" && folder != ""
    && (|| FixtureFile(kind, folder) in changes
        || (ResourceFile(kind) in changes && HasFolder(ix.FixturesOf(kind), folder))
        || (ReferenceFile in changes && ByReference(ix, refTypes, kind, folder)))
  }

  ghost predicate KindWanted(ix: Catalog, changes: seq<Change>, refTypes: seq<string>, kind: string) {
    exists folder :: Wanted(ix, changes, refTypes, kind, folder)
  }

  ghost predicate WholeKind(ix: Catalog, changes: seq<Change>, kind: string) {
    kind != "" && ResourceFile(kind) in changes && HasNamedFolder(ix.FixturesOf(kind))
  }

  /** What the rules for fixture files and for resource files ask for. */
  ghost predicate WantedDirectly(ix: Catalog, changes: seq<Change>, kind: string, folder: string) {
    && kind != "" && folder != ""
    && (FixtureFile(kind, folder) in changes || (ResourceFile(kind) in changes && HasFolder(ix.FixturesOf(kind), folder)))
  }

  ghost predicate HasFixture(ix: Catalog, kind: string, fix: Fixture) {
    kind in ix.fixtures && fix in ix.fixtures[kind]
  }

  /** The reasons read off the index: a changed fixture file, or an indexed fixture of the kind in that
      folder while the resource changed, or that sets a field of a changed reference type. */
  lemma WantedIff(ix: Catalog, changes: seq<Change>, refTypes: seq<string>, kind: string, folder: string)
    ensures Wanted(ix, changes, refTypes, kind, folder) <==>
            && kind != "" && folder != ""
            && (|| FixtureFile(kind, folder) in changes
                || exists fix :: HasFixture(ix, kind, fix) && fix.folder == folder &&
                     (ResourceFile(kind) in changes ||
                      (ReferenceFile in changes && exists r :: 0 <= r < |refTypes| && RefSelects(ix, kind, refTypes[r], fix))))
    ensures WholeKind(ix, changes, kind) <==>
            kind != "" && ResourceFile(kind) in changes && exists fix :: HasFixture(ix, kind, fix) && fix.folder != ""
  {
    hide RefSelects;
    var all := ix.FixturesOf(kind);
    forall fix ensures HasFixture(ix, kind, fix) <==> exists i :: 0 <= i < |all| && all[i] == fix {
    }
    if HasFolder(all, folder) {
      var i :| 0 <= i < |all| && all[i].folder == folder;
      assert HasFixture(ix, kind, all[i]);
    }
    if HasNamedFolder(all) {
      var i :| 0 <= i < |all| && all[i].folder != "";
      assert HasFixture(ix, kind, all[i]);
    }
    if ByReference(ix, refTypes, kind, folder) {
      var r, i :| 0 <= r < |refTypes| && 0 <= i < |all| && all[i].folder == folder && RefSelects(ix, kind, refTypes[r], all[i]);
      assert HasFixture(ix, kind, all[i]);
    }
  }

  method AddWholeKind(fixtures: seq<Fixture>, kind: string, sel0: Selection, all0: set<string>)
    returns (sel: Selection, all: set<string>)
    requires NoEmptyEntry(sel0) && kind != ""
    ensures NoEmptyEntry(sel)
    ensures forall k, f :: In(sel, k, f) <==> (In(sel0, k, f) || (k == kind && f != "" && HasFolder(fixtures, f)))
    ensures forall k :: k in all <==> (k in all0 || (k == kind && HasNamedFolder(fixtures)))
  {
    sel, all := sel0, all0;
    for i := 0 to |fixtures|
      invariant NoEmptyEntry(sel)
      invariant forall k, f :: In(sel, k, f) <==> (In(sel0, k, f) || (k == kind && f != "" && HasFolder(fixtures[..i], f)))
      invariant forall k :: k in all <==> (k in all0 || (k == kind && HasNamedFolder(fixtures[..i])))
    {
      HasFolderStep(fixtures, i);
      sel := AddResult(sel, kind, fixtures[i].folder);
      if fixtures[i].folder != "" {
        all := all + {kind};
      }
    }
    assert fixtures[..|fixtures|] == fixtures;
  }

  lemma HasFolderStep(fixtures: seq<Fixture>, i: nat)
    requires i < |fixtures|
    ensures forall f :: HasFolder(fixtures[..i + 1], f) <==> HasFolder(fixtures[..i], f) || f == fixtures[i].folder
    ensures HasNamedFolder(fixtures[..i + 1]) <==> HasNamedFolder(fixtures[..i]) || fixtures[i].folder != ""
  {
    assert fixtures[..i + 1][i] == fixtures[i];
    assert forall j :: 0 <= j < i ==> fixtures[..i + 1][j] == fixtures[..i][j];
    forall f ensures HasFolder(fixtures[..i + 1], f) <==> HasFolder(fixtures[..i], f) || f == fixtures[i].folder {
      var now, next := fixtures[..i], fixtures[..i + 1];
      assert next == now + [fixtures[i]];
      if HasFolder(now, f) {
        var j :| 0 <= j < |now| && now[j].folder == f;
        assert next[j].folder == f;
      }
      assert next[i].folder == fixtures[i].folder;
    }
  }

  method AddRefFixtures(fixtures: seq<Fixture>, kind: string, paths: seq<FieldPath>, sel0: Selection) returns (sel: Selection)
    requires NoEmptyEntry(sel0)
    ensures NoEmptyEntry(sel)
    ensures forall k, f :: In(sel, k, f) <==>
              (In(sel0, k, f) || (k == kind && k != "" && f != "" && HasFolderUsing(fixtures, paths, f)))
  {
    sel := sel0;
    for i := 0 to |fixtures|
      invariant NoEmptyEntry(sel)
      invariant forall k, f :: In(sel, k, f) <==>
                  (In(sel0, k, f) || (k == kind && k != "" && f != "" && HasFolderUsing(fixtures[..i], paths, f)))
    {
      HasFolderUsingStep(fixtures, paths, i);
      if FixtureHasRefField(fixtures[i], paths) {
        sel := AddResult(sel, kind, fixtures[i].folder);
      }
    }
    assert fixtures[..|fixtures|] == fixtures;
  }

  lemma HasFolderUsingStep(fixtures: seq<Fixture>, paths: seq<FieldPath>, i: nat)
    requires i < |fixtures|
    ensures forall f :: HasFolderUsing(fixtures[..i + 1], paths, f) <==>
              (HasFolderUsing(fixtures[..i], paths, f) || (f == fixtures[i].folder && FixtureHasRefField(fixtures[i], paths)))
  {
    hide FixtureHasRefField;
    forall f ensures HasFolderUsing(fixtures[..i + 1], paths, f) <==>
               (HasFolderUsing(fixtures[..i], paths, f) || (f == fixtures[i].folder && FixtureHasRefField(fixtures[i], paths)))
    {
      var now, next := fixtures[..i], fixtures[..i + 1];
      assert next == now + [fixtures[i]];
      if HasFolderUsing(now, paths, f) {
        var j :| 0 <= j < |now| && now[j].folder == f && FixtureHasRefField(now[j], paths);
        assert next[j] == now[j];
      }
      assert next[i] == fixtures[i];
    }
  }

  /** One changed reference type: every kind with a path to it, every fixture of that kind. */
  method AddRefType(ix: Catalog, refType: string, sel0: Selection) returns (sel: Selection)
    requires NoEmptyEntry(sel0)
    ensures NoEmptyEntry(sel)
    ensures forall k, f :: In(sel, k, f) <==>
              (In(sel0, k, f) || (k != "" && f != "" && ByReference(ix, [refType], k, f)))
  {
    hide NoEmptyEntry, ByReference, In;
    var kindFieldPaths := FindFieldPathsForRef(ix, refType);
    sel := sel0;
    var rest := kindFieldPaths.Keys;
    while rest != {}
      invariant rest <= kindFieldPaths.Keys && NoEmptyEntry(sel)
      invariant forall k, f :: In(sel, k, f) <==>
                  (In(sel0, k, f) || (k != "" && f != "" && k in kindFieldPaths.Keys - rest && ByReference(ix, [refType], k, f)))
      decreases rest
    {
      var kind :| kind in rest;
      sel := AddRefFixtures(ix.FixturesOf(kind), kind, kindFieldPaths[kind], sel);
      UsingIsByReference(ix, kind, refType);
      rest := rest - {kind};
    }
    forall k, f | ByReference(ix, [refType], k, f) ensures k in kindFieldPaths {
      ByReferenceHasPaths(ix, k, refType, f);
    }
  }

  lemma UsingIsByReference(ix: Catalog, kind: string, refType: string)
    ensures forall f :: HasFolderUsing(ix.FixturesOf(kind), ix.RefPaths(kind, refType), f) <==> ByReference(ix, [refType], kind, f)
  {
    var fixtures, paths := ix.FixturesOf(kind), ix.RefPaths(kind, refType);
    forall i | 0 <= i < |fixtures|
      ensures FixtureHasRefField(fixtures[i], paths) <==> RefSelects(ix, kind, refType, fixtures[i])
    {
      RefSelectsExact(ix, kind, refType, fixtures[i]);
    }
    hide RefSelects, FixtureHasRefField, Catalog.RefPaths, Catalog.FixturesOf;
    forall f ensures HasFolderUsing(fixtures, paths, f) <==> ByReference(ix, [refType], kind, f) {
      if HasFolderUsing(fixtures, paths, f) {
        var i :| 0 <= i < |fixtures| && fixtures[i].folder == f && FixtureHasRefField(fixtures[i], paths);
        assert RefSelects(ix, kind, [refType][0], fixtures[i]);
      }
    }
  }

  lemma ByReferenceHasPaths(ix: Catalog, kind: string, refType: string, folder: string)
    requires ByReference(ix, [refType], kind, folder)
    ensures kind in ix.specs && ix.RefPaths(kind, refType) != []
  {
    var r, i :| 0 <= r < |[refType]| && 0 <= i < |ix.FixturesOf(kind)| &&
      ix.FixturesOf(kind)[i].folder == folder && RefSelects(ix, kind, [refType][r], ix.FixturesOf(kind)[i]);
    RefSelectsExact(ix, kind, refType, ix.FixturesOf(kind)[i]);
  }

  /** The pass over the changed files, which also notes whether any is a reference file. */
  method CollectDirect(ix: Catalog, changes: seq<Change>) returns (sel: Selection, all: set<string>, refFiles: nat)
    ensures NoEmptyEntry(sel)
    ensures forall k, f :: In(sel, k, f) <==> WantedDirectly(ix, changes, k, f)
    ensures forall k :: k in all <==> WholeKind(ix, changes, k)
    ensures refFiles > 0 <==> ReferenceFile in changes
  {
    hide HasFolder;
    sel, all, refFiles := map[], {}, 0;
    for i := 0 to |changes|
      invariant NoEmptyEntry(sel)
      invariant forall k, f :: In(sel, k, f) <==> WantedDirectly(ix, changes[..i], k, f)
      invariant forall k :: k in all <==> WholeKind(ix, changes[..i], k)
      invariant refFiles > 0 <==> ReferenceFile in changes[..i]
    {
      assert changes[..i + 1] == changes[..i] + [changes[i]];
      match changes[i]
      case FixtureFile(kind, folder) =>
        if kind != "" {
          sel := AddResult(sel, kind, folder);
        }
      case ReferenceFile =>
        refFiles := refFiles + 1;
      case ResourceFile(kind) =>
        if kind != "" {
          sel, all := AddWholeKind(ix.FixturesOf(kind), kind, sel, all);
        }
      case Unrelated =>
    }
    assert changes[..|changes|] == changes;
  }

  method CollectByReference(ix: Catalog, refTypes: seq<string>, sel0: Selection) returns (sel: Selection)
    requires NoEmptyEntry(sel0)
    ensures NoEmptyEntry(sel)
    ensures forall k, f :: In(sel, k, f) <==>
              (In(sel0, k, f) || (k != "" && f != "" && ByReference(ix, refTypes, k, f)))
  {
    hide NoEmptyEntry, ByReference, In;
    sel := sel0;
    NoReference(ix);
    assert refTypes[..0] == [];
    for i := 0 to |refTypes|
      invariant NoEmptyEntry(sel)
      invariant forall k, f :: In(sel, k, f) <==>
                  (In(sel0, k, f) || (k != "" && f != "" && ByReference(ix, refTypes[..i], k, f)))
    {
      ByReferenceStep(ix, refTypes, i);
      sel := AddRefType(ix, refTypes[i], sel);
    }
    assert refTypes[..|refTypes|] == refTypes;
  }

  lemma NoReference(ix: Catalog)
    ensures forall k, f :: !ByReference(ix, [], k, f)
  {
  }

  lemma ByReferenceStep(ix: Catalog, refTypes: seq<string>, n: nat)
    requires n < |refTypes|
    ensures forall k, f :: ByReference(ix, refTypes[..n + 1], k, f) <==>
              (ByReference(ix, refTypes[..n], k, f) || ByReference(ix, [refTypes[n]], k, f))
  {
    hide RefSelects, Catalog.FixturesOf;
    var now, next, one := refTypes[..n], refTypes[..n + 1], [refTypes[n]];
    forall k, f ensures ByReference(ix, next, k, f) <==> (ByReference(ix, now, k, f) || ByReference(ix, one, k, f)) {
      var fixtures := ix.FixturesOf(k);
      if ByReference(ix, next, k, f) {
        var r, i :| 0 <= r < |next| && 0 <= i < |fixtures| && fixtures[i].folder == f && RefSelects(ix, k, next[r], fixtures[i]);
        assert if r < n then now[r] == next[r] else one[0] == next[r];
      }
      if ByReference(ix, now, k, f) {
        var r, i :| 0 <= r < |now| && 0 <= i < |fixtures| && fixtures[i].folder == f && RefSelects(ix, k, now[r], fixtures[i]);
        assert next[r] == now[r];
      }
      if ByReference(ix, one, k, f) {
        var r, i :| 0 <= r < |one| && 0 <= i < |fixtures| && fixtures[i].folder == f && RefSelects(ix, k, one[r], fixtures[i]);
        assert next[n] == one[r];
      }
    }
  }

  /** The targets are exactly the wanted folders, each list sorted, whatever order the maps iterate in. */
  method ResolveTargets(ix: Catalog, changes: seq<Change>, refTypes: seq<string>) returns (targets: map<string, KindTarget>)
    ensures forall k :: k in targets <==> KindWanted(ix, changes, refTypes, k)
    ensures forall k :: k in targets ==>
              && Enumerates(map[], targets[k].tests, Elems(targets[k].tests))
              && (forall f :: f in targets[k].tests <==> Wanted(ix, changes, refTypes, k, f))
              && (targets[k].all <==> WholeKind(ix, changes, k))
  {
    hide ByReference, HasFolder;
    var sel, all, refFiles := CollectDirect(ix, changes);
    if refFiles > 0 {
      sel := CollectByReference(ix, refTypes, sel);
    }
    SelectionIsWanted(ix, changes, refTypes, sel);
    targets := Format(sel, all);
    hide Wanted, WholeKind;
    forall k ensures k in targets <==> KindWanted(ix, changes, refTypes, k) {
      if k in targets {
        var f :| f in sel[k];
        assert In(sel, k, f);
      }
      if KindWanted(ix, changes, refTypes, k) {
        var f :| Wanted(ix, changes, refTypes, k, f);
        assert In(sel, k, f);
      }
    }
    forall k, f | k in targets ensures f in targets[k].tests <==> Wanted(ix, changes, refTypes, k, f) {
      assert f in targets[k].tests <==> f in Elems(targets[k].tests);
      assert In(sel, k, f) <==> f in sel[k];
    }
  }

  lemma SelectionIsWanted(ix: Catalog, changes: seq<Change>, refTypes: seq<string>, sel: Selection)
    requires forall k, f :: In(sel, k, f) <==>
               (WantedDirectly(ix, changes, k, f) ||
                (ReferenceFile in changes && k != "" && f != "" && ByReference(ix, refTypes, k, f)))
    ensures forall k, f :: In(sel, k, f) <==> Wanted(ix, changes, refTypes, k, f)
  {
    hide ByReference, HasFolder, In;
  }

  method Format(sel: Selection, all: set<string>) returns (targets: map<string, KindTarget>)
    ensures targets.Keys == sel.Keys
    ensures forall k :: k in targets ==>
              Enumerates(map[], targets[k].tests, sel[k]) && Elems(targets[k].tests) == sel[k] && (targets[k].all <==> k in all)
  {
    targets := map[];
    var rest := sel.Keys;
    while rest != {}
      invariant rest <= sel.Keys && targets.Keys == sel.Keys - rest
      invariant forall k :: k in targets ==>
                  Enumerates(map[], targets[k].tests, sel[k]) && Elems(targets[k].tests) == sel[k] && (targets[k].all <==> k in all)
      decreases rest
    {
      var kind :| kind in rest;
      var list := SortedListing(map[], sel[kind]);
      targets := targets[kind := KindTarget(kind in all, list)];
      rest := rest - {kind};
    }
  }
}
