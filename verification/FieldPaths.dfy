/**
 * hack/find-test-targets/main.go: the search for field paths from a spec struct to a reference type,
 * through a type graph that may be recursive.
 */
module FieldPaths {
  import opened Names

  /** The Go type expressions the search looks through. */
  datatype TypeExpr = Ident(name: string) | Star(x: TypeExpr) | Array(elt: TypeExpr) | Selector(pkg: string, sel: string) | OtherType

  function ExtractTypeName(t: TypeExpr): string {
    match t
    case Ident(name) => name
    case Star(x) => ExtractTypeName(x)
    case Array(elt) => ExtractTypeName(elt)
    case Selector(_, sel) => sel
    case OtherType => ""
  }

  datatype Field = Field(jsonName: string, typ: TypeExpr)
  {
    predicate Visible() { jsonName != "-" && jsonName != "" }
    function TypeName(): string { ExtractTypeName(typ) }
    predicate Hits(target: string) { TypeName() == target || HasSuffix(TypeName(), "." + target) }
  }

  /** The structs of one package. */
  type Structs = map<string, seq<Field>>
  type FieldPath = seq<string>

  // ---------------------------------------------------------------- the search, as a function

  function Paths(structs: Structs, s: string, target: string, prefix: FieldPath, visited: set<string>): seq<FieldPath>
    decreases structs.Keys - visited, 0
  {
    if s in visited || s !in structs then [] else PathsFrom(structs, s, 0, target, prefix, visited + {s})
  }

  function PathsFrom(structs: Structs, s: string, k: nat, target: string, prefix: FieldPath, visited: set<string>): seq<FieldPath>
    requires s in structs && k <= |structs[s]|
    decreases structs.Keys - visited, 1 + |structs[s]| - k
  {
    if k == |structs[s]| then []
    else PathsAt(structs, structs[s][k], target, prefix, visited) + PathsFrom(structs, s, k + 1, target, prefix, visited)
  }

  function PathsAt(structs: Structs, f: Field, target: string, prefix: FieldPath, visited: set<string>): seq<FieldPath>
    decreases structs.Keys - visited, 1
  {
    if !f.Visible() then []
    else if f.Hits(target) then [prefix + [f.jsonName]]
    else if f.TypeName() in structs then Paths(structs, f.TypeName(), target, prefix + [f.jsonName], visited)
    else []
  }

  // ---------------------------------------------------------------- the search, with its marks

  /** `visited map[string]bool`: a missing entry reads as false. */
  class Marks {
    var marks: map<string, bool>

    constructor ()
      ensures marks == map[] && Names() == {}
    {
      marks := map[];
    }

    predicate Marked(name: string)
      reads this
    {
      name in marks && marks[name]
    }

    ghost function Names(): set<string>
      reads this
    {
      set n | n in marks && marks[n]
    }
  }

  method FindPathsInStruct(structs: Structs, structName: string, targetRef: string, currentPath: FieldPath, visited: Marks)
    returns (results: seq<FieldPath>)
    modifies visited
    ensures visited.Names() == old(visited.Names())
    ensures results == Paths(structs, structName, targetRef, currentPath, old(visited.Names()))
    decreases structs.Keys - visited.Names()
  {
    if visited.Marked(structName) {
      return [];
    }
    ghost var marked := visited.Names();
    visited.marks := visited.marks[structName := true];
    assert visited.Names() == marked + {structName};
    results := [];
    if structName in structs {
      var fields := structs[structName];
      ghost var all := PathsFrom(structs, structName, 0, targetRef, currentPath, marked + {structName});
      for i := 0 to |fields|
        invariant visited.Names() == marked + {structName}
        invariant results + PathsFrom(structs, structName, i, targetRef, currentPath, marked + {structName}) == all
      {
        var field := fields[i];
        ghost var here := PathsAt(structs, field, targetRef, currentPath, marked + {structName});
        ghost var before := results;
        if field.Visible() {
          var fieldPath := currentPath + [field.jsonName];
          if field.Hits(targetRef) {
            results := results + [fieldPath];
          } else if field.TypeName() in structs {
            var nested := FindPathsInStruct(structs, field.TypeName(), targetRef, fieldPath, visited);
            results := results + nested;
          }
        }
        assert results == before + here;
      }
    }
    visited.marks := visited.marks[structName := false];
    assert visited.Names() == marked;
  }

  // ---------------------------------------------------------------- what a field refers to

  datatype Layer = PointerTo | ListOf

  /** `core` under some pointers and lists, the outermost first. */
  ghost function Wrapped(layers: seq<Layer>, core: TypeExpr): TypeExpr {
    if layers == [] then core
    else if layers[0] == PointerTo then Star(Wrapped(layers[1..], core)) else Array(Wrapped(layers[1..], core))
  }

  ghost predicate NamedCore(core: TypeExpr, n: string) {
    core == Ident(n) || (core.Selector? && core.sel == n)
  }

  /** Under any nesting of pointers and lists `t` is a type called `n`, of this package or another;
      any other kind of type counts as one with the empty name. */
  ghost predicate BaseName(t: TypeExpr, n: string) {
    exists layers, core :: t == Wrapped(layers, core) && (NamedCore(core, n) || (core == OtherType && n == ""))
  }

  lemma {:induction false} WrappedName(layers: seq<Layer>, core: TypeExpr)
    ensures ExtractTypeName(Wrapped(layers, core)) == ExtractTypeName(core)
  {
    if layers != [] {
      WrappedName(layers[1..], core);
    }
  }

  lemma {:induction false} Unwrap(t: TypeExpr) returns (layers: seq<Layer>, core: TypeExpr)
    ensures t == Wrapped(layers, core) && !core.Star? && !core.Array?
    decreases t
  {
    if t.Star? || t.Array? {
      var rest, c := Unwrap(if t.Star? then t.x else t.elt);
      layers, core := [if t.Star? then PointerTo else ListOf] + rest, c;
      assert layers[1..] == rest;
    } else {
      layers, core := [], t;
    }
  }

  /** The extracted name is the base name, whatever pointers and lists surround it. */
  lemma ExtractedIsBaseName(t: TypeExpr, n: string)
    ensures ExtractTypeName(t) == n <==> BaseName(t, n)
  {
    if BaseName(t, n) {
      var layers, core :| t == Wrapped(layers, core) && (NamedCore(core, n) || (core == OtherType && n == ""));
      WrappedName(layers, core);
    }
    if ExtractTypeName(t) == n {
      var layers, core := Unwrap(t);
      WrappedName(layers, core);
      assert NamedCore(core, n) || (core == OtherType && n == "");
    }
  }

  /** `n` is `target` or ends in a dot and `target`. */
  ghost predicate Matches(n: string, target: string) { n == target || exists q: string :: n == q + ("." + target) }

  ghost predicate RefersTo(f: Field, target: string) {
    exists n :: BaseName(f.typ, n) && Matches(n, target)
  }

  lemma HitsIffRefers(f: Field, target: string)
    ensures f.Hits(target) <==> RefersTo(f, target)
  {
    var n := f.TypeName();
    SuffixIff(n, "." + target);
    ExtractedIsBaseName(f.typ, n);
    assert f.Hits(target) <==> Matches(n, target);
    hide HasSuffix, Matches, BaseName;
    if m :| BaseName(f.typ, m) && Matches(m, target) {
      ExtractedIsBaseName(f.typ, m);
    }
  }

  /** Both facts at every field, for the lemmas below. */
  lemma FieldsRead(target: string)
    ensures forall f: Field :: f.Hits(target) <==> RefersTo(f, target)
    ensures forall f: Field, n :: BaseName(f.typ, n) <==> f.TypeName() == n
  {
    forall f: Field ensures f.Hits(target) <==> RefersTo(f, target) { HitsIffRefers(f, target); }
    forall f: Field, n ensures BaseName(f.typ, n) <==> f.TypeName() == n { ExtractedIsBaseName(f.typ, n); }
  }

  // ---------------------------------------------------------------- chains of fields

  /** Field number `index` of struct `owner`. */
  datatype Hop = Hop(owner: string, index: nat)

  /** A field that appears in JSON. */
  ghost predicate Shown(f: Field) { f.jsonName != "" && f.jsonName != "-" }

  /** A chain of shown fields from struct `s`: each leads to the struct owning the next one, and
      only the last refers to the target reference type. */
  ghost predicate Chain(structs: Structs, s: string, target: string, c: seq<Hop>)
    decreases |c|
  {
    && c != [] && c[0].owner == s && s in structs && c[0].index < |structs[s]|
    && var f := structs[s][c[0].index];
       && Shown(f)
       && if |c| == 1 then RefersTo(f, target)
          else !RefersTo(f, target) && BaseName(f.typ, c[1].owner) && Chain(structs, c[1].owner, target, c[1..])
  }

  ghost function NamesOf(structs: Structs, s: string, target: string, c: seq<Hop>): FieldPath
    requires Chain(structs, s, target, c)
    decreases |c|
  {
    [structs[s][c[0].index].jsonName] + if |c| == 1 then [] else NamesOf(structs, c[1].owner, target, c[1..])
  }

  /** No struct occurs twice, and none of `visited` at all. */
  ghost predicate Repetitionless(c: seq<Hop>, visited: set<string>) {
    && (forall i :: 0 <= i < |c| ==> c[i].owner !in visited)
    && (forall i, j :: 0 <= i < j < |c| ==> c[i].owner != c[j].owner)
  }

  /** A repetition-free chain from `s` whose first field is numbered from `lo` to `hi`. */
  ghost predicate ChainBetween(structs: Structs, s: string, target: string, visited: set<string>, lo: nat, hi: nat, c: seq<Hop>) {
    Chain(structs, s, target, c) && Repetitionless(c, visited) && lo <= c[0].index < hi
  }

  /** `cs` holds each such chain once, and `ps` holds their field names in the same order. */
  ghost predicate Lists(structs: Structs, s: string, target: string, prefix: FieldPath, visited: set<string>,
                        lo: nat, hi: nat, cs: seq<seq<Hop>>, ps: seq<FieldPath>)
  {
    && |cs| == |ps|
    && (forall i, j :: 0 <= i < j < |cs| ==> cs[i] != cs[j])
    && (forall c :: c in cs <==> ChainBetween(structs, s, target, visited, lo, hi, c))
    && (forall i :: 0 <= i < |cs| ==> cs[i] in cs && ps[i] == prefix + NamesOf(structs, s, target, cs[i]))
  }

  lemma ListsAppend(structs: Structs, s: string, target: string, prefix: FieldPath, visited: set<string>,
                    lo: nat, mid: nat, hi: nat, cs: seq<seq<Hop>>, ps: seq<FieldPath>, ds: seq<seq<Hop>>, qs: seq<FieldPath>)
    requires lo <= mid <= hi
    requires Lists(structs, s, target, prefix, visited, lo, mid, cs, ps)
    requires Lists(structs, s, target, prefix, visited, mid, hi, ds, qs)
    ensures Lists(structs, s, target, prefix, visited, lo, hi, cs + ds, ps + qs)
  {
    hide NamesOf, Repetitionless, Chain;
    var all := cs + ds;
    forall i, j | 0 <= i < j < |all| ensures all[i] != all[j] {
      if i < |cs| <= j {
        assert cs[i] in cs && ds[j - |cs|] in ds;
        assert ChainBetween(structs, s, target, visited, lo, mid, cs[i]);
        assert ChainBetween(structs, s, target, visited, mid, hi, ds[j - |cs|]);
      }
    }
    forall c ensures c in all <==> ChainBetween(structs, s, target, visited, lo, hi, c) {
      assert c in all <==> c in cs || c in ds;
    }
  }

  /** Putting field `k` of `s` in front of a repetition-free continuation, and taking it off again. */
  lemma ConsChain(structs: Structs, s: string, target: string, visited: set<string>, k: nat, c: seq<Hop>)
    requires s in structs && k < |structs[s]| && s !in visited
    requires structs[s][k].Visible() && !structs[s][k].Hits(target)
    ensures c != [] && c[0] == Hop(s, k) ==>
              (ChainBetween(structs, s, target, visited, k, k + 1, c) <==>
                 Chain(structs, structs[s][k].TypeName(), target, c[1..]) && Repetitionless(c[1..], visited + {s}))
    ensures ChainBetween(structs, s, target, visited, k, k + 1, c) ==> c[0] == Hop(s, k)
  {
    FieldsRead(target);
    hide RefersTo, BaseName;
    if c != [] && c[0] == Hop(s, k) {
      assert forall i :: 0 <= i < |c| - 1 ==> c[1..][i] == c[i + 1];
      assert Repetitionless(c, visited) <==> Repetitionless(c[1..], visited + {s}) by {
        if Repetitionless(c, visited) {
          assert forall i :: 1 <= i < |c| ==> c[0].owner != c[i].owner;
        }
        if Repetitionless(c[1..], visited + {s}) {
          forall i | 1 <= i < |c| ensures c[i].owner !in visited && c[i].owner != s {
            assert c[1..][i - 1] == c[i];
          }
          forall i, j | 0 <= i < j < |c| ensures c[i].owner != c[j].owner {
            assert i > 0 ==> c[1..][i - 1].owner != c[1..][j - 1].owner;
          }
        }
      }
      assert !Chain(structs, structs[s][k].TypeName(), target, []);
    }
  }

  ghost function Prepend(h: Hop, cs: seq<seq<Hop>>): seq<seq<Hop>> {
    seq(|cs|, i requires 0 <= i < |cs| => [h] + cs[i])
  }

  lemma PrependOne(structs: Structs, s: string, target: string, prefix: FieldPath, visited: set<string>, k: nat, hi: nat, c: seq<Hop>)
    requires s in structs && k < |structs[s]| && s !in visited
    requires structs[s][k].Visible() && !structs[s][k].Hits(target)
    requires ChainBetween(structs, structs[s][k].TypeName(), target, visited + {s}, 0, hi, c)
    ensures ChainBetween(structs, s, target, visited, k, k + 1, [Hop(s, k)] + c)
    ensures prefix + NamesOf(structs, s, target, [Hop(s, k)] + c) ==
            prefix + [structs[s][k].jsonName] + NamesOf(structs, structs[s][k].TypeName(), target, c)
  {
    var d := [Hop(s, k)] + c;
    assert d[1..] == c;
    ConsChain(structs, s, target, visited, k, d);
  }

  lemma PrependExact(structs: Structs, s: string, target: string, prefix: FieldPath, visited: set<string>, k: nat,
                     hi: nat, cs: seq<seq<Hop>>, ps: seq<FieldPath>)
    requires s in structs && k < |structs[s]| && s !in visited
    requires structs[s][k].Visible() && !structs[s][k].Hits(target)
    requires var t := structs[s][k].TypeName();
             t in structs && hi == |structs[t]| && Lists(structs, t, target, prefix + [structs[s][k].jsonName], visited + {s}, 0, hi, cs, ps)
    ensures Lists(structs, s, target, prefix, visited, k, k + 1, Prepend(Hop(s, k), cs), ps)
  {
    hide NamesOf, Repetitionless, Chain;
    var f, all := structs[s][k], Prepend(Hop(s, k), cs);
    var t := f.TypeName();
    forall i | 0 <= i < |cs|
      ensures all[i][1..] == cs[i] && ChainBetween(structs, s, target, visited, k, k + 1, all[i])
      ensures ps[i] == prefix + NamesOf(structs, s, target, all[i])
    {
      assert all[i][1..] == cs[i] && cs[i] in cs;
      PrependOne(structs, s, target, prefix, visited, k, hi, cs[i]);
    }
    forall c | ChainBetween(structs, s, target, visited, k, k + 1, c) ensures c in all {
      TakeOff(structs, s, target, visited, k, c);
      var i :| 0 <= i < |cs| && cs[i] == c[1..];
      assert all[i] == c;
    }
    forall i, j | 0 <= i < j < |all| ensures all[i] != all[j] {
      assert all[i][1..] != all[j][1..];
    }
  }

  lemma TakeOff(structs: Structs, s: string, target: string, visited: set<string>, k: nat, c: seq<Hop>)
    requires s in structs && k < |structs[s]| && s !in visited
    requires structs[s][k].Visible() && !structs[s][k].Hits(target)
    requires ChainBetween(structs, s, target, visited, k, k + 1, c)
    ensures var t := structs[s][k].TypeName();
            t in structs && ChainBetween(structs, t, target, visited + {s}, 0, |structs[t]|, c[1..])
    ensures c == [Hop(s, k)] + c[1..]
  {
    ConsChain(structs, s, target, visited, k, c);
  }

  lemma {:induction false} ListsAt(structs: Structs, s: string, target: string, prefix: FieldPath, visited: set<string>, k: nat)
    returns (cs: seq<seq<Hop>>)
    requires s in structs && k < |structs[s]| && s !in visited
    ensures Lists(structs, s, target, prefix, visited, k, k + 1, cs, PathsAt(structs, structs[s][k], target, prefix, visited + {s}))
    decreases structs.Keys - visited, 1
  {
    FieldsRead(target);
    hide RefersTo, BaseName;
    var f := structs[s][k];
    if f.Visible() && f.Hits(target) {
      cs := [[Hop(s, k)]];
      assert ChainBetween(structs, s, target, visited, k, k + 1, cs[0]);
      forall c ensures c in cs <==> ChainBetween(structs, s, target, visited, k, k + 1, c) {
        if ChainBetween(structs, s, target, visited, k, k + 1, c) {
          assert |c| == 1 && c[0] == Hop(s, k);
          assert c == cs[0];
        }
      }
    } else if f.Visible() && f.TypeName() in structs {
      var t := f.TypeName();
      var rest := ListsAll(structs, t, target, prefix + [f.jsonName], visited + {s});
      cs := Prepend(Hop(s, k), rest);
      PrependExact(structs, s, target, prefix, visited, k, |structs[t]|, rest, Paths(structs, t, target, prefix + [f.jsonName], visited + {s}));
    } else {
      cs := [];
      forall c ensures c in cs <==> ChainBetween(structs, s, target, visited, k, k + 1, c) {
        assert c != [] ==> (Chain(structs, f.TypeName(), target, c[1..]) ==> f.TypeName() in structs);
      }
    }
  }

  lemma {:induction false} ListsFrom(structs: Structs, s: string, target: string, prefix: FieldPath, visited: set<string>, k: nat)
    returns (cs: seq<seq<Hop>>)
    requires s in structs && k <= |structs[s]| && s !in visited
    ensures Lists(structs, s, target, prefix, visited, k, |structs[s]|, cs, PathsFrom(structs, s, k, target, prefix, visited + {s}))
    decreases structs.Keys - visited, 2 + |structs[s]| - k
  {
    if k == |structs[s]| {
      cs := [];
    } else {
      var here := ListsAt(structs, s, target, prefix, visited, k);
      var later := ListsFrom(structs, s, target, prefix, visited, k + 1);
      cs := here + later;
      ListsAppend(structs, s, target, prefix, visited, k, k + 1, |structs[s]|,
                  here, PathsAt(structs, structs[s][k], target, prefix, visited + {s}),
                  later, PathsFrom(structs, s, k + 1, target, prefix, visited + {s}));
    }
  }

  lemma {:induction false} ListsAll(structs: Structs, s: string, target: string, prefix: FieldPath, visited: set<string>)
    returns (cs: seq<seq<Hop>>)
    requires s in structs
    ensures Lists(structs, s, target, prefix, visited, 0, |structs[s]|, cs, Paths(structs, s, target, prefix, visited))
    decreases structs.Keys - visited, 3 + if s in structs then |structs[s]| else 0
  {
    if s in visited {
      cs := [];
    } else {
      cs := ListsFrom(structs, s, target, prefix, visited, 0);
    }
  }

  /** The search returns the names along the repetition-free chains, one entry for each chain. */
  lemma PathsListChains(structs: Structs, s: string, target: string, prefix: FieldPath, visited: set<string>)
    returns (cs: seq<seq<Hop>>)
    ensures |cs| == |Paths(structs, s, target, prefix, visited)|
    ensures forall i, j :: 0 <= i < j < |cs| ==> cs[i] != cs[j]
    ensures forall c :: c in cs <==> Chain(structs, s, target, c) && Repetitionless(c, visited)
    ensures forall i :: 0 <= i < |cs| ==>
              cs[i] in cs && Paths(structs, s, target, prefix, visited)[i] == prefix + NamesOf(structs, s, target, cs[i])
  {
    if s in structs {
      cs := ListsAll(structs, s, target, prefix, visited);
      forall c ensures c in cs <==> Chain(structs, s, target, c) && Repetitionless(c, visited) {
        assert c in cs <==> ChainBetween(structs, s, target, visited, 0, |structs[s]|, c);
      }
    } else {
      cs := [];
    }
  }

  /** Membership alone: a path is returned iff a repetition-free chain spells it. */
  lemma PathsExact(structs: Structs, s: string, target: string, prefix: FieldPath, visited: set<string>, p: FieldPath)
    ensures p in Paths(structs, s, target, prefix, visited) <==>
              exists c :: Chain(structs, s, target, c) && Repetitionless(c, visited) && p == prefix + NamesOf(structs, s, target, c)
  {
    var ps := Paths(structs, s, target, prefix, visited);
    var cs := PathsListChains(structs, s, target, prefix, visited);
    if p in ps {
      var i :| 0 <= i < |ps| && ps[i] == p;
      assert cs[i] in cs;
    }
    forall c | Chain(structs, s, target, c) && Repetitionless(c, visited) && p == prefix + NamesOf(structs, s, target, c)
      ensures p in ps
    {
      assert c in cs;
      var i :| 0 <= i < |cs| && cs[i] == c;
      assert ps[i] == p;
    }
  }

  // ---------------------------------------------------------------- loop erasure

  lemma {:induction false} ChainSuffix(structs: Structs, s: string, target: string, c: seq<Hop>, j: nat)
    requires Chain(structs, s, target, c) && j < |c|
    ensures Chain(structs, c[j].owner, target, c[j..])
    decreases |c|
  {
    if j == 0 {
      assert c[0..] == c;
    } else {
      ChainSuffix(structs, c[1].owner, target, c[1..], j - 1);
      assert c[1..][j - 1..] == c[j..];
    }
  }

  /** Cutting the loop between two visits of the same struct leaves a chain. */
  lemma {:induction false} Splice(structs: Structs, s: string, target: string, c: seq<Hop>, i: nat, j: nat)
    requires Chain(structs, s, target, c) && i < j < |c| && c[i].owner == c[j].owner
    ensures Chain(structs, s, target, c[..i] + c[j..])
    decreases |c|
  {
    if i == 0 {
      ChainSuffix(structs, s, target, c, j);
      assert c[..0] + c[j..] == c[j..];
    } else {
      var rest := c[1..];
      Splice(structs, c[1].owner, target, rest, i - 1, j - 1);
      assert (c[..i] + c[j..])[1..] == rest[..i - 1] + rest[j - 1..];
    }
  }

  lemma {:induction false} EraseLoops(structs: Structs, s: string, target: string, c: seq<Hop>) returns (d: seq<Hop>)
    requires Chain(structs, s, target, c)
    ensures Chain(structs, s, target, d) && Repetitionless(d, {})
    decreases |c|
  {
    if i, j :| 0 <= i < j < |c| && c[i].owner == c[j].owner {
      Splice(structs, s, target, c, i, j);
      d := EraseLoops(structs, s, target, c[..i] + c[j..]);
    } else {
      d := c;
    }
  }

  /** A walk through shown fields that ends in one of the reference type. It may revisit structs and
      may step through a field of the reference type on its way. */
  ghost predicate Walk(structs: Structs, s: string, target: string, c: seq<Hop>)
    decreases |c|
  {
    && c != [] && c[0].owner == s && s in structs && c[0].index < |structs[s]|
    && var f := structs[s][c[0].index];
       Shown(f) && if |c| == 1 then RefersTo(f, target)
                   else BaseName(f.typ, c[1].owner) && Walk(structs, c[1].owner, target, c[1..])
  }

  /** Stopping a walk at its first field of the reference type leaves a chain. */
  lemma {:induction false} StopAtHit(structs: Structs, s: string, target: string, c: seq<Hop>) returns (n: nat)
    requires Walk(structs, s, target, c)
    ensures n <= |c| && Chain(structs, s, target, c[..n])
    decreases |c|
  {
    if RefersTo(structs[s][c[0].index], target) {
      n := 1;
    } else {
      var m := StopAtHit(structs, c[1].owner, target, c[1..]);
      n := m + 1;
      assert c[..n][1..] == c[1..][..m];
    }
  }

  lemma {:induction false} ChainIsWalk(structs: Structs, s: string, target: string, c: seq<Hop>)
    requires Chain(structs, s, target, c)
    ensures Walk(structs, s, target, c)
    decreases |c|
  {
    if |c| > 1 {
      ChainIsWalk(structs, c[1].owner, target, c[1..]);
    }
  }

  ghost predicate Reachable(structs: Structs, s: string, target: string) {
    exists c :: Walk(structs, s, target, c)
  }

  /** Neither refusing to revisit structs nor stopping at the first hit loses reachability: paths are
      found iff any walk at all leads to the reference type. */
  lemma FoundIffReachable(structs: Structs, s: string, target: string, prefix: FieldPath)
    ensures Paths(structs, s, target, prefix, {}) != [] <==> Reachable(structs, s, target)
  {
    var found := Paths(structs, s, target, prefix, {});
    var cs := PathsListChains(structs, s, target, prefix, {});
    if found != [] {
      assert cs[0] in cs;
      ChainIsWalk(structs, s, target, cs[0]);
    }
    if Reachable(structs, s, target) {
      var c :| Walk(structs, s, target, c);
      var n := StopAtHit(structs, s, target, c);
      var d := EraseLoops(structs, s, target, c[..n]);
      assert d in cs;
    }
  }
}
