/**
 * The orders and sorts that the scripts and mocks rely on: code-point order on strings,
 * the (-count, name) key of the migration tracker, and stable sorting by a comparator.
 */
module Ordering {

  /** Python's and Go's `<` on strings. */
  predicate StrLess(a: string, b: string)
    decreases a
  {
    b != [] && (a == [] || a[0] < b[0] || (a[0] == b[0] && StrLess(a[1..], b[1..])))
  }

  lemma {:induction false} StrLessIrreflexive(a: string)
    ensures !StrLess(a, a)
  {
    if a != [] {
      StrLessIrreflexive(a[1..]);
    }
  }

  lemma {:induction false} StrLessTransitive(a: string, b: string, c: string)
    requires StrLess(a, b) && StrLess(b, c)
    ensures StrLess(a, c)
    decreases a
  {
    if a != [] && a[0] == b[0] == c[0] {
      StrLessTransitive(a[1..], b[1..], c[1..]);
    }
  }

  lemma {:induction false} StrLessTotal(a: string, b: string)
    ensures a == b || StrLess(a, b) || StrLess(b, a)
    decreases a
  {
    if a != [] && b != [] && a[0] == b[0] {
      StrLessTotal(a[1..], b[1..]);
      assert a == [a[0]] + a[1..] && b == [b[0]] + b[1..];
    }
  }

  /** Character order, said of positions: a proper prefix comes first, and otherwise the first
      difference decides. */
  ghost predicate Alphabetical(a: string, b: string) {
    a != b && (a <= b || exists k :: FirstDifference(a, b, k) && a[k] < b[k])
  }

  ghost predicate FirstDifference(a: string, b: string, k: int) {
    0 <= k < |a| && k < |b| && a[..k] == b[..k] && a[k] != b[k]
  }

  lemma {:induction false} StrLessIsAlphabetical(a: string, b: string)
    ensures StrLess(a, b) <==> Alphabetical(a, b)
    decreases a
  {
    if a == [] || b == [] {
      assert b == [] && a != [] ==> !(a <= b);
    } else if a[0] != b[0] {
      assert FirstDifference(a, b, 0);
      assert forall k :: k > 0 && FirstDifference(a, b, k) ==> a[..k][0] == b[..k][0];
    } else {
      var s, t := a[1..], b[1..];
      assert a == [a[0]] + s && b == [b[0]] + t;
      StrLessIsAlphabetical(s, t);
      assert StrLess(a, b) <==> StrLess(s, t);
      hide StrLess;
      if k :| FirstDifference(s, t, k) && s[k] < t[k] {
        assert a[..k + 1] == [a[0]] + s[..k] && b[..k + 1] == [b[0]] + t[..k];
        assert FirstDifference(a, b, k + 1);
      }
      if k :| FirstDifference(a, b, k) && a[k] < b[k] {
        assert s[..k - 1] == a[..k][1..] && t[..k - 1] == b[..k][1..];
        assert FirstDifference(s, t, k - 1);
      }
      assert a <= b <==> s <= t;
    }
  }

  /** `downstream_counts.get(x, 0)`. */
  function CountOf(counts: map<string, nat>, a: string): nat {
    if a in counts then counts[a] else 0
  }

  /** The key `(-downstream_counts.get(x, 0), x)`; with no counts it is plain name order. */
  predicate Before(counts: map<string, nat>, a: string, b: string) {
    || CountOf(counts, a) > CountOf(counts, b)
    || (CountOf(counts, a) == CountOf(counts, b) && StrLess(a, b))
  }

  function KeyOrder(counts: map<string, nat>): (string, string) -> bool {
    (a, b) => Before(counts, a, b)
  }

  lemma BeforeStrictTotal(counts: map<string, nat>, a: string, b: string)
    ensures !Before(counts, a, a)
    ensures a == b || Before(counts, a, b) || Before(counts, b, a)
    ensures !(Before(counts, a, b) && Before(counts, b, a))
  {
    StrLessIrreflexive(a);
    StrLessTotal(a, b);
    if StrLess(a, b) && StrLess(b, a) {
      StrLessTransitive(a, b, a);
    }
  }

  lemma BeforeTransitive(counts: map<string, nat>, a: string, b: string, c: string)
    requires Before(counts, a, b) && Before(counts, b, c)
    ensures Before(counts, a, c)
  {
    if StrLess(a, b) && StrLess(b, c) {
      StrLessTransitive(a, b, c);
    }
  }

  lemma KeyOrderIsStrictWeak(counts: map<string, nat>)
    ensures StrictWeakOrder(KeyOrder(counts))
  {
    var lt := KeyOrder(counts);
    forall x ensures !lt(x, x) {
      BeforeStrictTotal(counts, x, x);
    }
    forall x, y, z | lt(x, y) && lt(y, z) ensures lt(x, z) {
      BeforeTransitive(counts, x, y, z);
    }
    forall x, y, z | lt(x, z) ensures lt(x, y) || lt(y, z) {
      BeforeStrictTotal(counts, x, y);
      if Before(counts, y, x) {
        BeforeTransitive(counts, y, x, z);
      }
    }
  }

  // ---------------------------------------------------------------- stable sorting

  ghost predicate StrictWeakOrder<T(!new)>(lt: (T, T) -> bool) {
    && (forall x :: !lt(x, x))
    && (forall x, y, z :: lt(x, y) && lt(y, z) ==> lt(x, z))
    && (forall x, y, z :: lt(x, z) ==> lt(x, y) || lt(y, z))
  }

  predicate Sorted<T>(lt: (T, T) -> bool, s: seq<T>) {
    forall i, j :: 0 <= i < j < |s| ==> !lt(s[j], s[i])
  }

  predicate Equivalent<T>(lt: (T, T) -> bool, x: T, y: T) {
    !lt(x, y) && !lt(y, x)
  }

  /** The elements of `s` the comparator cannot tell from `x`, in the order they occur. */
  function Class<T>(lt: (T, T) -> bool, x: T, s: seq<T>): seq<T> {
    if s == [] then []
    else (if Equivalent(lt, x, s[0]) then [s[0]] else []) + Class(lt, x, s[1..])
  }

  function Insert<T>(lt: (T, T) -> bool, x: T, s: seq<T>): seq<T> {
    if s == [] || !lt(s[0], x) then [x] + s else [s[0]] + Insert(lt, x, s[1..])
  }

  /** Python's `sort`/`sorted` and Go's `sort.SliceStable`. */
  function StableSort<T>(lt: (T, T) -> bool, s: seq<T>): seq<T> {
    if s == [] then [] else Insert(lt, s[0], StableSort(lt, s[1..]))
  }

  lemma {:induction false} InsertElements<T>(lt: (T, T) -> bool, x: T, s: seq<T>)
    ensures multiset(Insert(lt, x, s)) == multiset{x} + multiset(s)
  {
    if s == [] || !lt(s[0], x) {
    } else {
      InsertElements(lt, x, s[1..]);
      assert s == [s[0]] + s[1..];
    }
  }

  lemma {:induction false} InsertSorted<T(!new)>(lt: (T, T) -> bool, x: T, s: seq<T>)
    requires StrictWeakOrder(lt) && Sorted(lt, s)
    ensures Sorted(lt, Insert(lt, x, s))
  {
    if s == [] {
    } else if !lt(s[0], x) {
      forall k | 0 <= k < |s| ensures !lt(s[k], x) {
        assert k == 0 || !lt(s[k], s[0]);
      }
      SortedCons(lt, x, s);
    } else {
      var t := Insert(lt, x, s[1..]);
      InsertSorted(lt, x, s[1..]);
      InsertElements(lt, x, s[1..]);
      forall k | 0 <= k < |t| ensures !lt(t[k], s[0]) {
        assert t[k] in multiset(t);
        assert t[k] == x || t[k] in s[1..];
      }
      SortedCons(lt, s[0], t);
    }
  }

  lemma SortedCons<T>(lt: (T, T) -> bool, x: T, s: seq<T>)
    requires Sorted(lt, s) && forall k :: 0 <= k < |s| ==> !lt(s[k], x)
    ensures Sorted(lt, [x] + s)
  {
  }

  lemma {:induction false} InsertStable<T(!new)>(lt: (T, T) -> bool, x: T, s: seq<T>, c: T)
    requires StrictWeakOrder(lt)
    ensures Class(lt, c, Insert(lt, x, s)) == Class(lt, c, [x] + s)
  {
    if s == [] || !lt(s[0], x) {
    } else {
      InsertStable(lt, x, s[1..], c);
      var t := Insert(lt, x, s[1..]);
      assert ([s[0]] + t)[1..] == t;
      assert ([x] + s)[1..] == s;
      assert ([x] + s[1..])[1..] == s[1..];
      assert !(Equivalent(lt, c, x) && Equivalent(lt, c, s[0]));
    }
  }

  /** What a stable sort promises: sorted, a permutation, and ties left in input order. */
  lemma {:induction false} StableSortCorrect<T(!new)>(lt: (T, T) -> bool, s: seq<T>)
    requires StrictWeakOrder(lt)
    ensures Sorted(lt, StableSort(lt, s))
    ensures multiset(StableSort(lt, s)) == multiset(s)
    ensures forall c :: Class(lt, c, StableSort(lt, s)) == Class(lt, c, s)
  {
    if s != [] {
      var t := StableSort(lt, s[1..]);
      StableSortCorrect(lt, s[1..]);
      InsertSorted(lt, s[0], t);
      InsertElements(lt, s[0], t);
      assert s == [s[0]] + s[1..];
      forall c ensures Class(lt, c, StableSort(lt, s)) == Class(lt, c, s) {
        InsertStable(lt, s[0], t, c);
        assert ([s[0]] + t)[1..] == t;
      }
    }
  }

  /** `a` stands before `b` in `s`. */
  ghost predicate Precedes<T>(s: seq<T>, a: T, b: T) {
    exists i, j :: 0 <= i < j < |s| && s[i] == a && s[j] == b
  }

  lemma PrecedesCons<T>(x: T, s: seq<T>, a: T, b: T)
    ensures Precedes(s, a, b) ==> Precedes([x] + s, a, b)
    ensures b in s ==> Precedes([x] + s, x, b)
  {
    var t := [x] + s;
    if Precedes(s, a, b) {
      var i, j :| 0 <= i < j < |s| && s[i] == a && s[j] == b;
      assert t[i + 1] == a && t[j + 1] == b;
    }
    if b in s {
      var j :| 0 <= j < |s| && s[j] == b;
      assert t[0] == x && t[j + 1] == b;
    }
  }

  lemma {:induction false} InsertKeepsOrder<T>(lt: (T, T) -> bool, x: T, s: seq<T>, a: T, b: T)
    ensures Precedes(s, a, b) ==> Precedes(Insert(lt, x, s), a, b)
    ensures b in s && !lt(b, x) ==> Precedes(Insert(lt, x, s), x, b)
  {
    if s == [] || !lt(s[0], x) {
      PrecedesCons(x, s, a, b);
    } else {
      var t := s[1..];
      InsertKeepsOrder(lt, x, t, a, b);
      PrecedesCons(s[0], Insert(lt, x, t), a, b);
      PrecedesCons(s[0], Insert(lt, x, t), x, b);
      InsertElements(lt, x, t);
      if Precedes(s, a, b) {
        var i, j :| 0 <= i < j < |s| && s[i] == a && s[j] == b;
        if i == 0 {
          assert t[j - 1] == b;
          assert b in multiset(Insert(lt, x, t));
        } else {
          assert t[i - 1] == a && t[j - 1] == b;
        }
      }
    }
  }

  /** A later element never overtakes an earlier one that is not greater. */
  lemma {:induction false} StableSortKeepsOrder<T(!new)>(lt: (T, T) -> bool, s: seq<T>, i: nat, j: nat)
    requires StrictWeakOrder(lt) && i < j < |s| && !lt(s[j], s[i])
    ensures Precedes(StableSort(lt, s), s[i], s[j])
    decreases s
  {
    var t := s[1..];
    if i == 0 {
      StableSortCorrect(lt, t);
      assert s[j] == t[j - 1];
      assert s[j] in multiset(StableSort(lt, t));
    } else {
      StableSortKeepsOrder(lt, t, i - 1, j - 1);
    }
    InsertKeepsOrder(lt, s[0], StableSort(lt, t), s[i], s[j]);
  }

  lemma PrecedesAsymmetric<T>(s: seq<T>, a: T, b: T)
    requires NoDuplicates(s)
    ensures !(Precedes(s, a, b) && Precedes(s, b, a))
  {
  }

  lemma {:induction false} ClassMember<T>(lt: (T, T) -> bool, c: T, s: seq<T>, x: T)
    ensures x in Class(lt, c, s) <==> x in s && Equivalent(lt, c, x)
  {
    if s != [] {
      ClassMember(lt, c, s[1..], x);
    }
  }

  lemma OwnClassHead<T(!new)>(lt: (T, T) -> bool, s: seq<T>)
    requires StrictWeakOrder(lt) && s != []
    ensures Class(lt, s[0], s) != [] && Class(lt, s[0], s)[0] == s[0]
  {
  }

  /** Sortedness and stability pin the result down, so any stable sort computes `StableSort`. */
  lemma {:induction false} StableSortUnique<T(!new)>(lt: (T, T) -> bool, a: seq<T>, b: seq<T>)
    requires StrictWeakOrder(lt) && Sorted(lt, a) && Sorted(lt, b)
    requires forall c :: Class(lt, c, a) == Class(lt, c, b)
    ensures a == b
  {
    if a == [] {
      if b != [] {
        OwnClassHead(lt, b);
      }
    } else if b == [] {
      OwnClassHead(lt, a);
    } else {
      ClassMember(lt, a[0], a, a[0]);
      ClassMember(lt, a[0], b, a[0]);
      ClassMember(lt, b[0], b, b[0]);
      ClassMember(lt, b[0], a, b[0]);
      assert Equivalent(lt, a[0], b[0]);
      assert Class(lt, a[0], a)[0] == a[0] && Class(lt, a[0], b)[0] == b[0];
      forall c ensures Class(lt, c, a[1..]) == Class(lt, c, b[1..]) {
        assert Class(lt, c, a) == Class(lt, c, b);
        if Equivalent(lt, c, a[0]) {
          assert Class(lt, c, a)[1..] == Class(lt, c, a[1..]);
          assert Class(lt, c, b)[1..] == Class(lt, c, b[1..]);
        } else {
          assert Class(lt, c, a) == Class(lt, c, a[1..]);
          assert Class(lt, c, b) == Class(lt, c, b[1..]);
        }
      }
      StableSortUnique(lt, a[1..], b[1..]);
      assert a == [a[0]] + a[1..] && b == [b[0]] + b[1..];
    }
  }

  // ---------------------------------------------------------------- sorting, position by position

  /** `order` lists the positions of `s` by key and, among equal keys, from front to back. */
  ghost predicate SortingOrder<T(!new)>(lt: (T, T) -> bool, s: seq<T>, order: seq<nat>) {
    && |order| == |s| && (forall i :: 0 <= i < |order| ==> order[i] < |s|)
    && forall i, j :: 0 <= i < j < |order| ==>
         order[i] != order[j] && !lt(s[order[j]], s[order[i]]) && (lt(s[order[i]], s[order[j]]) || order[i] < order[j])
  }

  lemma {:induction false} InsertPosition<T(!new)>(lt: (T, T) -> bool, x: T, s: seq<T>) returns (p: nat)
    ensures p <= |s| && Insert(lt, x, s) == s[..p] + [x] + s[p..]
    ensures forall i :: 0 <= i < p ==> lt(s[i], x)
    ensures p < |s| ==> !lt(s[p], x)
  {
    if s == [] || !lt(s[0], x) {
      p := 0;
    } else {
      var q := InsertPosition(lt, x, s[1..]);
      p := q + 1;
      assert s[..p] == [s[0]] + s[1..][..q] && s[p..] == s[1..][q..];
    }
  }

  /** A stable sort moves the elements by such an order. */
  lemma {:induction false} StableSortPositions<T(!new)>(lt: (T, T) -> bool, s: seq<T>) returns (order: seq<nat>)
    requires StrictWeakOrder(lt)
    ensures SortingOrder(lt, s, order) && |StableSort(lt, s)| == |s| == |order|
    ensures forall i :: 0 <= i < |s| ==> order[i] < |s| && StableSort(lt, s)[i] == s[order[i]]
  {
    if s == [] {
      order := [];
    } else {
      var rest := StableSortPositions(lt, s[1..]);
      var t := StableSort(lt, s[1..]);
      var p := InsertPosition(lt, s[0], t);
      order := seq(|s|, i requires 0 <= i < |s| => MovedPosition(rest, p, i));
      hide StrictWeakOrder, SortingOrder, Insert;
      TailPositions(s, t, rest);
      InsertedOrder(lt, s, rest, p, order);
      InsertedElements(s, t, rest, p);
    }
  }

  lemma TailPositions<T>(s: seq<T>, t: seq<T>, rest: seq<nat>)
    requires s != [] && |t| == |rest| == |s| - 1 && forall i :: 0 <= i < |rest| ==> rest[i] < |s[1..]|
    requires forall i :: 0 <= i < |s[1..]| ==> t[i] == s[1..][rest[i]]
    ensures forall i :: 0 <= i < |rest| ==> rest[i] + 1 < |s| && t[i] == s[rest[i] + 1]
  {
  }

  lemma InsertedElements<T>(s: seq<T>, t: seq<T>, rest: seq<nat>, p: nat)
    requires s != [] && |t| == |rest| == |s| - 1 && p <= |rest|
    requires forall i :: 0 <= i < |rest| ==> rest[i] + 1 < |s| && t[i] == s[rest[i] + 1]
    ensures forall i :: 0 <= i < |s| ==>
              MovedPosition(rest, p, i) < |s| && (t[..p] + [s[0]] + t[p..])[i] == s[MovedPosition(rest, p, i)]
  {
  }

  /** Where the element at place `i` comes from, once the first element is put at place `p`. */
  ghost function MovedPosition(rest: seq<nat>, p: nat, i: nat): nat
    requires i <= |rest| && p <= |rest|
  {
    if i < p then rest[i] + 1 else if i == p then 0 else rest[i - 1] + 1
  }

  lemma InsertedOrder<T(!new)>(lt: (T, T) -> bool, s: seq<T>, rest: seq<nat>, p: nat, order: seq<nat>)
    requires StrictWeakOrder(lt) && s != [] && SortingOrder(lt, s[1..], rest) && p <= |rest| && |order| == |s|
    requires |order| == |rest| + 1 && forall i :: 0 <= i < |order| ==> order[i] == MovedPosition(rest, p, i)
    requires forall i :: 0 <= i < p ==> lt(s[rest[i] + 1], s[0])
    requires p < |rest| ==> !lt(s[rest[p] + 1], s[0])
    ensures SortingOrder(lt, s, order)
  {
    forall i | 0 <= i < |order| ensures order[i] < |s| {
      assert i < p ==> rest[i] < |s[1..]|;
      assert i > p ==> rest[i - 1] < |s[1..]|;
    }
    forall i, j | 0 <= i < j < |order|
      ensures order[i] != order[j] && !lt(s[order[j]], s[order[i]]) && (lt(s[order[i]], s[order[j]]) || order[i] < order[j])
    {
      var a, b := if i < p then i else i - 1, if j < p then j else j - 1;
      if i == p {
        assert p < b ==> !lt(s[1..][rest[b]], s[1..][rest[p]]);
        assert s[order[j]] == s[1..][rest[b]];
      } else if j != p {
        hide StrictWeakOrder;
        assert a < b && order[i] == rest[a] + 1 && order[j] == rest[b] + 1;
        assert s[1..][rest[a]] == s[order[i]] && s[1..][rest[b]] == s[order[j]];
      } else {
        assert order[i] == rest[i] + 1 && order[j] == 0;
      }
    }
  }

  // ---------------------------------------------------------------- sorted kinds

  ghost function Elems<T>(s: seq<T>): set<T> { set x | x in s }

  lemma EmptyElems<T>(s: seq<T>)
    ensures Elems(s) == {} ==> s == []
  {
    if s != [] {
      assert s[0] in Elems(s);
    }
  }

  /** `s` lists the members of `members` once each, in ascending key order. */
  ghost predicate Enumerates(counts: map<string, nat>, s: seq<string>, members: set<string>) {
    && Elems(s) == members
    && forall i, j :: 0 <= i < j < |s| ==> Before(counts, s[i], s[j])
  }

  ghost predicate NoDuplicates<T>(s: seq<T>) {
    forall i, j :: 0 <= i < j < |s| ==> s[i] != s[j]
  }

  ghost predicate NameOrdered(s: seq<string>) {
    forall i, j :: 0 <= i < j < |s| ==> Alphabetical(s[i], s[j])
  }

  lemma EnumerationIsNameOrdered(s: seq<string>, members: set<string>)
    requires Enumerates(map[], s, members)
    ensures NameOrdered(s)
  {
    hide Alphabetical, StrLess;
    forall i, j | 0 <= i < j < |s| ensures Alphabetical(s[i], s[j]) {
      assert Before(map[], s[i], s[j]);
      StrLessIsAlphabetical(s[i], s[j]);
    }
  }

  function SortKinds(counts: map<string, nat>, s: seq<string>): seq<string> {
    StableSort(KeyOrder(counts), s)
  }

  lemma SortKindsSame(counts: map<string, nat>, s: seq<string>)
    ensures multiset(SortKinds(counts, s)) == multiset(s)
    ensures |SortKinds(counts, s)| == |s|
    ensures forall x :: x in SortKinds(counts, s) <==> x in s
  {
    var lt := KeyOrder(counts);
    KeyOrderIsStrictWeak(counts);
    StableSortCorrect(lt, s);
    var r := SortKinds(counts, s);
    assert |multiset(r)| == |multiset(s)|;
    forall x ensures x in r <==> x in s {
      assert x in multiset(r) <==> x in multiset(s);
    }
  }

  lemma {:induction false} MultiplicityOne<T>(s: seq<T>, x: T)
    requires NoDuplicates(s)
    ensures multiset(s)[x] <= 1
  {
    if s != [] {
      assert s == [s[0]] + s[1..];
      MultiplicityOne(s[1..], x);
      assert s[0] !in s[1..];
    }
  }

  lemma MultiplicityTwo<T>(s: seq<T>, i: nat, j: nat)
    requires i < j < |s| && s[i] == s[j]
    ensures multiset(s)[s[i]] >= 2
  {
    assert s == s[..i] + [s[i]] + s[i + 1..j] + [s[j]] + s[j + 1..];
  }

  lemma MultisetNoDuplicates<T>(a: seq<T>, b: seq<T>)
    requires multiset(a) == multiset(b) && NoDuplicates(b)
    ensures NoDuplicates(a)
  {
    forall i, j | 0 <= i < j < |a| ensures a[i] != a[j] {
      MultiplicityOne(b, a[i]);
      if a[i] == a[j] {
        MultiplicityTwo(a, i, j);
      }
    }
  }

  lemma SortKindsEnumerates(counts: map<string, nat>, s: seq<string>)
    requires NoDuplicates(s)
    ensures Enumerates(counts, SortKinds(counts, s), Elems(s))
  {
    var r := SortKinds(counts, s);
    KeyOrderIsStrictWeak(counts);
    StableSortCorrect(KeyOrder(counts), s);
    SortKindsSame(counts, s);
    MultisetNoDuplicates(r, s);
    forall i, j | 0 <= i < j < |r| ensures Before(counts, r[i], r[j]) {
      assert !KeyOrder(counts)(r[j], r[i]);
      BeforeStrictTotal(counts, r[i], r[j]);
    }
  }

  lemma {:induction false} EnumerationUnique(counts: map<string, nat>, a: seq<string>, b: seq<string>, members: set<string>)
    requires Enumerates(counts, a, members) && Enumerates(counts, b, members)
    ensures a == b
    decreases |a|
  {
    if a == [] {
      assert forall i :: 0 <= i < |b| ==> b[i] in members;
    } else {
      assert a[0] in members;
      var k :| 0 <= k < |b| && b[k] == a[0];
      assert b[0] in members;
      var m :| 0 <= m < |a| && a[m] == b[0];
      BeforeStrictTotal(counts, a[0], b[0]);
      assert a[0] == b[0];
      EnumerationTail(counts, a, members);
      EnumerationTail(counts, b, members);
      EnumerationUnique(counts, a[1..], b[1..], members - {a[0]});
      assert a == [a[0]] + a[1..] && b == [b[0]] + b[1..];
    }
  }

  lemma EnumerationTail(counts: map<string, nat>, a: seq<string>, members: set<string>)
    requires Enumerates(counts, a, members) && a != []
    ensures Enumerates(counts, a[1..], members - {a[0]})
  {
    forall x | x in a[1..] ensures x in members && x != a[0] {
      var i :| 0 <= i < |a| - 1 && a[i + 1] == x;
      assert Before(counts, a[0], a[i + 1]);
      BeforeStrictTotal(counts, a[0], a[0]);
    }
    forall x | x in members - {a[0]} ensures x in a[1..] {
      var i :| 0 <= i < |a| && a[i] == x;
      assert a[1..][i - 1] == x;
    }
  }

  lemma EnumerationElems(counts: map<string, nat>, s: seq<string>, members: set<string>)
    requires Enumerates(counts, s, members)
    ensures Elems(s) == members
  {
  }

  lemma EnumerationDistinct(counts: map<string, nat>, s: seq<string>, members: set<string>)
    requires Enumerates(counts, s, members)
    ensures NoDuplicates(s)
  {
    forall i, j | 0 <= i < j < |s| ensures s[i] != s[j] {
      assert Before(counts, s[i], s[j]);
      BeforeStrictTotal(counts, s[i], s[i]);
    }
  }
}
