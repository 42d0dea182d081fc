/** The LINQ-to-objects operators the student queries are built from, over
    finite sequences, each with the contract the .NET library documents:
    Where, Select, SelectMany, Sum and Average, the stable OrderBy, GroupBy,
    Skip and Take, Single and FirstOrDefault. */
module Linq {
  import opened Wrappers

  // ---------------------------------------------------------------------
  // Subsequences

  /** a can be obtained from b by deleting elements (greedy matching). */
  predicate IsSubsequence<T(==,!new)>(a: seq<T>, b: seq<T>) {
    if a == [] then true
    else if b == [] then false
    else if a[0] == b[0] then IsSubsequence(a[1..], b[1..])
    else IsSubsequence(a, b[1..])
  }

  // ---------------------------------------------------------------------
  // Where

  /** Enumerable.Where: the elements satisfying p, in their original order,
      each as often as it occurs in xs. */
  function Where<T(==,!new)>(xs: seq<T>, p: T -> bool): (r: seq<T>)
    ensures |r| <= |xs|
  {
    if xs == [] then [] else (if p(xs[0]) then [xs[0]] else []) + Where(xs[1..], p)
  }

  /** An element is kept exactly when it occurs in xs and satisfies p. */
  lemma {:induction false} WhereMembers<T(!new)>(xs: seq<T>, p: T -> bool)
    ensures forall x :: x in Where(xs, p) <==> x in xs && p(x)
  {
    if xs != [] {
      WhereMembers(xs[1..], p);
      assert xs == [xs[0]] + xs[1..];
    }
  }

  /** Where keeps every occurrence of an element that satisfies p, and nothing else. */
  lemma {:induction false} WhereMultiset<T(!new)>(xs: seq<T>, p: T -> bool)
    ensures forall x :: multiset(Where(xs, p))[x] == if p(x) then multiset(xs)[x] else 0
  {
    if xs != [] {
      WhereMultiset(xs[1..], p);
      assert xs == [xs[0]] + xs[1..];
      assert multiset(xs) == multiset{xs[0]} + multiset(xs[1..]);
    }
  }

  /** Where keeps the order of the elements it keeps. */
  lemma {:induction false} WhereIsSubsequence<T(!new)>(xs: seq<T>, p: T -> bool)
    ensures IsSubsequence(Where(xs, p), xs)
  {
    if xs != [] {
      WhereIsSubsequence(xs[1..], p);
      WhereMembers(xs[1..], p);
      var r := Where(xs, p);
      if p(xs[0]) {
        assert r[0] == xs[0];
        assert r[1..] == Where(xs[1..], p);
      } else if r != [] {
        assert r[0] in r;
        assert r[0] != xs[0];
        assert r == Where(xs[1..], p);
      }
    }
  }

  lemma {:induction false} WhereConcat<T(!new)>(a: seq<T>, b: seq<T>, p: T -> bool)
    ensures Where(a + b, p) == Where(a, p) + Where(b, p)
  {
    if a == [] {
      assert a + b == b;
    } else {
      var kept := if p(a[0]) then [a[0]] else [];
      assert (a + b)[0] == a[0];
      assert (a + b)[1..] == a[1..] + b;
      WhereConcat(a[1..], b, p);
      calc {
        Where(a + b, p);
        kept + Where(a[1..] + b, p);
        kept + (Where(a[1..], p) + Where(b, p));
        (kept + Where(a[1..], p)) + Where(b, p);
      }
    }
  }

  lemma WhereNone<T(!new)>(xs: seq<T>, p: T -> bool)
    requires forall i :: 0 <= i < |xs| ==> !p(xs[i])
    ensures Where(xs, p) == []
  {
  }

  /** Where depends only on the values of the predicate. */
  lemma {:induction false} WhereExt<T(!new)>(xs: seq<T>, p: T -> bool, q: T -> bool)
    requires forall x :: x in xs ==> p(x) == q(x)
    ensures Where(xs, p) == Where(xs, q)
  {
    if xs != [] {
      WhereExt(xs[1..], p, q);
    }
  }

  // ---------------------------------------------------------------------
  // Select, SelectMany, Sum, Average

  /** Enumerable.Select: element i of the result is computed from element i alone. */
  function Select<T, U>(xs: seq<T>, f: T -> U): (r: seq<U>)
    ensures |r| == |xs|
    ensures forall i :: 0 <= i < |xs| ==> r[i] == f(xs[i])
  {
    if xs == [] then [] else [f(xs[0])] + Select(xs[1..], f)
  }

  lemma {:induction false} SelectConcat<T, U>(a: seq<T>, b: seq<T>, f: T -> U)
    ensures Select(a + b, f) == Select(a, f) + Select(b, f)
  {
    if a == [] {
      assert a + b == b;
    } else {
      assert (a + b)[1..] == a[1..] + b;
      SelectConcat(a[1..], b, f);
    }
  }

  function Sum(xs: seq<int>): int {
    if xs == [] then 0 else xs[0] + Sum(xs[1..])
  }

  /** Enumerable.Average over ints, computed exactly; the library throws on an empty sequence. */
  function Average(xs: seq<int>): real
    requires |xs| > 0
  {
    Sum(xs) as real / |xs| as real
  }

  /** Comparing an average with a threshold is comparing the sum with the
      threshold times the count. */
  lemma AverageAbove(xs: seq<int>, m: real)
    requires |xs| > 0
    ensures Average(xs) > m <==> Sum(xs) as real > m * |xs| as real
  {
    var n := |xs| as real;
    var a := Average(xs);
    assert a * n == Sum(xs) as real;
    if a > m {
      assert a * n > m * n;
    } else {
      assert a * n <= m * n;
    }
  }

  /** For a whole-number threshold the comparison stays in the integers. */
  lemma AverageAboveWhole(xs: seq<int>, m: int)
    requires |xs| > 0
    ensures Average(xs) > m as real <==> Sum(xs) > m * |xs|
  {
    AverageAbove(xs, m as real);
    assert (m * |xs|) as real == m as real * |xs| as real;
  }

  /** Enumerable.SelectMany: the concatenation of f(x) over x in xs, in order. */
  function SelectMany<T, U(!new)>(xs: seq<T>, f: T -> seq<U>): (r: seq<U>)
    ensures |r| == Sum(Select(xs, (x: T) => |f(x)|))
    ensures forall y :: y in r ==> exists i :: 0 <= i < |xs| && y in f(xs[i])
  {
    if xs == [] then []
    else
      var rest := SelectMany(xs[1..], f);
      assert Select(xs, (x: T) => |f(x)|) == [|f(xs[0])|] + Select(xs[1..], (x: T) => |f(x)|);
      assert forall y :: y in rest ==> exists i :: 1 <= i < |xs| && y in f(xs[i]) by {
        forall y | y in rest ensures exists i :: 1 <= i < |xs| && y in f(xs[i]) {
          var j :| 0 <= j < |xs[1..]| && y in f(xs[1..][j]);
          assert xs[1..][j] == xs[j + 1];
        }
      }
      f(xs[0]) + rest
  }

  lemma {:induction false} SelectManyConcat<T, U(!new)>(a: seq<T>, b: seq<T>, f: T -> seq<U>)
    ensures SelectMany(a + b, f) == SelectMany(a, f) + SelectMany(b, f)
  {
    if a == [] {
      assert a + b == b;
    } else {
      assert (a + b)[1..] == a[1..] + b;
      SelectManyConcat(a[1..], b, f);
    }
  }

  // ---------------------------------------------------------------------
  // OrderBy / ThenBy / OrderByDescending: a stable sort

  ghost predicate Chained<T>(le: (T, T) -> bool, x: T, y: T, z: T) {
    le(x, y) && le(y, z)
  }

  /** le is a total preorder: what a key comparer induces on the elements.
      Transitivity is triggered only on demand, through Chained. */
  ghost predicate TotalPreorder<T(!new)>(le: (T, T) -> bool) {
    && (forall x, y :: le(x, y) || le(y, x))
    && (forall x, y, z {:trigger Chained(le, x, y, z)} :: Chained(le, x, y, z) ==> le(x, z))
  }

  lemma Transitive<T(!new)>(le: (T, T) -> bool, x: T, y: T, z: T)
    requires TotalPreorder(le) && le(x, y) && le(y, z)
    ensures le(x, z)
  {
    assert Chained(le, x, y, z);
  }

  /** x and y compare equal under le. */
  predicate Equiv<T>(le: (T, T) -> bool, x: T, y: T) {
    le(x, y) && le(y, x)
  }

  predicate SortedBy<T>(s: seq<T>, le: (T, T) -> bool) {
    forall i, j :: 0 <= i < j < |s| ==> le(s[i], s[j])
  }

  /** The elements of xs that compare equal to c, in the order xs has them. */
  function EquivClass<T(==,!new)>(xs: seq<T>, le: (T, T) -> bool, c: T): seq<T> {
    Where(xs, EquivTo(le, c))
  }

  function EquivTo<T>(le: (T, T) -> bool, c: T): T -> bool {
    (y: T) => Equiv(le, y, c)
  }

  /** Where x goes in s: before the first element it does not follow. */
  function InsertPos<T>(x: T, s: seq<T>, le: (T, T) -> bool): (k: nat)
    ensures k <= |s|
    ensures forall i :: 0 <= i < k ==> !le(x, s[i])
    ensures k < |s| ==> le(x, s[k])
  {
    if s == [] then 0 else if le(x, s[0]) then 0 else 1 + InsertPos(x, s[1..], le)
  }

  function Insert<T>(x: T, s: seq<T>, le: (T, T) -> bool): seq<T> {
    var k := InsertPos(x, s, le);
    s[..k] + [x] + s[k..]
  }

  lemma InsertSorted<T(!new)>(x: T, s: seq<T>, le: (T, T) -> bool)
    requires TotalPreorder(le) && SortedBy(s, le)
    ensures SortedBy(Insert(x, s, le), le)
  {
    var k := InsertPos(x, s, le);
    var r := Insert(x, s, le);
    assert |r| == |s| + 1;
    assert forall i :: 0 <= i < k ==> r[i] == s[i];
    assert r[k] == x;
    assert forall i :: k < i < |r| ==> r[i] == s[i - 1];
    forall i, j | 0 <= i < j < |r|
      ensures le(r[i], r[j])
    {
      if j < k {
      } else if j == k {
        assert !le(x, s[i]);
      } else if i < k {
      } else if i == k {
        if j - 1 > k {
          Transitive(le, x, s[k], s[j - 1]);
        }
      } else {
      }
    }
  }

  /** No element before the insertion point of x compares equal to x. */
  lemma PrefixNotEquiv<T(!new)>(x: T, s: seq<T>, le: (T, T) -> bool, c: T, k: nat)
    requires TotalPreorder(le) && Equiv(le, x, c) && k <= |s|
    requires forall i :: 0 <= i < k ==> !le(x, s[i])
    ensures Where(s[..k], EquivTo(le, c)) == []
  {
    var p := EquivTo(le, c);
    forall i | 0 <= i < k
      ensures !p(s[..k][i])
    {
      assert s[..k][i] == s[i];
      if p(s[i]) {
        Transitive(le, x, c, s[i]);
      }
    }
    WhereNone(s[..k], p);
  }

  lemma WhereSingleton<T(!new)>(x: T, p: T -> bool)
    ensures Where([x], p) == if p(x) then [x] else []
  {
    assert [x][1..] == [];
    assert Where([x][1..], p) == [];
  }

  /** Where over a sequence with x put in at position k, and over the sequence without it. */
  lemma {:induction false} WhereAround<T(!new)>(s: seq<T>, k: nat, x: T, p: T -> bool)
    requires k <= |s|
    ensures Where(s[..k] + [x] + s[k..], p) == Where(s[..k], p) + (if p(x) then [x] else []) + Where(s[k..], p)
    ensures Where(s, p) == Where(s[..k], p) + Where(s[k..], p)
  {
    WhereInserted(s[..k], x, s[k..], p);
    WhereSplit(s, k, p);
  }

  lemma {:induction false} WhereSplit<T(!new)>(s: seq<T>, k: nat, p: T -> bool)
    requires k <= |s|
    ensures Where(s, p) == Where(s[..k], p) + Where(s[k..], p)
  {
    assert s[..k] + s[k..] == s;
    WhereConcat(s[..k], s[k..], p);
  }

  lemma {:induction false} WhereInserted<T(!new)>(a: seq<T>, x: T, b: seq<T>, p: T -> bool)
    ensures Where(a + [x] + b, p) == Where(a, p) + (if p(x) then [x] else []) + Where(b, p)
  {
    WhereSingleton(x, p);
    WhereConcat(a, [x], p);
    WhereConcat(a + [x], b, p);
  }

  lemma InsertStable<T(!new)>(x: T, s: seq<T>, le: (T, T) -> bool, c: T)
    requires TotalPreorder(le)
    ensures EquivClass(Insert(x, s, le), le, c)
         == (if Equiv(le, x, c) then [x] else []) + EquivClass(s, le, c)
  {
    if Equiv(le, x, c) {
      PrefixNotEquiv(x, s, le, c, InsertPos(x, s, le));
      InsertJoinsClass(x, s, le, c);
    } else {
      InsertSkipsClass(x, s, le, c);
    }
  }

  /** An element equivalent to c, inserted after no member of c's class, is placed ahead of the rest of it. */
  lemma {:induction false} InsertJoinsClass<T(!new)>(x: T, s: seq<T>, le: (T, T) -> bool, c: T)
    requires Equiv(le, x, c) && Where(s[..InsertPos(x, s, le)], EquivTo(le, c)) == []
    ensures EquivClass(Insert(x, s, le), le, c) == [x] + EquivClass(s, le, c)
  {
    var k := InsertPos(x, s, le);
    var p := EquivTo(le, c);
    assert p(x);
    WhereAround(s, k, x, p);
    assert Where(s, p) == Where(s[k..], p) by {
      assert [] + Where(s[k..], p) == Where(s[k..], p);
    }
    assert Insert(x, s, le) == s[..k] + [x] + s[k..];
  }

  /** An element not equivalent to c leaves c's class as it was. */
  lemma InsertSkipsClass<T(!new)>(x: T, s: seq<T>, le: (T, T) -> bool, c: T)
    requires !Equiv(le, x, c)
    ensures EquivClass(Insert(x, s, le), le, c) == EquivClass(s, le, c)
  {
    var k := InsertPos(x, s, le);
    assert Insert(x, s, le) == s[..k] + [x] + s[k..];
    WhereAround(s, k, x, EquivTo(le, c));
  }

  /** Enumerable.OrderBy with a key comparer (and ThenBy, OrderByDescending,
      which only change the comparer): insertion of each element, from the
      last, in front of the first element it does not follow. */
  function OrderBy<T(!new)>(xs: seq<T>, le: (T, T) -> bool): (r: seq<T>)
    requires TotalPreorder(le)
    ensures multiset(r) == multiset(xs)
    ensures SortedBy(r, le)
    ensures forall c :: EquivClass(r, le, c) == EquivClass(xs, le, c)
  {
    if xs == [] then []
    else
      var rest := OrderBy(xs[1..], le);
      InsertStep(xs, rest, le);
      Insert(xs[0], rest, le)
  }

  /** Inserting the first element into the sorted rest sorts the whole sequence, stably. */
  lemma InsertStep<T(!new)>(xs: seq<T>, rest: seq<T>, le: (T, T) -> bool)
    requires TotalPreorder(le) && xs != []
    requires multiset(rest) == multiset(xs[1..]) && SortedBy(rest, le)
    requires forall c :: EquivClass(rest, le, c) == EquivClass(xs[1..], le, c)
    ensures var r := Insert(xs[0], rest, le);
      && multiset(r) == multiset(xs)
      && SortedBy(r, le)
      && forall c :: EquivClass(r, le, c) == EquivClass(xs, le, c)
  {
    var r := Insert(xs[0], rest, le);
    InsertSorted(xs[0], rest, le);
    assert xs == [xs[0]] + xs[1..];
    forall c ensures EquivClass(r, le, c) == EquivClass(xs, le, c) {
      InsertStable(xs[0], rest, le, c);
    }
    var k := InsertPos(xs[0], rest, le);
    assert rest == rest[..k] + rest[k..];
  }

  // ---------------------------------------------------------------------
  // GroupBy

  datatype Grouping<K, T> = Grouping(key: K, elements: seq<T>)

  function KeyIs<K(==), T>(key: T -> K, k: K): T -> bool {
    (y: T) => key(y) == k
  }

  /** Every element whose key is b comes after some element whose key is a. */
  ghost predicate FirstSeenBefore<K, T>(xs: seq<T>, key: T -> K, a: K, b: K) {
    forall n :: 0 <= n < |xs| && key(xs[n]) == b ==> exists m :: 0 <= m < n && key(xs[m]) == a
  }

  ghost predicate DistinctKeys<K, T>(gs: seq<Grouping<K, T>>) {
    forall i, j :: 0 <= i < j < |gs| ==> gs[i].key != gs[j].key
  }

  ghost predicate MembersMatch<K, T(!new)>(gs: seq<Grouping<K, T>>, xs: seq<T>, key: T -> K) {
    forall i :: 0 <= i < |gs| ==> gs[i].elements == Where(xs, KeyIs(key, gs[i].key))
  }

  ghost predicate NonEmptyGroups<K, T>(gs: seq<Grouping<K, T>>) {
    forall i :: 0 <= i < |gs| ==> gs[i].elements != []
  }

  ghost predicate CoversKeys<K, T>(gs: seq<Grouping<K, T>>, xs: seq<T>, key: T -> K) {
    forall n :: 0 <= n < |xs| ==> exists i :: 0 <= i < |gs| && gs[i].key == key(xs[n])
  }

  ghost predicate InFirstAppearanceOrder<K, T>(gs: seq<Grouping<K, T>>, xs: seq<T>, key: T -> K) {
    forall i, j :: 0 <= i < j < |gs| ==> FirstSeenBefore(xs, key, gs[i].key, gs[j].key)
  }

  /** What GroupBy promises of its groups. */
  ghost predicate IsGroupingOf<K, T(!new)>(gs: seq<Grouping<K, T>>, xs: seq<T>, key: T -> K) {
    && DistinctKeys(gs)
    && MembersMatch(gs, xs, key)
    && NonEmptyGroups(gs)
    && CoversKeys(gs, xs, key)
    && InFirstAppearanceOrder(gs, xs, key)
  }

  function KeyIndex<K(==), T>(gs: seq<Grouping<K, T>>, k: K): (i: nat)
    ensures i <= |gs|
    ensures forall j :: 0 <= j < i ==> gs[j].key != k
    ensures i < |gs| ==> gs[i].key == k
  {
    if gs == [] then 0 else if gs[0].key == k then 0 else 1 + KeyIndex(gs[1..], k)
  }

  /** One step of building the lookup: x joins its key's group, or opens a new one at the end. */
  function AddToLookup<K(==), T>(gs: seq<Grouping<K, T>>, k: K, x: T): seq<Grouping<K, T>> {
    var i := KeyIndex(gs, k);
    if i < |gs| then gs[i := Grouping(k, gs[i].elements + [x])] else gs + [Grouping(k, [x])]
  }

  lemma WhereSnoc<T(!new)>(xs: seq<T>, x: T, p: T -> bool)
    ensures Where(xs + [x], p) == Where(xs, p) + (if p(x) then [x] else [])
  {
    WhereConcat(xs, [x], p);
    assert [x][1..] == [];
  }

  /** The key of a group occurs in the sequence it was built from. */
  lemma GroupKeyOccurs<K, T(!new)>(gs: seq<Grouping<K, T>>, xs: seq<T>, key: T -> K, i: nat)
    requires MembersMatch(gs, xs, key) && NonEmptyGroups(gs) && i < |gs|
    ensures exists m :: 0 <= m < |xs| && key(xs[m]) == gs[i].key
  {
    var e := gs[i].elements[0];
    WhereMembers(xs, KeyIs(key, gs[i].key));
    assert e in gs[i].elements;
    assert e in xs && KeyIs(key, gs[i].key)(e);
    var m :| 0 <= m < |xs| && xs[m] == e;
  }

  lemma FirstSeenExtend<K, T>(xs: seq<T>, key: T -> K, a: K, b: K, x: T)
    requires FirstSeenBefore(xs, key, a, b)
    requires exists m :: 0 <= m < |xs| && key(xs[m]) == a
    ensures FirstSeenBefore(xs + [x], key, a, b)
  {
    var ys := xs + [x];
    forall n | 0 <= n < |ys| && key(ys[n]) == b
      ensures exists m :: 0 <= m < n && key(ys[m]) == a
    {
      if n < |xs| {
        assert ys[n] == xs[n];
        var m :| 0 <= m < n && key(xs[m]) == a;
        assert ys[m] == xs[m];
      } else {
        var m :| 0 <= m < |xs| && key(xs[m]) == a;
        assert ys[m] == xs[m];
      }
    }
  }

  lemma FirstSeenNewKey<K, T>(xs: seq<T>, key: T -> K, a: K, x: T)
    requires forall n :: 0 <= n < |xs| ==> key(xs[n]) != key(x)
    requires exists m :: 0 <= m < |xs| && key(xs[m]) == a
    ensures FirstSeenBefore(xs + [x], key, a, key(x))
  {
    var ys := xs + [x];
    forall n | 0 <= n < |ys| && key(ys[n]) == key(x)
      ensures exists m :: 0 <= m < n && key(ys[m]) == a
    {
      var m :| 0 <= m < |xs| && key(xs[m]) == a;
      assert ys[m] == xs[m];
    }
  }

  lemma CoversSnoc<K, T>(gs: seq<Grouping<K, T>>, r: seq<Grouping<K, T>>, xs: seq<T>, key: T -> K, x: T, i: nat)
    requires CoversKeys(gs, xs, key) && |gs| <= |r| && i < |r| && r[i].key == key(x)
    requires forall j :: 0 <= j < |gs| ==> r[j].key == gs[j].key
    ensures CoversKeys(r, xs + [x], key)
  {
    var ys := xs + [x];
    forall n | 0 <= n < |ys| ensures exists j :: 0 <= j < |r| && r[j].key == key(ys[n]) {
      if n < |xs| {
        assert ys[n] == xs[n];
        var j :| 0 <= j < |gs| && gs[j].key == key(xs[n]);
        assert r[j].key == key(ys[n]);
      } else {
        assert r[i].key == key(ys[n]);
      }
    }
  }

  lemma AddKeepsKeys<K, T>(gs: seq<Grouping<K, T>>, k: K, x: T)
    ensures var r := AddToLookup(gs, k, x);
      && |gs| <= |r| <= |gs| + 1
      && (forall j :: 0 <= j < |gs| ==> r[j].key == gs[j].key)
      && (|r| == |gs| + 1 ==> KeyIndex(gs, k) == |gs| && r[|gs|] == Grouping(k, [x]))
      && (|r| == |gs| ==> KeyIndex(gs, k) < |gs|)
  {
  }

  lemma AddDistinct<K, T>(gs: seq<Grouping<K, T>>, k: K, x: T)
    requires DistinctKeys(gs)
    ensures DistinctKeys(AddToLookup(gs, k, x))
  {
    AddKeepsKeys(gs, k, x);
  }

  lemma AddNonEmpty<K, T>(gs: seq<Grouping<K, T>>, k: K, x: T)
    requires NonEmptyGroups(gs)
    ensures NonEmptyGroups(AddToLookup(gs, k, x))
  {
  }

  lemma AddMembers<K, T(!new)>(gs: seq<Grouping<K, T>>, xs: seq<T>, key: T -> K, x: T)
    requires DistinctKeys(gs) && MembersMatch(gs, xs, key) && CoversKeys(gs, xs, key)
    ensures MembersMatch(AddToLookup(gs, key(x), x), xs + [x], key)
  {
    var k := key(x);
    var r := AddToLookup(gs, k, x);
    var ys := xs + [x];
    var i := KeyIndex(gs, k);
    AddKeepsKeys(gs, k, x);
    forall j | 0 <= j < |r| ensures r[j].elements == Where(ys, KeyIs(key, r[j].key)) {
      if j < |gs| {
        WhereSnoc(xs, x, KeyIs(key, gs[j].key));
        if j == i {
          assert r[j] == Grouping(k, gs[j].elements + [x]);
        } else {
          assert r[j] == gs[j];
          assert gs[j].key != k;
        }
      } else {
        forall n | 0 <= n < |xs| ensures !KeyIs(key, k)(xs[n]) {
          var i :| 0 <= i < |gs| && gs[i].key == key(xs[n]);
        }
        WhereNone(xs, KeyIs(key, k));
        WhereSnoc(xs, x, KeyIs(key, k));
      }
    }
  }

  lemma AddCovers<K, T>(gs: seq<Grouping<K, T>>, xs: seq<T>, key: T -> K, x: T)
    requires CoversKeys(gs, xs, key)
    ensures CoversKeys(AddToLookup(gs, key(x), x), xs + [x], key)
  {
    var r := AddToLookup(gs, key(x), x);
    AddKeepsKeys(gs, key(x), x);
    CoversSnoc(gs, r, xs, key, x, KeyIndex(gs, key(x)));
  }

  /** A key that xs does not contain yet is first seen after every key xs does contain. */
  lemma NewKeyLast<K, T>(gs: seq<Grouping<K, T>>, xs: seq<T>, key: T -> K, x: T, a: K)
    requires CoversKeys(gs, xs, key) && KeyIndex(gs, key(x)) == |gs|
    requires exists m :: 0 <= m < |xs| && key(xs[m]) == a
    ensures FirstSeenBefore(xs + [x], key, a, key(x))
  {
    forall n | 0 <= n < |xs| ensures key(xs[n]) != key(x) {
      var i :| 0 <= i < |gs| && gs[i].key == key(xs[n]);
    }
    FirstSeenNewKey(xs, key, a, x);
  }

  lemma AddOrder<K, T(!new)>(gs: seq<Grouping<K, T>>, xs: seq<T>, key: T -> K, x: T)
    requires InFirstAppearanceOrder(gs, xs, key) && CoversKeys(gs, xs, key)
    requires MembersMatch(gs, xs, key) && NonEmptyGroups(gs)
    ensures InFirstAppearanceOrder(AddToLookup(gs, key(x), x), xs + [x], key)
  {
    var k := key(x);
    var r := AddToLookup(gs, k, x);
    AddKeepsKeys(gs, k, x);
    forall a, b | 0 <= a < b < |r| ensures FirstSeenBefore(xs + [x], key, r[a].key, r[b].key) {
      GroupKeyOccurs(gs, xs, key, a);
      if b < |gs| {
        FirstSeenExtend(xs, key, gs[a].key, gs[b].key, x);
      } else {
        NewKeyLast(gs, xs, key, x, gs[a].key);
      }
    }
  }

  lemma AddToLookupStep<K, T(!new)>(gs: seq<Grouping<K, T>>, xs: seq<T>, key: T -> K, x: T, ys: seq<T>)
    requires IsGroupingOf(gs, xs, key) && ys == xs + [x]
    ensures IsGroupingOf(AddToLookup(gs, key(x), x), ys, key)
  {
    AddDistinct(gs, key(x), x);
    AddNonEmpty(gs, key(x), x);
    AddMembers(gs, xs, key, x);
    AddCovers(gs, xs, key, x);
    AddOrder(gs, xs, key, x);
  }

  /** Enumerable.GroupBy: the lookup built by adding the elements in order. */
  function GroupBy<K(==), T>(xs: seq<T>, key: T -> K): (r: seq<Grouping<K, T>>)
    ensures |r| <= |xs|
  {
    if xs == [] then []
    else AddToLookup(GroupBy(xs[..|xs| - 1], key), key(xs[|xs| - 1]), xs[|xs| - 1])
  }

  /** The groups have distinct keys, hold exactly the elements with their key in source order,
      are never empty, cover every element and come in the order their keys first appear. */
  lemma {:induction false} GroupByIsGrouping<K, T(!new)>(xs: seq<T>, key: T -> K)
    ensures IsGroupingOf(GroupBy(xs, key), xs, key)
  {
    if xs != [] {
      var init := xs[..|xs| - 1];
      var x := xs[|xs| - 1];
      GroupByIsGrouping(init, key);
      assert init + [x] == xs;
      AddToLookupStep(GroupBy(init, key), init, key, x, xs);
    }
  }


  function Flatten<T>(xss: seq<seq<T>>): seq<T> {
    if xss == [] then [] else xss[0] + Flatten(xss[1..])
  }

  /** SelectMany is the in-order concatenation of the projected parts. */
  lemma {:induction false} SelectManyIsFlattenSelect<T, U(!new)>(xs: seq<T>, f: T -> seq<U>)
    ensures SelectMany(xs, f) == Flatten(Select(xs, f))
  {
    if xs != [] {
      SelectManyIsFlattenSelect(xs[1..], f);
      assert Select(xs, f)[1..] == Select(xs[1..], f);
    }
  }

  function Elements<K, T>(gs: seq<Grouping<K, T>>): seq<seq<T>> {
    Select(gs, (g: Grouping<K, T>) => g.elements)
  }

  lemma {:induction false} FlattenSnoc<T>(xss: seq<seq<T>>, ys: seq<T>)
    ensures Flatten(xss + [ys]) == Flatten(xss) + ys
  {
    if xss == [] {
      assert [ys][1..] == [];
    } else {
      assert (xss + [ys])[1..] == xss[1..] + [ys];
      FlattenSnoc(xss[1..], ys);
    }
  }

  lemma {:induction false} FlattenAppendAt<T>(xss: seq<seq<T>>, i: nat, x: T)
    requires i < |xss|
    ensures multiset(Flatten(xss[i := xss[i] + [x]])) == multiset(Flatten(xss)) + multiset{x}
  {
    if i == 0 {
      assert xss[i := xss[i] + [x]][1..] == xss[1..];
    } else {
      assert xss[i := xss[i] + [x]][1..] == xss[1..][i - 1 := xss[i] + [x]];
      FlattenAppendAt(xss[1..], i - 1, x);
    }
  }

  /** Together the groups hold every element of xs exactly once. */
  lemma {:induction false} GroupByPartition<K, T(!new)>(xs: seq<T>, key: T -> K)
    ensures multiset(Flatten(Elements(GroupBy(xs, key)))) == multiset(xs)
  {
    if xs != [] {
      var init := xs[..|xs| - 1];
      var x := xs[|xs| - 1];
      var gs := GroupBy(init, key);
      GroupByPartition(init, key);
      var i := KeyIndex(gs, key(x));
      var r := GroupBy(xs, key);
      assert init + [x] == xs;
      if i < |gs| {
        assert Elements(r) == Elements(gs)[i := Elements(gs)[i] + [x]];
        FlattenAppendAt(Elements(gs), i, x);
      } else {
        assert Elements(r) == Elements(gs) + [[x]];
        FlattenSnoc(Elements(gs), [x]);
      }
    }
  }

  // ---------------------------------------------------------------------
  // Skip and Take

  /** Enumerable.Take: a count of zero or less takes nothing. */
  function Take<T>(xs: seq<T>, n: int): (r: seq<T>)
    ensures |r| == if n <= 0 then 0 else if n < |xs| then n else |xs|
    ensures r == xs[..|r|]
  {
    if n <= 0 then [] else if n < |xs| then xs[..n] else xs
  }

  /** Enumerable.Skip: a count of zero or less skips nothing. */
  function Skip<T>(xs: seq<T>, n: int): (r: seq<T>)
    ensures |r| == if n <= 0 then |xs| else if n < |xs| then |xs| - n else 0
    ensures r == xs[|xs| - |r|..]
  {
    if n <= 0 then xs else if n < |xs| then xs[n..] else []
  }

  // ---------------------------------------------------------------------
  // Single and FirstOrDefault

  /** Index of the first element satisfying p. */
  function FirstIndexWhere<T>(xs: seq<T>, p: T -> bool): (r: Option<nat>)
    ensures r.None? <==> forall i :: 0 <= i < |xs| ==> !p(xs[i])
    ensures r.Some? ==> r.value < |xs| && p(xs[r.value])
    ensures r.Some? ==> forall j :: 0 <= j < r.value ==> !p(xs[j])
  {
    if xs == [] then None
    else if p(xs[0]) then Some(0)
    else match FirstIndexWhere(xs[1..], p)
      case None => None
      case Some(i) => Some(i + 1)
  }

  /** Enumerable.FirstOrDefault: the first match, or null (None). */
  function FirstOrDefault<T>(xs: seq<T>, p: T -> bool): (r: Option<T>)
    ensures r.None? <==> forall i :: 0 <= i < |xs| ==> !p(xs[i])
    ensures r.Some? ==> exists i :: 0 <= i < |xs| && xs[i] == r.value && p(xs[i])
                                  && forall j :: 0 <= j < i ==> !p(xs[j])
  {
    match FirstIndexWhere(xs, p)
    case None => None
    case Some(i) => Some(xs[i])
  }

  /** The InvalidOperationException cases of Enumerable.Single. */
  datatype SingleError = NoMatchingElement | MoreThanOneMatch

  /** Enumerable.Single: the one match, or an error when there is none or more than one. */
  function Single<T(==,!new)>(xs: seq<T>, p: T -> bool): (r: Result<T, SingleError>)
    ensures r.Success? <==> |Where(xs, p)| == 1
    ensures r.Success? ==> Where(xs, p) == [r.value]
    ensures r == Failure(NoMatchingElement) <==> Where(xs, p) == []
    ensures r == Failure(MoreThanOneMatch) <==> |Where(xs, p)| >= 2
  {
    match FirstIndexWhere(xs, p)
    case None =>
      WhereNone(xs, p);
      Failure(NoMatchingElement)
    case Some(i) =>
      WhereFromFirst(xs, p, i);
      match FirstIndexWhere(xs[i + 1..], p)
      case None =>
        WhereNone(xs[i + 1..], p);
        Success(xs[i])
      case Some(j) =>
        WhereMembers(xs[i + 1..], p);
        assert xs[i + 1..][j] in Where(xs[i + 1..], p);
        Failure(MoreThanOneMatch)
  }

  /** From the first match on, the matches are that element and the matches after it. */
  lemma {:induction false} WhereFromFirst<T(!new)>(xs: seq<T>, p: T -> bool, i: nat)
    requires i < |xs| && p(xs[i]) && forall j :: 0 <= j < i ==> !p(xs[j])
    ensures Where(xs, p) == [xs[i]] + Where(xs[i + 1..], p)
  {
    if i > 0 {
      assert xs[1..][i - 1] == xs[i];
      assert xs[1..][i..] == xs[i + 1..];
      WhereFromFirst(xs[1..], p, i - 1);
    }
  }

  lemma SingleAgreesWithFirst<T(!new)>(xs: seq<T>, p: T -> bool)
    ensures Single(xs, p).Success? ==> FirstOrDefault(xs, p) == Some(Single(xs, p).value)
    ensures FirstOrDefault(xs, p).None? <==> Single(xs, p) == Failure(NoMatchingElement)
  {
    if FirstIndexWhere(xs, p).Some? {
      var i := FirstIndexWhere(xs, p).value;
      WhereMembers(xs, p);
      assert xs[i] in Where(xs, p);
    } else {
      WhereNone(xs, p);
    }
  }
}
