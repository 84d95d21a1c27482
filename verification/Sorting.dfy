/** A stable sort by an arbitrary strict weak order, as Python's `sorted` and `list.sort` with a key. */
module Sorting {

  /** `less` compares keys: asymmetric, and "not less" is transitive. */
  ghost predicate WeakOrder<T(!new)>(less: (T, T) -> bool) {
    && (forall x, y :: less(x, y) ==> !less(y, x))
    && (forall x, y, z :: !less(x, y) && !less(y, z) ==> !less(x, z))
  }

  function Insert<T>(less: (T, T) -> bool, x: T, s: seq<T>): seq<T> {
    if s == [] || !less(s[0], x) then [x] + s else [s[0]] + Insert(less, x, s[1..])
  }

  function Sort<T>(less: (T, T) -> bool, s: seq<T>): seq<T> {
    if s == [] then [] else Insert(less, s[0], Sort(less, s[1..]))
  }

  ghost predicate Sorted<T>(less: (T, T) -> bool, s: seq<T>) {
    forall i, j :: 0 <= i < j < |s| ==> !less(s[j], s[i])
  }

  function Filter<T>(keep: T -> bool, s: seq<T>): seq<T> {
    if s == [] then [] else if keep(s[0]) then [s[0]] + Filter(keep, s[1..]) else Filter(keep, s[1..])
  }

  // ---------- sorting ----------

  lemma {:induction false} InsertIsPermutation<T>(less: (T, T) -> bool, x: T, s: seq<T>)
    ensures multiset(Insert(less, x, s)) == multiset{x} + multiset(s)
    ensures |Insert(less, x, s)| == |s| + 1
  {
    if s != [] && less(s[0], x) {
      InsertIsPermutation(less, x, s[1..]);
      assert s == [s[0]] + s[1..];
    }
  }

  lemma {:induction false} SortIsPermutation<T>(less: (T, T) -> bool, s: seq<T>)
    ensures multiset(Sort(less, s)) == multiset(s) && |Sort(less, s)| == |s|
  {
    if s != [] {
      SortIsPermutation(less, s[1..]);
      InsertIsPermutation(less, s[0], Sort(less, s[1..]));
      assert s == [s[0]] + s[1..];
    }
  }

  lemma MembersOfPermutation<T>(s: seq<T>, t: seq<T>)
    requires multiset(s) == multiset(t)
    ensures forall x :: x in s <==> x in t
    ensures |s| == |t|
  {
    forall x
      ensures x in s <==> x in t
    {
      assert x in multiset(s) <==> x in s;
      assert x in multiset(t) <==> x in t;
    }
    assert |multiset(s)| == |s| && |multiset(t)| == |t|;
  }

  lemma SortKeepsMembers<T>(less: (T, T) -> bool, s: seq<T>)
    ensures |Sort(less, s)| == |s|
    ensures forall x :: x in Sort(less, s) <==> x in s
  {
    SortIsPermutation(less, s);
    MembersOfPermutation(Sort(less, s), s);
  }

  lemma {:induction false} InsertKeepsSorted<T(!new)>(less: (T, T) -> bool, x: T, s: seq<T>)
    requires WeakOrder(less) && Sorted(less, s)
    ensures Sorted(less, Insert(less, x, s))
  {
    if s == [] {
    } else if less(s[0], x) {
      assert Sorted(less, s[1..]);
      InsertKeepsSorted(less, x, s[1..]);
      var r := Insert(less, x, s[1..]);
      InsertIsPermutation(less, x, s[1..]);
      forall j | 0 <= j < |r|
        ensures !less(r[j], s[0])
      {
        assert r[j] in multiset(r);
        assert r[j] == x || r[j] in s[1..];
      }
    } else {
      forall j | 0 <= j < |s|
        ensures !less(s[j], x)
      {
        assert j == 0 || !less(s[j], s[0]);
      }
    }
  }

  lemma {:induction false} SortIsSorted<T(!new)>(less: (T, T) -> bool, s: seq<T>)
    requires WeakOrder(less)
    ensures Sorted(less, Sort(less, s))
  {
    if s != [] {
      SortIsSorted(less, s[1..]);
      InsertKeepsSorted(less, s[0], Sort(less, s[1..]));
    }
  }

  lemma {:induction false} SortFixesSorted<T(!new)>(less: (T, T) -> bool, s: seq<T>)
    requires Sorted(less, s)
    ensures Sort(less, s) == s
  {
    if s != [] {
      assert Sorted(less, s[1..]);
      SortFixesSorted(less, s[1..]);
      assert s == [s[0]] + s[1..];
      if |s| > 1 {
        assert !less(s[1], s[0]);
      }
    }
  }

  // ---------- sorting and filtering commute ----------

  lemma {:induction false} FilterMembers<T>(keep: T -> bool, s: seq<T>)
    ensures forall x :: x in Filter(keep, s) <==> x in s && keep(x)
    ensures |Filter(keep, s)| <= |s|
  {
    if s != [] {
      FilterMembers(keep, s[1..]);
      assert s == [s[0]] + s[1..];
    }
  }

  lemma {:induction false} FilterNone<T>(keep: T -> bool, s: seq<T>)
    requires forall i :: 0 <= i < |s| ==> !keep(s[i])
    ensures Filter(keep, s) == []
  {
    if s != [] {
      FilterNone(keep, s[1..]);
    }
  }

  lemma FilterCons<T>(keep: T -> bool, x: T, s: seq<T>)
    ensures Filter(keep, [x] + s) == if keep(x) then [x] + Filter(keep, s) else Filter(keep, s)
  {
    assert ([x] + s)[1..] == s;
  }

  lemma InsertCons<T>(less: (T, T) -> bool, x: T, y: T, s: seq<T>)
    ensures Insert(less, x, [y] + s) == if less(y, x) then [y] + Insert(less, x, s) else [x, y] + s
  {
    assert ([y] + s)[1..] == s;
    assert [x] + ([y] + s) == [x, y] + s;
  }

  lemma SortCons<T>(less: (T, T) -> bool, x: T, s: seq<T>)
    ensures Sort(less, [x] + s) == Insert(less, x, Sort(less, s))
  {
    assert ([x] + s)[1..] == s;
  }

  lemma {:induction false} FilterInsert<T(!new)>(less: (T, T) -> bool, keep: T -> bool, x: T, s: seq<T>)
    requires WeakOrder(less) && Sorted(less, s)
    ensures Filter(keep, Insert(less, x, s)) == if keep(x) then Insert(less, x, Filter(keep, s)) else Filter(keep, s)
  {
    if s == [] {
    } else if less(s[0], x) {
      assert Sorted(less, s[1..]);
      FilterInsert(less, keep, x, s[1..]);
      FilterCons(keep, s[0], Insert(less, x, s[1..]));
      InsertCons(less, x, s[0], Filter(keep, s[1..]));
    } else {
      FilterCons(keep, x, s);
      var f := Filter(keep, s);
      FilterMembers(keep, s);
      if f != [] {
        assert f[0] in s;
        var i :| 0 <= i < |s| && s[i] == f[0];
        assert i == 0 || !less(s[i], s[0]);
      }
    }
  }

  lemma {:induction false} FilterSort<T(!new)>(less: (T, T) -> bool, keep: T -> bool, s: seq<T>)
    requires WeakOrder(less)
    ensures Filter(keep, Sort(less, s)) == Sort(less, Filter(keep, s))
  {
    if s != [] {
      FilterSort(less, keep, s[1..]);
      SortIsSorted(less, s[1..]);
      FilterInsert(less, keep, s[0], Sort(less, s[1..]));
      SortCons(less, s[0], Filter(keep, s[1..]));
    }
  }

  lemma {:induction false} FilterFilter<T>(first: T -> bool, second: T -> bool, both: T -> bool, s: seq<T>)
    requires forall x :: x in s ==> (both(x) <==> first(x) && second(x))
    ensures Filter(second, Filter(first, s)) == Filter(both, s)
  {
    if s != [] {
      FilterFilter(first, second, both, s[1..]);
      FilterCons(second, s[0], Filter(first, s[1..]));
    }
  }

  lemma {:induction false} FilterConcat<T>(keep: T -> bool, a: seq<T>, b: seq<T>)
    ensures Filter(keep, a + b) == Filter(keep, a) + Filter(keep, b)
  {
    if a == [] {
      assert a + b == b;
    } else {
      assert a + b == [a[0]] + (a[1..] + b);
      FilterConcat(keep, a[1..], b);
      FilterCons(keep, a[0], a[1..] + b);
    }
  }

  lemma {:induction false} FilterAgrees<T>(p: T -> bool, q: T -> bool, s: seq<T>)
    requires forall x :: x in s ==> p(x) == q(x)
    ensures Filter(p, s) == Filter(q, s)
  {
    if s != [] {
      FilterAgrees(p, q, s[1..]);
    }
  }

  // ---------- a sorted list is determined by its members ----------

  ghost predicate DistinctKeys<T>(less: (T, T) -> bool, s: seq<T>) {
    forall i, j :: 0 <= i < j < |s| ==> less(s[i], s[j]) || less(s[j], s[i])
  }

  ghost predicate StrictlySorted<T>(less: (T, T) -> bool, s: seq<T>) {
    forall i, j :: 0 <= i < j < |s| ==> less(s[i], s[j])
  }

  /** Two strictly sorted lists with the same members are the same list. */
  lemma {:induction false} StrictlySortedIsUnique<T(!new)>(less: (T, T) -> bool, s: seq<T>, t: seq<T>)
    requires WeakOrder(less) && StrictlySorted(less, s) && StrictlySorted(less, t)
    requires forall x :: x in s <==> x in t
    ensures s == t
  {
    if s == [] || t == [] {
      HasMember(s);
      HasMember(t);
    } else {
      SameHead(less, s, t);
      TailMembers(less, s);
      TailMembers(less, t);
      StrictlySortedIsUnique(less, s[1..], t[1..]);
      assert s == [s[0]] + s[1..] && t == [t[0]] + t[1..];
    }
  }

  lemma HasMember<T>(s: seq<T>)
    ensures s != [] ==> exists x :: x in s
  {
    if s != [] {
      assert s[0] in s;
    }
  }

  lemma SameHead<T(!new)>(less: (T, T) -> bool, s: seq<T>, t: seq<T>)
    requires WeakOrder(less) && StrictlySorted(less, s) && StrictlySorted(less, t)
    requires s != [] && t != [] && s[0] in t && t[0] in s
    ensures s[0] == t[0]
  {
    var i :| 0 <= i < |t| && t[i] == s[0];
    var j :| 0 <= j < |s| && s[j] == t[0];
    assert i > 0 ==> less(t[0], s[0]);
    assert j > 0 ==> less(s[0], t[0]);
  }

  lemma TailMembers<T(!new)>(less: (T, T) -> bool, s: seq<T>)
    requires WeakOrder(less) && StrictlySorted(less, s) && s != []
    ensures forall x :: x in s[1..] <==> x in s && x != s[0]
  {
    forall x
      ensures x in s[1..] <==> x in s && x != s[0]
    {
      if x in s[1..] {
        var k :| 0 <= k < |s[1..]| && s[1..][k] == x;
        assert s[k + 1] == x && less(s[0], s[k + 1]);
      }
      if x in s && x != s[0] {
        var k :| 0 <= k < |s| && s[k] == x;
        assert s[1..][k - 1] == x;
      }
    }
  }

  lemma SortedDistinctIsStrict<T(!new)>(less: (T, T) -> bool, s: seq<T>)
    requires Sorted(less, s) && DistinctKeys(less, s)
    ensures StrictlySorted(less, s)
  {
  }

  // ---------- permutations keep keys distinct ----------

  ghost predicate Distinct<T, K>(key: T -> K, s: seq<T>) {
    forall i, j :: 0 <= i < j < |s| ==> key(s[i]) != key(s[j])
  }

  lemma DistinctCons<T(!new), K>(key: T -> K, x: T, s: seq<T>)
    ensures Distinct(key, [x] + s) <==> Distinct(key, s) && forall y :: y in s ==> key(y) != key(x)
  {
    var all := [x] + s;
    if Distinct(key, all) {
      forall i, j | 0 <= i < j < |s|
        ensures key(s[i]) != key(s[j])
      {
        assert key(all[i + 1]) != key(all[j + 1]);
      }
      forall y | y in s
        ensures key(y) != key(x)
      {
        var k :| 0 <= k < |s| && s[k] == y;
        assert key(all[0]) != key(all[k + 1]);
      }
    }
    if Distinct(key, s) && forall y :: y in s ==> key(y) != key(x) {
      forall i, j | 0 <= i < j < |all|
        ensures key(all[i]) != key(all[j])
      {
        assert all[j] == s[j - 1] && s[j - 1] in s;
        assert i > 0 ==> all[i] == s[i - 1];
      }
    }
  }

  lemma DistinctAfterPermutation<T, K>(key: T -> K, s: seq<T>, t: seq<T>)
    requires multiset(s) == multiset(t) && Distinct(key, t)
    ensures Distinct(key, s)
  {
    MembersOfPermutation(s, t);
    forall i, j | 0 <= i < j < |s|
      ensures key(s[i]) != key(s[j])
    {
      if key(s[i]) == key(s[j]) {
        assert s[i] in t && s[j] in t;
        var k :| 0 <= k < |t| && t[k] == s[i];
        assert s[i] == s[j];
        TwiceInSequence(s, i, j);
        OnceInSequence(key, t, k);
        assert false;
      }
    }
  }

  lemma TwiceInSequence<T>(s: seq<T>, i: nat, j: nat)
    requires i < j < |s| && s[i] == s[j]
    ensures multiset(s)[s[i]] >= 2
  {
    assert s == s[..i] + [s[i]] + s[i + 1..j] + [s[j]] + s[j + 1..];
  }

  lemma OnceInSequence<T, K>(key: T -> K, t: seq<T>, k: nat)
    requires k < |t| && Distinct(key, t)
    ensures multiset(t)[t[k]] == 1
  {
    var a, b := t[..k], t[k + 1..];
    assert t == a + [t[k]] + b;
    assert t[k] !in a && t[k] !in b;
    assert multiset(a)[t[k]] == 0 && multiset(b)[t[k]] == 0;
  }

  // ---------- taking one element out ----------

  function Without<T>(s: seq<T>, k: nat): seq<T>
    requires k < |s|
  {
    s[..k] + s[k + 1..]
  }

  lemma RemoveOne<T>(s: seq<T>, k: nat)
    requires k < |s|
    ensures multiset(s) == multiset{s[k]} + multiset(s[..k] + s[k + 1..])
    ensures multiset(Without(s, k)) == multiset(s) - multiset{s[k]} && |Without(s, k)| == |s| - 1
  {
    assert s == s[..k] + ([s[k]] + s[k + 1..]);
  }
}
