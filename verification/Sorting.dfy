/** Sorting by a key order, and the fact that there is only one way to do it. */
module Sorting {

  ghost predicate Sorted<T>(leq: (T, T) -> bool, s: seq<T>) {
    forall i, j | 0 <= i < j < |s| :: leq(s[i], s[j])
  }

  ghost predicate Total<T(!new)>(leq: (T, T) -> bool) {
    && (forall x, y :: leq(x, y) || leq(y, x))
    && (forall x, y, z :: leq(x, y) && leq(y, z) ==> leq(x, z))
  }

  /** No two different elements of `s` compare as equal. */
  ghost predicate Distinguishes<T>(leq: (T, T) -> bool, s: seq<T>) {
    forall x, y | x in s && y in s && leq(x, y) && leq(y, x) :: x == y
  }

  function Insert<T>(leq: (T, T) -> bool, x: T, s: seq<T>): (r: seq<T>)
    ensures multiset(r) == multiset{x} + multiset(s)
  {
    if s == [] || leq(x, s[0]) then
      [x] + s
    else
      assert s == [s[0]] + s[1..];
      [s[0]] + Insert(leq, x, s[1..])
  }

  function SortBy<T>(leq: (T, T) -> bool, s: seq<T>): (r: seq<T>)
    ensures multiset(r) == multiset(s)
    ensures |r| == |s|
  {
    if s == [] then []
    else
      assert s == [s[0]] + s[1..];
      var r := Insert(leq, s[0], SortBy(leq, s[1..]));
      assert |multiset(r)| == |r| && |multiset(s)| == |s|;
      r
  }

  lemma SameElements<T>(s: seq<T>, t: seq<T>)
    requires multiset(s) == multiset(t)
    ensures |s| == |t|
    ensures forall x :: x in s <==> x in t
  {
    assert |multiset(s)| == |s| && |multiset(t)| == |t|;
    forall x ensures x in s <==> x in t {
      assert x in s <==> x in multiset(s);
      assert x in t <==> x in multiset(t);
    }
  }

  /** Where the last element of one arrangement sits in another. */
  lemma TakeOut<T>(s: seq<T>, t: seq<T>) returns (k: nat)
    requires multiset(s) == multiset(t) && s != []
    ensures k < |t| && t[k] == s[|s| - 1]
    ensures multiset(s[..|s| - 1]) == multiset(t[..k] + t[k + 1..])
  {
    SameElements(s, t);
    assert s[|s| - 1] in t;
    k :| 0 <= k < |t| && t[k] == s[|s| - 1];
    Without(s, |s| - 1);
    Without(t, k);
    assert s[..|s| - 1] + s[|s|..] == s[..|s| - 1];
  }

  lemma Without<T>(s: seq<T>, k: nat)
    requires k < |s|
    ensures multiset(s[..k] + s[k + 1..]) == multiset(s) - multiset{s[k]}
  {
    assert s == s[..k] + ([s[k]] + s[k + 1..]);
    assert multiset(s) == multiset(s[..k]) + (multiset{s[k]} + multiset(s[k + 1..]));
    assert multiset(s[..k] + s[k + 1..]) == multiset(s[..k]) + multiset(s[k + 1..]);
  }

  lemma {:induction false} InsertSorted<T(!new)>(leq: (T, T) -> bool, x: T, s: seq<T>)
    requires Sorted(leq, s)
    requires Total(leq)
    ensures Sorted(leq, Insert(leq, x, s))
  {
    if s != [] && !leq(x, s[0]) {
      InsertSorted(leq, x, s[1..]);
      var tail := Insert(leq, x, s[1..]);
      SameElements(tail, [x] + s[1..]);
      forall k | 0 <= k < |tail| ensures leq(s[0], tail[k]) {
        assert tail[k] in [x] + s[1..];
        if tail[k] != x {
          var m :| 0 <= m < |s[1..]| && s[1..][m] == tail[k];
          assert s[m + 1] == tail[k];
        }
      }
    }
  }

  lemma {:induction false} SortBySorted<T(!new)>(leq: (T, T) -> bool, s: seq<T>)
    requires Total(leq)
    ensures Sorted(leq, SortBy(leq, s))
  {
    if s != [] {
      SortBySorted(leq, s[1..]);
      InsertSorted(leq, s[0], SortBy(leq, s[1..]));
    }
  }

  /** Sorted arrangements of the same elements start with the same one. */
  lemma SameHead<T(!new)>(leq: (T, T) -> bool, s: seq<T>, t: seq<T>)
    requires Distinguishes(leq, s) && Sorted(leq, s) && Sorted(leq, t)
    requires multiset(s) == multiset(t) && s != []
    ensures t != [] && s[0] == t[0]
  {
    SameElements(s, t);
    assert s[0] in t && t[0] in s;
    var i :| 0 <= i < |t| && t[i] == s[0];
    var j :| 0 <= j < |s| && s[j] == t[0];
    assert i == 0 || leq(t[0], t[i]);
    assert j == 0 || leq(s[0], s[j]);
  }

  /** Two sorted arrangements of the same elements are the same. */
  lemma {:induction false} SortedUnique<T(!new)>(leq: (T, T) -> bool, s: seq<T>, t: seq<T>)
    requires Distinguishes(leq, s) && Sorted(leq, s) && Sorted(leq, t)
    requires multiset(s) == multiset(t)
    ensures s == t
  {
    SameElements(s, t);
    if s != [] {
      SameHead(leq, s, t);
      assert s == [s[0]] + s[1..] && t == [t[0]] + t[1..];
      assert multiset(s[1..]) == multiset(s) - multiset{s[0]};
      assert multiset(t[1..]) == multiset(t) - multiset{t[0]};
      DistinguishesTail(leq, s);
      SortedUnique(leq, s[1..], t[1..]);
    }
  }

  lemma DistinguishesTail<T(!new)>(leq: (T, T) -> bool, s: seq<T>)
    requires Distinguishes(leq, s) && Sorted(leq, s) && s != []
    ensures Distinguishes(leq, s[1..]) && Sorted(leq, s[1..])
  {
    forall x | x in s[1..] ensures x in s {
    }
  }

  /** The order of the input never shows in a sorted result. */
  lemma SortByPermutation<T(!new)>(leq: (T, T) -> bool, s: seq<T>, t: seq<T>)
    requires Total(leq) && Distinguishes(leq, s) && multiset(s) == multiset(t)
    ensures SortBy(leq, s) == SortBy(leq, t)
  {
    SortBySorted(leq, s);
    SortBySorted(leq, t);
    SameElements(s, SortBy(leq, s));
    SortedUnique(leq, SortBy(leq, s), SortBy(leq, t));
  }

  /** The elements `keep` accepts, in their order. */
  function Filter<T(!new)>(keep: T -> bool, s: seq<T>): (r: seq<T>)
    ensures forall x :: x in r <==> x in s && keep(x)
    ensures |r| <= |s|
  {
    if s == [] then []
    else
      assert forall x :: x in s <==> x == s[0] || x in s[1..];
      if keep(s[0]) then [s[0]] + Filter(keep, s[1..]) else Filter(keep, s[1..])
  }

  lemma {:induction false} FilterMultiplicity<T(!new)>(keep: T -> bool, s: seq<T>, x: T)
    ensures multiset(Filter(keep, s))[x] == if keep(x) then multiset(s)[x] else 0
  {
    if s != [] {
      assert s == [s[0]] + s[1..];
      FilterMultiplicity(keep, s[1..], x);
    }
  }

  lemma {:induction false} FilterSorted<T(!new)>(leq: (T, T) -> bool, keep: T -> bool, s: seq<T>)
    requires Sorted(leq, s)
    ensures Sorted(leq, Filter(keep, s))
  {
    if s != [] {
      FilterSorted(leq, keep, s[1..]);
      var r := Filter(keep, s[1..]);
      forall k | 0 <= k < |r| ensures leq(s[0], r[k]) {
        assert r[k] in s[1..];
        var m :| 0 <= m < |s[1..]| && s[1..][m] == r[k];
        assert s[m + 1] == r[k];
      }
    }
  }

  /** Filtering commutes with sorting. */
  lemma FilterSortBy<T(!new)>(leq: (T, T) -> bool, keep: T -> bool, s: seq<T>)
    requires Total(leq) && Distinguishes(leq, s)
    ensures Filter(keep, SortBy(leq, s)) == SortBy(leq, Filter(keep, s))
  {
    SortBySorted(leq, s);
    FilterSorted(leq, keep, SortBy(leq, s));
    SortBySorted(leq, Filter(keep, s));
    var a, b := Filter(keep, SortBy(leq, s)), SortBy(leq, Filter(keep, s));
    forall x ensures multiset(a)[x] == multiset(b)[x] {
      FilterMultiplicity(keep, SortBy(leq, s), x);
      FilterMultiplicity(keep, s, x);
    }
    assert multiset(a) == multiset(b);
    SameElements(s, SortBy(leq, s));
    SortedUnique(leq, a, b);
  }
}
