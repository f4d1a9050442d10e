/**
 Duplicate-free sequences, and a stable sort by a caller-supplied order that stands for
 JavaScript's `Array.prototype.sort`.
 */
module Sequences {

  ghost predicate Distinct<T>(s: seq<T>) {
    forall i, j :: 0 <= i < j < |s| ==> s[i] != s[j]
  }

  function Elements<T>(s: seq<T>): set<T> {
    set x | x in s
  }

  ghost predicate TotalPreorder<T(!new)>(le: (T, T) -> bool) {
    && (forall a, b :: le(a, b) || le(b, a))
    && (forall a, b, c :: le(a, b) && le(b, c) ==> le(a, c))
  }

  ghost predicate TotalOrder<T(!new)>(le: (T, T) -> bool) {
    TotalPreorder(le) && forall a, b :: le(a, b) && le(b, a) ==> a == b
  }

  ghost predicate Sorted<T>(s: seq<T>, le: (T, T) -> bool) {
    forall i, j :: 0 <= i < j < |s| ==> le(s[i], s[j])
  }

  lemma AppendSorted<T(!new)>(s: seq<T>, x: T, le: (T, T) -> bool)
    requires Sorted(s, le) && forall i :: 0 <= i < |s| ==> le(s[i], x)
    ensures Sorted(s + [x], le) && multiset(s + [x]) == multiset(s) + multiset{x}
  {
  }

  /** Places `x` behind everything that may precede it. */
  function Insert<T(!new)>(s: seq<T>, x: T, le: (T, T) -> bool): seq<T> {
    if s == [] then [x]
    else if le(s[|s| - 1], x) then s + [x]
    else Insert(s[..|s| - 1], x, le) + [s[|s| - 1]]
  }

  lemma AllBelow<T(!new)>(s: seq<T>, r: seq<T>, x: T, le: (T, T) -> bool)
    requires s != [] && Sorted(s, le) && le(x, s[|s| - 1])
    requires multiset(r) == multiset(s[..|s| - 1]) + multiset{x}
    ensures forall i :: 0 <= i < |r| ==> le(r[i], s[|s| - 1])
  {
    forall i | 0 <= i < |r|
      ensures le(r[i], s[|s| - 1])
    {
      assert r[i] in multiset(r);
      assert r[i] in s[..|s| - 1] || r[i] == x;
    }
  }

  lemma {:induction false} InsertSorts<T(!new)>(s: seq<T>, x: T, le: (T, T) -> bool)
    requires TotalPreorder(le) && Sorted(s, le)
    ensures Sorted(Insert(s, x, le), le) && multiset(Insert(s, x, le)) == multiset(s) + multiset{x}
  {
    if s != [] {
      var n := |s| - 1;
      var r := Insert(s[..n], x, le);
      DropLast(s);
      if le(s[n], x) {
        AppendSorted(s, x, le);
      } else {
        PrefixSorted(s, n, le);
        InsertSorts(s[..n], x, le);
        AllBelow(s, r, x, le);
        AppendSorted(r, s[n], le);
      }
    }
  }

  function Sort<T(!new)>(s: seq<T>, le: (T, T) -> bool): (r: seq<T>)
    requires TotalPreorder(le)
    ensures Sorted(r, le) && multiset(r) == multiset(s)
  {
    if s == [] then []
    else
      DropLast(s);
      InsertSorts(Sort(s[..|s| - 1], le), s[|s| - 1], le);
      Insert(Sort(s[..|s| - 1], le), s[|s| - 1], le)
  }

  /** The elements of `s` that rank with `a`, in order. */
  ghost function Ties<T(!new)>(s: seq<T>, a: T, le: (T, T) -> bool): seq<T> {
    if s == [] then []
    else
      var x := s[|s| - 1];
      Ties(s[..|s| - 1], a, le) + (if le(a, x) && le(x, a) then [x] else [])
  }

  lemma {:induction false} InsertIsStable<T(!new)>(s: seq<T>, x: T, a: T, le: (T, T) -> bool)
    requires TotalPreorder(le)
    ensures Ties(Insert(s, x, le), a, le) == Ties(s + [x], a, le)
  {
    var n := |s| - 1;
    assert (s + [x])[..|s|] == s;
    if s != [] && !le(s[n], x) {
      InsertIsStable(s[..n], x, a, le);
      assert (s[..n] + [x])[..n] == s[..n];
      var r := Insert(s[..n], x, le);
      assert (r + [s[n]])[..|r|] == r;
    }
  }

  /** Sorting keeps the order of elements that rank the same. */
  lemma {:induction false} SortIsStable<T(!new)>(s: seq<T>, a: T, le: (T, T) -> bool)
    requires TotalPreorder(le)
    ensures Ties(Sort(s, le), a, le) == Ties(s, a, le)
  {
    if s != [] {
      var n := |s| - 1;
      SortIsStable(s[..n], a, le);
      var sorted := Sort(s[..n], le);
      InsertIsStable(sorted, s[n], a, le);
      assert (sorted + [s[n]])[..|sorted|] == sorted;
    }
  }

  lemma SamePermutation<T>(s: seq<T>, r: seq<T>)
    requires multiset(r) == multiset(s)
    ensures |r| == |s| && forall x :: x in r <==> x in s
  {
    assert |multiset(r)| == |r| && |multiset(s)| == |s|;
    forall x
      ensures x in r <==> x in s
    {
      assert x in r <==> x in multiset(r);
      assert x in s <==> x in multiset(s);
    }
  }

  lemma DropLast<T>(s: seq<T>)
    requires s != []
    ensures multiset(s) == multiset(s[..|s| - 1]) + multiset{s[|s| - 1]}
  {
    assert s == s[..|s| - 1] + [s[|s| - 1]];
  }

  lemma PrefixSorted<T(!new)>(s: seq<T>, n: nat, le: (T, T) -> bool)
    requires Sorted(s, le) && n <= |s|
    ensures Sorted(s[..n], le)
  {
  }

  /** Taking out an element other than the last leaves the last in place. */
  lemma RemoveBeforeLast<T>(s: seq<T>, k: nat)
    requires k < |s| - 1
    ensures var n, rest := |s| - 1, s[..k] + s[k + 1..];
      && s[..n][k] == s[k] && |rest| == n && rest[n - 1] == s[n]
      && rest[..n - 1] == s[..n][..k] + s[..n][k + 1..]
  {
  }

  lemma RemoveAt<T>(s: seq<T>, k: nat)
    requires k < |s|
    ensures multiset(s) == multiset(s[..k] + s[k + 1..]) + multiset{s[k]}
  {
    assert s == s[..k] + [s[k]] + s[k + 1..];
  }

  /** The last element of one arrangement occurs in any other; taking it out of both leaves arrangements. */
  lemma MatchLast<T>(a: seq<T>, b: seq<T>) returns (k: nat)
    requires multiset(a) == multiset(b) && a != []
    ensures k < |b| && b[k] == a[|a| - 1]
    ensures multiset(b[..k] + b[k + 1..]) == multiset(a[..|a| - 1])
  {
    SamePermutation(a, b);
    var x := a[|a| - 1];
    assert x in b;
    k :| 0 <= k < |b| && b[k] == x;
    DropLast(a);
    RemoveAt(b, k);
    assert multiset(b[..k] + b[k + 1..]) == multiset(b) - multiset{x};
    assert multiset(a[..|a| - 1]) == multiset(a) - multiset{x};
  }

  lemma SamePrefixes<T>(s: seq<T>, r: seq<T>)
    requires multiset(s) == multiset(r) && s != [] && |r| == |s| && s[|s| - 1] == r[|r| - 1]
    ensures multiset(s[..|s| - 1]) == multiset(r[..|r| - 1])
  {
    DropLast(s);
    DropLast(r);
    assert multiset(s[..|s| - 1]) == multiset(s) - multiset{s[|s| - 1]};
    assert multiset(r[..|r| - 1]) == multiset(r) - multiset{r[|r| - 1]};
  }

  lemma LastIsGreatest<T(!new)>(s: seq<T>, r: seq<T>, le: (T, T) -> bool)
    requires TotalOrder(le) && Sorted(s, le) && Sorted(r, le) && multiset(s) == multiset(r) && s != []
    ensures |r| == |s| && s[|s| - 1] == r[|r| - 1]
  {
    SamePermutation(s, r);
    var last, other := s[|s| - 1], r[|r| - 1];
    assert last in r && other in s;
    var i :| 0 <= i < |s| && s[i] == other;
    var j :| 0 <= j < |r| && r[j] == last;
    assert le(other, last) && le(last, other);
  }

  lemma PermutationKeepsDistinct<T>(s: seq<T>, r: seq<T>)
    requires multiset(r) == multiset(s) && Distinct(s)
    ensures Distinct(r)
  {
    AtMostOnce(s);
    OnceIsDistinct(r);
  }

  lemma {:induction false} AtMostOnce<T>(s: seq<T>)
    requires Distinct(s)
    ensures forall x :: multiset(s)[x] <= 1
  {
    if s != [] {
      var n := |s| - 1;
      AtMostOnce(s[..n]);
      DropLast(s);
      assert s[n] !in s[..n];
    }
  }

  lemma {:induction false} OnceIsDistinct<T>(r: seq<T>)
    requires forall x :: multiset(r)[x] <= 1
    ensures Distinct(r)
  {
    if r != [] {
      var n := |r| - 1;
      DropLast(r);
      forall x
        ensures multiset(r[..n])[x] + multiset{r[n]}[x] <= 1
      {
        assert multiset(r)[x] <= 1;
      }
      OnceIsDistinct(r[..n]);
      assert multiset{r[n]}[r[n]] == 1;
      assert r[n] !in multiset(r[..n]);
    }
  }

  /** Under a total order there is only one sorted arrangement of a given multiset. */
  lemma {:induction false} SortedIsUnique<T(!new)>(s: seq<T>, r: seq<T>, le: (T, T) -> bool)
    requires TotalOrder(le) && Sorted(s, le) && Sorted(r, le) && multiset(s) == multiset(r)
    ensures s == r
  {
    hide TotalOrder, Sorted;
    if s == [] || r == [] {
      SamePermutation(s, r);
    } else {
      LastIsGreatest(s, r, le);
      var n := |s| - 1;
      SamePrefixes(s, r);
      PrefixSorted(s, n, le);
      PrefixSorted(r, n, le);
      SortedIsUnique(s[..n], r[..n], le);
      assert s == s[..n] + [s[n]] && r == r[..n] + [r[n]];
    }
  }

  // ---- duplicate-free sequences ----

  lemma AppendDistinct<T>(s: seq<T>, x: T)
    requires Distinct(s) && x !in s
    ensures Distinct(s + [x])
  {
  }

  lemma {:induction false} DistinctCardinality<T>(s: seq<T>)
    requires Distinct(s)
    ensures |Elements(s)| == |s|
  {
    if s != [] {
      var n := |s| - 1;
      DistinctCardinality(s[..n]);
      assert Elements(s) == Elements(s[..n]) + {s[n]};
    }
  }

  /** Some duplicate-free listing of a set. */
  ghost function Listing<T>(s: set<T>): (r: seq<T>)
    ensures Distinct(r)
    ensures Elements(r) == s
  {
    if s == {} then []
    else
      var x :| x in s;
      var rest := Listing(s - {x});
      assert x !in Elements(rest) && Elements(rest + [x]) == Elements(rest) + {x};
      rest + [x]
  }

  lemma {:induction false} SubsetCardinality<T>(s: set<T>, t: set<T>)
    requires s <= t
    ensures |s| <= |t|
  {
    if s != {} {
      var x :| x in s;
      SubsetCardinality(s - {x}, t - {x});
    }
  }
}
