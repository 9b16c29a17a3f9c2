/** Sums, filters and maps over sequences, and how each behaves when the sequence is reordered.
    Sorting is specified only as "some ordered permutation", which is all that an unstable
    library sort promises. */
module Permutations {

  function Sum<T>(s: seq<T>, f: T -> real): real {
    if s == [] then 0.0 else Sum(s[..|s| - 1], f) + f(s[|s| - 1])
  }

  function Filter<T>(s: seq<T>, p: T -> bool): seq<T> {
    if s == [] then []
    else
      var rest := Filter(s[..|s| - 1], p);
      if p(s[|s| - 1]) then rest + [s[|s| - 1]] else rest
  }

  function Map<T, U>(s: seq<T>, f: T -> U): (r: seq<U>)
    ensures |r| == |s|
    ensures forall i :: 0 <= i < |s| ==> r[i] == f(s[i])
  {
    if s == [] then [] else Map(s[..|s| - 1], f) + [f(s[|s| - 1])]
  }

  function Elements<T>(s: seq<T>): set<T> {
    set x | x in s
  }

  ghost predicate Distinct<T>(s: seq<T>) {
    forall i, j :: 0 <= i < j < |s| ==> s[i] != s[j]
  }

  /** Unfolds the recursive definitions at the end of a prefix, the way a loop extends it. */
  lemma PrefixStep<T>(s: seq<T>, i: nat)
    requires i < |s|
    ensures s[..i + 1] == s[..i] + [s[i]]
    ensures s[..i + 1][..i] == s[..i]
  {
  }

  /** The two sequences are the same up to the position of the last element of `s`. */
  lemma ExtractLast<T>(s: seq<T>, t: seq<T>) returns (i: nat)
    requires multiset(s) == multiset(t) && s != []
    ensures i < |t| && t[i] == s[|s| - 1]
    ensures multiset(s[..|s| - 1]) == multiset(t[..i] + t[i + 1..])
  {
    var x := s[|s| - 1];
    assert s == s[..|s| - 1] + [x];
    assert x in multiset(t);
    i :| 0 <= i < |t| && t[i] == x;
    assert t == t[..i] + [x] + t[i + 1..];
    var a, b := multiset(s[..|s| - 1]), multiset(t[..i] + t[i + 1..]);
    assert a + multiset{x} == multiset(s) == multiset(t) == b + multiset{x};
    assert a == (a + multiset{x}) - multiset{x};
  }

  /** Two positions of one sequence match two positions of any permutation of it. */
  lemma TwoSources<T>(s: seq<T>, t: seq<T>, p: nat, q: nat) returns (k: nat, l: nat)
    requires multiset(s) == multiset(t) && p < q < |s|
    ensures k < |t| && l < |t| && k != l && t[k] == s[p] && t[l] == s[q]
  {
    assert s == s[..p] + [s[p]] + s[p + 1..q] + [s[q]] + s[q + 1..];
    assert multiset{s[p], s[q]} <= multiset(s);
    k, l := TwoPlaces(t, s[p], s[q]);
  }

  lemma TwoPlaces<T>(t: seq<T>, x: T, y: T) returns (k: nat, l: nat)
    requires multiset{x, y} <= multiset(t)
    ensures k < |t| && l < |t| && k != l && t[k] == x && t[l] == y
  {
    assert multiset{x, y}[x] >= 1 && x in multiset(t);
    k :| 0 <= k < |t| && t[k] == x;
    var rest := t[..k] + t[k + 1..];
    WithoutOne(t, k);
    assert multiset{x, y}[y] == if x == y then 2 else 1;
    assert y in multiset(rest);
    var m :| 0 <= m < |rest| && rest[m] == y;
    l := if m < k then m else m + 1;
  }

  lemma WithoutOne<T>(t: seq<T>, k: nat)
    requires k < |t|
    ensures multiset(t) == multiset(t[..k] + t[k + 1..]) + multiset{t[k]}
  {
    assert t == t[..k] + [t[k]] + t[k + 1..];
  }

  lemma {:induction false} SumAppend<T>(s: seq<T>, t: seq<T>, f: T -> real)
    ensures Sum(s + t, f) == Sum(s, f) + Sum(t, f)
  {
    if t == [] {
      assert s + t == s;
    } else {
      assert (s + t)[..|s + t| - 1] == s + t[..|t| - 1];
      SumAppend(s, t[..|t| - 1], f);
    }
  }

  lemma {:induction false} SumPermutation<T>(s: seq<T>, t: seq<T>, f: T -> real)
    requires multiset(s) == multiset(t)
    ensures Sum(s, f) == Sum(t, f)
  {
    if s == [] {
      assert |multiset(t)| == 0;
    } else {
      var i := ExtractLast(s, t);
      SumPermutation(s[..|s| - 1], t[..i] + t[i + 1..], f);
      assert t == t[..i] + ([t[i]] + t[i + 1..]);
      SumAppend(t[..i], t[i + 1..], f);
      SumAppend([t[i]], t[i + 1..], f);
      SumAppend(t[..i], [t[i]] + t[i + 1..], f);
    }
  }

  lemma {:induction false} SumBounds<T>(s: seq<T>, f: T -> real, g: T -> real)
    requires forall x :: x in s ==> f(x) <= g(x)
    ensures Sum(s, f) <= Sum(s, g)
  {
    if s != [] {
      SumBounds(s[..|s| - 1], f, g);
    }
  }

  /** A pointwise linear bound is a bound on the sums. */
  lemma {:induction false} SumLinearBound<T>(s: seq<T>, f: T -> real, d: real, g: T -> real, h: T -> real)
    requires forall x :: x in s ==> h(x) >= f(x) + d * g(x)
    ensures Sum(s, h) >= Sum(s, f) + d * Sum(s, g)
  {
    if s != [] {
      var init, x := s[..|s| - 1], s[|s| - 1];
      SumLinearBound(init, f, d, g, h);
      AddProducts(d, Sum(init, g), g(x));
    }
  }

  lemma AddProducts(d: real, a: real, b: real)
    ensures d * (a + b) == d * a + d * b
  {
  }

  lemma {:induction false} FilterCount<T>(s: seq<T>, p: T -> bool, x: T)
    ensures multiset(Filter(s, p))[x] == if p(x) then multiset(s)[x] else 0
  {
    if s != [] {
      FilterCount(s[..|s| - 1], p, x);
      assert s == s[..|s| - 1] + [s[|s| - 1]];
    }
  }

  lemma FilterPermutation<T(!new)>(s: seq<T>, t: seq<T>, p: T -> bool)
    requires multiset(s) == multiset(t)
    ensures multiset(Filter(s, p)) == multiset(Filter(t, p))
  {
    var a, b := multiset(Filter(s, p)), multiset(Filter(t, p));
    forall x: T
      ensures a[x] == b[x]
    {
      FilterCount(s, p, x);
      FilterCount(t, p, x);
    }
  }

  lemma {:induction false} NonePass<T>(s: seq<T>, p: T -> bool)
    requires forall x :: x in s ==> !p(x)
    ensures Filter(s, p) == []
  {
    if s != [] {
      NonePass(s[..|s| - 1], p);
    }
  }

  lemma {:induction false} AllPass<T>(s: seq<T>, p: T -> bool)
    requires forall x :: x in s ==> p(x)
    ensures Filter(s, p) == s
  {
    if s != [] {
      AllPass(s[..|s| - 1], p);
    }
  }

  lemma MapAppend<T, U>(s: seq<T>, t: seq<T>, f: T -> U)
    ensures Map(s + t, f) == Map(s, f) + Map(t, f)
  {
  }

  lemma {:induction false} MapPermutation<T, U>(s: seq<T>, t: seq<T>, f: T -> U)
    requires multiset(s) == multiset(t)
    ensures multiset(Map(s, f)) == multiset(Map(t, f))
  {
    if s == [] {
      assert |multiset(t)| == 0;
    } else {
      var i := ExtractLast(s, t);
      MapPermutation(s[..|s| - 1], t[..i] + t[i + 1..], f);
      assert Map(s, f) == Map(s[..|s| - 1], f) + [f(s[|s| - 1])];
      assert Map(t, f) == Map(t[..i], f) + [f(t[i])] + Map(t[i + 1..], f);
      MapAppend(t[..i], t[i + 1..], f);
    }
  }

  /** A map that tells the elements apart keeps their multiplicities. */
  lemma {:induction false} MapCount<T, U>(s: seq<T>, f: T -> U, x: T)
    requires forall y :: y in s && f(y) == f(x) ==> y == x
    ensures multiset(Map(s, f))[f(x)] == multiset(s)[x]
  {
    if s != [] {
      var init, last := s[..|s| - 1], s[|s| - 1];
      assert s == init + [last] && last in s;
      MapCount(init, f, x);
      assert Map(s, f) == Map(init, f) + [f(last)];
    }
  }

  lemma PermutationMembers<T>(s: seq<T>, t: seq<T>)
    requires multiset(s) == multiset(t)
    ensures forall x :: x in s <==> x in t
    ensures |s| == |t|
  {
    assert forall x :: x in s <==> x in multiset(s);
    assert forall x :: x in t <==> x in multiset(t);
    assert |multiset(s)| == |s| && |multiset(t)| == |t|;
  }

  // ----- sorting ------------------------------------------------------------

  ghost predicate SortedBy<T>(s: seq<T>, le: (T, T) -> bool) {
    forall i, j :: 0 <= i < j < |s| ==> le(s[i], s[j])
  }

  ghost predicate TotalPreorder<T(!new)>(le: (T, T) -> bool) {
    && (forall x, y :: le(x, y) || le(y, x))
    && (forall x, y, z :: le(x, y) && le(y, z) ==> le(x, z))
  }

  function Insert<T>(x: T, s: seq<T>, le: (T, T) -> bool): seq<T> {
    if s == [] then [x]
    else if le(x, s[0]) then [x] + s
    else [s[0]] + Insert(x, s[1..], le)
  }

  function Sort<T>(s: seq<T>, le: (T, T) -> bool): seq<T> {
    if s == [] then [] else Insert(s[0], Sort(s[1..], le), le)
  }

  lemma {:induction false} InsertKeeps<T>(x: T, s: seq<T>, le: (T, T) -> bool)
    ensures multiset(Insert(x, s, le)) == multiset(s) + multiset{x}
  {
    if s != [] && !le(x, s[0]) {
      InsertKeeps(x, s[1..], le);
      assert s == [s[0]] + s[1..];
    }
  }

  lemma {:induction false} InsertSorted<T(!new)>(x: T, s: seq<T>, le: (T, T) -> bool)
    requires TotalPreorder(le) && SortedBy(s, le)
    ensures SortedBy(Insert(x, s, le), le)
  {
    if s != [] && !le(x, s[0]) {
      InsertSorted(x, s[1..], le);
      InsertKeeps(x, s[1..], le);
      var rest := Insert(x, s[1..], le);
      forall k | 0 <= k < |rest| ensures le(s[0], rest[k]) {
        assert rest[k] in multiset(rest);
        assert rest[k] == x || rest[k] in s[1..];
      }
    }
  }

  lemma {:induction false} SortSorts<T(!new)>(s: seq<T>, le: (T, T) -> bool)
    requires TotalPreorder(le)
    ensures SortedBy(Sort(s, le), le) && multiset(Sort(s, le)) == multiset(s)
  {
    if s != [] {
      SortSorts(s[1..], le);
      InsertSorted(s[0], Sort(s[1..], le), le);
      InsertKeeps(s[0], Sort(s[1..], le), le);
      assert s == [s[0]] + s[1..];
    }
  }

  /** An in-place sort. Callers see only that the result is an ordered permutation: how equal
      elements are arranged is left open. */
  method SortSlice<T(!new)>(a: array<T>, le: (T, T) -> bool)
    requires TotalPreorder(le)
    modifies a
    ensures SortedBy(a[..], le)
    ensures multiset(a[..]) == multiset(old(a[..]))
  {
    var sorted := Sort(a[..], le);
    SortSorts(a[..], le);
    PermutationMembers(sorted, a[..]);
    forall i | 0 <= i < a.Length {
      a[i] := sorted[i];
    }
    assert a[..] == sorted;
  }

  /** When the order is antisymmetric there is only one ordered permutation. */
  lemma {:induction false} SortedUnique<T(!new)>(s: seq<T>, t: seq<T>, le: (T, T) -> bool)
    requires SortedBy(s, le) && SortedBy(t, le) && multiset(s) == multiset(t)
    requires forall x, y :: le(x, y) && le(y, x) ==> x == y
    ensures s == t
  {
    PermutationMembers(s, t);
    if s != [] {
      SortedHeads(s, t, le);
      TailPermutation(s, t);
      SortedUnique(s[1..], t[1..], le);
      assert s == [s[0]] + s[1..] && t == [t[0]] + t[1..];
    }
  }

  lemma TailPermutation<T>(s: seq<T>, t: seq<T>)
    requires multiset(s) == multiset(t) && s != [] && t != [] && s[0] == t[0]
    ensures multiset(s[1..]) == multiset(t[1..])
  {
    var x := s[0];
    assert s == [x] + s[1..] && t == [x] + t[1..];
    assert multiset(s) == multiset{x} + multiset(s[1..]);
    assert multiset(t) == multiset{x} + multiset(t[1..]);
    assert multiset(s[1..]) == multiset(s) - multiset{x};
  }

  lemma SortedHeads<T(!new)>(s: seq<T>, t: seq<T>, le: (T, T) -> bool)
    requires SortedBy(s, le) && SortedBy(t, le) && s != [] && t != []
    requires s[0] in t && t[0] in s
    requires forall x, y :: le(x, y) && le(y, x) ==> x == y
    ensures s[0] == t[0]
  {
    var i :| 0 <= i < |t| && t[i] == s[0];
    var j :| 0 <= j < |s| && s[j] == t[0];
    if i != 0 && j != 0 {
      assert le(t[0], t[i]) && le(s[0], s[j]);
    }
  }

  lemma {:induction false} FilterMembers<T(!new)>(s: seq<T>, p: T -> bool)
    ensures forall x :: x in Filter(s, p) <==> x in s && p(x)
  {
    if s != [] {
      FilterMembers(s[..|s| - 1], p);
      assert s == s[..|s| - 1] + [s[|s| - 1]];
    }
  }

  lemma FilterTwice<T(!new)>(s: seq<T>, p: T -> bool)
    ensures Filter(Filter(s, p), p) == Filter(s, p)
  {
    FilterMembers(s, p);
    AllPass(Filter(s, p), p);
  }

  lemma {:induction false} FilterConcat<T>(s: seq<T>, t: seq<T>, p: T -> bool)
    ensures Filter(s + t, p) == Filter(s, p) + Filter(t, p)
  {
    if t == [] {
      assert s + t == s;
    } else {
      FilterConcat(s, t[..|t| - 1], p);
      assert (s + t)[..|s + t| - 1] == s + t[..|t| - 1];
    }
  }
}
