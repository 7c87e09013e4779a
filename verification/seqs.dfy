/** Generic sequence operations the dashboard is built from: a filter that
    keeps the original order (a boolean row mask on a data frame) and a
    descending sort by an integer key (`sort_values(..., ascending=False)`).
    Nothing here knows about crime records. */
module Seqs {

  /** Rows of `s` satisfying `p`, in their original order. */
  function Filter<T(!new)>(s: seq<T>, p: T -> bool): (r: seq<T>)
    ensures |r| <= |s|
    ensures forall x :: x in r <==> x in s && p(x)
    ensures forall x :: multiset(r)[x] == if p(x) then multiset(s)[x] else 0
    ensures forall i :: 0 <= i < |r| ==> p(r[i])
  {
    if |s| == 0 then []
    else
      var rest := Filter(s[1..], p);
      assert s == [s[0]] + s[1..];
      if p(s[0]) then [s[0]] + rest else rest
  }

  /** Filtering distributes over concatenation, so it never reorders rows. */
  lemma {:induction false} FilterAppend<T(!new)>(a: seq<T>, b: seq<T>, p: T -> bool)
    ensures Filter(a + b, p) == Filter(a, p) + Filter(b, p)
  {
    if |a| == 0 {
      assert a + b == b;
    } else {
      assert (a + b)[1..] == a[1..] + b;
      FilterAppend(a[1..], b, p);
    }
  }

  /** The row at position `k` of `s`, when kept, lands at the position given
      by the number of kept rows before it. */
  lemma FilterPosition<T(!new)>(s: seq<T>, p: T -> bool, k: nat)
    requires k < |s| && p(s[k])
    ensures |Filter(s[..k], p)| < |Filter(s, p)|
    ensures Filter(s, p)[|Filter(s[..k], p)|] == s[k]
  {
    assert s == s[..k] + s[k..];
    FilterAppend(s[..k], s[k..], p);
    assert s[k..][0] == s[k];
  }

  /** Filtering two permutations of one another keeps the same rows, so the
      number of kept rows does not depend on the order. */
  lemma FilterPermutation<T(!new)>(s: seq<T>, t: seq<T>, p: T -> bool)
    requires multiset(s) == multiset(t)
    ensures multiset(Filter(s, p)) == multiset(Filter(t, p))
    ensures |Filter(s, p)| == |Filter(t, p)|
  {
  }

  /** Two filters with predicates that never hold together select disjoint
      rows, and together select no more rows than there are. */
  lemma {:induction false} FilterDisjointBound<T(!new)>(s: seq<T>, p: T -> bool, q: T -> bool)
    requires forall x :: !(p(x) && q(x))
    ensures |Filter(s, p)| + |Filter(s, q)| <= |s|
  {
    if |s| > 0 {
      FilterDisjointBound(s[1..], p, q);
    }
  }

  /** `s[::-1]`. */
  function Reverse<T(!new)>(s: seq<T>): (r: seq<T>)
    ensures |r| == |s|
    ensures forall i :: 0 <= i < |s| ==> r[i] == s[|s| - 1 - i]
    ensures forall x :: x in r <==> x in s
  {
    if |s| == 0 then [] else Reverse(s[1..]) + [s[0]]
  }

  /** `s` is in non-increasing order of `key`. */
  predicate SortedDesc<T>(s: seq<T>, key: T -> int) {
    forall i, j :: 0 <= i < j < |s| ==> key(s[i]) >= key(s[j])
  }

  /** Puts `x` into the sorted sequence `s` before the first element whose key
      is not greater than its own. */
  function Insert<T>(x: T, s: seq<T>, key: T -> int): (r: seq<T>)
    requires SortedDesc(s, key)
    ensures SortedDesc(r, key)
    ensures multiset(r) == multiset(s) + multiset{x}
    ensures |r| == |s| + 1
  {
    if |s| == 0 then [x]
    else if key(x) >= key(s[0]) then
      ConsSorted(x, s, key);
      [x] + s
    else
      var t := Insert(x, s[1..], key);
      assert s == [s[0]] + s[1..];
      PermutationBounded(t, s[1..], x, key, key(s[0]));
      ConsSorted(s[0], t, key);
      [s[0]] + t
  }

  /** Putting an element in front of a sorted sequence whose keys it bounds
      keeps it sorted. */
  lemma ConsSorted<T>(h: T, t: seq<T>, key: T -> int)
    requires SortedDesc(t, key)
    requires forall k :: 0 <= k < |t| ==> key(t[k]) <= key(h)
    ensures SortedDesc([h] + t, key)
  {
  }

  /** Every element of a permutation of `s` plus `x` has a key within a bound
      that `x` and all of `s` respect. */
  lemma PermutationBounded<T>(t: seq<T>, s: seq<T>, x: T, key: T -> int, bound: int)
    requires multiset(t) == multiset(s) + multiset{x}
    requires key(x) <= bound && forall e :: e in s ==> key(e) <= bound
    ensures forall k :: 0 <= k < |t| ==> key(t[k]) <= bound
  {
    forall k | 0 <= k < |t|
      ensures key(t[k]) <= bound
    {
      assert t[k] in multiset(t);
      if t[k] != x {
        assert t[k] in multiset(s);
      }
    }
  }

  /** A descending sort by `key`: the result is ordered and is a permutation
      of the input. How rows with equal keys are ordered is not promised. */
  function SortDesc<T>(s: seq<T>, key: T -> int): (r: seq<T>)
    ensures SortedDesc(r, key)
    ensures multiset(r) == multiset(s)
    ensures |r| == |s|
  {
    if |s| == 0 then []
    else
      assert s == [s[0]] + s[1..];
      Insert(s[0], SortDesc(s[1..], key), key)
  }

  /** `s` without its element at position `j`. */
  function RemoveAt<T>(s: seq<T>, j: nat): (r: seq<T>)
    requires j < |s|
    ensures |r| == |s| - 1
    ensures forall i :: 0 <= i < |r| ==> r[i] == if i < j then s[i] else s[i + 1]
    ensures multiset(r) + multiset{s[j]} == multiset(s)
  {
    assert s == s[..j] + [s[j]] + s[j + 1..];
    s[..j] + s[j + 1..]
  }

  /** Removing an element keeps a sequence sorted. */
  lemma RemoveAtSorted<T>(s: seq<T>, j: nat, key: T -> int)
    requires j < |s| && SortedDesc(s, key)
    ensures SortedDesc(RemoveAt(s, j), key)
  {
  }

  /** Two sorted permutations of one another start with equal keys. */
  lemma SortedPermutationsHeadKey<T>(a: seq<T>, b: seq<T>, key: T -> int)
    requires SortedDesc(a, key) && SortedDesc(b, key) && multiset(a) == multiset(b)
    requires |a| > 0 && |b| > 0
    ensures key(a[0]) == key(b[0])
  {
    assert a[0] in multiset(b);
    assert b[0] in multiset(a);
  }

  /** Taking the head off `a` and its copy at `j` out of `b` leaves
      permutations of one another. */
  lemma TailPermutation<T>(a: seq<T>, b: seq<T>, j: nat)
    requires multiset(a) == multiset(b) && |a| > 0 && j < |b| && b[j] == a[0]
    ensures multiset(a[1..]) == multiset(RemoveAt(b, j))
  {
    assert a == [a[0]] + a[1..];
    assert multiset(a[1..]) == multiset(a) - multiset{a[0]};
  }

  /** Any two sorted permutations of one another have the same key at every
      position: an unstable sort may reorder rows with equal keys, but never
      changes the column of keys. */
  lemma {:induction false} SortedPermutationsAgreeOnKeys<T>(a: seq<T>, b: seq<T>, key: T -> int)
    requires SortedDesc(a, key) && SortedDesc(b, key) && multiset(a) == multiset(b)
    ensures |a| == |b|
    ensures forall i :: 0 <= i < |a| ==> key(a[i]) == key(b[i])
    decreases |a|
  {
    assert |a| == |multiset(a)| == |multiset(b)| == |b|;
    if |a| > 0 {
      assert a[0] in multiset(b);
      var j :| 0 <= j < |b| && b[j] == a[0];
      var rest := RemoveAt(b, j);
      RemoveAtSorted(b, j, key);
      TailPermutation(a, b, j);
      SortedPermutationsAgreeOnKeys(a[1..], rest, key);
      SortedPermutationsHeadKey(a, b, key);
      forall i | 0 < i < |a|
        ensures key(a[i]) == key(b[i])
      {
        assert key(a[i]) == key(rest[i - 1]) by {
          assert a[i] == a[1..][i - 1];
        }
        if i <= j {
          assert key(b[0]) >= key(b[i - 1]) >= key(b[j]);
          assert key(b[0]) >= key(b[i]) >= key(b[j]);
        }
      }
    }
  }

  /** The first element of a non-empty sorted permutation of `s` is an
      element of `s` whose key is maximal. */
  lemma SortedHeadIsMax<T>(r: seq<T>, s: seq<T>, key: T -> int)
    requires SortedDesc(r, key) && multiset(r) == multiset(s) && |r| > 0
    ensures r[0] in s
    ensures forall x :: x in s ==> key(x) <= key(r[0])
  {
    assert r[0] in multiset(r);
    forall x | x in s
      ensures key(x) <= key(r[0])
    {
      assert x in multiset(s);
      assert x in r;
    }
  }
}
