/** Sequence operations shared by the analyzers: order-preserving selection
    (a pandas boolean mask), the subsequence relation and first-appearance
    deduplication (`Series.unique`). */
module Seqs {

  /** The elements of `s` that satisfy `p`, in their original order. */
  function Filter<T(==,!new)>(s: seq<T>, p: T -> bool): (r: seq<T>)
    ensures |r| <= |s|
    ensures forall x :: multiset(r)[x] == if p(x) then multiset(s)[x] else 0
    ensures forall x :: x in r <==> x in s && p(x)
  {
    if |s| == 0 then []
    else
      assert s == [s[0]] + s[1..];
      (if p(s[0]) then [s[0]] else []) + Filter(s[1..], p)
  }

  lemma FilterAll<T(!new)>(s: seq<T>, p: T -> bool)
    requires forall i :: 0 <= i < |s| ==> p(s[i])
    ensures Filter(s, p) == s
  {
    if |s| > 0 {
      FilterAll(s[1..], p);
    }
  }

  /** `a` is obtained from `b` by deleting elements, keeping the order of the rest. */
  predicate IsSubseq<T(==,!new)>(a: seq<T>, b: seq<T>)
    decreases |b|
  {
    |a| == 0 || (|b| > 0 && ((a[0] == b[0] && IsSubseq(a[1..], b[1..])) || IsSubseq(a, b[1..])))
  }

  lemma {:induction false} FilterIsSubseq<T(!new)>(s: seq<T>, p: T -> bool)
    ensures IsSubseq(Filter(s, p), s)
    decreases |s|
  {
    if |s| > 0 {
      FilterIsSubseq(s[1..], p);
      var r := Filter(s, p);
      if p(s[0]) {
        assert r[0] == s[0] && r[1..] == Filter(s[1..], p);
      } else {
        assert r == Filter(s[1..], p);
      }
    }
  }

  /** Every element of a subsequence is an element of the whole. */
  lemma {:induction false} SubseqMembers<T(!new)>(a: seq<T>, b: seq<T>, x: T)
    requires IsSubseq(a, b) && x in a
    ensures x in b
    decreases |b|
  {
    if a[0] == b[0] && IsSubseq(a[1..], b[1..]) {
      if x != a[0] {
        SubseqMembers(a[1..], b[1..], x);
      }
    } else {
      SubseqMembers(a, b[1..], x);
    }
  }

  /** A prefix of a subsequence is a subsequence. */
  lemma {:induction false} SubseqPrefix<T(!new)>(a: seq<T>, b: seq<T>, n: int)
    requires IsSubseq(a, b) && 0 <= n <= |a|
    ensures IsSubseq(a[..n], b)
    decreases |b|
  {
    if n > 0 {
      if a[0] == b[0] && IsSubseq(a[1..], b[1..]) {
        SubseqPrefix(a[1..], b[1..], n - 1);
        assert a[..n][1..] == a[1..][..n - 1];
      } else {
        SubseqPrefix(a, b[1..], n);
      }
    }
  }

  /** The first selected element is the first element of `s` that satisfies `p`. */
  lemma {:induction false} FilterFirst<T(!new)>(s: seq<T>, p: T -> bool)
    requires |Filter(s, p)| > 0
    ensures exists i :: 0 <= i < |s| && p(s[i]) && Filter(s, p)[0] == s[i] && forall j :: 0 <= j < i ==> !p(s[j])
    decreases |s|
  {
    if !p(s[0]) {
      FilterFirst(s[1..], p);
      var i :| 0 <= i < |s[1..]| && p(s[1..][i]) && Filter(s[1..], p)[0] == s[1..][i] && forall j :: 0 <= j < i ==> !p(s[1..][j]);
      assert p(s[i + 1]) && Filter(s, p)[0] == s[i + 1];
      forall j | 0 <= j < i + 1
        ensures !p(s[j])
      {
        if j > 0 {
          assert s[j] == s[1..][j - 1];
        }
      }
    }
  }

  /** The distinct elements of `s`, each where it first appears. */
  function Distinct<T(==,!new)>(s: seq<T>): (u: seq<T>)
    ensures forall x :: x in u <==> x in s
    ensures forall i, j :: 0 <= i < j < |u| ==> u[i] != u[j]
  {
    if |s| == 0 then []
    else
      var u := Distinct(s[..|s| - 1]);
      assert s == s[..|s| - 1] + [s[|s| - 1]];
      if s[|s| - 1] in u then u else u + [s[|s| - 1]]
  }

  /** Deduplication keeps the first element in front. */
  lemma {:induction false} DistinctFirst<T(!new)>(s: seq<T>)
    requires |s| > 0
    ensures |Distinct(s)| > 0 && Distinct(s)[0] == s[0]
    decreases |s|
  {
    if |s| > 1 {
      DistinctFirst(s[..|s| - 1]);
    } else {
      assert s[..0] == [];
    }
  }

  /** In a strictly increasing sequence, the elements before index `i` are
      exactly the elements smaller than `s[i]`. */
  lemma PrefixBelow(s: seq<nat>, i: int, x: nat)
    requires forall a, b :: 0 <= a < b < |s| ==> s[a] < s[b]
    requires 0 <= i < |s|
    ensures x in s[..i] <==> x in s && x < s[i]
    ensures x in s && x < s[i] ==> exists j :: 0 <= j < i && s[j] == x
  {
    if x in s && x < s[i] {
      var m :| 0 <= m < |s| && s[m] == x;
      assert s[..i][m] == x;
    }
  }

  /** Deduplicating a non-decreasing sequence leaves it strictly
      increasing. */
  lemma {:induction false} DistinctAscending(s: seq<nat>)
    requires forall i, j :: 0 <= i <= j < |s| ==> s[i] <= s[j]
    ensures forall i, j :: 0 <= i < j < |Distinct(s)| ==> Distinct(s)[i] < Distinct(s)[j]
    decreases |s|
  {
    if |s| > 0 {
      var n := |s| - 1;
      DistinctAscending(s[..n]);
      var u := Distinct(s[..n]);
      if s[n] !in u {
        forall i | 0 <= i < |u|
          ensures u[i] < s[n]
        {
          assert u[i] in s[..n];
          var m :| 0 <= m < n && s[..n][m] == u[i];
        }
      }
    }
  }

  /** `f` applied to each element, in order. */
  function Map<A, B>(s: seq<A>, f: A -> B): (r: seq<B>)
    ensures |r| == |s|
    ensures forall i :: 0 <= i < |s| ==> r[i] == f(s[i])
  {
    if |s| == 0 then [] else [f(s[0])] + Map(s[1..], f)
  }

  lemma MapFront<A, B>(x: A, s: seq<A>, f: A -> B)
    ensures Map([x] + s, f) == [f(x)] + Map(s, f)
  {
    assert ([x] + s)[1..] == s;
  }

  /** The number of `true` entries of a mask. */
  function CountTrue(f: seq<bool>): (n: nat)
    ensures n <= |f|
  {
    if |f| == 0 then 0 else (if f[0] then 1 else 0) + CountTrue(f[1..])
  }
}
