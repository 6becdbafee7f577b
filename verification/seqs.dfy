/** Generic sequence helpers: filtering, prefixes, subsequences and flattening. */
module Seqs {

  function Min(a: int, b: int): int
  {
    if a <= b then a else b
  }

  /** Python's `s[:n]`: the first `n` elements, or all of `s` when it is shorter. */
  function Take<T>(s: seq<T>, n: nat): (r: seq<T>)
    ensures |r| == Min(n, |s|)
    ensures r <= s
  {
    s[..Min(n, |s|)]
  }

  /** A slice of a suffix is a slice of the whole, shifted by where the suffix starts. */
  lemma SliceOfSuffix<T>(s: seq<T>, n: nat, lo: nat, hi: nat)
    requires n <= |s| && lo <= hi <= |s| - n
    ensures s[n..][lo..hi] == s[n + lo..n + hi]
  {
    assert forall k :: 0 <= k < hi - lo ==> s[n..][lo..hi][k] == s[n + lo + k];
  }

  /** Taking as many elements as the first part holds gives back the first part. */
  lemma TakeOfAppend<T>(a: seq<T>, b: seq<T>, n: nat)
    requires |a| == n
    ensures Take(a + b, n) == a
  {
    assert (a + b)[..n] == a;
  }

  /** `a` is obtained from `b` by deleting elements; the remaining ones keep their order. */
  predicate IsSubseq<T(==)>(a: seq<T>, b: seq<T>)
    decreases |b|
  {
    |a| == 0 || (|b| > 0 && (if a[0] == b[0] then IsSubseq(a[1..], b[1..]) else IsSubseq(a, b[1..])))
  }

  /** The elements of `s` that satisfy `p`, in their original order (a list comprehension with `if`). */
  function Filter<T(==)>(p: T -> bool, s: seq<T>): (r: seq<T>)
    ensures |r| <= |s|
    ensures forall i :: 0 <= i < |r| ==> p(r[i])
    ensures forall i :: 0 <= i < |r| ==> r[i] in s
    ensures forall i :: 0 <= i < |s| ==> (s[i] in r <==> p(s[i]))
    ensures IsSubseq(r, s)
  {
    if |s| == 0 then []
    else if p(s[0]) then [s[0]] + Filter(p, s[1..])
    else Filter(p, s[1..])
  }

  /** Filtering distributes over concatenation, so the kept elements keep their relative order. */
  lemma {:induction false} FilterAppend<T>(p: T -> bool, a: seq<T>, b: seq<T>)
    ensures Filter(p, a + b) == Filter(p, a) + Filter(p, b)
    decreases |a|
  {
    if |a| == 0 {
      assert a + b == b;
    } else {
      assert (a + b)[0] == a[0];
      assert (a + b)[1..] == a[1..] + b;
      FilterAppend(p, a[1..], b);
    }
  }

  /** When every element passes, filtering changes nothing. */
  lemma {:induction false} FilterAllPass<T>(p: T -> bool, s: seq<T>)
    requires forall i :: 0 <= i < |s| ==> p(s[i])
    ensures Filter(p, s) == s
    decreases |s|
  {
    if |s| > 0 {
      assert forall i :: 0 <= i < |s[1..]| ==> s[1..][i] == s[i + 1];
      FilterAllPass(p, s[1..]);
    }
  }

  /** No element occurs twice. */
  predicate Distinct<T(==)>(s: seq<T>)
  {
    forall a, b :: 0 <= a < b < |s| ==> s[a] != s[b]
  }

  /** In a list without duplicates, filtering keeps the relative order of the kept elements. */
  lemma FilterKeepsOrder<T>(p: T -> bool, s: seq<T>, i: int, j: int, m: int)
    requires Distinct(s)
    requires 0 <= i < j < |s| && p(s[i])
    requires 0 <= m < |Filter(p, s)| && Filter(p, s)[m] == s[j]
    ensures exists k :: 0 <= k < m && Filter(p, s)[k] == s[i]
  {
    var pre, post := s[..j], s[j..];
    assert s == pre + post;
    FilterAppend(p, pre, post);
    var front := Filter(p, pre);
    var f := front + Filter(p, post);
    assert s[j] !in pre;
    assert |front| <= m;
    assert pre[i] == s[i];
    var k :| 0 <= k < |front| && front[k] == s[i];
    assert f[k] == s[i];
  }

  /**
   * Capping a filtered list keeps the earliest matches: if a later element made it into the
   * first `n` results, so did every earlier element that passes.
   */
  lemma FilterTakeKeepsOrder<T>(p: T -> bool, s: seq<T>, n: nat, i: int, j: int)
    requires Distinct(s)
    requires 0 <= i < j < |s| && p(s[i])
    requires s[j] in Take(Filter(p, s), n)
    ensures s[i] in Take(Filter(p, s), n)
  {
    var f := Filter(p, s);
    var t := Take(f, n);
    var m :| 0 <= m < |t| && t[m] == s[j];
    assert f[m] == s[j];
    FilterKeepsOrder(p, s, i, j, m);
    var k :| 0 <= k < m && f[k] == s[i];
    assert t[k] == s[i];
  }

  /** Every element of a subsequence is an element of the whole. */
  lemma {:induction false} SubseqMembers<T>(a: seq<T>, b: seq<T>)
    requires IsSubseq(a, b)
    ensures forall i :: 0 <= i < |a| ==> a[i] in b
    decreases |b|
  {
    if |a| > 0 {
      if a[0] == b[0] {
        SubseqMembers(a[1..], b[1..]);
        assert forall i :: 1 <= i < |a| ==> a[i] == a[1..][i - 1];
      } else {
        SubseqMembers(a, b[1..]);
      }
    }
  }

  /** A prefix of a sequence is a subsequence of it. */
  lemma {:induction false} PrefixIsSubseq<T>(s: seq<T>, n: nat)
    requires n <= |s|
    ensures IsSubseq(s[..n], s)
    decreases n
  {
    if n > 0 {
      assert s[..n][1..] == s[1..][..n - 1];
      PrefixIsSubseq(s[1..], n - 1);
    }
  }

  /** A prefix of a subsequence is still a subsequence. */
  lemma {:induction false} PrefixOfSubseq<T>(a: seq<T>, b: seq<T>, n: nat)
    requires IsSubseq(a, b)
    requires n <= |a|
    ensures IsSubseq(a[..n], b)
    decreases |b|
  {
    if n > 0 {
      if a[0] == b[0] {
        PrefixOfSubseq(a[1..], b[1..], n - 1);
        assert a[..n][1..] == a[1..][..n - 1];
      } else {
        PrefixOfSubseq(a, b[1..], n);
      }
    }
  }

  /** `[f(x) for x in s if p(x)]`, stated from the last element backwards. */
  function FilterMap<A, B>(p: A -> bool, f: A -> B, s: seq<A>): seq<B>
    decreases |s|
  {
    if |s| == 0 then []
    else FilterMap(p, f, s[..|s| - 1]) + (if p(s[|s| - 1]) then [f(s[|s| - 1])] else [])
  }

  /** The comprehension distributes over concatenation. */
  lemma {:induction false} FilterMapAppend<A, B>(p: A -> bool, f: A -> B, a: seq<A>, b: seq<A>)
    ensures FilterMap(p, f, a + b) == FilterMap(p, f, a) + FilterMap(p, f, b)
    decreases |b|
  {
    if |b| == 0 {
      assert a + b == a;
    } else {
      var ab := a + b;
      assert ab[..|ab| - 1] == a + b[..|b| - 1];
      assert ab[|ab| - 1] == b[|b| - 1];
      FilterMapAppend(p, f, a, b[..|b| - 1]);
    }
  }

  /** Putting one element in front adds its image in front when it passes. */
  lemma FilterMapCons<A, B>(p: A -> bool, f: A -> B, x: A, s: seq<A>)
    ensures FilterMap(p, f, [x] + s) == (if p(x) then [f(x)] else []) + FilterMap(p, f, s)
  {
    FilterMapAppend(p, f, [x], s);
    assert [x][..0] == [];
  }

  /** The results are the images of exactly the elements passing the filter. */
  lemma {:induction false} FilterMapMembers<A, B>(p: A -> bool, f: A -> B, s: seq<A>)
    ensures |FilterMap(p, f, s)| <= |s|
    ensures forall j :: 0 <= j < |FilterMap(p, f, s)| ==>
      exists i :: 0 <= i < |s| && p(s[i]) && FilterMap(p, f, s)[j] == f(s[i])
    ensures forall i :: 0 <= i < |s| && p(s[i]) ==> f(s[i]) in FilterMap(p, f, s)
    decreases |s|
  {
    if |s| > 0 {
      var init := s[..|s| - 1];
      var r := FilterMap(p, f, s);
      var ri := FilterMap(p, f, init);
      FilterMapMembers(p, f, init);
      forall j | 0 <= j < |r|
        ensures exists i :: 0 <= i < |s| && p(s[i]) && r[j] == f(s[i])
      {
        if j < |ri| {
          assert r[j] == ri[j];
          var i :| 0 <= i < |init| && p(init[i]) && ri[j] == f(init[i]);
          assert s[i] == init[i];
          assert 0 <= i < |s| && p(s[i]) && r[j] == f(s[i]);
        } else {
          var i := |s| - 1;
          assert 0 <= i < |s| && p(s[i]) && r[j] == f(s[i]);
        }
      }
      assert forall j :: 0 <= j < |FilterMap(p, f, s)| ==>
        exists i :: 0 <= i < |s| && p(s[i]) && FilterMap(p, f, s)[j] == f(s[i]);
      forall i | 0 <= i < |s| && p(s[i])
        ensures f(s[i]) in r
      {
        if i < |init| {
          assert s[i] == init[i];
          assert f(init[i]) in ri;
        }
      }
    }
  }

  /** Once a prefix yields `n` results, those are the first `n` results of the whole input. */
  lemma FilterMapCap<A, B>(p: A -> bool, f: A -> B, s: seq<A>, i: nat, n: nat)
    requires i <= |s|
    requires |FilterMap(p, f, s[..i])| == n
    ensures Take(FilterMap(p, f, s), n) == FilterMap(p, f, s[..i])
  {
    assert s[..i] + s[i..] == s;
    FilterMapAppend(p, f, s[..i], s[i..]);
    TakeOfAppend(FilterMap(p, f, s[..i]), FilterMap(p, f, s[i..]), n);
  }

  /**
   * A loop that appends `f(x)` for every `x` passing `p` and stops as soon as `cap` results are
   * collected: the first `cap` results of the whole comprehension.
   */
  method CollectCapped<A, B>(p: A -> bool, f: A -> B, s: seq<A>, cap: nat) returns (r: seq<B>)
    requires cap > 0
    ensures r == Take(FilterMap(p, f, s), cap)
  {
    r := [];
    var i := 0;
    while i < |s|
      invariant 0 <= i <= |s|
      invariant r == FilterMap(p, f, s[..i])
      invariant |r| < cap
    {
      assert s[..i + 1][..i] == s[..i];
      if p(s[i]) {
        r := r + [f(s[i])];
        if |r| >= cap {
          FilterMapCap(p, f, s, i + 1, cap);
          return;
        }
      }
      i := i + 1;
    }
    assert s[..i] == s;
  }

  /** Concatenation of a sequence of sequences. */
  function Flatten<T>(ss: seq<seq<T>>): seq<T>
  {
    if |ss| == 0 then [] else ss[0] + Flatten(ss[1..])
  }

}
