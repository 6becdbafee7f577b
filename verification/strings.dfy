/**
 * Python string operations the handlers rely on, over `string` (= `seq<char>`):
 * `in`, `split(sep)[0]`, `split(sep)[-1]`, `replace`, `endswith`, `lower`,
 * `"\n".join`, `str(int)` and the code-point ordering used by `sorted`.
 */
module Strings {
  import opened Wrappers
  import Seqs

  /** `sub` occurs in `s` starting at index `i`. */
  predicate OccursAt(s: string, sub: string, i: nat)
  {
    i + |sub| <= |s| && s[i..i + |sub|] == sub
  }

  /** Index of the leftmost occurrence of `sub` in `s` at or after `start`. */
  function FindFrom(s: string, sub: string, start: nat): (r: Option<nat>)
    decreases |s| - start
    ensures r.Some? ==> start <= r.value && OccursAt(s, sub, r.value)
    ensures r.Some? ==> forall j: nat :: start <= j < r.value ==> !OccursAt(s, sub, j)
    ensures r.None? <==> forall j: nat :: start <= j ==> !OccursAt(s, sub, j)
  {
    if start + |sub| > |s| then None
    else if OccursAt(s, sub, start) then Some(start)
    else FindFrom(s, sub, start + 1)
  }

  /** Python's `sub in s`. */
  predicate Contains(s: string, sub: string)
    ensures Contains(s, sub) <==> exists i: nat :: OccursAt(s, sub, i)
  {
    FindFrom(s, sub, 0).Some?
  }

  /** Python's `s.endswith(suffix)`. */
  predicate EndsWith(s: string, suffix: string)
  {
    |suffix| <= |s| && s[|s| - |suffix|..] == suffix
  }

  /** An occurrence inside a slice is an occurrence in the whole string, shifted by the slice start. */
  lemma OccursInSlice(s: string, sub: string, lo: nat, hi: nat, j: nat)
    requires lo <= hi <= |s|
    requires OccursAt(s[lo..hi], sub, j)
    ensures OccursAt(s, sub, lo + j)
  {
    var t := s[lo..hi];
    assert j + |sub| <= |t|;
    var u := t[j..j + |sub|];
    var v := s[lo + j..lo + j + |sub|];
    forall k | 0 <= k < |sub|
      ensures u[k] == v[k]
    {
      assert t[j + k] == s[lo + j + k];
    }
    assert u == v;
  }

  /** A string ends with whatever one of its suffixes ends with. */
  lemma EndsWithOfSuffix(s: string, k: nat, u: string)
    requires k <= |s|
    requires EndsWith(s[k..], u)
    ensures EndsWith(s, u)
  {
    assert s[k..][|s[k..]| - |u|..] == s[|s| - |u|..];
  }

  /** The text before the leftmost occurrence of `sep` holds no occurrence of `sep`. */
  lemma BeforeFirstHasNone(s: string, sep: string, i: nat)
    requires |sep| > 0
    requires FindFrom(s, sep, 0) == Some(i)
    ensures !Contains(s[..i], sep)
  {
    forall j: nat | OccursAt(s[..i], sep, j)
      ensures false
    {
      OccursInSlice(s, sep, 0, i, j);
    }
  }

  /**
   * Python's `s.split(sep)`: the pieces between the occurrences of `sep`, found left to right
   * without overlap. Joining the pieces with `sep` gives `s` back.
   */
  function Split(s: string, sep: string): (r: seq<string>)
    requires |sep| > 0
    decreases |s|
    ensures |r| > 0
    ensures forall k :: 0 <= k < |r| ==> !Contains(r[k], sep)
    ensures Join(r, sep) == s
  {
    match FindFrom(s, sep, 0)
    case None => [s]
    case Some(i) =>
      var rest := Split(s[i + |sep|..], sep);
      var r := [s[..i]] + rest;
      BeforeFirstHasNone(s, sep, i);
      assert r[1..] == rest;
      assert forall k :: 1 <= k < |r| ==> r[k] == rest[k - 1];
      assert s[i..i + |sep|] == sep;
      assert s == s[..i] + sep + s[i + |sep|..];
      r
  }

  /** Python's `s.split(sep)[0]`: everything before the first occurrence of `sep`. */
  function FirstPiece(s: string, sep: string): (r: string)
    requires |sep| > 0
    ensures r == Split(s, sep)[0]
    ensures r <= s
    ensures !Contains(r, sep)
    ensures !Contains(s, sep) ==> r == s
    ensures Contains(s, sep) ==> OccursAt(s, sep, |r|)
  {
    match FindFrom(s, sep, 0)
    case None => s
    case Some(i) =>
      BeforeFirstHasNone(s, sep, i);
      s[..i]
  }

  /** Python's `s.split(sep)[-1]`: everything after the last occurrence of `sep`. */
  function LastPiece(s: string, sep: string): (r: string)
    requires |sep| > 0
    decreases |s|
    ensures !Contains(r, sep)
    ensures !Contains(s, sep) ==> r == s
    ensures Contains(s, sep) ==> EndsWith(s, sep + r)
  {
    match FindFrom(s, sep, 0)
    case None => s
    case Some(i) =>
      var rest := s[i + |sep|..];
      var r := LastPiece(rest, sep);
      assert EndsWith(s, sep + r) by {
        if Contains(rest, sep) {
          EndsWithOfSuffix(s, i + |sep|, sep + r);
        } else {
          assert s[i..] == sep + r;
          EndsWithOfSuffix(s, i, sep + r);
        }
      }
      r
  }
  /** `split(sep)[-1]`: the piece is exactly the last piece of the split. */
  lemma {:induction false} LastPieceIsLastOfSplit(s: string, sep: string)
    requires |sep| > 0
    ensures LastPiece(s, sep) == Split(s, sep)[|Split(s, sep)| - 1]
    decreases |s|
  {
    match FindFrom(s, sep, 0)
    case None =>
    case Some(i) =>
      var rest := s[i + |sep|..];
      LastPieceIsLastOfSplit(rest, sep);
      assert Split(s, sep) == [s[..i]] + Split(rest, sep);
  }


  /**
   * Python's `s.replace(pat, rep)`: every non-overlapping occurrence, scanning left to right.
   * It agrees with Python's identity `s.replace(pat, rep) == rep.join(s.split(pat))`.
   */
  function ReplaceAll(s: string, pat: string, rep: string): (r: string)
    requires |pat| > 0
    decreases |s|
    ensures r == Join(Split(s, pat), rep)
    ensures !Contains(s, pat) ==> r == s
  {
    match FindFrom(s, pat, 0)
    case None => s
    case Some(i) =>
      var rest := s[i + |pat|..];
      var pieces := Split(rest, pat);
      assert Split(s, pat) == [s[..i]] + pieces;
      JoinCons(s[..i], pieces, rep);
      s[..i] + rep + ReplaceAll(rest, pat, rep)
  }

  /** Removing a pattern that opens the string leaves the rest, when the rest does not contain it again. */
  lemma StripLeading(pat: string, rest: string)
    requires |pat| > 0
    requires !Contains(rest, pat)
    ensures ReplaceAll(pat + rest, pat, "") == rest
  {
    var s := pat + rest;
    assert OccursAt(s, pat, 0);
    assert FindFrom(s, pat, 0) == Some(0);
    assert s[|pat|..] == rest;
  }

  /** Python's `str.lower()` on one character, restricted to ASCII letters. */
  function LowerChar(c: char): char
  {
    if 'A' <= c <= 'Z' then (c as int + 32) as char else c
  }

  function Lower(s: string): (r: string)
    ensures |r| == |s|
    ensures forall i :: 0 <= i < |s| ==> r[i] == LowerChar(s[i])
  {
    seq(|s|, i requires 0 <= i < |s| => LowerChar(s[i]))
  }

  /** Python's `sub.lower() in s.lower()`. */
  predicate ContainsIgnoringCase(s: string, sub: string)
  {
    Contains(Lower(s), Lower(sub))
  }

  /** Every string contains the empty string, so an empty query matches everything. */
  lemma EmptyQueryMatches(s: string)
    ensures ContainsIgnoringCase(s, "")
  {
    assert OccursAt(Lower(s), Lower(""), 0);
  }

  /** Python's `sep.join(xs)`. */
  function Join(xs: seq<string>, sep: string): string
  {
    if |xs| == 0 then ""
    else if |xs| == 1 then xs[0]
    else xs[0] + sep + Join(xs[1..], sep)
  }

  /** Joining a piece in front of a non-empty list puts one separator between them. */
  lemma JoinCons(x: string, xs: seq<string>, sep: string)
    requires |xs| > 0
    ensures Join([x] + xs, sep) == x + sep + Join(xs, sep)
  {
    assert ([x] + xs)[1..] == xs;
  }

  // ---------------------------------------------------------------------
  // Decimal rendering, Python's `str(n)` for a non-negative int.

  function DigitChar(d: nat): char
    requires d < 10
  {
    "0123456789"[d]
  }

  function DigitValue(c: char): int
  {
    c as int - '0' as int
  }

  function NatToString(n: nat): (r: string)
    decreases n
    ensures |r| > 0
    ensures forall i :: 0 <= i < |r| ==> '0' <= r[i] <= '9'
    ensures n > 0 ==> r[0] != '0'
  {
    if n < 10 then [DigitChar(n)] else NatToString(n / 10) + [DigitChar(n % 10)]
  }

  /** Reads a string of decimal digits back as a number. */
  function ParseNat(s: string): int
  {
    if |s| == 0 then 0 else 10 * ParseNat(s[..|s| - 1]) + DigitValue(s[|s| - 1])
  }

  /** The rendering is read back to the same number. */
  lemma {:induction false} ParseNatToString(n: nat)
    ensures ParseNat(NatToString(n)) == n
    decreases n
  {
    var r := NatToString(n);
    if n < 10 {
      assert r[..0] == [];
    } else {
      ParseNatToString(n / 10);
      assert r[..|r| - 1] == NatToString(n / 10);
    }
  }

  // ---------------------------------------------------------------------
  // Python's string ordering: lexicographic by code point.

  predicate Less(a: string, b: string)
    decreases |a|
  {
    |b| > 0 && (|a| == 0 || a[0] < b[0] || (a[0] == b[0] && Less(a[1..], b[1..])))
  }

  lemma {:induction false} LessIrreflexive(a: string)
    ensures !Less(a, a)
    decreases |a|
  {
    if |a| > 0 {
      LessIrreflexive(a[1..]);
    }
  }

  lemma {:induction false} LessTransitive(a: string, b: string, c: string)
    requires Less(a, b) && Less(b, c)
    ensures Less(a, c)
    decreases |a|
  {
    if |a| > 0 && a[0] == b[0] && b[0] == c[0] {
      LessTransitive(a[1..], b[1..], c[1..]);
    }
  }

  lemma {:induction false} LessTotal(a: string, b: string)
    requires a != b
    ensures Less(a, b) || Less(b, a)
    decreases |a|
  {
    if |a| > 0 && |b| > 0 && a[0] == b[0] {
      LessTotal(a[1..], b[1..]);
    }
  }

  lemma LessAsymmetric(a: string, b: string)
    requires Less(a, b)
    ensures !Less(b, a)
  {
    if Less(b, a) {
      LessTransitive(a, b, a);
      LessIrreflexive(a);
    }
  }

  /** Ascending without repeats: the shape of Python's `sorted(set(xs))`. */
  predicate StrictlySorted(s: seq<string>)
  {
    forall i, j :: 0 <= i < j < |s| ==> Less(s[i], s[j])
  }

  /** A strictly sorted list has no duplicates. */
  lemma StrictlySortedDistinct(s: seq<string>)
    requires StrictlySorted(s)
    ensures forall i, j :: 0 <= i < j < |s| ==> s[i] != s[j]
  {
    forall i, j | 0 <= i < j < |s|
      ensures s[i] != s[j]
    {
      LessIrreflexive(s[i]);
    }
  }

  /** Adds `x` to a strictly sorted list unless it is already there. */
  function {:induction false} Insert(x: string, s: seq<string>): (r: seq<string>)
    requires StrictlySorted(s)
    decreases |s|
    ensures StrictlySorted(r)
    ensures forall i :: 0 <= i < |r| ==> r[i] == x || r[i] in s
    ensures x in r
    ensures forall i :: 0 <= i < |s| ==> s[i] in r
  {
    if |s| == 0 then [x]
    else if x == s[0] then s
    else if Less(x, s[0]) then
      var r := [x] + s;
      assert StrictlySorted(r) by {
        forall i, j | 0 <= i < j < |r|
          ensures Less(r[i], r[j])
        {
          if i == 0 && j > 1 {
            LessTransitive(x, s[0], s[j - 1]);
          }
        }
      }
      r
    else
      var tail := Insert(x, s[1..]);
      LessTotal(x, s[0]);
      var r := [s[0]] + tail;
      assert StrictlySorted(r) by {
        forall i, j | 0 <= i < j < |r|
          ensures Less(r[i], r[j])
        {
          if i == 0 {
            var y := tail[j - 1];
            if y != x {
              var k :| 0 <= k < |s[1..]| && s[1..][k] == y;
              assert s[k + 1] == y;
            }
          }
        }
      }
      assert forall i :: 1 <= i < |s| ==> s[i] == s[1..][i - 1];
      r
  }

  /** Python's `sorted(set(xs))`. */
  function SortedSet(xs: seq<string>): (r: seq<string>)
    decreases |xs|
    ensures StrictlySorted(r)
    ensures forall i :: 0 <= i < |r| ==> r[i] in xs
    ensures forall i :: 0 <= i < |xs| ==> xs[i] in r
  {
    if |xs| == 0 then []
    else
      var front := xs[..|xs| - 1];
      var r := Insert(xs[|xs| - 1], SortedSet(front));
      assert forall i :: 0 <= i < |xs| - 1 ==> xs[i] == front[i];
      r
  }

  /** Two strictly sorted, non-empty lists with the same elements start with the same element. */
  lemma SortedSameHead(a: seq<string>, b: seq<string>)
    requires StrictlySorted(a) && StrictlySorted(b) && |a| > 0 && |b| > 0
    requires a[0] in b && b[0] in a
    ensures a[0] == b[0]
  {
    if a[0] != b[0] {
      var k :| 0 <= k < |b| && b[k] == a[0];
      var m :| 0 <= m < |a| && a[m] == b[0];
      assert Less(a[0], b[0]) && Less(b[0], a[0]);
      LessAsymmetric(a[0], b[0]);
      assert false;
    }
  }

  /** Past a shared head, every later element of `a` is a later element of `b`. */
  lemma SortedTailMembers(a: seq<string>, b: seq<string>)
    requires StrictlySorted(a) && |a| > 0 && |b| > 0 && a[0] == b[0]
    requires forall i :: 0 <= i < |a| ==> a[i] in b
    ensures forall i :: 0 <= i < |a[1..]| ==> a[1..][i] in b[1..]
  {
    forall i | 0 <= i < |a[1..]|
      ensures a[1..][i] in b[1..]
    {
      var k :| 0 <= k < |b| && b[k] == a[i + 1];
      LessIrreflexive(a[0]);
      assert Less(a[0], a[i + 1]);
      assert k != 0;
      assert b[1..][k - 1] == a[1..][i];
    }
  }

  /** Two strictly sorted lists with the same elements are equal: the sorted set is unique. */
  lemma {:induction false} SortedUnique(a: seq<string>, b: seq<string>)
    requires StrictlySorted(a) && StrictlySorted(b)
    requires forall i :: 0 <= i < |a| ==> a[i] in b
    requires forall i :: 0 <= i < |b| ==> b[i] in a
    ensures a == b
    decreases |a|
  {
    if |a| > 0 {
      assert |b| > 0 by { assert a[0] in b; }
      SortedSameHead(a, b);
      SortedTailMembers(a, b);
      SortedTailMembers(b, a);
      SortedUnique(a[1..], b[1..]);
      assert a == [a[0]] + a[1..] && b == [b[0]] + b[1..];
    }
  }

  /** Keeping some elements of a strictly sorted list, in order, keeps it strictly sorted. */
  lemma {:induction false} SubseqSorted(a: seq<string>, b: seq<string>)
    requires Seqs.IsSubseq(a, b)
    requires StrictlySorted(b)
    ensures StrictlySorted(a)
    decreases |b|
  {
    if |a| > 0 {
      if a[0] == b[0] {
        SubseqSorted(a[1..], b[1..]);
        Seqs.SubseqMembers(a[1..], b[1..]);
        forall j | 1 <= j < |a|
          ensures Less(a[0], a[j])
        {
          assert a[1..][j - 1] == a[j];
          var m :| 0 <= m < |b[1..]| && b[1..][m] == a[j];
          assert b[m + 1] == a[j];
        }
      } else {
        SubseqSorted(a, b[1..]);
      }
    }
  }

}
