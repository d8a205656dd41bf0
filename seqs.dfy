/**
 * Order-preserving filtering of sequences (JavaScript `Array.prototype.filter`)
 * and the specification it meets: the unique subsequence that keeps every
 * element satisfying the predicate, as often as it occurs, and nothing else.
 */
module Seqs {

  /** `r` can be obtained from `s` by deleting elements, keeping the order of the rest. */
  predicate IsSubsequence<T(==)>(r: seq<T>, s: seq<T>)
    decreases |s|
  {
    r == [] || (s != [] && ((r[0] == s[0] && IsSubsequence(r[1..], s[1..])) || IsSubsequence(r, s[1..])))
  }

  predicate NoDuplicates<T(==)>(s: seq<T>) {
    forall i, j :: 0 <= i < j < |s| ==> s[i] != s[j]
  }

  /** A subsequence holds each element at most as often as the whole. */
  lemma {:induction false} SubsequenceCounts<T>(r: seq<T>, s: seq<T>)
    requires IsSubsequence(r, s)
    ensures multiset(r) <= multiset(s)
    decreases |s|
  {
    if r != [] {
      assert s == [s[0]] + s[1..];
      if r[0] == s[0] && IsSubsequence(r[1..], s[1..]) {
        SubsequenceCounts(r[1..], s[1..]);
        assert r == [r[0]] + r[1..];
      } else {
        SubsequenceCounts(r, s[1..]);
      }
    }
  }

  /** The elements of `s` that satisfy `p`, in their original order. */
  function Filter<T>(s: seq<T>, p: T -> bool): seq<T> {
    if s == [] then []
    else if p(s[0]) then [s[0]] + Filter(s[1..], p)
    else Filter(s[1..], p)
  }

  /**
   * `Filter` keeps exactly the elements satisfying `p`, each as often as it
   * occurs, in their original order.
   */
  lemma {:induction false} FilterSpec<T(!new)>(s: seq<T>, p: T -> bool)
    ensures |Filter(s, p)| <= |s|
    ensures IsSubsequence(Filter(s, p), s)
    ensures forall x :: x in Filter(s, p) <==> x in s && p(x)
    ensures forall x :: multiset(Filter(s, p))[x] == if p(x) then multiset(s)[x] else 0
    decreases |s|
  {
    if s != [] {
      var rest := Filter(s[1..], p);
      FilterSpec(s[1..], p);
      assert s == [s[0]] + s[1..];
      if p(s[0]) {
        assert ([s[0]] + rest)[1..] == rest;
      }
    }
  }

  /**
   * `Filter` is the only sequence with its specification: a subsequence of `s`
   * whose elements all satisfy `p` and which keeps every occurrence of them.
   */
  lemma {:induction false} FilterUnique<T(!new)>(s: seq<T>, p: T -> bool, r: seq<T>)
    requires IsSubsequence(r, s)
    requires forall x :: x in r ==> p(x)
    requires forall x :: p(x) ==> multiset(r)[x] == multiset(s)[x]
    ensures r == Filter(s, p)
    decreases |s|
  {
    if s != [] {
      var h, t := s[0], s[1..];
      assert s == [h] + t;
      if p(h) {
        if r == [] || r[0] != h || !IsSubsequence(r[1..], t) {
          SubsequenceCounts(r, t);
          assert false;
        }
        assert r == [h] + r[1..];
        FilterUnique(t, p, r[1..]);
      } else {
        if r != [] {
          assert r[0] in r;
        }
        FilterUnique(t, p, r);
      }
    }
  }

  /** Filtering with two predicates that agree on every element gives the same result. */
  lemma {:induction false} FilterExt<T(!new)>(s: seq<T>, p: T -> bool, q: T -> bool)
    requires forall x :: x in s ==> p(x) == q(x)
    ensures Filter(s, p) == Filter(s, q)
    decreases |s|
  {
    if s != [] {
      FilterExt(s[1..], p, q);
    }
  }

  /** Filtering keeps the whole sequence exactly when every element satisfies the predicate. */
  lemma {:induction false} FilterKeepsAll<T(!new)>(s: seq<T>, p: T -> bool)
    ensures Filter(s, p) == s <==> forall x :: x in s ==> p(x)
    ensures |Filter(s, p)| == |s| <==> Filter(s, p) == s
    decreases |s|
  {
    if s != [] {
      FilterKeepsAll(s[1..], p);
      FilterSpec(s[1..], p);
      assert s == [s[0]] + s[1..];
    }
  }

  /** Filtering distributes over concatenation. */
  lemma {:induction false} FilterConcat<T(!new)>(a: seq<T>, b: seq<T>, p: T -> bool)
    ensures Filter(a + b, p) == Filter(a, p) + Filter(b, p)
    decreases |a|
  {
    if a == [] {
      assert a + b == b;
    } else {
      var ab := a + b;
      assert ab[0] == a[0];
      assert ab[1..] == a[1..] + b;
      FilterConcat(a[1..], b, p);
    }
  }

  /**
   * A prefix of a filtered duplicate-free sequence skips no passing element:
   * whatever passes and comes before one of the prefix's elements is in it too.
   */
  lemma {:induction false} FilterPrefixClosed<T(!new)>(s: seq<T>, p: T -> bool, k: nat, i: int, j: int)
    requires NoDuplicates(s) && k <= |Filter(s, p)|
    requires 0 <= i < j < |s| && p(s[i]) && s[j] in Filter(s, p)[..k]
    ensures s[i] in Filter(s, p)[..k]
    decreases |s|
  {
    var rest := Filter(s[1..], p);
    if p(s[0]) {
      assert Filter(s, p) == [s[0]] + rest;
      assert k > 0;
      assert Filter(s, p)[..k] == [s[0]] + rest[..k - 1];
      if i > 0 {
        assert s[j] != s[0];
        assert s[1..][j - 1] in rest[..k - 1];
        FilterPrefixClosed(s[1..], p, k - 1, i - 1, j - 1);
      }
    } else {
      assert i > 0;
      FilterPrefixClosed(s[1..], p, k, i - 1, j - 1);
    }
  }

  /** Every prefix of a filtered duplicate-free sequence is closed under "passes and comes earlier". */
  lemma FilterPrefixNoSkip<T(!new)>(s: seq<T>, p: T -> bool, k: nat)
    requires NoDuplicates(s) && k <= |Filter(s, p)|
    ensures forall i, j :: 0 <= i < j < |s| && p(s[i]) && s[j] in Filter(s, p)[..k] ==> s[i] in Filter(s, p)[..k]
  {
    forall i, j | 0 <= i < j < |s| && p(s[i]) && s[j] in Filter(s, p)[..k]
      ensures s[i] in Filter(s, p)[..k]
    {
      FilterPrefixClosed(s, p, k, i, j);
    }
  }

  /** A prefix of a filtered sequence is a subsequence of the original of passing elements, and the whole of them when it is not shorter. */
  lemma FilterPrefix<T(!new)>(s: seq<T>, p: T -> bool, k: nat)
    requires k <= |Filter(s, p)|
    ensures IsSubsequence(Filter(s, p)[..k], s)
    ensures forall x :: x in Filter(s, p)[..k] ==> p(x)
    ensures k == |Filter(s, p)| ==> forall x :: x in s && p(x) ==> x in Filter(s, p)[..k]
  {
    var present := Filter(s, p);
    FilterSpec(s, p);
    PrefixIsSubsequence(present, k);
    SubsequenceTrans(present[..k], present, s);
    assert present[..|present|] == present;
    assert forall x :: x in present[..k] ==> x in present;
  }

  /** The positions of `s` whose element satisfies `p`. */
  ghost function PassingPositions<T>(s: seq<T>, p: T -> bool): set<int> {
    set i | 0 <= i < |s| && p(s[i])
  }

  /** The length of a filtered sequence is the number of positions whose element passes. */
  lemma {:induction false} FilterLength<T(!new)>(s: seq<T>, p: T -> bool)
    ensures |Filter(s, p)| == |PassingPositions(s, p)|
    decreases |s|
  {
    var all := PassingPositions(s, p);
    if s == [] {
      assert all == {};
    } else {
      var init := s[..|s| - 1];
      var last := s[|s| - 1];
      var before := PassingPositions(init, p);
      FilterLength(init, p);
      assert s == init + [last];
      FilterConcat(init, [last], p);
      assert [last][1..] == [];
      if p(last) {
        assert all == before + {|s| - 1};
      } else {
        assert all == before;
      }
    }
  }

  /** A prefix is a subsequence. */
  lemma {:induction false} PrefixIsSubsequence<T>(s: seq<T>, k: nat)
    requires k <= |s|
    ensures IsSubsequence(s[..k], s)
    decreases k
  {
    if k > 0 {
      PrefixIsSubsequence(s[1..], k - 1);
      assert s[..k][1..] == s[1..][..k - 1];
    }
  }

  /** Being a subsequence is transitive. */
  lemma {:induction false} SubsequenceTrans<T>(a: seq<T>, b: seq<T>, c: seq<T>)
    requires IsSubsequence(a, b) && IsSubsequence(b, c)
    ensures IsSubsequence(a, c)
    decreases |c|
  {
    if a != [] {
      if b[0] == c[0] && IsSubsequence(b[1..], c[1..]) {
        if a[0] == b[0] && IsSubsequence(a[1..], b[1..]) {
          SubsequenceTrans(a[1..], b[1..], c[1..]);
        } else {
          SubsequenceTrans(a, b[1..], c[1..]);
        }
      } else {
        SubsequenceTrans(a, b, c[1..]);
      }
    }
  }
}
