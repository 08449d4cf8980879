/**
 * Permutations of 0..n-1 written as sequences of indices. The resampler's
 * sort-index columns and the argsort results are such sequences.
 */
module Permutation {

  /** Every entry is a valid index into a sequence of the same length. */
  ghost predicate InRange(s: seq<int>)
  {
    forall a :: 0 <= a < |s| ==> 0 <= s[a] < |s|
  }

  /** No index occurs twice. */
  ghost predicate Distinct(s: seq<int>)
  {
    forall a, b :: 0 <= a < b < |s| ==> s[a] != s[b]
  }

  /** s is a permutation of 0..|s|-1. */
  ghost predicate IsPermutation(s: seq<int>)
  {
    InRange(s) && Distinct(s)
  }

  /** Every index 0..|s|-1 occurs in s. */
  ghost predicate Covers(s: seq<int>)
  {
    forall v :: 0 <= v < |s| ==> v in s
  }

  /** A sequence of distinct values drawn from 0..m-1 has at most m elements. */
  lemma {:induction false} DistinctBound(s: seq<int>, m: nat)
    requires Distinct(s)
    requires forall a :: 0 <= a < |s| ==> 0 <= s[a] < m
    ensures |s| <= m
    decreases m
  {
    if |s| == 0 {
      return;
    }
    assert 0 <= s[0] < m;
    if p :| 0 <= p < |s| && s[p] == m - 1 {
      var t := s[..p] + s[p + 1..];
      assert forall a :: 0 <= a < |t| ==> t[a] == (if a < p then s[a] else s[a + 1]);
      forall a | 0 <= a < |t| ensures 0 <= t[a] < m - 1 {
        if a < p { assert s[a] != s[p]; } else { assert s[a + 1] != s[p]; }
      }
      forall a, b | 0 <= a < b < |t| ensures t[a] != t[b] {
        var a', b' := if a < p then a else a + 1, if b < p then b else b + 1;
        assert a' < b' && t[a] == s[a'] && t[b] == s[b'];
      }
      DistinctBound(t, m - 1);
    } else {
      forall a | 0 <= a < |s| ensures 0 <= s[a] < m - 1 {
        assert s[a] != m - 1;
      }
      DistinctBound(s, m - 1);
    }
  }

  /** Pigeonhole: a permutation hits every index. */
  lemma PermutationCovers(s: seq<int>)
    requires IsPermutation(s)
    ensures Covers(s)
  {
    forall v | 0 <= v < |s| ensures v in s {
      if v !in s {
        // close the gap at v: the values become distinct and below |s| - 1
        var t := seq(|s|, a requires 0 <= a < |s| => if s[a] > v then s[a] - 1 else s[a]);
        forall a, b | 0 <= a < b < |t| ensures t[a] != t[b] {
          assert s[a] != s[b] && s[a] != v && s[b] != v;
        }
        forall a | 0 <= a < |t| ensures 0 <= t[a] < |s| - 1 {
          assert s[a] != v;
        }
        DistinctBound(t, |s| - 1);
        assert false;
      }
    }
  }
}
