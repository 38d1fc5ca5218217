/**
 Ranges of the vector being sorted.

 The vector is a `seq<nat>` and a range is a pair of indices `[lo, hi)` into
 it, the counterpart of the source's `std::span` views and of its
 `(start, size)` stack entries. Everything here is about what a sort step may
 do to a range (permute it, leave the rest alone) and what it must achieve
 (order it).
 */
module Segments {
  import opened Bits

  /** `[lo, hi)` is a valid range of `s`. */
  predicate InBounds(s: seq<nat>, lo: int, hi: int)
  {
    0 <= lo <= hi <= |s|
  }

  /** The range `[lo, hi)` of `s` is non-decreasing. */
  predicate SortedRange(s: seq<nat>, lo: int, hi: int)
  {
    && InBounds(s, lo, hi)
    && forall i, j :: lo <= i < j < hi ==> s[i] <= s[j]
  }

  /** The whole sequence is non-decreasing. */
  predicate Sorted(s: seq<nat>)
  {
    SortedRange(s, 0, |s|)
  }

  /**
   `t` is `s` with the range `[lo, hi)` rearranged: same length, the same
   multiset of values inside the range, and every position outside it
   unchanged.
   */
  predicate Permutes(s: seq<nat>, t: seq<nat>, lo: int, hi: int)
  {
    && InBounds(s, lo, hi)
    && |t| == |s|
    && t[..lo] == s[..lo]
    && t[hi..] == s[hi..]
    && multiset(t[lo..hi]) == multiset(s[lo..hi])
  }

  /**
   Every element of `[lo, hi)` has the same bits above `b`: the invariant of
   a range handled at bit `b`. At `b == -1` it says all elements are equal.
   */
  predicate SameHigh(s: seq<nat>, lo: int, hi: int, b: int)
  {
    && InBounds(s, lo, hi)
    && b >= -1
    && forall i, j :: lo <= i < hi && lo <= j < hi ==> High(s[i], b) == High(s[j], b)
  }

  /** Every value of a permuted range comes from the same range before. */
  lemma PermutesSource(s: seq<nat>, t: seq<nat>, lo: int, hi: int, i: int)
    requires Permutes(s, t, lo, hi)
    requires lo <= i < hi
    ensures exists k :: lo <= k < hi && t[i] == s[k]
  {
    assert t[lo..hi][i - lo] == t[i];
    assert t[i] in multiset(s[lo..hi]);
    var k :| 0 <= k < hi - lo && s[lo..hi][k] == t[i];
    assert s[lo + k] == t[i];
  }

  /** Rearranging a range keeps a property shared by all of its values. */
  lemma PermutesSameHigh(s: seq<nat>, t: seq<nat>, lo: int, hi: int, b: int)
    requires Permutes(s, t, lo, hi)
    requires SameHigh(s, lo, hi, b)
    ensures SameHigh(t, lo, hi, b)
  {
    forall i, j | lo <= i < hi && lo <= j < hi
      ensures High(t[i], b) == High(t[j], b)
    {
      PermutesSource(s, t, lo, hi, i);
      PermutesSource(s, t, lo, hi, j);
    }
  }

  /** A position outside the rearranged range keeps its value. */
  lemma PermutesOutside(s: seq<nat>, t: seq<nat>, lo: int, hi: int, i: int)
    requires Permutes(s, t, lo, hi)
    requires 0 <= i < lo || hi <= i < |s|
    ensures t[i] == s[i]
  {
    if i < lo {
      assert t[..lo][i] == s[..lo][i];
    } else {
      assert t[hi..][i - hi] == s[hi..][i - hi];
    }
  }

  /** A rearrangement of a sub-range is a rearrangement of any range around it. */
  lemma PermutesWiden(s: seq<nat>, t: seq<nat>, lo: int, a: int, b: int, hi: int)
    requires Permutes(s, t, a, b)
    requires 0 <= lo <= a && b <= hi <= |s|
    ensures Permutes(s, t, lo, hi)
  {
    assert s[..lo] == s[..a][..lo];
    assert t[..lo] == t[..a][..lo];
    assert s[hi..] == s[b..][hi - b..];
    assert t[hi..] == t[b..][hi - b..];
    assert s[lo..a] == s[..a][lo..];
    assert t[lo..a] == t[..a][lo..];
    assert s[b..hi] == s[b..][..hi - b];
    assert t[b..hi] == t[b..][..hi - b];
    assert s[lo..hi] == s[lo..a] + s[a..b] + s[b..hi];
    assert t[lo..hi] == t[lo..a] + t[a..b] + t[b..hi];
  }

  /** A rearrangement of the whole sequence is a permutation of it. */
  lemma PermutesWhole(s: seq<nat>, t: seq<nat>)
    requires Permutes(s, t, 0, |s|)
    ensures multiset(t) == multiset(s)
  {
    assert s[0..|s|] == s;
    assert t[0..|t|] == t;
  }

  /**
   A sequence that keeps the values outside `[lo, hi)` and the multiset of
   the whole sequence keeps the multiset of `[lo, hi)`.
   */
  lemma FramedPermutes(s: seq<nat>, t: seq<nat>, lo: int, hi: int)
    requires InBounds(s, lo, hi) && |t| == |s|
    requires t[..lo] == s[..lo] && t[hi..] == s[hi..]
    requires multiset(t) == multiset(s)
    ensures Permutes(s, t, lo, hi)
  {
    assert s == s[..lo] + s[lo..hi] + s[hi..];
    assert t == t[..lo] + t[lo..hi] + t[hi..];
    assert multiset(s) == multiset(s[..lo]) + multiset(s[lo..hi]) + multiset(s[hi..]);
    assert multiset(t) == multiset(s[..lo]) + multiset(t[lo..hi]) + multiset(s[hi..]);
    forall v
      ensures multiset(t[lo..hi])[v] == multiset(s[lo..hi])[v]
    {
      assert multiset(t)[v] == multiset(s)[v];
    }
  }

  /** A range of all-equal values, the case `b == -1`, is sorted. */
  lemma {:induction false} SameHighAtNoneSorted(s: seq<nat>, lo: int, hi: int)
    requires SameHigh(s, lo, hi, -1)
    ensures SortedRange(s, lo, hi)
  {
    forall i, j | lo <= i < j < hi
      ensures s[i] <= s[j]
    {
      HighOfNone(s[i]);
      HighOfNone(s[j]);
    }
  }

  /**
   Splitting a range handled at bit `b` at a point with bit `b` clear on the
   left and set on the right gives two ranges each handled at bit `b - 1`.
   */
  lemma {:induction false} SplitSameHigh(s: seq<nat>, lo: int, mid: int, hi: int, b: nat)
    requires SameHigh(s, lo, hi, b)
    requires lo <= mid <= hi
    requires forall i :: lo <= i < mid ==> Bit(s[i], b) == 0
    requires forall i :: mid <= i < hi ==> Bit(s[i], b) == 1
    ensures SameHigh(s, lo, mid, b - 1)
    ensures SameHigh(s, mid, hi, b - 1)
  {
    forall i, j | (lo <= i < mid && lo <= j < mid) || (mid <= i < hi && mid <= j < hi)
      ensures High(s[i], b - 1) == High(s[j], b - 1)
    {
      HighStep(s[i], b);
      HighStep(s[j], b);
    }
  }

  /**
   In a range handled at bit `b`, an element with bit `b` clear is strictly
   smaller than an element with bit `b` set.
   */
  lemma {:induction false} SplitOrdered(s: seq<nat>, lo: int, hi: int, b: nat, i: int, j: int)
    requires SameHigh(s, lo, hi, b)
    requires lo <= i < hi && lo <= j < hi
    requires Bit(s[i], b) == 0 && Bit(s[j], b) == 1
    ensures s[i] < s[j]
  {
    BitOrder(s[i], s[j], b);
  }
}
