/**
 The recursive driver: `bin_radix_sort_rec` and its inner lambda.

 A range of at most one element, or one reached with `bit < 0`, is left as
 it is. Otherwise the range is partitioned on `bit` and both halves are
 sorted on `bit - 1`, the bit-clear half first. The entry point starts at the
 top bit `w - 1` of the element width `w`.
 */
module RecursiveSort {
  import opened Bits
  import opened Segments
  import opened Partitioning
  import opened Reference

  /**
   Every element of `v` fits in `w` bits, as every value of a `w`-bit
   unsigned type does.
   */
  predicate FitsWidth(v: seq<nat>, w: nat)
  {
    forall i :: 0 <= i < |v| ==> v[i] < Pow2(w)
  }

  /** A permutation of `w`-bit values holds `w`-bit values. */
  lemma FitsWidthPermutation(v: seq<nat>, u: seq<nat>, w: nat)
    requires FitsWidth(v, w) && multiset(u) == multiset(v)
    ensures FitsWidth(u, w)
  {
    forall i | 0 <= i < |u|
      ensures u[i] < Pow2(w)
    {
      assert u[i] in multiset(v);
    }
  }

  /** Values of width `w` agree on everything above bit `w - 1`. */
  lemma {:induction false} FitsWidthSameHigh(v: seq<nat>, w: nat)
    requires FitsWidth(v, w)
    ensures SameHigh(v, 0, |v|, w - 1)
  {
    forall i | 0 <= i < |v|
      ensures High(v[i], w - 1) == 0
    {
      HighOfTop(v[i], w);
    }
  }

  /**
   After partitioning `[lo, hi)` at `mid` on bit `b` and sorting each side,
   the whole range is sorted: every bit-clear value is below every bit-set
   value of the same range.
   */
  lemma {:induction false} JoinSorted(t1: seq<nat>, t2: seq<nat>, t3: seq<nat>, lo: int, mid: int, hi: int, b: nat)
    requires SameHigh(t1, lo, hi, b) && lo <= mid <= hi
    requires forall i :: lo <= i < mid ==> Bit(t1[i], b) == 0
    requires forall i :: mid <= i < hi ==> Bit(t1[i], b) == 1
    requires Permutes(t1, t2, lo, mid) && SortedRange(t2, lo, mid)
    requires Permutes(t2, t3, mid, hi) && SortedRange(t3, mid, hi)
    ensures SortedRange(t3, lo, hi)
  {
    forall i, j | lo <= i < j < hi
      ensures t3[i] <= t3[j]
    {
      if i < mid {
        PermutesOutside(t2, t3, mid, hi, i);
        if j < mid {
          PermutesOutside(t2, t3, mid, hi, j);
        } else {
          var i' :| lo <= i' < mid && t2[i] == t1[i'] by {
            PermutesSource(t1, t2, lo, mid, i);
          }
          var j' :| mid <= j' < hi && t3[j] == t2[j'] by {
            PermutesSource(t2, t3, mid, hi, j);
          }
          PermutesOutside(t1, t2, lo, mid, j');
          SplitOrdered(t1, lo, hi, b, i', j');
        }
      }
    }
  }

  /**
   Sorts the range `[lo, hi)` of `s` handled at bit `bit` (the inner
   lambda). The range is only rearranged; when all of its elements agree on
   the bits above `bit` it comes out sorted; base cases change nothing.
   */
  method SortRange(s: seq<nat>, lo: nat, hi: nat, bit: int) returns (t: seq<nat>)
    requires hi <= |s| && lo <= hi
    ensures Permutes(s, t, lo, hi)
    ensures SameHigh(s, lo, hi, bit) ==> SortedRange(t, lo, hi)
    ensures hi - lo <= 1 || bit < 0 ==> t == s
    decreases bit + 1
  {
    if hi - lo <= 1 || bit < 0 {
      if SameHigh(s, lo, hi, bit) {
        SameHighAtNoneSorted(s, lo, hi);
      }
      return s;
    }
    var t1, left := Partition(s, lo, hi, bit);
    var t2 := SortRange(t1, lo, left, bit - 1);
    t := SortRange(t2, left, hi, bit - 1);
    PermutesWiden(t1, t2, lo, lo, left, hi);
    PermutesWiden(t2, t, lo, left, hi, hi);
    if SameHigh(s, lo, hi, bit) {
      PermutesSameHigh(s, t1, lo, hi, bit);
      SplitSameHigh(t1, lo, left, hi, bit);
      JoinSorted(t1, t2, t, lo, left, hi, bit);
    }
  }

  /**
   Sorts a vector of `w`-bit values, starting at the top bit. The result is
   non-decreasing and a permutation of the input; an input that is already
   sorted (in particular one of length 0 or 1, or all-equal) is returned
   unchanged.
   */
  method BinRadixSortRec(v: seq<nat>, w: nat) returns (r: seq<nat>)
    requires FitsWidth(v, w)
    ensures Sorted(r) && multiset(r) == multiset(v)
    ensures Sorted(v) ==> r == v
  {
    FitsWidthSameHigh(v, w);
    r := SortRange(v, 0, |v|, w - 1);
    PermutesWhole(v, r);
    if Sorted(v) {
      SortedUnique(r, v);
    }
  }
}
