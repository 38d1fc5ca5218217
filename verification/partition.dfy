/**
 The two-cursor partition scan shared by both drivers.

 Over a range `[lo, hi)` and a bit index, `left` starts at the first position
 and `right` at the last. An element at `left` with the bit clear stays and
 `left` advances; otherwise it is swapped with the element at `right` and
 `right` retreats, leaving the swapped-in element at `left` still to be
 tested. When the cursors cross, `left` is the split point: bit-clear
 elements lie before it and bit-set elements from it onward. (The source's
 comments call the bit-clear side the "right partition"; the code places it
 on the left, and that is what is modelled.)
 */
module Partitioning {
  import opened Bits
  import opened Segments

  /** The number of elements of `s` whose bit `b` is clear. */
  function CountZeros(s: seq<nat>, b: nat): nat
  {
    if |s| == 0 then 0
    else CountZeros(s[..|s| - 1], b) + (if Bit(s[|s| - 1], b) == 0 then 1 else 0)
  }

  /** Counting distributes over concatenation. */
  lemma {:induction false} CountZerosAppend(s: seq<nat>, t: seq<nat>, b: nat)
    ensures CountZeros(s + t, b) == CountZeros(s, b) + CountZeros(t, b)
  {
    if |t| > 0 {
      assert (s + t)[..|s + t| - 1] == s + t[..|t| - 1];
      CountZerosAppend(s, t[..|t| - 1], b);
    } else {
      assert s + t == s;
    }
  }

  /** The count depends only on the multiset of values. */
  lemma {:induction false} CountZerosMultiset(s: seq<nat>, t: seq<nat>, b: nat)
    requires multiset(s) == multiset(t)
    ensures CountZeros(s, b) == CountZeros(t, b)
  {
    if |s| == 0 {
      assert |t| == |multiset(t)| == 0;
    } else {
      var x := s[|s| - 1];
      assert s == s[..|s| - 1] + [x];
      assert x in multiset(t);
      var k :| 0 <= k < |t| && t[k] == x;
      assert t == t[..k] + [x] + t[k + 1..];
      var t' := t[..k] + t[k + 1..];
      assert multiset(t') == multiset(t) - multiset{x};
      assert multiset(s[..|s| - 1]) == multiset(s) - multiset{x};
      CountZerosMultiset(s[..|s| - 1], t', b);
      CountZerosAppend(t[..k], [x], b);
      CountZerosAppend(t[..k] + [x], t[k + 1..], b);
      CountZerosAppend(t[..k], t[k + 1..], b);
    }
  }

  /** Counting a sequence whose first `m` elements have the bit clear and the rest set gives `m`. */
  lemma {:induction false} CountZerosSplit(s: seq<nat>, m: nat, b: nat)
    requires m <= |s|
    requires forall i :: 0 <= i < m ==> Bit(s[i], b) == 0
    requires forall i :: m <= i < |s| ==> Bit(s[i], b) == 1
    ensures CountZeros(s, b) == m
  {
    if |s| > 0 {
      if m == |s| {
        CountZerosSplit(s[..|s| - 1], m - 1, b);
      } else {
        CountZerosSplit(s[..|s| - 1], m, b);
      }
    }
  }

  /**
   Partitions the range `[lo, hi)` of `s` on bit `bit`, returning the
   rearranged sequence and the split point. The split point is determined
   by the input alone: it is `lo` plus the number of bit-clear elements.
   */
  method Partition(s: seq<nat>, lo: nat, hi: nat, bit: nat) returns (t: seq<nat>, left: nat)
    requires hi <= |s| && lo <= hi
    ensures Permutes(s, t, lo, hi)
    ensures lo <= left <= hi
    ensures forall i :: lo <= i < left ==> Bit(t[i], bit) == 0
    ensures forall i :: left <= i < hi ==> Bit(t[i], bit) == 1
    ensures left - lo == CountZeros(s[lo..hi], bit)
  {
    t := s;
    left := lo;
    var right: int := hi - 1;
    while left <= right
      invariant lo <= left <= right + 1 <= hi
      invariant |t| == |s|
      invariant t[..lo] == s[..lo] && t[hi..] == s[hi..]
      invariant multiset(t) == multiset(s)
      invariant forall i :: lo <= i < left ==> Bit(t[i], bit) == 0
      invariant forall i :: right < i < hi ==> Bit(t[i], bit) == 1
      decreases right - left
    {
      if Bit(t[left], bit) == 0 {
        left := left + 1;
      } else {
        t := t[left := t[right]][right := t[left]];
        right := right - 1;
      }
    }
    FramedPermutes(s, t, lo, hi);
    CountZerosSplit(t[lo..hi], left - lo, bit);
    CountZerosMultiset(t[lo..hi], s[lo..hi], bit);
  }
}
