/**
 How the benchmark judges the two drivers: each run sorts copies of one
 input with `std::sort`, the recursive driver and the iterative driver, and
 compares the radix results with the `std::sort` result element by element.
 Timing, random input generation and printing are not modelled.
 */
module Comparison {
  import opened Bits
  import opened Segments
  import opened Reference
  import opened RecursiveSort
  import opened IterativeSort

  /**
   Sorts `v` three ways. Both radix drivers agree with the reference sort,
   hence with each other, on every input of width `w`.
   */
  method SortThreeWays(v: seq<nat>, w: nat) returns (expected: seq<nat>, byRec: seq<nat>, byIt: seq<nat>)
    requires FitsWidth(v, w)
    ensures Sorted(expected) && multiset(expected) == multiset(v)
    ensures byRec == expected && byIt == expected
  {
    expected := InsertionSort(v);
    byRec := BinRadixSortRec(v, w);
    byIt := BinRadixSortIt(v, w);
    SortedPermutationIsReference(v, byRec);
    SortedPermutationIsReference(v, byIt);
  }

  /**
   Sorting is idempotent at the driver level: sorting a driver's result
   again, with either driver, gives back that result.
   */
  method SortTwice(v: seq<nat>, w: nat) returns (once: seq<nat>, againRec: seq<nat>, againIt: seq<nat>)
    requires FitsWidth(v, w)
    ensures Sorted(once) && multiset(once) == multiset(v)
    ensures againRec == once && againIt == once
  {
    once := BinRadixSortRec(v, w);
    FitsWidthPermutation(v, once, w);
    againRec := BinRadixSortRec(once, w);
    againIt := BinRadixSortIt(once, w);
  }

  /** The example input fits in 8 bits. */
  lemma ExampleFits(v: seq<nat>)
    requires v == [5, 130, 0, 255, 5]
    ensures FitsWidth(v, 8)
  {
    assert Pow2(8) == 256 by {
      assert Pow2(2) == 4;
      assert Pow2(4) == 16;
      assert Pow2(6) == 64;
    }
  }

  /** The only sorted permutation of the example input. */
  lemma ExampleSorted(v: seq<nat>, r: seq<nat>)
    requires v == [5, 130, 0, 255, 5]
    requires Sorted(r) && multiset(r) == multiset(v)
    ensures r == [0, 5, 5, 130, 255]
  {
    var sorted: seq<nat> := [0, 5, 5, 130, 255];
    assert multiset(sorted) == multiset(v);
    SortedUnique(r, sorted);
  }

  /**
   The worked example at width 8: both drivers sort `[5, 130, 0, 255, 5]`
   to `[0, 5, 5, 130, 255]`.
   */
  method ExampleWidth8(v: seq<nat>) returns (byRec: seq<nat>, byIt: seq<nat>)
    requires v == [5, 130, 0, 255, 5]
    ensures byRec == [0, 5, 5, 130, 255]
    ensures byIt == [0, 5, 5, 130, 255]
  {
    ExampleFits(v);
    byRec := BinRadixSortRec(v, 8);
    ExampleSorted(v, byRec);
    byIt := BinRadixSortIt(v, 8);
    ExampleSorted(v, byIt);
  }
}
