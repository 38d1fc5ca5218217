/**
 The reference ordering the radix sort is compared against.

 The benchmark checks both drivers against `std::sort` on the same input.
 `InsertionSort` is an independent, comparison-based definition of the
 sorted permutation of a sequence, and `SortedUnique` shows there is only
 one such sequence, so any sort that returns a sorted permutation returns
 exactly `InsertionSort`'s result.
 */
module Reference {
  import opened Segments

  /** Inserts `x` into `s` before the first element not smaller than it. */
  function Insert(x: nat, s: seq<nat>): (r: seq<nat>)
    ensures multiset(r) == multiset(s) + multiset{x}
  {
    if |s| == 0 then [x]
    else if x <= s[0] then [x] + s
    else
      assert s == [s[0]] + s[1..];
      [s[0]] + Insert(x, s[1..])
  }

  /** Inserting into a sorted sequence keeps it sorted. */
  lemma {:induction false} InsertSorted(x: nat, s: seq<nat>)
    requires Sorted(s)
    ensures Sorted(Insert(x, s))
  {
    if |s| > 0 && x > s[0] {
      var rest := Insert(x, s[1..]);
      InsertSorted(x, s[1..]);
      assert s == [s[0]] + s[1..];
      forall k | 0 <= k < |rest|
        ensures s[0] <= rest[k]
      {
        assert rest[k] in multiset(rest);
        if rest[k] != x {
          assert rest[k] in multiset(s[1..]);
          var i :| 0 <= i < |s[1..]| && s[1..][i] == rest[k];
          assert s[i + 1] == rest[k];
        }
      }
    }
  }

  /** Sorts `s` by inserting its elements one at a time. */
  function InsertionSort(s: seq<nat>): (r: seq<nat>)
    ensures Sorted(r)
    ensures multiset(r) == multiset(s)
  {
    if |s| == 0 then []
    else
      assert s == [s[0]] + s[1..];
      InsertSorted(s[0], InsertionSort(s[1..]));
      Insert(s[0], InsertionSort(s[1..]))
  }

  /** Two sorted sequences holding the same multiset of values are equal. */
  lemma {:induction false} SortedUnique(a: seq<nat>, b: seq<nat>)
    requires Sorted(a) && Sorted(b)
    requires multiset(a) == multiset(b)
    ensures a == b
  {
    if |a| == 0 {
      assert |b| == |multiset(b)| == 0;
    } else {
      assert |b| == |multiset(b)| == |a|;
      assert a[0] in multiset(b) && b[0] in multiset(a);
      assert a[0] == b[0] by {
        var i :| 0 <= i < |b| && b[i] == a[0];
        var j :| 0 <= j < |a| && a[j] == b[0];
        assert b[0] <= a[0] <= b[0];
      }
      assert a == [a[0]] + a[1..];
      assert b == [b[0]] + b[1..];
      assert multiset(a[1..]) == multiset(a) - multiset{a[0]};
      assert multiset(b[1..]) == multiset(b) - multiset{b[0]};
      SortedUnique(a[1..], b[1..]);
    }
  }

  /** A sorted permutation of `s` is the reference result for `s`. */
  lemma SortedPermutationIsReference(s: seq<nat>, r: seq<nat>)
    requires Sorted(r) && multiset(r) == multiset(s)
    ensures r == InsertionSort(s)
  {
    SortedUnique(r, InsertionSort(s));
  }

  /** A sorted sequence is its own sorted result. */
  lemma SortedIsFixpoint(s: seq<nat>)
    requires Sorted(s)
    ensures InsertionSort(s) == s
  {
    SortedUnique(InsertionSort(s), s);
  }

  /** Sorting is idempotent. */
  lemma SortIdempotent(s: seq<nat>)
    ensures InsertionSort(InsertionSort(s)) == InsertionSort(s)
  {
    SortedIsFixpoint(InsertionSort(s));
  }
}
