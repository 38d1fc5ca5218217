/**
 The iterative driver: `bin_radix_sort_it`.

 The recursion is replaced by a stack of `(start, size, bit)` work items,
 here a growable sequence whose last element is the top. A popped item that
 is terminal (`size <= 1` or `bit < 0`) is dropped; otherwise its range is
 partitioned and two items are pushed, the bit-clear side first, so the
 bit-set side is processed first.

 Because children replace their parent on top of the stack, the live items
 always tile a prefix `[0, Frontier)` of the vector, left to right from the
 bottom of the stack. Everything from the frontier onward is finished: it is
 sorted, and no earlier value exceeds it.
 */
module IterativeSort {
  import opened Bits
  import opened Segments
  import opened Partitioning
  import opened Reference
  import opened RecursiveSort

  /** A pending partition task over `[start, start + size)` at bit `bit`. */
  datatype WorkItem = WorkItem(start: int, size: int, bit: int)
  {
    /** One past the last position of the item's range. */
    function End(): int
    {
      start + size
    }

    /** The item needs no work: too small, or every bit already examined. */
    predicate Terminal()
    {
      size <= 1 || bit < 0
    }
  }

  /** 3 to the power `n`. */
  function Pow3(n: nat): (r: nat)
    ensures r >= 1
  {
    if n == 0 then 1 else 3 * Pow3(n - 1)
  }

  /** The termination weight of an item: `3^(bit + 1)`. */
  function Weight(item: WorkItem): nat
  {
    Pow3(if item.bit < 0 then 0 else item.bit + 1)
  }

  /** The termination measure of a stack: the sum of its items' weights. */
  function Measure(stack: seq<WorkItem>): nat
  {
    if |stack| == 0 then 0
    else Measure(stack[..|stack| - 1]) + Weight(stack[|stack| - 1])
  }

  /** Pushing an item adds its weight to the measure. */
  lemma MeasurePush(stack: seq<WorkItem>, item: WorkItem)
    ensures Measure(stack + [item]) == Measure(stack) + Weight(item)
  {
    assert (stack + [item])[..|stack|] == stack;
  }

  /**
   The two items pushed for a non-terminal item split at `left`: the
   bit-clear range `[start, left)` and the bit-set range `[left, End)`,
   adjacent, disjoint, covering the parent and one bit lower. Together they
   weigh less than their parent.
   */
  function Children(item: WorkItem, left: int): (c: (WorkItem, WorkItem))
    requires item.bit >= 0
    requires item.start <= left <= item.End()
    ensures c.0.start == item.start && c.1.End() == item.End()
    ensures c.0.End() == c.1.start == left
    ensures c.0.size >= 0 && c.1.size >= 0 && c.0.size + c.1.size == item.size
    ensures c.0.bit == c.1.bit == item.bit - 1
    ensures Weight(c.0) + Weight(c.1) < Weight(item)
  {
    (WorkItem(item.start, left - item.start, item.bit - 1),
     WorkItem(left, item.size - (left - item.start), item.bit - 1))
  }

  /** One past the end of the range covered by the live items. */
  function Frontier(stack: seq<WorkItem>): int
  {
    if |stack| == 0 then 0 else stack[|stack| - 1].End()
  }

  /**
   The live items tile `[0, Frontier(stack))` in stack order: the bottom
   item starts at 0, each item ends where the next one starts, and no
   item's range overlaps a later one's.
   */
  predicate Tiles(stack: seq<WorkItem>, n: int)
  {
    && (|stack| > 0 ==> stack[0].start == 0)
    && (forall k :: 0 <= k < |stack| ==> stack[k].size >= 0)
    && (forall k :: 0 <= k < |stack| - 1 ==> stack[k].End() == stack[k + 1].start)
    && (forall k, m :: 0 <= k < m < |stack| ==> stack[k].End() <= stack[m].start)
    && Frontier(stack) <= n
  }

  /** No value in `[lo, hi)` exceeds a value at or after `hi`. */
  predicate Below(t: seq<nat>, lo: int, hi: int)
  {
    forall i, j :: 0 <= lo <= i < hi <= j < |t| ==> t[i] <= t[j]
  }

  /** A live item's range shares the bits above its bit and is below everything after it. */
  predicate Pending(t: seq<nat>, item: WorkItem)
  {
    SameHigh(t, item.start, item.End(), item.bit) && Below(t, item.start, item.End())
  }

  /** The loop invariant of the iterative driver. */
  predicate StackInv(v: seq<nat>, t: seq<nat>, stack: seq<WorkItem>)
  {
    && |t| == |v|
    && multiset(t) == multiset(v)
    && Tiles(stack, |t|)
    && (forall k :: 0 <= k < |stack| ==> Pending(t, stack[k]))
    && SortedRange(t, Frontier(stack), |t|)
  }

  /** The initial stack, holding the whole vector at the top bit, satisfies the invariant. */
  lemma {:induction false} InitialInv(v: seq<nat>, w: nat)
    requires FitsWidth(v, w)
    ensures StackInv(v, v, [WorkItem(0, |v|, w - 1)])
  {
    FitsWidthSameHigh(v, w);
  }

  /**
   A terminal item needs no work: when its values share the bits above its
   bit, its range is already sorted, either because it holds at most one
   value or because, at `bit < 0`, its values are all equal.
   */
  lemma TerminalSorted(t: seq<nat>, item: WorkItem)
    requires item.Terminal()
    requires 0 <= item.start <= item.End() <= |t|
    requires SameHigh(t, item.start, item.End(), item.bit)
    ensures SortedRange(t, item.start, item.End())
  {
    if item.bit < 0 {
      SameHighAtNoneSorted(t, item.start, item.End());
    }
  }

  /** Dropping a terminal item from the top keeps the invariant. */
  lemma {:induction false} DiscardInv(v: seq<nat>, t: seq<nat>, stack: seq<WorkItem>)
    requires StackInv(v, t, stack) && |stack| > 0
    requires stack[|stack| - 1].Terminal()
    ensures StackInv(v, t, stack[..|stack| - 1])
  {
    var x := stack[|stack| - 1];
    var rest := stack[..|stack| - 1];
    assert Frontier(rest) == x.start by {
      if |rest| > 0 {
        assert rest[|rest| - 1] == stack[|stack| - 2];
      }
    }
    assert Pending(t, x);
    TerminalSorted(t, x);
    forall i, j | x.start <= i < j < |t|
      ensures t[i] <= t[j]
    {
    }
  }

  /** Values outside a rearranged range keep being below what follows them. */
  lemma {:induction false} BelowBefore(t: seq<nat>, t': seq<nat>, a: int, e: int, lo: int, hi: int)
    requires Permutes(t, t', a, e)
    requires 0 <= lo <= hi <= a
    requires Below(t, lo, hi)
    ensures Below(t', lo, hi)
  {
    forall i, j | lo <= i < hi <= j < |t'|
      ensures t'[i] <= t'[j]
    {
      PermutesOutside(t, t', a, e, i);
      if a <= j < e {
        PermutesSource(t, t', a, e, j);
      } else {
        PermutesOutside(t, t', a, e, j);
      }
    }
  }

  /** A rearranged range that was below what follows it still is, part by part. */
  lemma {:induction false} BelowWithin(t: seq<nat>, t': seq<nat>, a: int, e: int, i: int, j: int)
    requires Permutes(t, t', a, e)
    requires Below(t, a, e)
    requires a <= i < e <= j < |t|
    ensures t'[i] <= t'[j]
  {
    PermutesSource(t, t', a, e, i);
    PermutesOutside(t, t', a, e, j);
  }

  /** Ranges untouched by a rearrangement keep sharing their high bits. */
  lemma {:induction false} SameHighBefore(t: seq<nat>, t': seq<nat>, a: int, e: int, lo: int, hi: int, b: int)
    requires Permutes(t, t', a, e)
    requires 0 <= lo <= hi <= a
    requires SameHigh(t, lo, hi, b)
    ensures SameHigh(t', lo, hi, b)
  {
    forall i | lo <= i < hi
      ensures t'[i] == t[i]
    {
      PermutesOutside(t, t', a, e, i);
    }
  }

  /**
   Replacing the top item by its two children keeps the items tiling the
   same prefix, in the same order.
   */
  lemma {:induction false} SplitTiles(stack: seq<WorkItem>, n: int, left: int)
    requires Tiles(stack, n) && |stack| > 0
    requires var x := stack[|stack| - 1];
      x.bit >= 0 && x.start <= left <= x.End()
    ensures var x := stack[|stack| - 1];
      var c := Children(x, left);
      && Tiles(stack[..|stack| - 1] + [c.0, c.1], n)
      && Frontier(stack[..|stack| - 1] + [c.0, c.1]) == Frontier(stack)
  {
    var x := stack[|stack| - 1];
    var rest := stack[..|stack| - 1];
    var c := Children(x, left);
    var stack' := rest + [c.0, c.1];
    assert stack'[|rest|] == c.0 && stack'[|rest| + 1] == c.1;
    forall k | 0 <= k < |rest|
      ensures stack'[k] == stack[k] && stack[k].End() <= x.start
    {
    }
  }

  /**
   The items below the top lie left of the partitioned range, so they stay
   pending after it is rearranged.
   */
  lemma {:induction false} SplitKeepsRest(t: seq<nat>, t': seq<nat>, stack: seq<WorkItem>)
    requires Tiles(stack, |t|) && |stack| > 0
    requires forall k :: 0 <= k < |stack| ==> Pending(t, stack[k])
    requires var x := stack[|stack| - 1];
      Permutes(t, t', x.start, x.End())
    ensures forall k :: 0 <= k < |stack| - 1 ==> Pending(t', stack[k])
  {
    var x := stack[|stack| - 1];
    forall k | 0 <= k < |stack| - 1
      ensures Pending(t', stack[k])
    {
      var y := stack[k];
      assert Pending(t, y) && y.End() <= x.start;
      SameHighBefore(t, t', x.start, x.End(), y.start, y.End(), y.bit);
      BelowBefore(t, t', x.start, x.End(), y.start, y.End());
    }
  }

  /**
   The two children of a partitioned pending item are pending: each shares
   its bits above `bit - 1`, the bit-clear child is below the bit-set child,
   and both stay below everything after the parent.
   */
  lemma {:induction false} SplitChildrenPending(t: seq<nat>, t': seq<nat>, x: WorkItem, left: int)
    requires Pending(t, x) && x.bit >= 0
    requires Permutes(t, t', x.start, x.End())
    requires x.start <= left <= x.End()
    requires forall i :: x.start <= i < left ==> Bit(t'[i], x.bit) == 0
    requires forall i :: left <= i < x.End() ==> Bit(t'[i], x.bit) == 1
    ensures var c := Children(x, left);
      Pending(t', c.0) && Pending(t', c.1)
  {
    var a, e, n := x.start, x.End(), |t|;
    PermutesSameHigh(t, t', a, e, x.bit);
    SplitSameHigh(t', a, left, e, x.bit);
    assert Below(t', a, left) by {
      forall i, j | a <= i < left <= j < n
        ensures t'[i] <= t'[j]
      {
        if j < e {
          SplitOrdered(t', a, e, x.bit, i, j);
        } else {
          BelowWithin(t, t', a, e, i, j);
        }
      }
    }
    assert Below(t', left, e) by {
      forall i, j | left <= i < e <= j < n
        ensures t'[i] <= t'[j]
      {
        BelowWithin(t, t', a, e, i, j);
      }
    }
  }

  /**
   Partitioning the top item and replacing it with its two children keeps
   the invariant.
   */
  lemma {:induction false} SplitInv(v: seq<nat>, t: seq<nat>, t': seq<nat>, stack: seq<WorkItem>, left: int)
    requires StackInv(v, t, stack) && |stack| > 0
    requires !stack[|stack| - 1].Terminal()
    requires var x := stack[|stack| - 1];
      && Permutes(t, t', x.start, x.End())
      && x.start <= left <= x.End()
      && (forall i :: x.start <= i < left ==> Bit(t'[i], x.bit) == 0)
      && (forall i :: left <= i < x.End() ==> Bit(t'[i], x.bit) == 1)
    ensures var x := stack[|stack| - 1];
      var c := Children(x, left);
      StackInv(v, t', stack[..|stack| - 1] + [c.0, c.1])
  {
    var x := stack[|stack| - 1];
    var a, e, n := x.start, x.End(), |t|;
    var rest := stack[..|stack| - 1];
    var c := Children(x, left);
    var stack' := rest + [c.0, c.1];
    assert Pending(t, x);

    PermutesWiden(t, t', 0, a, e, n);
    PermutesWhole(t, t');
    SplitTiles(stack, n, left);
    SplitKeepsRest(t, t', stack);
    SplitChildrenPending(t, t', x, left);
    assert forall k :: 0 <= k < |stack'| ==> Pending(t', stack'[k]) by {
      assert stack'[|rest|] == c.0 && stack'[|rest| + 1] == c.1;
      assert forall k :: 0 <= k < |rest| ==> stack'[k] == stack[k];
    }
    forall i, j | e <= i < j < n
      ensures t'[i] <= t'[j]
    {
      PermutesOutside(t, t', a, e, i);
      PermutesOutside(t, t', a, e, j);
    }
  }

  /** Popping the top item and pushing its children lowers the measure. */
  lemma {:induction false} SplitMeasure(stack: seq<WorkItem>, left: int)
    requires |stack| > 0
    requires var x := stack[|stack| - 1];
      x.bit >= 0 && x.start <= left <= x.End()
    ensures var x := stack[|stack| - 1];
      var c := Children(x, left);
      Measure(stack[..|stack| - 1] + [c.0, c.1]) < Measure(stack)
  {
    var x := stack[|stack| - 1];
    var rest := stack[..|stack| - 1];
    var c := Children(x, left);
    MeasurePush(rest, c.0);
    MeasurePush(rest + [c.0], c.1);
    assert rest + [c.0, c.1] == rest + [c.0] + [c.1];
  }

  /**
   Sorts a vector of `w`-bit values with an explicit work stack. The result
   is non-decreasing and a permutation of the input; an already sorted input
   is returned unchanged.
   */
  method BinRadixSortIt(v: seq<nat>, w: nat) returns (r: seq<nat>)
    requires FitsWidth(v, w)
    ensures Sorted(r) && multiset(r) == multiset(v)
    ensures Sorted(v) ==> r == v
  {
    var t := v;
    var stack := [WorkItem(0, |v|, w - 1)];
    InitialInv(v, w);
    while |stack| > 0
      invariant StackInv(v, t, stack)
      decreases Measure(stack)
    {
      var item := stack[|stack| - 1];
      var popped := stack[..|stack| - 1];
      if item.Terminal() {
        DiscardInv(v, t, stack);
        stack := popped;
        continue;
      }
      assert Pending(t, item);
      var t', left := Partition(t, item.start, item.End(), item.bit);
      SplitInv(v, t, t', stack, left);
      SplitMeasure(stack, left);
      var c := Children(item, left);
      t, stack := t', popped + [c.0, c.1];
    }
    assert Sorted(t);
    r := t;
    if Sorted(v) {
      SortedUnique(r, v);
    }
  }
}
