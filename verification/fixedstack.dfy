/**
 The iterative driver's stack as the source allocates it.

 `bin_radix_sort_it` preallocates a vector of `v.size()` work items and
 keeps the index `top` of the top entry (-1 when empty); a push is
 `stack[++top] = item` and a pop is `stack[top--]`. Writing past the end of
 that vector is undefined behaviour in C++; here it is the `OutOfBounds`
 outcome. The capacity is too small: an empty input overflows on the first
 push, and a partition that puts every element on the bit-set side leaves an
 empty item under its sibling, so a two-element vector of all-ones values
 needs a third slot at the second split. `IterativeSort.BinRadixSortIt` is
 the driver with a growable stack that the rest of the model uses.
 */
module FixedStack {
  import opened Bits
  import opened Segments
  import opened Partitioning
  import opened RecursiveSort
  import opened IterativeSort

  /** A preallocated stack: the slot vector and the index of the top entry. */
  datatype Slots = Slots(entries: seq<WorkItem>, top: int)
  {
    /** `top` is -1 or indexes a slot. */
    predicate Valid()
    {
      -1 <= top < |entries|
    }

    /** The live items, bottom first: slots `0..top`. */
    function Live(): seq<WorkItem>
      requires Valid()
    {
      entries[..top + 1]
    }
  }

  /** The outcome of a push: the updated stack, or a write past the last slot. */
  datatype PushResult = Pushed(slots: Slots) | OutOfBounds

  /** The outcome of the driver: the sorted vector, or an out-of-bounds push. */
  datatype SortResult = Done(value: seq<nat>) | Overflow

  /** `std::vector<std::tuple<int, int, int>> stack(n)` with `top = -1`. */
  function Preallocate(n: nat): (st: Slots)
    ensures st.Valid() && |st.entries| == n && st.Live() == []
  {
    Slots(seq(n, _ => WorkItem(0, 0, 0)), -1)
  }

  /**
   `stack[++top] = item`. It behaves as a push onto a growable stack while a
   slot is free, and writes out of bounds exactly when every slot is live.
   */
  function Push(st: Slots, item: WorkItem): (r: PushResult)
    requires st.Valid()
    ensures r.OutOfBounds? <==> |st.Live()| == |st.entries|
    ensures r.Pushed? ==> r.slots.Valid() && r.slots.Live() == st.Live() + [item]
    ensures r.Pushed? ==> |r.slots.entries| == |st.entries|
  {
    if st.top + 1 < |st.entries| then
      var entries := st.entries[st.top + 1 := item];
      assert entries[..st.top + 2] == st.Live() + [item];
      Pushed(Slots(entries, st.top + 1))
    else
      OutOfBounds
  }

  /**
   Lines 95-96: `stack[++top] = first; stack[++top] = second`. Both fit
   exactly when two slots are free, and then both are live on top.
   */
  function PushBoth(st: Slots, first: WorkItem, second: WorkItem): (r: PushResult)
    requires st.Valid()
    ensures r.OutOfBounds? <==> |st.Live()| + 2 > |st.entries|
    ensures r.Pushed? ==> r.slots.Valid() && r.slots.Live() == st.Live() + [first, second]
    ensures r.Pushed? ==> |r.slots.entries| == |st.entries|
  {
    match Push(st, first)
    case OutOfBounds => OutOfBounds
    case Pushed(st') =>
      assert st'.Live() + [second] == st.Live() + [first, second];
      Push(st', second)
  }

  /** `stack[top--]`: the top item and the stack without it. */
  function Pop(st: Slots): (r: (WorkItem, Slots))
    requires st.Valid() && st.top >= 0
    ensures r.1.Valid() && |r.1.entries| == |st.entries|
    ensures st.Live() == r.1.Live() + [r.0]
    ensures r.1.Live() == st.Live()[..|st.Live()| - 1] && r.0 == st.Live()[|st.Live()| - 1]
  {
    assert st.entries[..st.top + 1] == st.entries[..st.top] + [st.entries[st.top]];
    (st.entries[st.top], Slots(st.entries, st.top - 1))
  }

  /**
   A two-element vector whose elements are equal and have the top two bits
   of the width set, such as 8-bit `[255, 255]`: both partitions put every
   element on the bit-set side.
   */
  predicate TopBitsSetPair(v: seq<nat>, w: nat)
  {
    && w >= 2
    && |v| == 2
    && v[0] == v[1]
    && Bit(v[0], w - 1) == 1
    && Bit(v[0], w - 2) == 1
  }

  /** 8-bit `[255, 255]` is such a pair. */
  lemma AllOnesBytePair()
    ensures FitsWidth([255, 255], 8)
    ensures TopBitsSetPair([255, 255], 8)
  {
    assert Pow2(8) == 256 by {
      assert Pow2(2) == 4;
      assert Pow2(4) == 16;
      assert Pow2(6) == 64;
    }
    assert Shr(255, 6) == 3 by {
      assert Shr(255, 2) == 63;
      assert Shr(255, 4) == 15;
    }
  }

  /** Rearranging a pair of equal values changes nothing. */
  lemma EqualPairPermutes(s: seq<nat>, t: seq<nat>)
    requires |s| == 2 && s[0] == s[1]
    requires Permutes(s, t, 0, 2)
    ensures t == s
  {
    assert s[0..2] == s && t[0..2] == t;
    assert t[0] in multiset(s) && t[1] in multiset(s);
  }

  /** No element of a pair with bit `b` set has bit `b` clear. */
  lemma SetPairCount(s: seq<nat>, b: nat)
    requires |s| == 2 && Bit(s[0], b) == 1 && Bit(s[1], b) == 1
    ensures CountZeros(s[0..2], b) == 0
  {
    CountZerosSplit(s[0..2], 0, b);
  }

  /**
   The stacks a `TopBitsSetPair` input goes through: the whole range at the
   top bit, then, after the first split, an empty item under the whole range
   one bit lower. Each split leaves the vector as it is and splits at 0.
   */
  predicate PairTrace(live: seq<WorkItem>, w: int)
  {
    || live == [WorkItem(0, 2, w - 1)]
    || live == [WorkItem(0, 0, w - 2), WorkItem(0, 2, w - 2)]
  }

  /**
   Splitting the top of a `PairTrace` stack keeps the vector, splits at 0,
   and either moves to the second stack of the trace or needs three live
   items.
   */
  lemma {:induction false} PairTraceSplit(v: seq<nat>, w: nat, t': seq<nat>, live: seq<WorkItem>, left: int)
    requires TopBitsSetPair(v, w) && PairTrace(live, w)
    requires var x := live[|live| - 1];
      && Permutes(v, t', x.start, x.End())
      && x.start <= left <= x.End()
      && left - x.start == CountZeros(v[x.start..x.End()], x.bit)
    ensures var x := live[|live| - 1];
      && !x.Terminal()
      && t' == v
      && var c := Children(x, left);
      && (live == [WorkItem(0, 2, w - 1)] ==> live[..|live| - 1] + [c.0, c.1] == [WorkItem(0, 0, w - 2), WorkItem(0, 2, w - 2)])
      && (live != [WorkItem(0, 2, w - 1)] ==> |live[..|live| - 1] + [c.0]| == 2)
  {
    var x := live[|live| - 1];
    EqualPairPermutes(v, t');
    SetPairCount(v, x.bit);
  }

  /** The top of every stack of a `PairTrace` is a range of two elements with a bit left to examine. */
  lemma PairTraceTop(live: seq<WorkItem>, w: nat)
    requires w >= 2 && PairTrace(live, w)
    ensures |live| > 0 && !live[|live| - 1].Terminal()
  {
  }

  /**
   The loop invariant of the driver as written: the slots hold a valid
   stack of the input's capacity whose live items satisfy the iterative
   driver's invariant, and a `TopBitsSetPair` input is still on its trace.
   */
  predicate FixedInv(v: seq<nat>, w: nat, t: seq<nat>, st: Slots)
  {
    && st.Valid()
    && |st.entries| == |v|
    && StackInv(v, t, st.Live())
    && (TopBitsSetPair(v, w) ==> t == v && PairTrace(st.Live(), w))
  }

  /**
   Line 62: the first push into `|v|` fresh slots. It writes out of bounds
   exactly for an empty input; otherwise the loop invariant holds.
   */
  lemma FirstPush(v: seq<nat>, w: nat)
    requires FitsWidth(v, w)
    ensures var first := Push(Preallocate(|v|), WorkItem(0, |v|, w - 1));
      && (first.OutOfBounds? <==> |v| == 0)
      && (first.Pushed? ==> FixedInv(v, w, v, first.slots))
  {
    InitialInv(v, w);
  }

  /**
   When the loop stops, the vector is a sorted permutation of the input,
   and the input was not a `TopBitsSetPair`, whose trace never empties the
   stack.
   */
  lemma FinalFixed(v: seq<nat>, w: nat, t: seq<nat>, st: Slots)
    requires FixedInv(v, w, t, st) && st.top < 0
    ensures Sorted(t) && multiset(t) == multiset(v)
    ensures !TopBitsSetPair(v, w)
  {
    assert st.Live() == [];
  }

  /**
   One iteration of the loop as written: pop the top item; drop it if it
   is terminal, otherwise partition its range and push its two children
   into the slots. Unless a push writes out of bounds, the loop invariant
   holds of the new state and the measure drops. A `TopBitsSetPair` input
   at its second split needs a third slot and writes out of bounds.
   */
  method StepFixed(v: seq<nat>, w: nat, t: seq<nat>, st: Slots) returns (t': seq<nat>, next: PushResult)
    requires FixedInv(v, w, t, st) && st.top >= 0
    ensures next.Pushed? ==> FixedInv(v, w, t', next.slots)
    ensures next.Pushed? ==> Measure(next.slots.Live()) < Measure(st.Live())
    ensures TopBitsSetPair(v, w) && st.Live() != [WorkItem(0, 2, w - 1)] ==> next.OutOfBounds?
  {
    var live := st.Live();
    var (item, popped) := Pop(st);
    assert item == live[|live| - 1] && popped.Live() == live[..|live| - 1];
    if TopBitsSetPair(v, w) {
      PairTraceTop(live, w);
    }
    if item.Terminal() {
      DiscardInv(v, t, live);
      return t, Pushed(popped);
    }
    assert Pending(t, item);
    var left;
    t', left := Partition(t, item.start, item.End(), item.bit);
    SplitInv(v, t, t', live, left);
    SplitMeasure(live, left);
    if TopBitsSetPair(v, w) {
      PairTraceSplit(v, w, t', live, left);
    }
    var c := Children(item, left);
    next := PushBoth(popped, c.0, c.1);
  }

  /**
   The iterative driver exactly as written, with the preallocated stack of
   `|v|` slots. When it finishes, its result is sorted and a permutation of
   the input; but an empty input and every `TopBitsSetPair` input make it
   push past the last slot.
   */
  method BinRadixSortItFixed(v: seq<nat>, w: nat) returns (r: SortResult)
    requires FitsWidth(v, w)
    ensures r.Done? ==> Sorted(r.value) && multiset(r.value) == multiset(v)
    ensures |v| == 0 ==> r == Overflow
    ensures TopBitsSetPair(v, w) ==> r == Overflow
  {
    FirstPush(v, w);
    var first := Push(Preallocate(|v|), WorkItem(0, |v|, w - 1));
    if first.OutOfBounds? {
      return Overflow;
    }
    var st := first.slots;
    var t := v;
    while st.top >= 0
      invariant FixedInv(v, w, t, st)
      decreases Measure(st.Live())
    {
      var next;
      t, next := StepFixed(v, w, t, st);
      if next.OutOfBounds? {
        return Overflow;
      }
      st := next.slots;
    }
    FinalFixed(v, w, t, st);
    r := Done(t);
  }

  /**
   On 8-bit `[255, 255]` the driver as written pushes past its two slots,
   while the driver with a growable stack sorts it.
   */
  method AllOnesByteOverflows() returns (fixed: SortResult, growable: seq<nat>)
    ensures fixed == Overflow
    ensures growable == [255, 255]
  {
    AllOnesBytePair();
    fixed := BinRadixSortItFixed([255, 255], 8);
    growable := BinRadixSortIt([255, 255], 8);
  }
}
