# Binary radix sort, modelled in Dafny

This project models the in-place MSD binary radix sort of `bin_radix_sort.cpp`.
The sort orders fixed-width unsigned integers by partitioning on one bit at a
time, from the most significant bit down. The model covers its three parts:

- the two-cursor partition scan, which splits a range into bit-clear and
  bit-set elements (`Partitioning.Partition`);
- the recursive driver `bin_radix_sort_rec` and its inner lambda
  (`RecursiveSort.SortRange`, `RecursiveSort.BinRadixSortRec`);
- the iterative driver `bin_radix_sort_it`, which keeps an explicit stack of
  `(start, size, bit)` work items (`IterativeSort.BinRadixSortIt`).

Modelling choices:

- An element of a `W`-bit unsigned type is a `nat` below `Pow2(W)`. The width
  `w` is a parameter; the source instantiates it at 8, 16, 32 and 64
  (`W = 8 * sizeof(T)`).
- `(x >> bit) & 1` is `Bit(x, bit)`. `Shr` is `n` halvings, and
  `Bits.ShrIsDiv` proves it equals `(x / 2^bit) % 2`.
- The vector is a `seq<nat>` value threaded through the methods. Each swap is
  a sequence update at two positions. A `std::span` sub-view, or a stack
  entry's `(start, size)`, is an index range `[lo, hi)` over that one
  sequence.
- The work stack is a growable sequence whose last element is the top. The
  preallocated slot vector the source uses is modelled in `FixedStack`, where a
  write past the last slot is the `OutOfBounds` outcome.
- The harness's `std::sort` is represented by `Reference.InsertionSort`, an
  independent comparison sort.
- The source's comments at lines 33 and 78 call the bit-clear side the
  "right partition". The code puts it on the left, and the model follows
  the code.

The proofs rest on one invariant. Every element of a range handled at bit `b`
has the same bits above `b` (`Segments.SameHigh`). Partitioning then puts
every bit-clear element strictly below every bit-set element
(`Bits.BitOrder`). At `b = -1` the invariant says all elements are equal. In
the iterative driver the live stack items tile a prefix `[0, f)` of the
vector, bottom to top. Everything from `f` onward is sorted and is at least
every value before `f` (`IterativeSort.StackInv`). The iterative loop
terminates because the sum of `3^(bit+1)` over the stack items decreases on
every pop.

## Model

| member | source | states |
|---|---|---|
| `Bits.Bit` | bin_radix_sort.cpp:31 | The bit read `(x >> bit) & 1` (also at line 76) always gives 0 or 1, so the scan has exactly two cases: advance `left`, or swap and retreat `right`. |
| `Bits.ShrIsDiv` | bin_radix_sort.cpp:31 | The shift-and-mask bit read `(x >> bit) & 1` equals `(x / 2^bit) % 2` on naturals. |
| `Bits.BitOrder` | bin_radix_sort.cpp:31-36 | Two values with the same bits above `b` are ordered by bit `b`: the bit-clear one is strictly smaller. This is why the bit-clear side goes first. |
| `Bits.HighOfTop` | bin_radix_sort.cpp:48 | A `w`-bit value has no bits above `w - 1`, so starting at bit `W - 1` every element agrees on the bits above the current bit. |
| `Segments.SameHighAtNoneSorted` | bin_radix_sort.cpp:22-24 | A range reached with `bit < 0` holds values that agree on all their bits. Returning it untouched leaves it sorted. |
| `Partitioning.Partition` | bin_radix_sort.cpp:26-42 | The scan terminates (`right - left` decreases). It only rearranges `[lo, hi)`: same multiset inside, every position outside unchanged. It returns `lo <= left <= hi` with bit `bit` clear on `[lo, left)` and set on `[left, hi)`. `left - lo` is the number of bit-clear elements of the input range. The same loop is at lines 71-93. |
| `RecursiveSort.FitsWidthSameHigh` | bin_radix_sort.cpp:48 | A vector of `w`-bit values meets the entry invariant at bit `w - 1`. |
| `RecursiveSort.JoinSorted` | bin_radix_sort.cpp:44-45 | After a partition on `b`, sorting `[lo, left)` and then `[left, hi)` in place leaves the whole range sorted. |
| `RecursiveSort.SortRange` | bin_radix_sort.cpp:20-46 | The lambda only rearranges its range and leaves the rest of the vector unchanged. It changes nothing when the range has at most one element or `bit < 0`. It leaves the range sorted whenever all its elements agree on the bits above `bit`. |
| `RecursiveSort.BinRadixSortRec` | bin_radix_sort.cpp:19-49 | For every vector of `w`-bit values the result is non-decreasing and a permutation of the input. An already sorted input, including every input of length 0 or 1 and every all-equal input, comes back unchanged. |
| `IterativeSort.Children` | bin_radix_sort.cpp:95-96 | The two items pushed for a popped item split at `left` are `[start, left)` and `[left, start + size)`. They are adjacent, disjoint and non-negative in size, their sizes sum to the popped size, and both carry `bit - 1`. Together they weigh less than the popped item under `3^(bit+1)`. |
| `IterativeSort.InitialInv` | bin_radix_sort.cpp:60-62 | The initial stack, one item `(0, n, W - 1)`, satisfies the loop invariant. |
| `IterativeSort.TerminalSorted` | bin_radix_sort.cpp:67-69 | An item that meets the base-case test `size <= 1 \|\| bit < 0` needs no work. If its values share the bits above its bit, its range is already sorted: it holds at most one value, or at `bit < 0` all its values are equal. |
| `IterativeSort.DiscardInv` | bin_radix_sort.cpp:65-69 | Popping and dropping a terminal item (`size <= 1` or `bit < 0`) keeps the loop invariant. The dropped range is already in its final order. |
| `IterativeSort.SplitInv` | bin_radix_sort.cpp:71-96 | Partitioning the popped item and pushing its two children keeps the loop invariant. The items still tile the unfinished prefix, each still shares its high bits, and each is still below everything after it. |
| `IterativeSort.SplitMeasure` | bin_radix_sort.cpp:64-96 | Replacing a non-terminal top item by its two children strictly lowers the stack's termination measure. |
| `IterativeSort.BinRadixSortIt` | bin_radix_sort.cpp:57-98 | For every vector of `w`-bit values the result is non-decreasing and a permutation of the input. An already sorted input comes back unchanged. |
| `FixedStack.Preallocate` | bin_radix_sort.cpp:60-61 | `stack(v.size())` with `top = -1`: a valid stack with `n` slots and no live items. |
| `FixedStack.Push` | bin_radix_sort.cpp:62 | `stack[++top] = item` on the preallocated slots writes past the last slot exactly when every slot is live. Otherwise the live items gain `item` on top and the capacity is unchanged. |
| `FixedStack.PushBoth` | bin_radix_sort.cpp:95-96 | The two pushes fit exactly when two slots are free, and then the children are live on top, bit-clear side first. |
| `FixedStack.Pop` | bin_radix_sort.cpp:65 | `stack[top--]` yields the top live item and leaves the live items below it. |
| `FixedStack.FirstPush` | bin_radix_sort.cpp:60-62 | Pushing the whole-range item into `v.size()` fresh slots writes out of bounds exactly when the vector is empty. Otherwise the loop invariant holds. |
| `FixedStack.StepFixed` | bin_radix_sort.cpp:64-96 | One iteration with the preallocated stack keeps the loop invariant and lowers the measure unless a push writes out of bounds. On a `TopBitsSetPair` input it writes out of bounds at the second split. |
| `FixedStack.FinalFixed` | bin_radix_sort.cpp:64 | When `top < 0` ends the loop, the vector is a sorted permutation of the input, and the input was not a `TopBitsSetPair`. |
| `FixedStack.PairTraceSplit` | bin_radix_sort.cpp:71-96 | For a pair of equal values with the current bit set, the partition leaves the vector unchanged and splits at the start. The pushed empty item stays under its sibling, so the live stack grows. |
| `FixedStack.AllOnesBytePair` | bin_radix_sort.cpp:60 | 8-bit `[255, 255]` fits the width and has its top two bits set. |
| `FixedStack.BinRadixSortItFixed` | bin_radix_sort.cpp:57-98 | The driver exactly as written. Whenever it finishes, the result is a sorted permutation. But an empty input, and every two-element equal input with the top two bits set, push past the `v.size()` slots. |
| `FixedStack.AllOnesByteOverflows` | bin_radix_sort.cpp:60-96 | On 8-bit `[255, 255]`, the driver as written writes out of bounds. The driver with a growable stack returns `[255, 255]`. |
| `Reference.InsertionSort` | bin_radix_sort.cpp:148 | The reference (`std::sort`) result is non-decreasing and a permutation of its input. |
| `Reference.SortedUnique` | bin_radix_sort.cpp:164-165 | Two sorted sequences with the same multiset are equal element by element. So any sort that returns a sorted permutation passes the benchmark's comparison against `std::sort`. |
| `Reference.SortedIsFixpoint` | bin_radix_sort.cpp:148 | The reference sort standing in for `std::sort` returns a sorted input unchanged. This is a fact about the reference only; the drivers' own idempotence is `Comparison.SortTwice`. |
| `Reference.SortIdempotent` | bin_radix_sort.cpp:148 | The reference sort standing in for `std::sort` is idempotent: applying it to its own result changes nothing. This is a fact about the reference only. |
| `Comparison.SortThreeWays` | bin_radix_sort.cpp:143-165 | On every input of width `w`, the recursive driver's and the iterative driver's results both equal the reference result, so they equal each other and both comparisons succeed. |
| `Comparison.SortTwice` | bin_radix_sort.cpp:19-98 | The radix sort is idempotent. Sorting the recursive driver's result (lines 19-49) again, with either driver (lines 19-49 or 57-98), returns that result unchanged. |
| `Comparison.ExampleWidth8` | bin_radix_sort.cpp:184 | At width 8, both drivers sort `[5, 130, 0, 255, 5]` to `[0, 5, 5, 130, 255]`. |

## Left out

- `benchmark` and `main` (bin_radix_sort.cpp:129-190) are left out. They do timing with `std::chrono`, random input with `rand`/`srand`, argument parsing and console output. Only their use of the sorts is modelled, by `Comparison.SortThreeWays`.
- `equal_vectors` (bin_radix_sort.cpp:108-120) is left out. It is a printing test helper and loops over the first vector's length only. Its role is played by sequence equality.
- `IterativeSort.BinRadixSortIt` uses a growable stack in place of the `v.size()` slots (bin_radix_sort.cpp:60-62, 95-96). The slot vector as written is modelled separately in `FixedStack`. See Findings.
- The `int`/`size_t` conversions (bin_radix_sort.cpp:27, 62, 65) are not modelled. Indices and sizes are unbounded integers, so vectors longer than `INT_MAX` are not covered.
- `std::function` and `std::span` (bin_radix_sort.cpp:20-21, 44-45, 48) are not modelled. Sub-views are index ranges over the one sequence.
- Element types are not distinguished beyond their width. Signed types, and shift counts of at least the width, are outside what the source supports.

## Findings

| source | as written | input that shows it | evidently intended | confidence | as-written member | corrected member |
|---|---|---|---|---|---|---|
| bin_radix_sort.cpp:60-62, 95-96 | The stack has `v.size()` entries. Line 62 pushes before any check, and line 95 pushes the bit-clear child even when it is empty. That child stays under its bit-set sibling. | An empty vector: line 62 writes `stack[0]` of an empty vector. 8-bit `{255, 255}`: after the first split the live items are `(0,0,6)` and `(0,2,6)`. The second split writes `stack[2]`. | A stack that never runs out, as with `push_back`/`pop_back`. The loop then sorts every input. | not executed | `FixedStack.BinRadixSortItFixed`, exhibited by `FixedStack.AllOnesByteOverflows` | `IterativeSort.BinRadixSortIt` |
