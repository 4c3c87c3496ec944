# Quicksort with selectable pivot strategies, in Dafny

This project models the in-place quicksort of `quicksort/quicksort.c` and
proves what it does to the integer buffer it sorts. The program sorts the
segment `[Left, Right]` of an `int` array with a Lomuto partition. The pivot
is chosen by one of four strategies (`EPivotOptions`): the first cell, the
last cell, the median of the first, middle and last cells, or a random cell.
The sort also returns a count of the comparisons it charges.

The model is imperative, like the C code:

- the buffer is an `array<int>`;
- `Swap`, `GetPivot`, `Partition` and `QuickSort` are methods that modify it;
- each method is specified against functions and predicates on the array's
  contents `a[..]`.

There are three modules:

- `Arrays` holds the vocabulary on sequences:
  - exchanging two cells (`Swapped`);
  - order and bounds on an inclusive range (`SortedOn`, `BelowOn`,
    `AtLeastOn`);
  - rearrangement confined to a range (`PermutedWithin`: the same multiset
    of values, and every cell outside the range unchanged);
  - lemmas about these, including that a sorted range has only one sorted
    rearrangement.
- `PivotSelection` holds:
  - the strategy datatype;
  - the median-of-three index and a reference `Median3`;
  - `GetPivot`.
- `Sorter` holds:
  - the partition scan and its invariant;
  - `Partition` and `QuickSort`;
  - the worst-case comparison count `MaxComparisons` and its lemmas.

`rand()` is modelled as an arbitrary draw from `[0, RAND_MAX]`, where
`RAND_MAX` is the GNU C library's `0x7fffffff`. The random pivot index is then
`Left + draw % (Right - Left + 1)`, as in the source. Everything proved about
the Random strategy holds for every draw.

The scan loop of `Partition` (lines 80-85) is written as its own method,
`Sorter.Scan`, which `Partition` calls between `GetPivot` and the final
exchange. The loop, its variables and its exchanges are those of the source.

## Model

| member | source | states |
|---|---|---|
| `Arrays.Swapped` | quicksort/quicksort.c:35-39 | exchanging cells `i` and `j` keeps the length and puts the old `s[j]` at `i` and the old `s[i]` at `j` |
| `Arrays.SwappedCells` | quicksort/quicksort.c:35-39 | an exchange changes no other cell and keeps the multiset of values |
| `Arrays.Swap` | quicksort/quicksort.c:35-39 | the array afterwards is its old contents with cells `i` and `j` exchanged (also when `i == j`) |
| `Arrays.SwappedWithin` | quicksort/quicksort.c:82 | exchanging two cells of `[left, right]` rearranges that range and leaves every cell outside it unchanged |
| `PivotSelection.Center` | quicksort/quicksort.c:45 | `(Left + Right)/2` lies within `[Left, Right]` |
| `PivotSelection.Median3` | quicksort/quicksort.c:53-62 | reference median of three: one of the three values, with at least two of them at most it and at least two at least it |
| `PivotSelection.MedianIndex` | quicksort/quicksort.c:53-62 | the median strategy picks `Left`, the centre or `Right`; with three distinct values it picks the cell holding their median; with any tie it picks `Left`, so nothing moves |
| `PivotSelection.GetPivot` | quicksort/quicksort.c:41-71 | the result is the value left at `Input[Left]`, taken from some cell `k` in `[Left, Right]`; the array is the old one with `Left` and `k` exchanged, a single exchange that (by `SwappedWithin`) changes only `[Left, Right]` and keeps its values; `k == Left` leaves the array as it was; First changes nothing, Last exchanges `Left` and `Right`, Median stages `MedianIndex` |
| `Sorter.ScanTake` | quicksort/quicksort.c:81-83 | exchanging a scanned cell below the pivot to the boundary and advancing both indices keeps the scan invariant and the rearrangement within `[Left, Right]` |
| `Sorter.Scan` | quicksort/quicksort.c:76-85 | with the pivot at `Left`, the loop ends with `Left + 1 <= i <= Right + 1`, the pivot still at `Left`, `[Left+1, i-1]` below it and `[i, Right]` at least it; only `[Left, Right]` was rearranged |
| `Sorter.ScanFinish` | quicksort/quicksort.c:86-87 | exchanging `Left` with `i - 1` after the scan puts the pivot at `i - 1` with smaller values before it and values at least as large after it |
| `Sorter.Partition` | quicksort/quicksort.c:74-88 | returns `p` in `[Left, Right]` holding the pivot staged from cell `k`, every cell of `[Left, p-1]` below it, every cell of `[p+1, Right]` at least it; the segment is a rearrangement of its old contents and nothing outside it changes; the strategy determines `k` as in `GetPivot` |
| `Arrays.PermutedKeepsBounds` | quicksort/quicksort.c:104-105 | rearranging a range keeps every upper or lower bound that held on it |
| `Arrays.OutsideKeepsRange` | quicksort/quicksort.c:104-105 | a range lying outside the rearranged one keeps its order and its bounds |
| `Arrays.PermutedWithinWiden` | quicksort/quicksort.c:104-105 | a rearrangement within a range is one within any range containing it |
| `Arrays.JoinSorted` | quicksort/quicksort.c:102-105 | a sorted lower side below the pivot, then the pivot, then a sorted upper side at least the pivot, make a sorted segment |
| `Sorter.SortedAfterRecursion` | quicksort/quicksort.c:102-105 | partitioning and then sorting both sides leaves `[Left, Right]` sorted and a rearrangement of the original segment; a segment that was already sorted comes back unchanged |
| `Arrays.SortedPermutationUnique` | quicksort/quicksort.c:92-110 | two sorted sequences with the same multiset of values are equal |
| `Arrays.SortedRearrangementIsIdentity` | quicksort/quicksort.c:92-110 | a sorted rearrangement, within a range, of a range that was already sorted is the original sequence |
| `Sorter.MaxComparisonsSuperadditive` | quicksort/quicksort.c:102-105 | the worst-case counts of two sides add up to no more than the worst case of their combined size |
| `Sorter.SplitWithinWorstCase` | quicksort/quicksort.c:96-105 | one partition of `n` cells plus worst-case sorts of its sides (`n - 1` cells together) stays within the worst case for `n` |
| `Sorter.CountWithinWorstCase` | quicksort/quicksort.c:94-109 | the count of one call (`len - 1`, plus 3 under Median, plus both recursive counts) lies in range when the recursive counts do |
| `Sorter.MaxComparisonsClosedForm` | quicksort/quicksort.c:94-109 | the worst case is `n(n-1)/2`, plus `3(n-1)` under Median |
| `Sorter.QuickSort` | quicksort/quicksort.c:92-110 | `[Left, Right]` ends sorted; it is a rearrangement of its old contents; every other cell is unchanged; an already sorted segment is left exactly as it was; the count is 0 when `len <= 1`, otherwise at least `len - 1` (plus 3 under Median), and never above the worst case `MaxComparisons(len)` |

## Left out

- `main` (quicksort/quicksort.c:112-243) is not modelled. It parses the command-line flags, reads the numbers from a file, grows the buffer with `realloc` and prints the results: all I/O and library plumbing.
- `PrintArray` (quicksort/quicksort.c:19-33) is not modelled: it is console output only.
- `rand()` and `srand(time(NULL))` are not modelled as a generator. Each call is an arbitrary value in `[0, RAND_MAX]`, so the proofs cover every sequence of draws.
- The `default:` branch of the strategy `switch` (quicksort/quicksort.c:67-68) cannot be reached. Strategies are a four-constructor datatype, so no other value exists.
- Machine integers are not modelled. The model ignores `int` overflow of `Left + Right` and of `Right - Left + 1`, and wrap-around of the `uint64_t` count. Values are unbounded integers.
- Sorter.QuickSort: the count is stated as bounds, not as the exact recurrence. It is at least `len - 1` (plus 3 under Median) and at most the worst case. The exact total depends on where each pivot lands, and under the random strategy on the draws.
- Sorter.QuickSort: the model requires `0 <= Left <= Right + 1 <= length`. The C function also returns 0, without touching the array, for an empty range with `Left > Right + 1`. Neither `main` nor its own recursion passes such a range.
