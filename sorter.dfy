/**
 * The partition-exchange sort: a Lomuto partition of `[left, right]` around
 * the pivot staged at `left`, and the recursive sort that returns how many
 * comparisons it counted.
 */
module Sorter {
  import opened Arrays
  import opened PivotSelection

  /**
   * What the partition scan keeps true with boundary `i` and next index `j`:
   * the pivot sits at `left`, the cells `[left + 1, i - 1]` are below it and
   * the cells `[i, j - 1]` are at least it.
   */
  predicate ScanInvariant(s: seq<int>, left: int, i: int, j: int, pivot: int)
  {
    0 <= left < i <= j <= |s| && s[left] == pivot &&
    BelowOn(s, left + 1, i - 1, pivot) && AtLeastOn(s, i, j - 1, pivot)
  }

  /** A scanned cell at least the pivot joins the upper region where it is. */
  lemma ScanKeep(s: seq<int>, left: int, i: int, j: int, pivot: int)
    requires ScanInvariant(s, left, i, j, pivot) && j < |s| && s[j] >= pivot
    ensures ScanInvariant(s, left, i, j + 1, pivot)
  {
  }

  /** A scanned cell below the pivot is exchanged to the boundary, which advances. */
  lemma ScanTake(s0: seq<int>, s: seq<int>, left: int, right: int, i: int, j: int, pivot: int)
    requires ScanInvariant(s, left, i, j, pivot) && j <= right && PermutedWithin(s0, s, left, right)
    requires s[j] < pivot
    ensures ScanInvariant(Swapped(s, j, i), left, i + 1, j + 1, pivot)
    ensures PermutedWithin(s0, Swapped(s, j, i), left, right)
  {
    var t := Swapped(s, j, i);
    SwappedCells(s, j, i);
    SwappedWithin(s, j, i, left, right);
    BelowOnAll(s, left + 1, i - 1, pivot);
    BelowOnAll(t, left + 1, i, pivot);
    AtLeastOnAll(s, i, j - 1, pivot);
    AtLeastOnAll(t, i + 1, j, pivot);
  }

  /**
   * At the end of the scan, exchanging the pivot with the last smaller cell
   * puts it between the two regions.
   */
  lemma ScanFinish(s0: seq<int>, s: seq<int>, left: int, right: int, i: int, pivot: int)
    requires ScanInvariant(s, left, i, right + 1, pivot) && PermutedWithin(s0, s, left, right)
    ensures Swapped(s, left, i - 1)[i - 1] == pivot
    ensures PartitionedAt(Swapped(s, left, i - 1), left, i - 1, right)
    ensures PermutedWithin(s0, Swapped(s, left, i - 1), left, right)
  {
    var t := Swapped(s, left, i - 1);
    SwappedCells(s, left, i - 1);
    SwappedWithin(s, left, i - 1, left, right);
    BelowOnAll(s, left + 1, i - 1, pivot);
    BelowOnAll(t, left, i - 2, pivot);
    AtLeastOnAll(s, i, right, pivot);
    AtLeastOnAll(t, i, right, pivot);
  }

  /**
   * The segment `[left, right]` of `s` is split at `p`: every cell before `p`
   * holds a value below `s[p]`, every cell after it a value at least `s[p]`.
   */
  predicate PartitionedAt(s: seq<int>, left: int, p: int, right: int)
  {
    0 <= left <= p <= right < |s| &&
    BelowOn(s, left, p - 1, s[p]) && AtLeastOn(s, p + 1, right, s[p])
  }

  /**
   * The scan of `Partition`: with the pivot at `left`, moves every cell of
   * `[left + 1, right]` below it to the front of that range, in one pass of
   * `j` with the boundary `i`, and returns the boundary.
   */
  method Scan(a: array<int>, left: int, right: int, pivot: int) returns (i: int)
    requires 0 <= left <= right < a.Length && a[left] == pivot
    modifies a
    ensures left + 1 <= i <= right + 1
    ensures ScanInvariant(a[..], left, i, right + 1, pivot)
    ensures PermutedWithin(old(a[..]), a[..], left, right)
  {
    ghost var s0 := a[..];
    i := left + 1;
    var j := left + 1;
    // `cur` names the array's contents as the scan proceeds.
    ghost var cur := a[..];
    while j <= right
      invariant left + 1 <= i <= j <= right + 1
      invariant cur == a[..]
      invariant ScanInvariant(cur, left, i, j, pivot)
      invariant PermutedWithin(s0, cur, left, right)
    {
      if a[j] < pivot {
        ScanTake(s0, cur, left, right, i, j, pivot);
        Swap(a, j, i);
        cur := Swapped(cur, j, i);
        i := i + 1;
      } else {
        ScanKeep(cur, left, i, j, pivot);
      }
      j := j + 1;
    }
  }

  /**
   * Partitions the non-empty segment `[left, right]` in place around the pivot
   * that `GetPivot` stages, and returns the pivot's final position `p`: the
   * cells before it hold smaller values, the cells after it values at least as
   * large. The ghost `k` is the cell the pivot came from.
   */
  method Partition(a: array<int>, left: int, right: int, opt: PivotOption) returns (p: int, ghost k: int)
    requires 0 <= left <= right < a.Length
    modifies a
    ensures left <= p <= right && left <= k <= right
    ensures a[p] == old(a[k])
    ensures opt == First ==> k == left
    ensures opt == Last ==> k == right
    ensures opt == Median ==> k == MedianIndex(old(a[..]), left, right)
    ensures PartitionedAt(a[..], left, p, right)
    ensures PermutedWithin(old(a[..]), a[..], left, right)
  {
    ghost var s0 := a[..];
    var pivot;
    pivot, k := GetPivot(a, left, right, opt);
    SwappedWithin(s0, left, k, left, right);
    var i := Scan(a, left, right, pivot);
    ghost var scanned := a[..];
    Swap(a, left, i - 1);
    ScanFinish(s0, scanned, left, right, i, pivot);
    p := i - 1;
  }

  /** Comparisons charged to choosing a pivot: the median of three costs 3. */
  function PivotComparisons(opt: PivotOption): nat
  {
    if opt == Median then 3 else 0
  }

  /**
   * The most comparisons `QuickSort` can count on a segment of `n` cells: the
   * count when every pivot lands at an end of its segment.
   */
  function MaxComparisons(n: int, opt: PivotOption): nat
    decreases n
  {
    if n <= 1 then 0 else n - 1 + PivotComparisons(opt) + MaxComparisons(n - 1, opt)
  }

  /** Splitting a segment never costs more than the worst case of the whole. */
  lemma {:induction false} MaxComparisonsSuperadditive(x: nat, y: nat, opt: PivotOption)
    ensures MaxComparisons(x, opt) + MaxComparisons(y, opt) <= MaxComparisons(x + y, opt)
    decreases y
  {
    if y >= 2 {
      MaxComparisonsSuperadditive(x, y - 1, opt);
    }
  }

  /**
   * A partition of `n` cells followed by worst-case sorts of its two sides,
   * which hold `n - 1` cells between them, stays within the worst case of `n`.
   */
  lemma SplitWithinWorstCase(n: int, x: int, y: int, opt: PivotOption)
    requires 0 <= x && 0 <= y && x + y == n - 1 && n >= 2
    ensures n - 1 + PivotComparisons(opt) + MaxComparisons(x, opt) + MaxComparisons(y, opt) <= MaxComparisons(n, opt)
  {
    MaxComparisonsSuperadditive(x, y, opt);
    assert MaxComparisons(n, opt) == n - 1 + PivotComparisons(opt) + MaxComparisons(n - 1, opt);
    assert MaxComparisons(n - 1, opt) == MaxComparisons(x + y, opt);
  }

  /**
   * The fewest comparisons `QuickSort` counts on a segment of `n` cells:
   * nothing for at most one cell, otherwise the first partition's own count.
   */
  function MinComparisons(n: int, opt: PivotOption): nat
  {
    if n <= 1 then 0 else n - 1 + PivotComparisons(opt)
  }

  /** The count of a sort of `n` cells lies between the fewest and the most it can be. */
  predicate CountInRange(c: int, n: int, opt: PivotOption)
  {
    MinComparisons(n, opt) <= c <= MaxComparisons(n, opt)
  }

  /**
   * A partition of `n` cells counted as `n - 1` comparisons (plus 3 under
   * Median), followed by sorts of its two sides, which hold `n - 1` cells
   * between them, gives a count in range for `n`.
   */
  lemma CountWithinWorstCase(n: int, x: int, y: int, lower: int, upper: int, c: int, opt: PivotOption)
    requires 0 <= x && 0 <= y && x + y == n - 1 && n >= 2
    requires CountInRange(lower, x, opt) && CountInRange(upper, y, opt) && 0 <= lower && 0 <= upper
    requires c == n - 1 + PivotComparisons(opt) + lower + upper
    ensures CountInRange(c, n, opt)
  {
    SplitWithinWorstCase(n, x, y, opt);
  }

  /** The worst case in closed form: n(n-1)/2 scan comparisons plus 3 per partition under Median. */
  lemma {:induction false} MaxComparisonsClosedForm(n: nat, opt: PivotOption)
    requires n >= 1
    ensures 2 * MaxComparisons(n, opt) == n * (n - 1) + 2 * PivotComparisons(opt) * (n - 1)
  {
    if n >= 2 {
      MaxComparisonsClosedForm(n - 1, opt);
      assert (n - 1) * (n - 2) + 2 * (n - 1) == n * (n - 1);
    }
  }

  /**
   * After partitioning (`s0` to `s1`) and sorting the two sides of the pivot
   * at `p` (`s1` to `s2` to `s3`), the whole segment is sorted and is a
   * rearrangement of what it held before partitioning; if it was sorted to
   * begin with, nothing changed.
   */
  lemma SortedAfterRecursion(s0: seq<int>, s1: seq<int>, s2: seq<int>, s3: seq<int>, left: int, p: int, right: int)
    requires PermutedWithin(s0, s1, left, right) && PartitionedAt(s1, left, p, right)
    requires PermutedWithin(s1, s2, left, p - 1) && SortedOn(s2, left, p - 1)
    requires PermutedWithin(s2, s3, p + 1, right) && SortedOn(s3, p + 1, right)
    ensures SortedOn(s3, left, right)
    ensures PermutedWithin(s0, s3, left, right)
    ensures SortedOn(s0, left, right) ==> s3 == s0
  {
    var pivot := s1[p];
    // Each recursive call leaves the pivot and the other side alone.
    OutsideCell(s1, s2, left, p - 1, p);
    OutsideCell(s2, s3, p + 1, right, p);
    // The lower side: bounded by the pivot after the first call, untouched by the second.
    PermutedKeepsBounds(s1, s2, left, p - 1, pivot);
    OutsideKeepsRange(s2, s3, p + 1, right, left, p - 1, pivot);
    // The upper side: untouched by the first call, bounded after the second.
    OutsideKeepsRange(s1, s2, left, p - 1, p + 1, right, pivot);
    PermutedKeepsBounds(s2, s3, p + 1, right, pivot);
    JoinSorted(s3, left, p, right);
    // Both rearrangements stay inside the segment.
    PermutedWithinWiden(s1, s2, left, p - 1, left, right);
    PermutedWithinWiden(s2, s3, p + 1, right, left, right);
    if SortedOn(s0, left, right) {
      SortedRearrangementIsIdentity(s0, s3, left, right);
    }
  }

  /**
   * Sorts the segment `[left, right]` of `a` in place and returns the number of
   * comparisons counted: none for a segment of at most one cell, otherwise one
   * per cell scanned by the partition (plus 3 under Median) and the counts of
   * the two recursive calls.
   */
  method QuickSort(a: array<int>, left: int, right: int, opt: PivotOption) returns (comparisons: nat)
    requires 0 <= left <= right + 1 <= a.Length
    modifies a
    decreases right - left
    ensures SortedOn(a[..], left, right)
    ensures PermutedWithin(old(a[..]), a[..], left, right)
    ensures SortedOn(old(a[..]), left, right) ==> a[..] == old(a[..])
    ensures CountInRange(comparisons, right - left + 1, opt)
  {
    var len := right - left + 1;
    comparisons := 0;
    if len > 1 {
      comparisons := len - 1;
      if opt == Median {
        comparisons := comparisons + 3;
      }
      ghost var s0 := a[..];
      var p;
      ghost var k;
      p, k := Partition(a, left, right, opt);
      ghost var s1 := a[..];
      var lower := QuickSort(a, left, p - 1, opt);
      comparisons := comparisons + lower;
      ghost var s2 := a[..];
      var upper := QuickSort(a, p + 1, right, opt);
      comparisons := comparisons + upper;
      SortedAfterRecursion(s0, s1, s2, a[..], left, p, right);
      // The two sides hold len - 1 cells between them.
      CountWithinWorstCase(right - left + 1, p - 1 - left + 1, right - (p + 1) + 1, lower, upper, comparisons, opt);
    }
  }
}
