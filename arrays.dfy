/**
 * Cell-level vocabulary for the in-place sort: exchanging two cells of the
 * shared integer buffer, order and bounds over an inclusive index range
 * `[lo, hi]` (empty when `hi < lo`), and rearrangements confined to a range.
 */
module Arrays {

  /** The sequence `s` with the cells at `i` and `j` exchanged. */
  function Swapped(s: seq<int>, i: int, j: int): (r: seq<int>)
    requires 0 <= i < |s| && 0 <= j < |s|
    ensures |r| == |s|
    ensures r[i] == s[j] && r[j] == s[i]
  {
    seq(|s|, m requires 0 <= m < |s| => if m == i then s[j] else if m == j then s[i] else s[m])
  }

  /** An exchange leaves every other cell, and the multiset of values, as they were. */
  lemma SwappedCells(s: seq<int>, i: int, j: int)
    requires 0 <= i < |s| && 0 <= j < |s|
    ensures forall m :: 0 <= m < |s| && m != i && m != j ==> Swapped(s, i, j)[m] == s[m]
    ensures multiset(Swapped(s, i, j)) == multiset(s)
  {
    var r, u := Swapped(s, i, j), s[i := s[j]][j := s[i]];
    assert r == u by {
      forall m | 0 <= m < |r| ensures r[m] == u[m] { }
    }
  }

  /** Exchanges the cells `i` and `j` of `a` (the source passes two pointers into the same buffer). */
  method Swap(a: array<int>, i: int, j: int)
    requires 0 <= i < a.Length && 0 <= j < a.Length
    modifies a
    ensures a[..] == Swapped(old(a[..]), i, j)
  {
    var temp := a[i];
    a[i] := a[j];
    a[j] := temp;
  }

  /** The cells of `s` in `[lo, hi]` are in non-decreasing order, pair by adjacent pair. */
  predicate SortedOn(s: seq<int>, lo: int, hi: int)
    requires 0 <= lo && hi < |s|
    decreases hi - lo
  {
    hi <= lo || (s[hi - 1] <= s[hi] && SortedOn(s, lo, hi - 1))
  }

  /** Every cell of `s` in `[lo, hi]` is strictly below `x`. */
  predicate BelowOn(s: seq<int>, lo: int, hi: int, x: int)
    requires 0 <= lo && hi < |s|
    decreases hi - lo
  {
    hi < lo || (s[hi] < x && BelowOn(s, lo, hi - 1, x))
  }

  /** Every cell of `s` in `[lo, hi]` is at least `x`. */
  predicate AtLeastOn(s: seq<int>, lo: int, hi: int, x: int)
    requires 0 <= lo && hi < |s|
    decreases hi - lo
  {
    hi < lo || (s[hi] >= x && AtLeastOn(s, lo, hi - 1, x))
  }

  /** Adjacent order on a range is order between any two of its cells. */
  lemma {:induction false} SortedOnAll(s: seq<int>, lo: int, hi: int)
    requires 0 <= lo && hi < |s|
    ensures SortedOn(s, lo, hi) <==> forall m, n :: lo <= m < n <= hi ==> s[m] <= s[n]
    decreases hi - lo
  {
    if hi > lo {
      SortedOnAll(s, lo, hi - 1);
    }
  }

  /** The range bound below `x` holds cell by cell. */
  lemma {:induction false} BelowOnAll(s: seq<int>, lo: int, hi: int, x: int)
    requires 0 <= lo && hi < |s|
    ensures BelowOn(s, lo, hi, x) <==> forall m :: lo <= m <= hi ==> s[m] < x
    decreases hi - lo
  {
    if hi >= lo {
      BelowOnAll(s, lo, hi - 1, x);
    }
  }

  /** The range bound at least `x` holds cell by cell. */
  lemma {:induction false} AtLeastOnAll(s: seq<int>, lo: int, hi: int, x: int)
    requires 0 <= lo && hi < |s|
    ensures AtLeastOn(s, lo, hi, x) <==> forall m :: lo <= m <= hi ==> s[m] >= x
    decreases hi - lo
  {
    if hi >= lo {
      AtLeastOnAll(s, lo, hi - 1, x);
    }
  }

  /**
   * `[left, right]` is a (possibly empty) range of `s`, and `t` has the
   * length of `s` and agrees with it on every cell before and after it.
   */
  predicate SameOutside(s: seq<int>, t: seq<int>, left: int, right: int)
  {
    0 <= left <= right + 1 <= |s| == |t| && t[..left] == s[..left] && t[right + 1..] == s[right + 1..]
  }

  /**
   * `t` is `s` with the cells of `[left, right]` rearranged: the two hold the
   * same values, and every cell outside the range is unchanged.
   */
  predicate PermutedWithin(s: seq<int>, t: seq<int>, left: int, right: int)
  {
    SameOutside(s, t, left, right) && multiset(t) == multiset(s)
  }

  /** A cell outside `[left, right]` is the same in both sequences. */
  lemma OutsideCell(s: seq<int>, t: seq<int>, left: int, right: int, m: int)
    requires SameOutside(s, t, left, right) && 0 <= m < |s| && (m < left || right < m)
    ensures t[m] == s[m]
  {
    if m < left {
      assert t[m] == t[..left][m] && s[m] == s[..left][m];
    } else {
      assert t[m] == t[right + 1..][m - right - 1] && s[m] == s[right + 1..][m - right - 1];
    }
  }

  /** A range lying outside `[left, right]` keeps its order and its bounds. */
  lemma {:induction false} OutsideKeepsRange(s: seq<int>, t: seq<int>, left: int, right: int, lo: int, hi: int, x: int)
    requires SameOutside(s, t, left, right) && 0 <= lo && hi < |s| && (hi < left || right < lo)
    ensures SortedOn(t, lo, hi) == SortedOn(s, lo, hi)
    ensures BelowOn(t, lo, hi, x) == BelowOn(s, lo, hi, x)
    ensures AtLeastOn(t, lo, hi, x) == AtLeastOn(s, lo, hi, x)
    decreases hi - lo
  {
    if hi >= lo {
      OutsideCell(s, t, left, right, hi);
      if hi > lo {
        OutsideCell(s, t, left, right, hi - 1);
      }
      OutsideKeepsRange(s, t, left, right, lo, hi - 1, x);
    }
  }

  /** A rearrangement within a range is one within any range around it. */
  lemma PermutedWithinWiden(s: seq<int>, t: seq<int>, lo: int, hi: int, left: int, right: int)
    requires PermutedWithin(s, t, lo, hi) && 0 <= left <= lo && hi <= right < |s|
    ensures PermutedWithin(s, t, left, right)
  {
    assert t[..left] == t[..lo][..left] && s[..left] == s[..lo][..left];
    assert t[right + 1..] == t[hi + 1..][right - hi..] && s[right + 1..] == s[hi + 1..][right - hi..];
  }

  /** A rearrangement within `[left, right]` permutes that segment itself. */
  lemma PermutedWithinSegment(s: seq<int>, t: seq<int>, left: int, right: int)
    requires PermutedWithin(s, t, left, right)
    ensures multiset(t[left..right + 1]) == multiset(s[left..right + 1])
  {
    assert s == s[..left] + s[left..right + 1] + s[right + 1..];
    assert t == t[..left] + t[left..right + 1] + t[right + 1..];
    assert multiset(s[left..right + 1]) == multiset(s) - multiset(s[..left]) - multiset(s[right + 1..]);
    assert multiset(t[left..right + 1]) == multiset(t) - multiset(t[..left]) - multiset(t[right + 1..]);
  }

  /** Exchanging two cells inside `[left, right]` is a rearrangement within it. */
  lemma SwappedWithin(s: seq<int>, i: int, j: int, left: int, right: int)
    requires 0 <= left <= i <= right < |s| && left <= j <= right
    ensures PermutedWithin(s, Swapped(s, i, j), left, right)
  {
    SwappedCells(s, i, j);
    var r := Swapped(s, i, j);
    assert r[..left] == s[..left];
    assert r[right + 1..] == s[right + 1..];
  }

  /** A rearrangement within a range keeps every bound that held on it. */
  lemma PermutedKeepsBounds(s: seq<int>, t: seq<int>, left: int, right: int, x: int)
    requires PermutedWithin(s, t, left, right)
    ensures BelowOn(s, left, right, x) ==> BelowOn(t, left, right, x)
    ensures AtLeastOn(s, left, right, x) ==> AtLeastOn(t, left, right, x)
  {
    PermutedWithinSegment(s, t, left, right);
    forall m | left <= m <= right
      ensures exists n :: left <= n <= right && s[n] == t[m]
    {
      assert t[m] == t[left..right + 1][m - left];
      assert t[m] in multiset(s[left..right + 1]);
      var n :| 0 <= n < right + 1 - left && s[left..right + 1][n] == t[m];
      assert s[left + n] == t[m];
    }
    BelowOnAll(s, left, right, x);
    BelowOnAll(t, left, right, x);
    AtLeastOnAll(s, left, right, x);
    AtLeastOnAll(t, left, right, x);
  }

  /**
   * A sorted range, then a pivot at `p`, then a sorted range, with everything
   * before the pivot below it and everything after it at least it: the whole
   * range is sorted.
   */
  lemma JoinSorted(s: seq<int>, lo: int, p: int, hi: int)
    requires 0 <= lo <= p <= hi < |s|
    requires SortedOn(s, lo, p - 1) && SortedOn(s, p + 1, hi)
    requires BelowOn(s, lo, p - 1, s[p]) && AtLeastOn(s, p + 1, hi, s[p])
    ensures SortedOn(s, lo, hi)
  {
    SortedOnAll(s, lo, p - 1);
    SortedOnAll(s, p + 1, hi);
    BelowOnAll(s, lo, p - 1, s[p]);
    AtLeastOnAll(s, p + 1, hi, s[p]);
    SortedOnAll(s, lo, hi);
    forall m, n | lo <= m < n <= hi
      ensures s[m] <= s[n]
    {
      if m < p && p < n {
        assert s[m] < s[p] <= s[n];
      }
    }
  }

  /** Non-decreasing order of a whole sequence. */
  predicate Sorted(s: seq<int>)
  {
    forall m, n :: 0 <= m < n < |s| ==> s[m] <= s[n]
  }

  /** Dropping the head of a sorted sequence leaves it sorted. */
  lemma SortedTail(s: seq<int>)
    requires Sorted(s) && s != []
    ensures Sorted(s[1..])
  {
    forall m, n | 0 <= m < n < |s| - 1
      ensures s[1..][m] <= s[1..][n]
    {
      assert s[1..][m] == s[m + 1] && s[1..][n] == s[n + 1];
    }
  }

  /** Removing equal heads from two sequences with the same values leaves tails with the same values. */
  lemma MultisetTails(s: seq<int>, t: seq<int>)
    requires s != [] && t != [] && s[0] == t[0] && multiset(s) == multiset(t)
    ensures multiset(s[1..]) == multiset(t[1..])
  {
    assert s == [s[0]] + s[1..] && t == [t[0]] + t[1..];
    assert multiset(s[1..]) == multiset(s) - multiset{s[0]};
    assert multiset(t[1..]) == multiset(t) - multiset{t[0]};
  }

  /**
   * There is only one sorted arrangement of a multiset of integers: two
   * sorted sequences holding the same values are equal.
   */
  lemma {:induction false} SortedPermutationUnique(s: seq<int>, t: seq<int>)
    requires Sorted(s) && Sorted(t)
    requires multiset(s) == multiset(t)
    ensures s == t
  {
    assert |t| == |s| by {
      assert |multiset(t)| == |t| && |multiset(s)| == |s|;
    }
    if s != [] {
      SortedHeadIsLeast(s, t);
      SortedHeadIsLeast(t, s);
      MultisetTails(s, t);
      SortedTail(s);
      SortedTail(t);
      SortedPermutationUnique(s[1..], t[1..]);
      assert s == [s[0]] + s[1..] && t == [t[0]] + t[1..];
    }
  }

  /** The head of a sorted sequence is at most every value of any permutation of it. */
  lemma SortedHeadIsLeast(s: seq<int>, t: seq<int>)
    requires Sorted(s) && s != [] && t != []
    requires multiset(s) == multiset(t)
    ensures s[0] <= t[0]
  {
    assert t[0] in multiset(s);
    var n :| 0 <= n < |s| && s[n] == t[0];
    assert n == 0 || s[0] <= s[n];
  }

  /** A sorted range, cut out, is a sorted sequence. */
  lemma SortedOnSlice(s: seq<int>, left: int, right: int)
    requires 0 <= left <= right + 1 <= |s| && SortedOn(s, left, right)
    ensures Sorted(s[left..right + 1])
  {
    SortedOnAll(s, left, right);
    var u := s[left..right + 1];
    forall m, n | 0 <= m < n < |u|
      ensures u[m] <= u[n]
    {
      assert u[m] == s[left + m] && u[n] == s[left + n];
    }
  }

  /** Two sequences that agree outside `[left, right]` and on it are equal. */
  lemma SameOutsideAndInside(s: seq<int>, t: seq<int>, left: int, right: int)
    requires SameOutside(s, t, left, right) && t[left..right + 1] == s[left..right + 1]
    ensures t == s
  {
    assert s == s[..left] + s[left..right + 1] + s[right + 1..];
    assert t == t[..left] + t[left..right + 1] + t[right + 1..];
  }

  /**
   * Rearranging an already sorted range into sorted order changes nothing:
   * the only sorted rearrangement of a sorted range is the range itself.
   */
  lemma SortedRearrangementIsIdentity(s: seq<int>, t: seq<int>, left: int, right: int)
    requires PermutedWithin(s, t, left, right)
    requires SortedOn(s, left, right) && SortedOn(t, left, right)
    ensures t == s
  {
    SortedOnSlice(s, left, right);
    SortedOnSlice(t, left, right);
    PermutedWithinSegment(s, t, left, right);
    SortedPermutationUnique(t[left..right + 1], s[left..right + 1]);
    SameOutsideAndInside(s, t, left, right);
  }
}
