/**
 * Pivot selection: for a non-empty segment `[left, right]` and a strategy,
 * choose the pivot, stage it at `left` by at most one exchange, and return
 * its value.
 */
module PivotSelection {
  import opened Arrays

  /** The strategies of the `EPivotOptions` enumeration. */
  datatype PivotOption = First | Last | Median | Random

  /** Largest value the C library's `rand()` returns (the GNU C library's value). */
  const RAND_MAX: int := 0x7fff_ffff

  /** The midpoint of `[left, right]`, rounded down. */
  function Center(left: int, right: int): (c: int)
    requires 0 <= left <= right
    ensures left <= c <= right
  {
    (left + right) / 2
  }

  /** 1 when the comparison holds, 0 otherwise. */
  function Count(b: bool): nat
  {
    if b then 1 else 0
  }

  /** Reference median of three values: some argument with at least two of the three on each side of it. */
  function Median3(x: int, y: int, z: int): (m: int)
    ensures m == x || m == y || m == z
    ensures Count(x <= m) + Count(y <= m) + Count(z <= m) >= 2
    ensures Count(x >= m) + Count(y >= m) + Count(z >= m) >= 2
  {
    if (x <= y && y <= z) || (z <= y && y <= x) then y
    else if (y <= x && x <= z) || (z <= x && x <= y) then x
    else z
  }

  predicate Distinct3(x: int, y: int, z: int)
  {
    x != y && y != z && x != z
  }

  /**
   * The cell the median-of-three strategy stages at `left`: the midpoint when
   * its value lies strictly between the other two, else `right` when its value
   * does, else `left` itself. With three distinct values that is the cell
   * holding their median; with any tie no test succeeds and nothing moves.
   */
  function MedianIndex(s: seq<int>, left: int, right: int): (k: int)
    requires 0 <= left <= right < |s|
    ensures k == left || k == Center(left, right) || k == right
    ensures Distinct3(s[left], s[Center(left, right)], s[right]) ==>
              s[k] == Median3(s[left], s[Center(left, right)], s[right])
    ensures !Distinct3(s[left], s[Center(left, right)], s[right]) ==> k == left
  {
    var leftVal, centerVal, rightVal := s[left], s[Center(left, right)], s[right];
    if (rightVal > centerVal && centerVal > leftVal) || (leftVal > centerVal && centerVal > rightVal) then
      Center(left, right)
    else if (leftVal > rightVal && rightVal > centerVal) || (centerVal > rightVal && rightVal > leftVal) then
      right
    else
      left
  }

  /**
   * Stages the pivot at `left` and returns its value. The ghost `k` names the
   * cell whose value was moved there; the array afterwards is the old one with
   * cells `left` and `k` exchanged, so nothing outside `[left, right]` moves and
   * the segment keeps its values.
   */
  method GetPivot(a: array<int>, left: int, right: int, opt: PivotOption) returns (pivot: int, ghost k: int)
    requires 0 <= left <= right < a.Length
    modifies a
    ensures left <= k <= right
    ensures a[..] == Swapped(old(a[..]), left, k)
    ensures pivot == a[left] == old(a[k])
    ensures k == left ==> a[..] == old(a[..])
    ensures opt == First ==> k == left
    ensures opt == Last ==> k == right
    ensures opt == Median ==> k == MedianIndex(old(a[..]), left, right)
  {
    ghost var s0 := a[..];
    var leftVal, rightVal, centerVal := a[left], a[right], a[Center(left, right)];
    assert leftVal == s0[left] && rightVal == s0[right] && centerVal == s0[Center(left, right)];
    match opt {
      case First =>
        k := left;
      case Last =>
        k := right;
        Swap(a, left, right);
      case Median =>
        if (rightVal > centerVal && centerVal > leftVal) || (leftVal > centerVal && centerVal > rightVal) {
          k := Center(left, right);
          Swap(a, left, Center(left, right));
        } else if (leftVal > rightVal && rightVal > centerVal) || (centerVal > rightVal && rightVal > leftVal) {
          k := right;
          Swap(a, left, right);
        } else {
          k := left;
        }
      case Random =>
        // rand() is an arbitrary draw from [0, RAND_MAX].
        var draw :| 0 <= draw <= RAND_MAX;
        var pivotIdx := left + draw % (right - left + 1);
        k := pivotIdx;
        Swap(a, left, pivotIdx);
    }
    assert opt == Median ==> k == MedianIndex(s0, left, right);
    assert k == left ==> a[..] == s0 == Swapped(s0, left, left);
    SwappedWithin(s0, left, k, left, right);
    pivot := a[left];
  }
}
