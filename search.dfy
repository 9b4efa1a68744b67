/**
 * The searches of CTL over the first `size` cells of an array: linear
 * search for the first occurrence, and binary search over a sorted array.
 * Both answer -1 when the target is not found.
 */
module Searching {

  /** a[..size] is in ascending order (vacuous for size <= 0). */
  ghost predicate SortedUpTo(a: array<int>, size: int)
    reads a
  {
    forall i, j :: 0 <= i < j < size && j < a.Length ==> a[i] <= a[j]
  }

  /** linear_search: the first index holding `target`, or -1 when there is none. */
  method LinearSearch<T(==)>(a: array<T>, size: int, target: T) returns (r: int)
    requires size <= a.Length
    ensures r == -1 || 0 <= r < size
    ensures 0 <= r ==> a[r] == target && forall k :: 0 <= k < r ==> a[k] != target
    ensures r == -1 <==> forall k :: 0 <= k < size ==> a[k] != target
  {
    var i := 0;
    while i < size
      invariant 0 <= i <= if size < 0 then 0 else size
      invariant forall k :: 0 <= k < i ==> a[k] != target
    {
      if a[i] == target {
        return i;
      }
      i := i + 1;
    }
    return -1;
  }

  /**
   * binary_search: halve [left, right] around the middle cell until the
   * target is found or the range is empty. Any index returned holds the
   * target; on sorted input -1 means the target is absent.
   */
  method BinarySearch(a: array<int>, size: int, target: int) returns (r: int)
    requires size <= a.Length
    ensures r == -1 || (0 <= r < size && a[r] == target)
    ensures SortedUpTo(a, size) && r == -1 ==> forall k :: 0 <= k < size ==> a[k] != target
  {
    var left, right := 0, size - 1;
    while left <= right
      invariant 0 <= left && right < size
      invariant SortedUpTo(a, size) ==> forall k :: 0 <= k < size && (k < left || right < k) ==> a[k] != target
      decreases right - left
    {
      // left + right is not negative, so this division rounds down like the source's floor.
      var index := (left + right) / 2;
      if a[index] == target {
        return index;
      } else if a[index] < target {
        left := index + 1;
      } else {
        right := index - 1;
      }
    }
    return -1;
  }
}
