/**
 * The in-place sorting algorithms of CTL: insertion sort and selection sort
 * over the first `size` cells, and merge sort and quicksort (Lomuto
 * partition) over the inclusive index range [left, right] / [low, high].
 * Elements are integers compared with the built-in order.
 */
module Sorting {

  ghost predicate Sorted(s: seq<int>)
  {
    forall i, j :: 0 <= i < j < |s| ==> s[i] <= s[j]
  }

  /** Inserting `x` at position `p` of a sorted sequence, between smaller-or-equal and greater elements, keeps it sorted. */
  lemma InsertKeepsSorted(s: seq<int>, p: int, x: int)
    requires Sorted(s) && 0 <= p <= |s|
    requires p == 0 || s[p - 1] <= x
    requires forall k :: p <= k < |s| ==> x < s[k]
    ensures Sorted(s[..p] + [x] + s[p..])
  {
    var t := s[..p] + [x] + s[p..];
    forall i, j | 0 <= i < j < |t|
      ensures t[i] <= t[j]
    {
      if j < p {
        assert t[i] == s[i] && t[j] == s[j];
      } else if j == p {
        assert t[j] == x && t[i] == s[i];
      } else if i < p {
        assert t[i] == s[i] && t[j] == s[j - 1];
      } else if i == p {
        assert t[i] == x && t[j] == s[j - 1];
      } else {
        assert t[i] == s[i - 1] && t[j] == s[j - 1];
      }
    }
  }

  /**
   * insertionSort: for each i, shift the greater elements of the sorted
   * prefix a[..i] one cell right and drop a[i] into the gap.
   */
  method InsertionSort(a: array<int>, size: int)
    requires size <= a.Length
    modifies a
    ensures 0 <= size ==> Sorted(a[..size]) && multiset(a[..size]) == multiset(old(a[..size]))
    ensures forall k :: 0 <= k < a.Length && size <= k ==> a[k] == old(a[k])
  {
    var i := 1;
    while i < size
      invariant 1 <= i
      invariant 1 <= size ==> i <= size && Sorted(a[..i]) && multiset(a[..size]) == multiset(old(a[..size]))
      invariant forall k :: 0 <= k < a.Length && size <= k ==> a[k] == old(a[k])
    {
      InsertOne(a, i, size);
      i := i + 1;
    }
  }

  /** One pass of insertionSort's outer loop: a[..i] sorted becomes a[..i+1] sorted. */
  method InsertOne(a: array<int>, i: int, size: int)
    requires 1 <= i < size <= a.Length && Sorted(a[..i])
    modifies a
    ensures Sorted(a[..i + 1])
    ensures multiset(a[..size]) == multiset(old(a[..size]))
    ensures forall k :: 0 <= k < a.Length && i < k ==> a[k] == old(a[k])
  {
    ghost var prev := a[..];
    var current := a[i];
    var j := ShiftGreater(a, i, current);
    ghost var shifted := a[..];
    a[j + 1] := current;
    ShiftedInsertion(prev, shifted, i, j, size);
    assert a[..] == shifted[j + 1 := current];
  }

  /**
   * insertionSort's inner loop: walking down from i-1, move each element
   * greater than `current` one cell right; j is where the walk stopped.
   */
  method ShiftGreater(a: array<int>, i: int, current: int) returns (j: int)
    requires 0 <= i < a.Length
    modifies a
    ensures -1 <= j < i
    ensures forall k :: 0 <= k < a.Length && (k <= j || i < k) ==> a[k] == old(a[k])
    ensures forall k :: j + 2 <= k <= i ==> a[k] == old(a[k - 1])
    ensures forall k :: j + 1 <= k < i ==> current < old(a[k])
    ensures j < 0 || old(a[j]) <= current
  {
    ghost var s := a[..];
    j := i - 1;
    while j >= 0 && a[j] > current
      invariant -1 <= j < i
      invariant forall k :: 0 <= k < a.Length && (k <= j || i < k) ==> a[k] == s[k]
      invariant forall k :: j + 2 <= k <= i ==> a[k] == s[k - 1]
      invariant forall k :: j + 1 <= k < i ==> current < s[k]
    {
      a[j + 1] := a[j];
      j := j - 1;
    }
  }

  /**
   * The state after insertionSort's inner loop (`shifted`: the greater
   * elements prev[j+1..i) moved one cell right) and its final store of
   * prev[i] at j+1.
   */
  lemma ShiftedInsertion(prev: seq<int>, shifted: seq<int>, i: int, j: int, size: int)
    requires 0 <= i < size <= |prev| == |shifted| && -1 <= j < i
    requires Sorted(prev[..i])
    requires forall k :: 0 <= k < |shifted| && (k <= j || i < k) ==> shifted[k] == prev[k]
    requires forall k :: j + 2 <= k <= i ==> shifted[k] == prev[k - 1]
    requires forall k :: j + 1 <= k < i ==> prev[i] < prev[k]
    requires j < 0 || prev[j] <= prev[i]
    ensures Sorted(shifted[j + 1 := prev[i]][..i + 1])
    ensures multiset(shifted[j + 1 := prev[i]][..size]) == multiset(prev[..size])
  {
    ShiftedPrefix(prev, shifted, i, j);
    ShiftedSorted(prev, i, j);
    ShiftedPermutes(prev, shifted, i, j, size);
  }

  /** Inserting prev[i] at j + 1 of the sorted prefix prev[..i], between the smaller-or-equal and the greater elements, keeps it sorted. */
  lemma ShiftedSorted(prev: seq<int>, i: int, j: int)
    requires 0 <= i < |prev| && -1 <= j < i
    requires Sorted(prev[..i])
    requires forall k :: j + 1 <= k < i ==> prev[i] < prev[k]
    requires j < 0 || prev[j] <= prev[i]
    ensures Sorted(prev[..i][..j + 1] + [prev[i]] + prev[..i][j + 1..])
  {
    var s := prev[..i];
    assert forall k :: j + 1 <= k < |s| ==> prev[i] < s[k];
    InsertKeepsSorted(s, j + 1, prev[i]);
  }

  /** The shift and store rearrange the first `size` cells. */
  lemma ShiftedPermutes(prev: seq<int>, shifted: seq<int>, i: int, j: int, size: int)
    requires 0 <= i < size <= |prev| == |shifted| && -1 <= j < i
    requires forall k :: 0 <= k < |shifted| && i < k ==> shifted[k] == prev[k]
    requires shifted[j + 1 := prev[i]][..i + 1] == prev[..i][..j + 1] + [prev[i]] + prev[..i][j + 1..]
    ensures multiset(shifted[j + 1 := prev[i]][..size]) == multiset(prev[..size])
  {
    var t := shifted[j + 1 := prev[i]];
    InsertionPermutes(prev[..i], j + 1, prev[i]);
    assert prev[..i + 1] == prev[..i] + [prev[i]];
    SameTail(prev, t, i + 1, size);
  }

  /** The first i+1 cells after the shift and the store of prev[i] at j+1 are prev[..i] with prev[i] inserted at j+1. */
  lemma ShiftedPrefix(prev: seq<int>, shifted: seq<int>, i: int, j: int)
    requires 0 <= i < |prev| == |shifted| && -1 <= j < i
    requires forall k :: 0 <= k <= j ==> shifted[k] == prev[k]
    requires forall k :: j + 2 <= k <= i ==> shifted[k] == prev[k - 1]
    ensures shifted[j + 1 := prev[i]][..i + 1] == prev[..i][..j + 1] + [prev[i]] + prev[..i][j + 1..]
  {
    var t := shifted[j + 1 := prev[i]];
    var u := prev[..i][..j + 1] + [prev[i]] + prev[..i][j + 1..];
    forall k | 0 <= k <= i
      ensures t[k] == u[k]
    {
      if k <= j {
        assert u[k] == prev[k];
      } else if j + 1 < k {
        assert u[k] == prev[..i][j + 1..][k - j - 2] == prev[k - 1];
      }
    }
  }

  /** Two sequences that agree from cell p on have equal multisets up to size when their first p cells do. */
  lemma SameTail(prev: seq<int>, t: seq<int>, p: int, size: int)
    requires 0 <= p <= size <= |prev| == |t|
    requires forall k :: p <= k < size ==> t[k] == prev[k]
    requires multiset(t[..p]) == multiset(prev[..p])
    ensures multiset(t[..size]) == multiset(prev[..size])
  {
    assert t[..size] == t[..p] + t[p..size];
    assert prev[..size] == prev[..p] + prev[p..size];
    assert t[p..size] == prev[p..size];
  }

  lemma InsertionPermutes(s: seq<int>, p: int, x: int)
    requires 0 <= p <= |s|
    ensures multiset(s[..p] + [x] + s[p..]) == multiset(s + [x])
  {
    assert s == s[..p] + s[p..];
  }

  /**
   * selectionSort: for each i, find the first minimum of a[i..size] and
   * swap it into cell i when it is not already there.
   */
  method SelectionSort(a: array<int>, size: int)
    requires size <= a.Length
    modifies a
    ensures 0 <= size ==> Sorted(a[..size]) && multiset(a[..size]) == multiset(old(a[..size]))
    ensures forall k :: 0 <= k < a.Length && size <= k ==> a[k] == old(a[k])
  {
    var i := 0;
    while i < size - 1
      invariant 0 <= i <= if size < 1 then 0 else size - 1
      invariant 0 <= size ==> Sorted(a[..i]) && multiset(a[..size]) == multiset(old(a[..size]))
      invariant 0 <= size ==> SmallestFirst(a[..size], i)
      invariant forall k :: 0 <= k < a.Length && size <= k ==> a[k] == old(a[k])
    {
      SelectOne(a, i, size);
      i := i + 1;
    }
    if 0 <= size {
      assert a[..size][..i] == a[..i];
      SortedWhenOneRemains(a[..size], i);
    }
  }

  /** A sorted, smallest-first prefix that leaves at most one cell over sorts the whole sequence. */
  lemma SortedWhenOneRemains(s: seq<int>, i: int)
    requires 0 <= i <= |s| <= i + 1
    requires Sorted(s[..i]) && SmallestFirst(s, i)
    ensures Sorted(s)
  {
    forall p, q | 0 <= p < q < |s|
      ensures s[p] <= s[q]
    {
      if q < i {
        assert s[p] == s[..i][p] && s[q] == s[..i][q];
      }
    }
  }

  /** One pass of selectionSort's outer loop: move the first minimum of a[i..size) into cell i. */
  method SelectOne(a: array<int>, i: int, size: int)
    requires 0 <= i < size <= a.Length
    requires Sorted(a[..i]) && SmallestFirst(a[..size], i)
    modifies a
    ensures Sorted(a[..i + 1]) && SmallestFirst(a[..size], i + 1)
    ensures multiset(a[..size]) == multiset(old(a[..size]))
    ensures forall k :: 0 <= k < a.Length && size <= k ==> a[k] == old(a[k])
  {
    var minIndex := MinIndex(a, i, size);
    ghost var before := a[..];
    if minIndex != i {
      a[i], a[minIndex] := a[minIndex], a[i];
    }
    ghost var after := a[..];
    assert after == before[i := before[minIndex]][minIndex := before[i]];
    SelectedSwap(before, after, i, minIndex, size);
    assert after[..size] == a[..size] && after[..i + 1] == a[..i + 1];
  }

  /** Every element of s[..i] is at most every element of s[i..]. */
  ghost predicate SmallestFirst(s: seq<int>, i: int)
  {
    forall p, q :: 0 <= p < i <= q < |s| ==> s[p] <= s[q]
  }

  /**
   * One pass of selectionSort's outer loop: swapping the minimum of s[i..]
   * into cell i extends the sorted, smallest-first prefix by one cell.
   */
  lemma SelectedSwap(s: seq<int>, t: seq<int>, i: int, m: int, size: int)
    requires 0 <= i <= m < size <= |s|
    requires Sorted(s[..i]) && SmallestFirst(s[..size], i)
    requires forall k :: i <= k < size ==> s[m] <= s[k]
    requires t == s[i := s[m]][m := s[i]]
    ensures Sorted(t[..i + 1]) && SmallestFirst(t[..size], i + 1)
    ensures multiset(t[..size]) == multiset(s[..size])
  {
    var s', t' := s[..size], t[..size];
    assert t' == s'[i := s'[m]][m := s'[i]];
    forall p, q | 0 <= p < i + 1 <= q < size
      ensures t'[p] <= t'[q]
    {
      if p < i {
        assert t'[p] == s'[p];
        assert t'[q] == s'[q] || t'[q] == s'[i];
      } else {
        assert t'[q] == s'[q] || t'[q] == s'[i];
      }
    }
    var u := t[..i + 1];
    forall p, q | 0 <= p < q < |u|
      ensures u[p] <= u[q]
    {
      assert u[p] == s[p] == s[..i][p];
    }
  }

  /** selectionSort's inner loop: the first position of a minimum of a[i..size). */
  method MinIndex(a: array<int>, i: int, size: int) returns (minIndex: int)
    requires 0 <= i < size <= a.Length
    ensures i <= minIndex < size
    ensures forall k :: i <= k < size ==> a[minIndex] <= a[k]
    ensures forall k :: i <= k < minIndex ==> a[minIndex] < a[k]
  {
    minIndex := i;
    var j := i + 1;
    while j < size
      invariant i < j <= size && i <= minIndex < j
      invariant forall k :: i <= k < j ==> a[minIndex] <= a[k]
      invariant forall k :: i <= k < minIndex ==> a[minIndex] < a[k]
    {
      if a[j] < a[minIndex] {
        minIndex := j;
      }
      j := j + 1;
    }
  }

  /**
   * Two sorted runs merged: repeatedly take the smaller head, the left one
   * on a tie.
   */
  ghost function Merged(xs: seq<int>, ys: seq<int>): seq<int>
    decreases |xs| + |ys|
  {
    if xs == [] then ys
    else if ys == [] then xs
    else if xs[0] <= ys[0] then [xs[0]] + Merged(xs[1..], ys)
    else [ys[0]] + Merged(xs, ys[1..])
  }

  /** Merging rearranges its two inputs and loses nothing. */
  lemma {:induction false} MergedPermutes(xs: seq<int>, ys: seq<int>)
    ensures multiset(Merged(xs, ys)) == multiset(xs) + multiset(ys)
    decreases |xs| + |ys|
  {
    if xs == [] || ys == [] {
    } else if xs[0] <= ys[0] {
      MergedPermutes(xs[1..], ys);
      ConsPermutes(xs[0], xs[1..], Merged(xs[1..], ys), multiset(ys));
      assert [xs[0]] + xs[1..] == xs;
    } else {
      MergedPermutes(xs, ys[1..]);
      ConsPermutes(ys[0], ys[1..], Merged(xs, ys[1..]), multiset(xs));
      assert [ys[0]] + ys[1..] == ys;
    }
  }

  /** One step of a merge: taking the head of one run in front of the merged rest keeps the multiset. */
  lemma ConsPermutes(x: int, tail: seq<int>, rest: seq<int>, other: multiset<int>)
    requires multiset(rest) == multiset(tail) + other
    ensures multiset([x] + rest) == multiset([x] + tail) + other
  {
  }

  /** Every element of a merge is bounded below by a common bound of both inputs. */
  lemma MergedBoundedBelow(xs: seq<int>, ys: seq<int>, b: int)
    requires forall k :: 0 <= k < |xs| ==> b <= xs[k]
    requires forall k :: 0 <= k < |ys| ==> b <= ys[k]
    ensures forall k :: 0 <= k < |Merged(xs, ys)| ==> b <= Merged(xs, ys)[k]
  {
    var m := Merged(xs, ys);
    MergedPermutes(xs, ys);
    forall k | 0 <= k < |m|
      ensures b <= m[k]
    {
      assert m[k] in multiset(m);
      assert m[k] in xs || m[k] in ys;
    }
  }

  /** Merging two sorted runs gives a sorted run. */
  lemma {:induction false} MergedSorted(xs: seq<int>, ys: seq<int>)
    requires Sorted(xs) && Sorted(ys)
    ensures Sorted(Merged(xs, ys))
    decreases |xs| + |ys|
  {
    if xs == [] || ys == [] {
    } else if xs[0] <= ys[0] {
      MergedSorted(xs[1..], ys);
      MergedBoundedBelow(xs[1..], ys, xs[0]);
    } else {
      MergedSorted(xs, ys[1..]);
      MergedBoundedBelow(xs, ys[1..], ys[0]);
    }
  }

  /** A merge is as long as its two inputs together. */
  lemma MergedLength(xs: seq<int>, ys: seq<int>)
    ensures |Merged(xs, ys)| == |xs| + |ys|
  {
    MergedPermutes(xs, ys);
    assert |multiset(Merged(xs, ys))| == |multiset(xs) + multiset(ys)|;
  }

  /** One step of merging the suffixes xs[i..] and ys[j..] into merged[i + j..]: which head comes out next, and what remains. */
  lemma MergedStep(xs: seq<int>, ys: seq<int>, i: int, j: int, merged: seq<int>)
    requires 0 <= i <= |xs| && 0 <= j <= |ys| && (i < |xs| || j < |ys|)
    requires i + j <= |merged| && Merged(xs[i..], ys[j..]) == merged[i + j..]
    ensures i + j < |merged|
    ensures j == |ys| || (i < |xs| && xs[i] <= ys[j]) ==>
      merged[i + j] == xs[i] && Merged(xs[i + 1..], ys[j..]) == merged[i + j + 1..]
    ensures i == |xs| || (j < |ys| && ys[j] < xs[i]) ==>
      merged[i + j] == ys[j] && Merged(xs[i..], ys[j + 1..]) == merged[i + j + 1..]
  {
    assert merged[i + j..][1..] == merged[i + j + 1..];
    if i < |xs| {
      assert xs[i..][1..] == xs[i + 1..];
    }
    if j < |ys| {
      assert ys[j..][1..] == ys[j + 1..];
    }
  }

  /**
   * merge: copy a[left..middle] and a[middle+1..right] aside and merge them
   * back into a[left..right].
   */
  method Merge(a: array<int>, left: int, middle: int, right: int)
    requires 0 <= left <= middle + 1 <= right + 1 <= a.Length
    modifies a
    ensures a[left..right + 1] == Merged(old(a[left..middle + 1]), old(a[middle + 1..right + 1]))
    ensures forall k :: 0 <= k < a.Length && !(left <= k <= right) ==> a[k] == old(a[k])
  {
    // The two temporary subarrays, filled by copying loops in the source.
    var leftSub, rightSub := a[left..middle + 1], a[middle + 1..right + 1];
    var n1, n2 := |leftSub|, |rightSub|;
    ghost var merged := Merged(leftSub, rightSub);
    MergedLength(leftSub, rightSub);
    var i, j := MergeHeads(a, left, leftSub, rightSub, merged);
    CopyRest(a, left, leftSub, rightSub, i, j, merged);
    assert a[left..right + 1] == merged;
  }

  /**
   * merge's first loop: while both runs have elements, store the smaller
   * head (the left one on a tie) at a[left + i + j].
   */
  method MergeHeads(a: array<int>, left: int, leftSub: seq<int>, rightSub: seq<int>, ghost merged: seq<int>)
    returns (i: int, j: int)
    requires 0 <= left && left + |leftSub| + |rightSub| <= a.Length
    requires merged == Merged(leftSub, rightSub) && |merged| == |leftSub| + |rightSub|
    modifies a
    ensures 0 <= i <= |leftSub| && 0 <= j <= |rightSub| && (i == |leftSub| || j == |rightSub|)
    ensures Merged(leftSub[i..], rightSub[j..]) == merged[i + j..]
    ensures forall p :: left <= p < left + i + j ==> a[p] == merged[p - left]
    ensures forall p :: 0 <= p < a.Length && !(left <= p < left + i + j) ==> a[p] == old(a[p])
  {
    var n1, n2 := |leftSub|, |rightSub|;
    var k := left;
    i, j := 0, 0;
    while i < n1 && j < n2
      invariant 0 <= i <= n1 && 0 <= j <= n2 && k == left + i + j
      invariant Merged(leftSub[i..], rightSub[j..]) == merged[i + j..]
      invariant forall p :: left <= p < k ==> a[p] == merged[p - left]
      invariant forall p :: 0 <= p < a.Length && !(left <= p < k) ==> a[p] == old(a[p])
    {
      i, j := TakeHead(a, left, leftSub, rightSub, merged, i, j);
      k := k + 1;
    }
  }

  /** The body of merge's first loop: store the smaller head (the left one on a tie) and advance past it. */
  method TakeHead(a: array<int>, left: int, leftSub: seq<int>, rightSub: seq<int>, ghost merged: seq<int>, i: int, j: int)
    returns (i': int, j': int)
    requires 0 <= left && left + |leftSub| + |rightSub| <= a.Length && |merged| == |leftSub| + |rightSub|
    requires 0 <= i < |leftSub| && 0 <= j < |rightSub|
    requires Merged(leftSub[i..], rightSub[j..]) == merged[i + j..]
    modifies a
    ensures (i' == i + 1 && j' == j) || (i' == i && j' == j + 1)
    ensures Merged(leftSub[i'..], rightSub[j'..]) == merged[i' + j'..]
    ensures a[left + i + j] == merged[i + j]
    ensures forall p :: 0 <= p < a.Length && p != left + i + j ==> a[p] == old(a[p])
  {
    MergedStep(leftSub, rightSub, i, j, merged);
    if leftSub[i] <= rightSub[j] {
      a[left + i + j] := leftSub[i];
      i', j' := i + 1, j;
    } else {
      a[left + i + j] := rightSub[j];
      i', j' := i, j + 1;
    }
  }

  /** merge's last two loops: copy what is left of either run. */
  method CopyRest(a: array<int>, left: int, leftSub: seq<int>, rightSub: seq<int>, i0: int, j0: int, ghost merged: seq<int>)
    requires 0 <= left && left + |leftSub| + |rightSub| <= a.Length
    requires |merged| == |leftSub| + |rightSub|
    requires 0 <= i0 <= |leftSub| && 0 <= j0 <= |rightSub| && (i0 == |leftSub| || j0 == |rightSub|)
    requires Merged(leftSub[i0..], rightSub[j0..]) == merged[i0 + j0..]
    requires forall p :: left <= p < left + i0 + j0 ==> a[p] == merged[p - left]
    modifies a
    ensures forall p :: left <= p < left + |merged| ==> a[p] == merged[p - left]
    ensures forall p :: 0 <= p < a.Length && !(left <= p < left + |merged|) ==> a[p] == old(a[p])
  {
    var n1, n2 := |leftSub|, |rightSub|;
    var i, j, k := i0, j0, left + i0 + j0;
    while i < n1
      invariant i0 <= i <= n1 && j == j0 && k == left + i + j
      invariant Merged(leftSub[i..], rightSub[j..]) == merged[i + j..]
      invariant forall p :: left <= p < k ==> a[p] == merged[p - left]
      invariant forall p :: 0 <= p < a.Length && !(left + i0 + j0 <= p < k) ==> a[p] == old(a[p])
    {
      MergedStep(leftSub, rightSub, i, j, merged);
      a[k] := leftSub[i];
      i := i + 1;
      k := k + 1;
    }
    while j < n2
      invariant i == n1 && j0 <= j <= n2 && k == left + i + j
      invariant Merged(leftSub[i..], rightSub[j..]) == merged[i + j..]
      invariant forall p :: left <= p < k ==> a[p] == merged[p - left]
      invariant forall p :: 0 <= p < a.Length && !(left + i0 + j0 <= p < k) ==> a[p] == old(a[p])
    {
      MergedStep(leftSub, rightSub, i, j, merged);
      a[k] := rightSub[j];
      j := j + 1;
      k := k + 1;
    }
  }

  /** mergeSort: sort both halves of [left, right], then merge them; a range of at most one cell is left alone. */
  method MergeSort(a: array<int>, left: int, right: int)
    requires left < right ==> 0 <= left && right < a.Length
    modifies a
    ensures 0 <= left <= right + 1 <= a.Length ==>
      Sorted(a[left..right + 1]) && multiset(a[left..right + 1]) == multiset(old(a[left..right + 1]))
    ensures right <= left ==> unchanged(a)
    ensures forall k :: 0 <= k < a.Length && !(left <= k <= right) ==> a[k] == old(a[k])
    decreases right - left, 1
  {
    if left < right {
      var middle := left + (right - left) / 2;
      ghost var a0 := a[..];
      SortHalves(a, left, middle, right);
      ghost var a2 := a[..];
      Merge(a, left, middle, right);
      ghost var a3 := a[..];
      SortedHalvesMerged(a0, a2, a3, left, middle, right);
    }
  }

  /** mergeSort's two recursive calls: [left, middle] sorted, then [middle + 1, right]. */
  method SortHalves(a: array<int>, left: int, middle: int, right: int)
    requires 0 <= left <= middle < right < a.Length
    modifies a
    ensures Sorted(a[left..middle + 1]) && Sorted(a[middle + 1..right + 1])
    ensures multiset(a[left..right + 1]) == multiset(old(a[left..right + 1]))
    ensures forall k :: 0 <= k < a.Length && !(left <= k <= right) ==> a[k] == old(a[k])
    decreases right - left, 0
  {
    ghost var a0 := a[..];
    MergeSort(a, left, middle);
    ghost var a1 := a[..];
    MergeSort(a, middle + 1, right);
    ghost var a2 := a[..];
    HalvesSorted(a0, a1, a2, left, middle, right);
  }

  /** Sorting [left, middle] and then [middle + 1, right] leaves both halves sorted and the range rearranged. */
  lemma HalvesSorted(a0: seq<int>, a1: seq<int>, a2: seq<int>, left: int, middle: int, right: int)
    requires 0 <= left <= middle < right < |a0| == |a1| == |a2|
    requires Sorted(a1[left..middle + 1]) && multiset(a1[left..middle + 1]) == multiset(a0[left..middle + 1])
    requires forall k :: 0 <= k < |a1| && !(left <= k <= middle) ==> a1[k] == a0[k]
    requires Sorted(a2[middle + 1..right + 1]) && multiset(a2[middle + 1..right + 1]) == multiset(a1[middle + 1..right + 1])
    requires forall k :: 0 <= k < |a2| && !(middle + 1 <= k <= right) ==> a2[k] == a1[k]
    ensures Sorted(a2[left..middle + 1]) && Sorted(a2[middle + 1..right + 1])
    ensures multiset(a2[left..right + 1]) == multiset(a0[left..right + 1])
  {
    assert a2[left..middle + 1] == a1[left..middle + 1];
    assert a1[middle + 1..right + 1] == a0[middle + 1..right + 1];
    assert a2[left..right + 1] == a2[left..middle + 1] + a2[middle + 1..right + 1];
    assert a0[left..right + 1] == a0[left..middle + 1] + a0[middle + 1..right + 1];
  }

  /**
   * The merge step of mergesort: merging the two sorted halves sorts the
   * whole range and keeps its multiset.
   */
  lemma SortedHalvesMerged(a0: seq<int>, a2: seq<int>, a3: seq<int>, left: int, middle: int, right: int)
    requires 0 <= left <= middle < right < |a0| == |a2| == |a3|
    requires Sorted(a2[left..middle + 1]) && Sorted(a2[middle + 1..right + 1])
    requires multiset(a2[left..right + 1]) == multiset(a0[left..right + 1])
    requires a3[left..right + 1] == Merged(a2[left..middle + 1], a2[middle + 1..right + 1])
    ensures Sorted(a3[left..right + 1])
    ensures multiset(a3[left..right + 1]) == multiset(a0[left..right + 1])
  {
    SliceSplit(a2, left, middle + 1, right + 1);
    MergedRuns(a3[left..right + 1], a2[left..middle + 1], a2[middle + 1..right + 1], a2[left..right + 1]);
  }

  /** A merge of two sorted runs is sorted and holds the multiset of the concatenated runs. */
  lemma MergedRuns(m: seq<int>, xs: seq<int>, ys: seq<int>, whole: seq<int>)
    requires m == Merged(xs, ys) && whole == xs + ys && Sorted(xs) && Sorted(ys)
    ensures Sorted(m) && multiset(m) == multiset(whole)
  {
    MergedSorted(xs, ys);
    MergedPermutes(xs, ys);
  }

  lemma SliceSplit(s: seq<int>, lo: int, mid: int, hi: int)
    requires 0 <= lo <= mid <= hi <= |s|
    ensures s[lo..hi] == s[lo..mid] + s[mid..hi]
  {
  }

  /**
   * partition (Lomuto): with pivot a[high], move every element <= pivot in
   * [low, high) to the front of the range, then put the pivot just after
   * them and return its index.
   */
  method Partition(a: array<int>, low: int, high: int) returns (p: int)
    requires 0 <= low <= high < a.Length
    modifies a
    ensures low <= p <= high && a[p] == old(a[high])
    ensures forall k :: low <= k < p ==> a[k] <= a[p]
    ensures forall k :: p < k <= high ==> a[p] < a[k]
    ensures multiset(a[low..high + 1]) == multiset(old(a[low..high + 1]))
    ensures forall k :: 0 <= k < a.Length && !(low <= k <= high) ==> a[k] == old(a[k])
  {
    var pivot := a[high];
    var i := low - 1;
    var j := low;
    while j < high
      invariant low - 1 <= i < j <= high
      invariant a[high] == pivot
      invariant forall k :: low <= k <= i ==> a[k] <= pivot
      invariant forall k :: i < k < j ==> pivot < a[k]
      invariant multiset(a[low..high + 1]) == multiset(old(a[low..high + 1]))
      invariant forall k :: 0 <= k < a.Length && !(low <= k <= high) ==> a[k] == old(a[k])
    {
      if a[j] <= pivot {
        i := i + 1;
        SwapInRange(a, low, high, i, j);
      }
      j := j + 1;
    }
    SwapInRange(a, low, high, i + 1, high);
    p := i + 1;
  }

  /** Exchanges a[i] and a[j] inside [low, high], which keeps that range's multiset. */
  method SwapInRange(a: array<int>, low: int, high: int, i: int, j: int)
    requires 0 <= low <= i <= high < a.Length && low <= j <= high
    modifies a
    ensures a[i] == old(a[j]) && a[j] == old(a[i])
    ensures forall k :: 0 <= k < a.Length && k != i && k != j ==> a[k] == old(a[k])
    ensures multiset(a[low..high + 1]) == multiset(old(a[low..high + 1]))
  {
    ghost var s := a[..];
    a[i], a[j] := a[j], a[i];
    assert a[..] == s[i := s[j]][j := s[i]];
    SwapPermutes(s, low, high, i, j);
    assert a[low..high + 1] == a[..][low..high + 1];
  }

  /** Exchanging two cells inside [low, high] keeps that range's multiset. */
  lemma SwapPermutes(s: seq<int>, low: int, high: int, i: int, j: int)
    requires 0 <= low <= i <= high < |s| && low <= j <= high
    ensures multiset(s[i := s[j]][j := s[i]][low..high + 1]) == multiset(s[low..high + 1])
  {
    var r := s[low..high + 1];
    assert s[i := s[j]][j := s[i]][low..high + 1] == r[i - low := r[j - low]][j - low := r[i - low]];
  }

  /** Rearranging a sequence keeps every bound that holds for all its elements. */
  lemma PermutationKeepsBounds(s: seq<int>, t: seq<int>, b: int)
    requires multiset(s) == multiset(t)
    ensures (forall k :: 0 <= k < |t| ==> t[k] <= b) ==> forall k :: 0 <= k < |s| ==> s[k] <= b
    ensures (forall k :: 0 <= k < |t| ==> b < t[k]) ==> forall k :: 0 <= k < |s| ==> b < s[k]
  {
    forall k | 0 <= k < |s|
      ensures s[k] in t
    {
      assert s[k] in multiset(t);
    }
  }

  /**
   * quickSort: partition [low, high], then sort the cells before and after
   * the pivot; a range of at most one cell is left alone.
   */
  method QuickSort(a: array<int>, low: int, high: int)
    requires low < high ==> 0 <= low && high < a.Length
    modifies a
    ensures 0 <= low <= high + 1 <= a.Length ==>
      Sorted(a[low..high + 1]) && multiset(a[low..high + 1]) == multiset(old(a[low..high + 1]))
    ensures high <= low ==> unchanged(a)
    ensures forall k :: 0 <= k < a.Length && !(low <= k <= high) ==> a[k] == old(a[k])
    decreases high - low
  {
    if low < high {
      var pi := Partition(a, low, high);
      ghost var pivot := a[pi];
      ghost var a1 := a[..];
      QuickSort(a, low, pi - 1);
      ghost var a2 := a[..];
      QuickSort(a, pi + 1, high);
      SortedAroundPivot(a1, a2, a[..], low, pi, high);
      assert a[low..high + 1] == a[..][low..high + 1];
      assert old(a[low..high + 1]) == old(a[..])[low..high + 1];
    }
  }

  /**
   * The pivot step of quicksort: after sorting each side of a partitioned
   * range in turn, the whole range is sorted and still a permutation.
   */
  lemma SortedAroundPivot(a1: seq<int>, a2: seq<int>, a3: seq<int>, low: int, p: int, high: int)
    requires 0 <= low <= p <= high < |a1| == |a2| == |a3|
    requires forall k :: low <= k < p ==> a1[k] <= a1[p]
    requires forall k :: p < k <= high ==> a1[p] < a1[k]
    requires Sorted(a2[low..p]) && multiset(a2[low..p]) == multiset(a1[low..p])
    requires forall k :: 0 <= k < |a2| && !(low <= k <= p - 1) ==> a2[k] == a1[k]
    requires Sorted(a3[p + 1..high + 1]) && multiset(a3[p + 1..high + 1]) == multiset(a2[p + 1..high + 1])
    requires forall k :: 0 <= k < |a3| && !(p + 1 <= k <= high) ==> a3[k] == a2[k]
    ensures Sorted(a3[low..high + 1])
    ensures multiset(a3[low..high + 1]) == multiset(a1[low..high + 1])
  {
    var pivot := a1[p];
    var l1, r1 := a1[low..p], a1[p + 1..high + 1];
    var l3, r3 := a3[low..p], a3[p + 1..high + 1];
    assert l3 == a2[low..p];
    assert a2[p + 1..high + 1] == r1;
    PermutationKeepsBounds(l3, l1, pivot);
    PermutationKeepsBounds(r3, r1, pivot);
    assert a3[p] == pivot;
    var t := a3[low..high + 1];
    assert t == l3 + [pivot] + r3;
    forall i, j | 0 <= i < j < |t|
      ensures t[i] <= t[j]
    {
      if j < p - low {
        assert t[i] == l3[i] && t[j] == l3[j];
      } else if i > p - low {
        assert t[i] == r3[i - (p - low) - 1] && t[j] == r3[j - (p - low) - 1];
      } else if i < p - low {
        assert t[i] == l3[i];
      } else {
        assert t[j] == r3[j - (p - low) - 1];
      }
    }
    assert a1[low..high + 1] == l1 + [pivot] + r1;
  }
}
