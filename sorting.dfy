/**
 * The in-place sorts of the sorting analysis: selection sort, merge sort on an
 * index range (with its `merge` step) and heap sort (with its `heapify` step).
 * The vectors hold doubles; every algorithm only compares and moves elements,
 * so they are modelled as arrays of `int` (no NaN).
 */
module SortingAnalysis {

  /** The tests' `isSorted`: no adjacent pair with the left element greater. */
  predicate IsSorted(s: seq<int>)
  {
    forall i :: 0 <= i < |s| - 1 ==> s[i] <= s[i + 1]
  }

  /** Every earlier element is at most every later one. */
  ghost predicate SortedPairs(s: seq<int>)
  {
    forall i, j :: 0 <= i < j < |s| ==> s[i] <= s[j]
  }

  /** The adjacent and the pairwise formulation of sortedness agree. */
  lemma {:induction false} IsSortedIffSortedPairs(s: seq<int>)
    ensures IsSorted(s) <==> SortedPairs(s)
  {
    if IsSorted(s) && |s| > 1 {
      IsSortedIffSortedPairs(s[1..]);
      assert SortedPairs(s[1..]);
      forall i, j | 0 <= i < j < |s| ensures s[i] <= s[j] {
        if i > 0 {
          assert s[i] == s[1..][i - 1] && s[j] == s[1..][j - 1];
        } else if j > 1 {
          assert s[1] == s[1..][0] && s[j] == s[1..][j - 1];
        }
      }
    }
  }

  /** `std::swap(data[i], data[j])`. */
  method Swap(a: array<int>, i: nat, j: nat)
    requires i < a.Length && j < a.Length
    modifies a
    ensures a[..] == old(a[..])[i := old(a[j])][j := old(a[i])]
    ensures a[i] == old(a[j]) && a[j] == old(a[i])
    ensures forall k :: 0 <= k < a.Length && k != i && k != j ==> a[k] == old(a[k])
    ensures multiset(a[..]) == old(multiset(a[..]))
  {
    a[i], a[j] := a[j], a[i];
  }

  // ---------------------------------------------------------------------------
  // Selection sort
  // ---------------------------------------------------------------------------

  /**
   * `selectionSort`: for each position but the last, swap the smallest element
   * of the rest into it. After pass `i` the prefix `a[..i+1]` holds the `i + 1`
   * smallest elements in order.
   */
  method SelectionSort(a: array<int>)
    modifies a
    ensures IsSorted(a[..])
    ensures multiset(a[..]) == old(multiset(a[..]))
  {
    var n := a.Length;
    if n == 0 {
      return;
    }
    var i := 0;
    while i < n - 1
      invariant 0 <= i <= n - 1
      invariant forall p, q :: 0 <= p < q < n && p < i ==> a[p] <= a[q]
      invariant multiset(a[..]) == old(multiset(a[..]))
    {
      var minIndex := i;
      var j := i + 1;
      while j < n
        invariant i < j <= n && i <= minIndex < n
        invariant forall k :: i <= k < j ==> a[minIndex] <= a[k]
      {
        if a[j] < a[minIndex] {
          minIndex := j;
        }
        j := j + 1;
      }
      Swap(a, i, minIndex);
      i := i + 1;
    }
    assert SortedPairs(a[..]);
    IsSortedIffSortedPairs(a[..]);
  }

  // ---------------------------------------------------------------------------
  // Merge sort
  // ---------------------------------------------------------------------------

  /** The merge of two runs: repeatedly take the smaller head, the left one on ties. */
  function MergeSeq(x: seq<int>, y: seq<int>): (m: seq<int>)
    ensures |m| == |x| + |y|
    decreases |x| + |y|
  {
    if x == [] then y
    else if y == [] then x
    else if x[0] <= y[0] then [x[0]] + MergeSeq(x[1..], y)
    else [y[0]] + MergeSeq(x, y[1..])
  }

  /** Putting the same value in front of both sides of a multiset equation. */
  lemma ConsMultiset(h: int, m: seq<int>, xs: seq<int>, ys: seq<int>)
    requires multiset(m) == multiset(xs) + multiset(ys)
    ensures multiset([h] + m) == multiset([h] + xs) + multiset(ys)
    ensures multiset([h] + m) == multiset(xs) + multiset([h] + ys)
  {
  }

  /** Merging rearranges: it keeps every element of both runs, with its multiplicity. */
  lemma {:induction false} MergeSeqPermutes(x: seq<int>, y: seq<int>)
    ensures multiset(MergeSeq(x, y)) == multiset(x) + multiset(y)
    decreases |x| + |y|
  {
    if x != [] && y != [] {
      if x[0] <= y[0] {
        MergeSeqPermutes(x[1..], y);
        ConsMultiset(x[0], MergeSeq(x[1..], y), x[1..], y);
        assert [x[0]] + x[1..] == x;
      } else {
        MergeSeqPermutes(x, y[1..]);
        ConsMultiset(y[0], MergeSeq(x, y[1..]), x, y[1..]);
        assert [y[0]] + y[1..] == y;
      }
    }
  }

  /** Merging two sorted runs gives a sorted run, which starts with the smaller head. */
  lemma {:induction false} MergeSeqSorted(x: seq<int>, y: seq<int>)
    requires IsSorted(x) && IsSorted(y)
    ensures IsSorted(MergeSeq(x, y))
    ensures x != [] && y != [] ==> MergeSeq(x, y)[0] == if x[0] <= y[0] then x[0] else y[0]
    decreases |x| + |y|
  {
    if x != [] && y != [] {
      if x[0] <= y[0] {
        MergeSeqSorted(x[1..], y);
        var m := MergeSeq(x[1..], y);
        assert m[0] == y[0] || (|x| > 1 && m[0] == x[1]);
      } else {
        MergeSeqSorted(x, y[1..]);
        var m := MergeSeq(x, y[1..]);
        assert m[0] == x[0] || (|y| > 1 && m[0] == y[1]);
      }
    }
  }

  /**
   * The state of the first loop of `merge` once `i` elements of the run `x`
   * and `j` of the run `y` are placed: what is still to be written.
   */
  function MergeFrom(x: seq<int>, y: seq<int>, i: nat, j: nat): (m: seq<int>)
    requires i <= |x| && j <= |y|
    ensures |m| == |x| - i + |y| - j
    decreases |x| - i + |y| - j
  {
    if i == |x| then y[j..]
    else if j == |y| then x[i..]
    else if x[i] <= y[j] then [x[i]] + MergeFrom(x, y, i + 1, j)
    else [y[j]] + MergeFrom(x, y, i, j + 1)
  }

  /** What is left to write is the merge of what is left of the two runs. */
  lemma {:induction false} MergeFromIsMergeSeq(x: seq<int>, y: seq<int>, i: nat, j: nat)
    requires i <= |x| && j <= |y|
    ensures MergeFrom(x, y, i, j) == MergeSeq(x[i..], y[j..])
    decreases |x| - i + |y| - j
  {
    if i < |x| && j < |y| {
      if x[i] <= y[j] {
        MergeFromIsMergeSeq(x, y, i + 1, j);
        assert x[i..][1..] == x[i + 1..];
      } else {
        MergeFromIsMergeSeq(x, y, i, j + 1);
        assert y[j..][1..] == y[j + 1..];
      }
    }
  }

  /** One step of the first loop of `merge` that takes the left head. */
  lemma MergeStepLeft(x: seq<int>, y: seq<int>, i: nat, j: nat, merged: seq<int>)
    requires i < |x| && j < |y| && x[i] <= y[j]
    requires i + j <= |merged| && MergeFrom(x, y, i, j) == merged[i + j..]
    ensures i + j < |merged| && merged[i + j] == x[i]
    ensures MergeFrom(x, y, i + 1, j) == merged[i + 1 + j..]
  {
    assert merged[i + j..][1..] == merged[i + 1 + j..];
  }

  /** One step of the first loop of `merge` that takes the right head. */
  lemma MergeStepRight(x: seq<int>, y: seq<int>, i: nat, j: nat, merged: seq<int>)
    requires i < |x| && j < |y| && y[j] < x[i]
    requires i + j <= |merged| && MergeFrom(x, y, i, j) == merged[i + j..]
    ensures i + j < |merged| && merged[i + j] == y[j]
    ensures MergeFrom(x, y, i, j + 1) == merged[i + (j + 1)..]
  {
    assert merged[i + j..][1..] == merged[i + (j + 1)..];
  }

  /** Once a run is used up, the rest of the merge is the rest of the left run, then of the right. */
  lemma MergeExhausted(x: seq<int>, y: seq<int>, i: nat, j: nat, merged: seq<int>)
    requires i <= |x| && j <= |y| && (i == |x| || j == |y|)
    requires i + j <= |merged| && MergeFrom(x, y, i, j) == merged[i + j..]
    ensures |merged| == |x| + |y|
    ensures forall p :: i + j <= p < |x| + j ==> merged[p] == x[p - j]
    ensures forall p :: |x| + j <= p < |merged| ==> merged[p] == y[p - |x|]
  {
    forall p | i + j <= p < |merged|
      ensures p < |x| + j ==> merged[p] == x[p - j]
      ensures |x| + j <= p ==> merged[p] == y[p - |x|]
    {
      assert merged[p] == merged[i + j..][p - (i + j)];
    }
  }

  /**
   * The first loop of `merge`: while both runs have elements, write the
   * smaller head (the left one on ties) at `k`. Afterwards one run is used up,
   * `a[left..k]` is the merge so far, and nothing else has changed.
   */
  method MergeRuns(a: array<int>, L: seq<int>, R: seq<int>, left: nat) returns (i: nat, j: nat, k: nat)
    requires left + |L| + |R| <= a.Length
    modifies a
    ensures i <= |L| && j <= |R| && (i == |L| || j == |R|) && k == left + i + j
    ensures MergeFrom(L, R, i, j) == MergeFrom(L, R, 0, 0)[i + j..]
    ensures forall q :: left <= q < k ==> a[q] == MergeFrom(L, R, 0, 0)[q - left]
    ensures forall q :: 0 <= q < a.Length && !(left <= q < k) ==> a[q] == old(a[q])
  {
    ghost var merged := MergeFrom(L, R, 0, 0);
    i, j, k := 0, 0, left;
    while i < |L| && j < |R|
      invariant 0 <= i <= |L| && 0 <= j <= |R| && k == left + i + j
      invariant MergeFrom(L, R, i, j) == merged[i + j..]
      invariant forall q :: left <= q < k ==> a[q] == merged[q - left]
      invariant forall q :: 0 <= q < a.Length && !(left <= q < k) ==> a[q] == old(a[q])
    {
      if L[i] <= R[j] {
        MergeStepLeft(L, R, i, j, merged);
        a[k] := L[i];
        i := i + 1;
      } else {
        MergeStepRight(L, R, i, j, merged);
        a[k] := R[j];
        j := j + 1;
      }
      k := k + 1;
    }
  }

  /**
   * The second and third loops of `merge`: copy what is left of a run, from
   * index `from` on, to `a[k..]`; nothing else changes.
   */
  method CopyRun(a: array<int>, run: seq<int>, from: nat, k: nat) returns (next: nat)
    requires from <= |run| && k + (|run| - from) <= a.Length
    modifies a
    ensures next == k + (|run| - from)
    ensures forall q :: k <= q < next ==> a[q] == run[from + (q - k)]
    ensures forall q :: 0 <= q < a.Length && !(k <= q < next) ==> a[q] == old(a[q])
  {
    var i := from;
    next := k;
    while i < |run|
      invariant from <= i <= |run| && next == k + (i - from)
      invariant forall q :: k <= q < next ==> a[q] == run[from + (q - k)]
      invariant forall q :: 0 <= q < a.Length && !(k <= q < next) ==> a[q] == old(a[q])
    {
      a[next] := run[i];
      i := i + 1;
      next := next + 1;
    }
  }

  /** Both runs of `merge` lie inside the vector. */
  predicate InBounds(length: nat, left: nat, mid: nat, right: nat)
  {
    left < length && mid < length && right < length
  }

  /**
   * `merge(data, left, mid, right)`: a no-op unless all three indices are in
   * range; otherwise `a[left..right]` becomes the merge of the runs
   * `a[left..mid]` and `a[mid+1..right]` and nothing else changes. The lengths
   * `mid - left + 1` and `right - mid` are unsigned in the source, so once the
   * indices pass the range check they must not be out of order.
   */
  method Merge(a: array<int>, left: nat, mid: nat, right: nat)
    requires InBounds(a.Length, left, mid, right) ==> left <= mid + 1 && mid <= right
    modifies a
    ensures !InBounds(a.Length, left, mid, right) ==> a[..] == old(a[..])
    ensures InBounds(a.Length, left, mid, right) ==>
              forall q :: left <= q <= right ==>
                a[q] == MergeSeq(old(a[left..mid + 1]), old(a[mid + 1..right + 1]))[q - left]
    ensures forall q :: 0 <= q < a.Length && !(left <= q <= right) ==> a[q] == old(a[q])
  {
    if left >= a.Length || mid >= a.Length || right >= a.Length {
      return;
    }
    var L := a[left..mid + 1];
    var R := a[mid + 1..right + 1];
    ghost var merged := MergeFrom(L, R, 0, 0);
    MergeFromIsMergeSeq(L, R, 0, 0);
    assert L[0..] == L && R[0..] == R;
    var i, j, k := MergeRuns(a, L, R, left);
    MergeExhausted(L, R, i, j, merged);
    var k1 := k;
    label AfterRuns:
    k := CopyRun(a, L, i, k);
    label AfterLeftRest:
    var k2 := k;
    k := CopyRun(a, R, j, k);
    forall q | left <= q <= right ensures a[q] == merged[q - left] {
      if q < k1 {
        assert old@AfterLeftRest(a[q]) == old@AfterRuns(a[q]);
      } else if q < k2 {
        assert old@AfterLeftRest(a[q]) == L[i + (q - k1)];
      }
    }
  }

  /** Two sequences that agree outside `[lo, hi]` and hold the same multiset inside it are permutations. */
  lemma SpliceMultiset(s: seq<int>, t: seq<int>, lo: nat, hi: nat)
    requires lo <= hi < |s| == |t|
    requires forall p :: 0 <= p < |s| && !(lo <= p <= hi) ==> s[p] == t[p]
    requires multiset(s[lo..hi + 1]) == multiset(t[lo..hi + 1])
    ensures multiset(s) == multiset(t)
  {
    assert s == s[..lo] + s[lo..hi + 1] + s[hi + 1..];
    assert t == t[..lo] + t[lo..hi + 1] + t[hi + 1..];
    assert s[..lo] == t[..lo];
    assert s[hi + 1..] == t[hi + 1..];
  }

  /** A slice given pointwise by the merge of two runs is that merge. */
  lemma SliceIsMerge(s: seq<int>, lo: nat, hi: nat, x: seq<int>, y: seq<int>)
    requires lo <= hi <= |s| && hi - lo == |x| + |y|
    requires forall q :: lo <= q < hi ==> s[q] == MergeSeq(x, y)[q - lo]
    ensures s[lo..hi] == MergeSeq(x, y)
  {
  }

  /**
   * The proof step of `mergeSort`: two sorted halves, each produced without
   * touching the other, merged back in place, give a sorted permutation.
   * `s1`, `s2`, `s3` are the vector after the first recursive call, after the
   * second, and after `merge`.
   */
  lemma MergeSortCombine(s1: seq<int>, s2: seq<int>, s3: seq<int>, left: nat, mid: nat, right: nat)
    requires left <= mid < right < |s1| == |s2| == |s3|
    requires IsSorted(s1[left..mid + 1])
    requires forall p :: 0 <= p < |s1| && !(mid + 1 <= p <= right) ==> s2[p] == s1[p]
    requires IsSorted(s2[mid + 1..right + 1])
    requires forall q :: left <= q <= right ==>
               s3[q] == MergeSeq(s2[left..mid + 1], s2[mid + 1..right + 1])[q - left]
    requires forall p :: 0 <= p < |s2| && !(left <= p <= right) ==> s3[p] == s2[p]
    ensures IsSorted(s3[left..right + 1])
    ensures multiset(s3) == multiset(s2)
  {
    var run1, run2 := s2[left..mid + 1], s2[mid + 1..right + 1];
    assert run1 == s1[left..mid + 1];
    MergeSeqSorted(run1, run2);
    SliceIsMerge(s3, left, right + 1, run1, run2);
    MergeSeqPermutes(run1, run2);
    MergedRunsPermute(s2, s3, left, mid, right, MergeSeq(run1, run2));
  }

  /** Overwriting two adjacent runs with a rearrangement of both rearranges the vector. */
  lemma MergedRunsPermute(s2: seq<int>, s3: seq<int>, left: nat, mid: nat, right: nat, m: seq<int>)
    requires left <= mid < right < |s2| == |s3|
    requires s3[left..right + 1] == m
    requires multiset(m) == multiset(s2[left..mid + 1]) + multiset(s2[mid + 1..right + 1])
    requires forall p :: 0 <= p < |s2| && !(left <= p <= right) ==> s3[p] == s2[p]
    ensures multiset(s3) == multiset(s2)
  {
    assert s2[left..right + 1] == s2[left..mid + 1] + s2[mid + 1..right + 1];
    SpliceMultiset(s3, s2, left, right);
  }

  /**
   * `mergeSort(arr, left, right)`: sorts `arr[left..right]` in place when
   * `right` is in range; always only permutes, and never touches an element
   * outside `[left, right]`. Empty vectors and `left >= right` are no-ops.
   */
  method MergeSort(a: array<int>, left: nat, right: nat)
    modifies a
    ensures multiset(a[..]) == old(multiset(a[..]))
    ensures forall p :: 0 <= p < a.Length && !(left <= p <= right) ==> a[p] == old(a[p])
    ensures left <= right < a.Length ==> IsSorted(a[left..right + 1])
    ensures a.Length == 0 || left >= right ==> a[..] == old(a[..])
    decreases right - left
  {
    if a.Length == 0 || left >= right {
      return;
    }
    var mid := left + (right - left) / 2;
    MergeSort(a, left, mid);
    ghost var s1 := a[..];
    MergeSort(a, mid + 1, right);
    ghost var s2 := a[..];
    Merge(a, left, mid, right);
    if right < a.Length {
      MergeSortCombine(s1, s2, a[..], left, mid, right);
    }
  }

  /** Sorting the whole vector as the sort driver calls it, `mergeSort(d, 0, d.size() - 1)`. */
  method MergeSortAll(a: array<int>)
    modifies a
    ensures IsSorted(a[..])
    ensures multiset(a[..]) == old(multiset(a[..]))
  {
    if a.Length == 0 {
      return;
    }
    MergeSort(a, 0, a.Length - 1);
    assert a[..] == a[0..a.Length - 1 + 1];
  }

  // ---------------------------------------------------------------------------
  // Heap sort
  // ---------------------------------------------------------------------------

  /** Node `j` of the heap `s[..n]` is at least each of its children that lies below `n`. */
  ghost predicate HeapAt(s: seq<int>, n: nat, j: nat)
    requires n <= |s|
  {
    && (2 * j + 1 < n ==> s[j] >= s[2 * j + 1])
    && (2 * j + 2 < n ==> s[j] >= s[2 * j + 2])
  }

  /** Every node of `s[lo..n]` is at least its children: a max-heap from `lo` on. */
  ghost predicate HeapFrom(s: seq<int>, n: nat, lo: nat)
    requires n <= |s|
  {
    forall j :: lo <= j < n ==> HeapAt(s, n, j)
  }

  /** `s[lo..n]` is a max-heap except, possibly, at node `i`. */
  ghost predicate HeapExcept(s: seq<int>, n: nat, lo: nat, i: nat)
    requires n <= |s|
  {
    forall j :: lo <= j < n && j != i ==> HeapAt(s, n, j)
  }

  /** The parent of `i`, when it belongs to the heap from `lo`, is at least `i`'s children. */
  ghost predicate ParentAboveChildren(s: seq<int>, n: nat, lo: nat, i: nat)
    requires n <= |s|
  {
    0 < i < n && lo <= (i - 1) / 2 ==>
      && (2 * i + 1 < n ==> s[(i - 1) / 2] >= s[2 * i + 1])
      && (2 * i + 2 < n ==> s[(i - 1) / 2] >= s[2 * i + 2])
  }

  /** In a max-heap every node is at most the root. */
  lemma {:induction false} HeapRootIsMax(s: seq<int>, n: nat, p: nat)
    requires n <= |s| && p < n
    requires HeapFrom(s, n, 0)
    ensures s[p] <= s[0]
    decreases p
  {
    if p > 0 {
      var parent := (p - 1) / 2;
      HeapRootIsMax(s, n, parent);
      assert HeapAt(s, n, parent);
    }
  }

  /**
   * One level of `heapify`: swapping node `i` with its larger child `largest`
   * (larger than `i`) fixes node `i`, and leaves the heap broken at most at
   * `largest`, whose new parent is at least its children.
   */
  lemma {:induction false} SiftDownStep(s: seq<int>, n: nat, lo: nat, i: nat, largest: nat)
    requires n <= |s| && lo <= i < n
    requires largest == 2 * i + 1 || largest == 2 * i + 2
    requires largest < n && s[largest] > s[i]
    requires 2 * i + 1 < n ==> s[largest] >= s[2 * i + 1]
    requires 2 * i + 2 < n ==> s[largest] >= s[2 * i + 2]
    requires HeapExcept(s, n, lo, i) && ParentAboveChildren(s, n, lo, i)
    ensures HeapExcept(s[i := s[largest]][largest := s[i]], n, lo, largest)
    ensures ParentAboveChildren(s[i := s[largest]][largest := s[i]], n, lo, largest)
  {
    var t := s[i := s[largest]][largest := s[i]];
    assert (largest - 1) / 2 == i;
    assert HeapAt(s, n, largest);
    forall j | lo <= j < n && j != largest ensures HeapAt(t, n, j) {
      if j != i {
        assert HeapAt(s, n, j);
        if 2 * j + 1 == i || 2 * j + 2 == i {
          assert j == (i - 1) / 2;
        }
      }
    }
  }

  /** Swapping two positions below `n` leaves the multiset of `s[..n]` as it was. */
  lemma SwapKeepsPrefixMultiset(s: seq<int>, n: nat, i: nat, j: nat)
    requires i < n && j < n && n <= |s|
    ensures multiset(s[i := s[j]][j := s[i]][..n]) == multiset(s[..n])
  {
    assert s[i := s[j]][j := s[i]][..n] == s[..n][i := s[j]][j := s[i]];
  }

  /**
   * `heapify(data, n, i)`: sift the value at `i` down until it is at least its
   * children. `lo` (ghost) is where the heap being repaired starts: every node
   * of `[lo, n)` but `i` is already in order, and `i`'s parent, if it lies in
   * `[lo, n)`, is at least `i`'s children. Afterwards `[lo, n)` is a max-heap,
   * `a[..n]` is a permutation of what it was, and nothing below `i` or from
   * `n` on has moved.
   */
  method Heapify(a: array<int>, n: nat, i: nat, ghost lo: nat)
    requires n <= a.Length && lo <= i
    requires HeapExcept(a[..], n, lo, i) && ParentAboveChildren(a[..], n, lo, i)
    modifies a
    ensures HeapFrom(a[..], n, lo)
    ensures multiset(a[..n]) == old(multiset(a[..n]))
    ensures forall j :: 0 <= j < a.Length && (j < i || n <= j) ==> a[j] == old(a[j])
    decreases n - i
  {
    var largest := i;
    var left := 2 * i + 1;
    var right := 2 * i + 2;
    if left < n && a[left] > a[largest] {
      largest := left;
    }
    if right < n && a[right] > a[largest] {
      largest := right;
    }
    if largest != i {
      ghost var before := a[..];
      SiftDownStep(before, n, lo, i, largest);
      SwapKeepsPrefixMultiset(before, n, i, largest);
      Swap(a, i, largest);
      ghost var swapped := a[..];
      Heapify(a, n, largest, lo);
      assert multiset(a[..n]) == multiset(swapped[..n]) == multiset(before[..n]);
    } else {
      assert HeapAt(a[..], n, i);
    }
  }

  /** If every element of `s` is at most `x`, so is every element of a permutation of it. */
  lemma PermutationBounded(s: seq<int>, t: seq<int>, x: int)
    requires multiset(s) == multiset(t)
    requires forall p :: 0 <= p < |s| ==> s[p] <= x
    ensures forall p :: 0 <= p < |t| ==> t[p] <= x
  {
    forall p | 0 <= p < |t| ensures t[p] <= x {
      assert t[p] in multiset(t);
      assert t[p] in multiset(s);
      var q :| 0 <= q < |s| && s[q] == t[p];
    }
  }

  /** The first loop of `heapSort`: heapify every parent, from the last one up to the root. */
  method BuildHeap(a: array<int>)
    modifies a
    ensures HeapFrom(a[..], a.Length, 0)
    ensures multiset(a[..]) == old(multiset(a[..]))
  {
    var n := a.Length;
    var i := n / 2;
    while i > 0
      invariant 0 <= i <= n / 2
      invariant HeapFrom(a[..], n, i)
      invariant multiset(a[..]) == old(multiset(a[..]))
    {
      assert a[..n] == a[..];
      Heapify(a, n, i - 1, i - 1);
      assert a[..n] == a[..];
      i := i - 1;
    }
  }

  /**
   * `heapSort`: build a max-heap, then repeatedly swap the root behind the
   * shrinking heap and repair it. Vectors of length 0 or 1 are returned as they
   * are.
   */
  method HeapSort(a: array<int>)
    modifies a
    ensures IsSorted(a[..])
    ensures multiset(a[..]) == old(multiset(a[..]))
  {
    var n := a.Length;
    if n <= 1 {
      return;
    }
    BuildHeap(a);
    var i := n - 1;
    while i > 0
      invariant 0 <= i < n
      invariant HeapFrom(a[..], i + 1, 0)
      invariant forall p, q :: 0 <= p < q < n && i < q ==> a[p] <= a[q]
      invariant multiset(a[..]) == old(multiset(a[..]))
    {
      ExtractMax(a, i);
      i := i - 1;
    }
    assert SortedPairs(a[..]);
    IsSortedIffSortedPairs(a[..]);
  }

  /**
   * The body of the second loop of `heapSort`: swap the root to position `i`
   * and repair the heap `a[..i]`. The root is the largest of `a[..i+1]`, so
   * `a[i..]` stays sorted and at least everything before it.
   */
  method ExtractMax(a: array<int>, i: nat)
    requires 0 < i < a.Length
    requires HeapFrom(a[..], i + 1, 0)
    requires forall p, q :: 0 <= p < q < a.Length && i < q ==> a[p] <= a[q]
    modifies a
    ensures HeapFrom(a[..], i, 0)
    ensures forall p, q :: 0 <= p < q < a.Length && i <= q ==> a[p] <= a[q]
    ensures multiset(a[..]) == old(multiset(a[..]))
  {
    ghost var heap := a[..];
    RootSwapPrepares(heap, i);
    Swap(a, 0, i);
    ghost var swapped := a[..];
    Heapify(a, i, 0, 0);
    SpliceMultiset(a[..], swapped, 0, i - 1);
    SortedTailKept(swapped, a[..], i);
  }

  /** `s` with the elements at `i` and `j` exchanged. */
  function Exchanged(s: seq<int>, i: nat, j: nat): seq<int>
    requires i < |s| && j < |s|
  {
    s[i := s[j]][j := s[i]]
  }

  /**
   * Swapping the root of the heap `s[..i+1]` with its last node `i` leaves
   * `s[..i]` a heap except at the root, and extends the sorted tail to `i`.
   */
  lemma RootSwapPrepares(s: seq<int>, i: nat)
    requires 0 < i < |s|
    requires HeapFrom(s, i + 1, 0)
    requires forall p, q :: 0 <= p < q < |s| && i < q ==> s[p] <= s[q]
    ensures HeapExcept(Exchanged(s, 0, i), i, 0, 0)
    ensures forall p, q :: 0 <= p < q < |s| && i <= q ==> Exchanged(s, 0, i)[p] <= Exchanged(s, 0, i)[q]
  {
    var t := Exchanged(s, 0, i);
    forall p | 0 <= p <= i ensures s[p] <= s[0] {
      HeapRootIsMax(s, i + 1, p);
    }
    forall j | 0 < j < i ensures HeapAt(t, i, j) {
      assert HeapAt(s, i + 1, j);
    }
  }

  /**
   * Repairing the heap `s[..i]` only rearranges it, so every element of the
   * sorted tail `s[i..]` stays at least everything before it.
   */
  lemma SortedTailKept(s: seq<int>, t: seq<int>, i: nat)
    requires i < |s| == |t|
    requires forall p, q :: 0 <= p < q < |s| && i <= q ==> s[p] <= s[q]
    requires multiset(t[..i]) == multiset(s[..i])
    requires forall p :: i <= p < |s| ==> t[p] == s[p]
    ensures forall p, q :: 0 <= p < q < |t| && i <= q ==> t[p] <= t[q]
  {
    forall q | i <= q < |t| ensures forall p :: 0 <= p < i ==> t[p] <= t[q] {
      assert forall p :: 0 <= p < |s[..i]| ==> s[..i][p] <= s[q];
      PermutationBounded(s[..i], t[..i], t[q]);
    }
  }
}
