/**
 * Sorting: the per-file quicksort and the merging of sorted arrays.
 *
 * Both files of the first lab hold the same swap, median-of-three pivot
 * choice, Lomuto partition, recursive quicksort and two-way merge; the
 * coroutine version additionally merges any number of sorted arrays pairwise,
 * round by round. The in-place steps work on `array<int>`; the merge rounds,
 * which build new arrays, are specified by functions over `seq<int>`.
 */
module Sorting {

  /** Ascending order. */
  predicate Sorted(s: seq<int>) {
    forall i, j :: 0 <= i < j < |s| ==> s[i] <= s[j]
  }

  /** Every element of `s` is strictly below `v`. */
  predicate AllBelow(s: seq<int>, v: int) {
    forall k :: 0 <= k < |s| ==> s[k] < v
  }

  /** Every element of `s` is at least `v`. */
  predicate AllAtLeast(s: seq<int>, v: int) {
    forall k :: 0 <= k < |s| ==> v <= s[k]
  }

  /** `m` lies between `p` and `q`, in either order. */
  predicate Between(p: int, m: int, q: int) {
    (p <= m <= q) || (q <= m <= p)
  }

  // ---------------------------------------------------------------------------
  // Median of three
  // ---------------------------------------------------------------------------

  /** The median of three values, written independently of the source's branch order. */
  function Median3(x: int, y: int, z: int): (m: int)
    ensures (m == x && Between(y, m, z)) || (m == y && Between(x, m, z)) || (m == z && Between(x, m, y))
  {
    if x <= y then (if y <= z then y else if x <= z then z else x)
    else (if x <= z then x else if y <= z then z else y)
  }

  /**
   * GetMedianPivotIndex: picks among s, (s + e) / 2 and e the index whose value
   * is the median of the three values found there.
   */
  function MedianPivotIndex(v: seq<int>, s: int, e: int): (m: int)
    requires 0 <= s <= e < |v|
    ensures m == s || m == (s + e) / 2 || m == e
    ensures v[m] == Median3(v[s], v[(s + e) / 2], v[e])
  {
    var mid := (s + e) / 2;
    if v[s] > v[mid] then
      if v[mid] > v[e] then mid
      else if v[s] > v[e] then e
      else s
    else
      if v[s] > v[e] then s
      else if v[mid] > v[e] then e
      else mid
  }

  // ---------------------------------------------------------------------------
  // Swap, partition, quicksort
  // ---------------------------------------------------------------------------

  /** Exchanges a[i] and a[j]; nothing else changes. */
  method Swap(a: array<int>, i: int, j: int)
    requires 0 <= i < a.Length && 0 <= j < a.Length
    modifies a
    ensures a[i] == old(a[j]) && a[j] == old(a[i])
    ensures forall k :: 0 <= k < a.Length && k != i && k != j ==> a[k] == old(a[k])
  {
    var t := a[i];
    a[i] := a[j];
    a[j] := t;
  }

  /** `after` is a rearrangement of `before` inside [s, e] and equal to it elsewhere. */
  predicate Permuted(before: seq<int>, after: seq<int>, s: int, e: int)
    requires 0 <= s <= e < |before|
  {
    SameOutside(before, after, s, e) && multiset(after[s..e + 1]) == multiset(before[s..e + 1])
  }

  /** Exchanging two positions inside [s, e] keeps a rearrangement a rearrangement. */
  lemma SwapPermutes(orig: seq<int>, before: seq<int>, after: seq<int>, i: int, j: int, s: int, e: int)
    requires 0 <= s <= i <= e < |orig| && s <= j <= e
    requires Permuted(orig, before, s, e)
    requires |after| == |before| && after[i] == before[j] && after[j] == before[i]
    requires forall k :: 0 <= k < |before| && k != i && k != j ==> after[k] == before[k]
    ensures Permuted(orig, after, s, e)
  {
    assert after == before[i := before[j]][j := before[i]];
    var r := before[s..e + 1];
    assert after[s..e + 1] == r[i - s := before[j]][j - s := before[i]];
  }

  /** A multiset-preserving rearrangement keeps an upper bound. */
  lemma BelowByMultiset(x: seq<int>, y: seq<int>, v: int)
    requires multiset(x) == multiset(y) && AllBelow(x, v)
    ensures AllBelow(y, v)
  {
    forall k | 0 <= k < |y| ensures y[k] < v {
      assert y[k] in multiset(y);
      assert y[k] in x;
      var m :| 0 <= m < |x| && x[m] == y[k];
    }
  }

  /** A multiset-preserving rearrangement keeps a lower bound. */
  lemma AtLeastByMultiset(x: seq<int>, y: seq<int>, v: int)
    requires multiset(x) == multiset(y) && AllAtLeast(x, v)
    ensures AllAtLeast(y, v)
  {
    forall k | 0 <= k < |y| ensures v <= y[k] {
      assert y[k] in multiset(y);
      assert y[k] in x;
      var m :| 0 <= m < |x| && x[m] == y[k];
    }
  }

  /**
   * QuickSortHelper: Lomuto partition of a[s..e] around the median-of-three
   * pivot. Returns the pivot's final index p; everything before it in the range
   * is smaller, everything after it is at least as large, the range is a
   * permutation of what it was, and the rest of the array is untouched.
   */
  method Partition(a: array<int>, s: int, e: int) returns (p: int)
    requires 0 <= s <= e < a.Length
    modifies a
    ensures s <= p <= e
    ensures a[p] == old(a[MedianPivotIndex(a[..], s, e)])
    ensures AllBelow(a[s..p], a[p]) && AllAtLeast(a[p + 1..e + 1], a[p])
    ensures Permuted(old(a[..]), a[..], s, e)
  {
    var pivotIndex := MedianPivotIndex(a[..], s, e);
    var pivotValue := a[pivotIndex];
    ghost var orig := a[..];
    Swap(a, pivotIndex, e);
    SwapPermutes(orig, orig, a[..], pivotIndex, e, s, e);
    var i := s - 1;
    var j := s;
    while j <= e - 1
      invariant s <= j <= e && s - 1 <= i < j
      invariant Partitioned(a[..], s, i, j, e, pivotValue)
      invariant Permuted(orig, a[..], s, e)
    {
      if a[j] < pivotValue {
        i := i + 1;
        ghost var before := a[..];
        Swap(a, i, j);
        SwapPermutes(orig, before, a[..], i, j, s, e);
        SmallerMovedDown(before, a[..], s, i, j, e, pivotValue);
      } else {
        LargerStays(a[..], s, i, j, e, pivotValue);
      }
      j := j + 1;
    }
    ghost var before := a[..];
    Swap(a, i + 1, e);
    SwapPermutes(orig, before, a[..], i + 1, e, s, e);
    p := i + 1;
    PivotPlaced(before, a[..], s, p, e, pivotValue);
  }

  /**
   * The loop invariant of the partition: the pivot waits at e, a[s..i] are
   * smaller than it and a[i+1..j-1] are at least as large.
   */
  predicate Partitioned(v: seq<int>, s: int, i: int, j: int, e: int, pivot: int)
    requires 0 <= s && s - 1 <= i < j <= e < |v|
  {
    v[e] == pivot &&
    (forall k :: s <= k <= i ==> v[k] < pivot) &&
    (forall k :: i < k < j ==> pivot <= v[k])
  }

  /** A larger a[j] extends the larger side where it stands. */
  lemma LargerStays(v: seq<int>, s: int, i: int, j: int, e: int, pivot: int)
    requires 0 <= s && s - 1 <= i < j < e < |v|
    requires Partitioned(v, s, i, j, e, pivot) && pivot <= v[j]
    ensures Partitioned(v, s, i, j + 1, e, pivot)
  {
  }

  /** Exchanging a smaller a[j] with the first larger element extends the smaller side. */
  lemma SmallerMovedDown(before: seq<int>, after: seq<int>, s: int, i: int, j: int, e: int, pivot: int)
    requires 0 <= s <= i <= j < e < |before| == |after|
    requires Partitioned(before, s, i - 1, j, e, pivot) && before[j] < pivot
    requires after[i] == before[j] && after[j] == before[i]
    requires forall k :: 0 <= k < |before| && k != i && k != j ==> after[k] == before[k]
    ensures Partitioned(after, s, i, j + 1, e, pivot)
  {
  }

  /** The last exchange of the partition puts the pivot between the two sides. */
  lemma PivotPlaced(before: seq<int>, after: seq<int>, s: int, p: int, e: int, pivot: int)
    requires 0 <= s <= p <= e < |before| == |after|
    requires Partitioned(before, s, p - 1, e, e, pivot)
    requires after[p] == before[e] && after[e] == before[p]
    requires forall k :: 0 <= k < |before| && k != p && k != e ==> after[k] == before[k]
    ensures after[p] == pivot
    ensures AllBelow(after[s..p], after[p]) && AllAtLeast(after[p + 1..e + 1], after[p])
  {
  }

  /** Glues the two sorted halves around the pivot into one sorted range. */
  lemma SortedAroundPivot(x: seq<int>, s: int, p: int, e: int)
    requires 0 <= s <= p <= e < |x|
    requires Sorted(x[s..p]) && Sorted(x[p + 1..e + 1])
    requires AllBelow(x[s..p], x[p]) && AllAtLeast(x[p + 1..e + 1], x[p])
    ensures Sorted(x[s..e + 1])
  {
    forall i, j | s <= i < j <= e ensures x[i] <= x[j] {
      if j < p {
        assert x[i] == x[s..p][i - s] && x[j] == x[s..p][j - s];
      } else if i > p {
        assert x[i] == x[p + 1..e + 1][i - p - 1] && x[j] == x[p + 1..e + 1][j - p - 1];
      } else {
        if i < p { assert x[i] == x[s..p][i - s]; }
        if j > p { assert x[j] == x[p + 1..e + 1][j - p - 1]; }
      }
    }
  }

  /** Splits the multiset of a range at the pivot. */
  lemma RangeMultisetSplit(x: seq<int>, s: int, p: int, e: int)
    requires 0 <= s <= p <= e < |x|
    ensures multiset(x[s..e + 1]) == multiset(x[s..p]) + multiset{x[p]} + multiset(x[p + 1..e + 1])
  {
    assert x[s..e + 1] == x[s..p] + [x[p]] + x[p + 1..e + 1];
  }

  /** What QuickSort promises about a[lo..hi], stated on the contents before and after. */
  predicate SortedSide(before: seq<int>, after: seq<int>, lo: int, hi: int)
    requires 0 <= lo <= hi + 1 <= |before| == |after|
  {
    Sorted(after[lo..hi + 1]) && multiset(after[lo..hi + 1]) == multiset(before[lo..hi + 1])
  }

  /** `after` agrees with `before` outside [lo, hi]. */
  predicate SameOutside(before: seq<int>, after: seq<int>, lo: int, hi: int) {
    |after| == |before| && forall k :: 0 <= k < |before| && !(lo <= k <= hi) ==> after[k] == before[k]
  }

  /** Sorting both sides of a partitioned range sorts the range and keeps its multiset. */
  lemma {:induction false} SortBothSides(a0: seq<int>, a1: seq<int>, a2: seq<int>, a3: seq<int>, s: int, p: int, e: int)
    requires 0 <= s <= p <= e < |a0|
    requires Permuted(a0, a1, s, e)
    requires AllBelow(a1[s..p], a1[p]) && AllAtLeast(a1[p + 1..e + 1], a1[p])
    requires SameOutside(a1, a2, s, p - 1) && (s < p - 1 ==> SortedSide(a1, a2, s, p - 1)) && (p - 1 <= s ==> a2 == a1)
    requires SameOutside(a2, a3, p + 1, e) && (p + 1 < e ==> SortedSide(a2, a3, p + 1, e)) && (e <= p + 1 ==> a3 == a2)
    ensures Sorted(a3[s..e + 1]) && Permuted(a0, a3, s, e)
  {
    assert a3[s..p] == a2[s..p];
    assert a2[p + 1..e + 1] == a1[p + 1..e + 1];
    assert a3[p] == a1[p];
    BelowByMultiset(a1[s..p], a3[s..p], a1[p]);
    AtLeastByMultiset(a1[p + 1..e + 1], a3[p + 1..e + 1], a1[p]);
    SortedAroundPivot(a3, s, p, e);
    RangeMultisetSplit(a1, s, p, e);
    RangeMultisetSplit(a3, s, p, e);
  }

  /**
   * QuickSort: sorts a[s..e] ascending in place as a permutation of its
   * contents; a no-op when e <= s; the rest of the array is untouched.
   */
  method QuickSort(a: array<int>, s: int, e: int)
    requires s < e ==> 0 <= s && e < a.Length
    modifies a
    ensures s < e ==> SortedSide(old(a[..]), a[..], s, e)
    ensures SameOutside(old(a[..]), a[..], s, e)
    ensures e <= s ==> a[..] == old(a[..])
    decreases e - s
  {
    if e <= s {
      return;
    }
    ghost var a0 := a[..];
    var p := Partition(a, s, e);
    ghost var a1 := a[..];
    QuickSort(a, s, p - 1);
    ghost var a2 := a[..];
    QuickSort(a, p + 1, e);
    SortBothSides(a0, a1, a2, a[..], s, p, e);
  }

  // ---------------------------------------------------------------------------
  // Two-way merge
  // ---------------------------------------------------------------------------

  /**
   * The merge the source performs: take from the first input while its head
   * is strictly smaller, otherwise from the second (so ties go to the second).
   */
  function MergeSeq(x: seq<int>, y: seq<int>): (r: seq<int>)
    ensures |r| == |x| + |y|
    decreases |x| + |y|
  {
    if x == [] then y
    else if y == [] then x
    else if x[0] < y[0] then [x[0]] + MergeSeq(x[1..], y)
    else [y[0]] + MergeSeq(x, y[1..])
  }

  /** The merge is a permutation of the concatenation of its inputs. */
  lemma {:induction false} MergePermutation(x: seq<int>, y: seq<int>)
    ensures multiset(MergeSeq(x, y)) == multiset(x) + multiset(y)
    decreases |x| + |y|
  {
    if x == [] || y == [] {
    } else if x[0] < y[0] {
      MergePermutation(x[1..], y);
      assert MergeSeq(x, y) == [x[0]] + MergeSeq(x[1..], y);
      assert x == [x[0]] + x[1..];
    } else {
      MergePermutation(x, y[1..]);
      assert MergeSeq(x, y) == [y[0]] + MergeSeq(x, y[1..]);
      assert y == [y[0]] + y[1..];
    }
  }

  /** Every element of a merge comes from one of the inputs, hence a common lower bound survives. */
  lemma MergeAtLeast(x: seq<int>, y: seq<int>, v: int)
    requires AllAtLeast(x, v) && AllAtLeast(y, v)
    ensures AllAtLeast(MergeSeq(x, y), v)
  {
    var m := MergeSeq(x, y);
    MergePermutation(x, y);
    forall k | 0 <= k < |m| ensures v <= m[k] {
      assert m[k] in multiset(m);
      if m[k] in x {
        var t :| 0 <= t < |x| && x[t] == m[k];
      } else {
        assert m[k] in y;
        var t :| 0 <= t < |y| && y[t] == m[k];
      }
    }
  }

  /** Merging two ascending sequences gives an ascending sequence. */
  lemma {:induction false} MergeSorted(x: seq<int>, y: seq<int>)
    requires Sorted(x) && Sorted(y)
    ensures Sorted(MergeSeq(x, y))
    decreases |x| + |y|
  {
    if x == [] || y == [] {
    } else if x[0] < y[0] {
      MergeSorted(x[1..], y);
      MergeAtLeast(x[1..], y, x[0]);
    } else {
      MergeSorted(x, y[1..]);
      MergeAtLeast(x, y[1..], y[0]);
    }
  }

  /** On equal heads the merge takes the second input's element first. */
  lemma MergeTieTakesSecond(x: seq<int>, y: seq<int>)
    requires x != [] && y != [] && x[0] == y[0]
    ensures MergeSeq(x, y) == [y[0]] + MergeSeq(x, y[1..])
  {
  }

  /** The part of the merge `goal` from position k on is the merge of x[i..] and y[j..]. */
  predicate MergeLeft(goal: seq<int>, k: int, x: seq<int>, i: int, y: seq<int>, j: int)
    requires 0 <= k <= |goal| && 0 <= i <= |x| && 0 <= j <= |y|
  {
    goal[k..] == MergeSeq(x[i..], y[j..])
  }

  /**
   * One step of the main merge loop: with both inputs non-empty, the next
   * element of the merge is the smaller head, the second input's on a tie.
   */
  lemma MergeTake(x: seq<int>, y: seq<int>, i: int, j: int, goal: seq<int>, k: int)
    requires 0 <= i < |x| && 0 <= j < |y| && 0 <= k < |goal|
    requires MergeLeft(goal, k, x, i, y, j)
    ensures x[i] < y[j] ==> goal[k] == x[i] && MergeLeft(goal, k + 1, x, i + 1, y, j)
    ensures !(x[i] < y[j]) ==> goal[k] == y[j] && MergeLeft(goal, k + 1, x, i, y, j + 1)
  {
    assert x[i..][1..] == x[i + 1..] && y[j..][1..] == y[j + 1..];
    assert goal[k + 1..] == goal[k..][1..];
  }

  /** Once one input is used up, the rest of the merge is the other input's rest. */
  lemma MergeRest(x: seq<int>, y: seq<int>, i: int, j: int, goal: seq<int>, k: int)
    requires 0 <= i <= |x| && 0 <= j <= |y| && (i == |x| || j == |y|) && 0 <= k <= |goal|
    requires MergeLeft(goal, k, x, i, y, j)
    ensures i == |x| ==> goal[k..] == y[j..]
    ensures i < |x| ==> goal[k..] == x[i..]
  {
    if i == |x| { assert x[i..] == []; } else { assert y[j..] == []; }
  }

  /**
   * The two tail loops of merge: copies src[from..size] to result[k..], one
   * element at a time. With `goal` the merge being written, whose first k
   * elements are already in place and whose remainder is src[from..size], the
   * whole of `goal` is in place afterwards; the rest of `result` is untouched.
   */
  method CopyRemaining(src: array<int>, from: int, size: int, result: array<int>, k: int, ghost goal: seq<int>)
    requires 0 <= from <= size <= src.Length && 0 <= k && |goal| == k + (size - from) <= result.Length
    requires result != src
    requires goal[k..] == src[from..size]
    requires forall t :: 0 <= t < k ==> result[t] == goal[t]
    modifies result
    ensures forall t :: 0 <= t < |goal| ==> result[t] == goal[t]
    ensures forall t :: |goal| <= t < result.Length ==> result[t] == old(result[t])
  {
    var i, w := from, k;
    while i < size
      invariant from <= i <= size && w == k + (i - from)
      invariant forall t :: 0 <= t < w ==> result[t] == goal[t]
      invariant forall t :: |goal| <= t < result.Length ==> result[t] == old(result[t])
    {
      assert goal[w] == goal[k..][w - k] == src[i];
      result[w] := src[i];
      w, i := w + 1, i + 1;
    }
  }

  /**
   * merge: writes exactly size1 + size2 elements into `result`, namely the
   * merge of the two input prefixes; the rest of `result` is untouched.
   */
  method Merge(arr1: array<int>, arr2: array<int>, size1: int, size2: int, result: array<int>)
    requires 0 <= size1 <= arr1.Length && 0 <= size2 <= arr2.Length
    requires size1 + size2 <= result.Length
    requires result != arr1 && result != arr2
    modifies result
    ensures result[..size1 + size2] == MergeSeq(arr1[..size1], arr2[..size2])
    ensures forall t :: size1 + size2 <= t < result.Length ==> result[t] == old(result[t])
  {
    ghost var x, y := arr1[..size1], arr2[..size2];
    ghost var goal := MergeSeq(x, y);
    var i, j, k := 0, 0, 0;
    while i < size1 && j < size2
      invariant 0 <= i <= size1 && 0 <= j <= size2 && k == i + j
      invariant forall t :: 0 <= t < k ==> result[t] == goal[t]
      invariant MergeLeft(goal, k, x, i, y, j)
      invariant forall t :: size1 + size2 <= t < result.Length ==> result[t] == old(result[t])
    {
      MergeTake(x, y, i, j, goal, k);
      assert arr1[i] == x[i] && arr2[j] == y[j];
      if arr1[i] < arr2[j] {
        result[k] := arr1[i];
        k, i := k + 1, i + 1;
      } else {
        result[k] := arr2[j];
        k, j := k + 1, j + 1;
      }
    }
    MergeRest(x, y, i, j, goal, k);
    if i < size1 {
      assert x[i..] == arr1[i..size1];
      CopyRemaining(arr1, i, size1, result, k, goal);
    } else {
      assert y[j..] == arr2[j..size2];
      CopyRemaining(arr2, j, size2, result, k, goal);
    }
    assert result[..size1 + size2] == goal;
  }

  // ---------------------------------------------------------------------------
  // Pairwise tree merge
  // ---------------------------------------------------------------------------

  /** One round: merge neighbours 0+1, 2+3, ...; an odd last array is carried over. */
  function MergeRound(lists: seq<seq<int>>): (r: seq<seq<int>>)
    ensures |r| == (|lists| + 1) / 2
    decreases |lists|
  {
    if |lists| < 2 then lists
    else [MergeSeq(lists[0], lists[1])] + MergeRound(lists[2..])
  }

  /** Rounds are repeated until a single array is left. */
  function MergeAll(lists: seq<seq<int>>): seq<int>
    requires |lists| >= 1
    decreases |lists|
  {
    if |lists| == 1 then lists[0] else MergeAll(MergeRound(lists))
  }

  /** Total number of elements. */
  function TotalLength(lists: seq<seq<int>>): nat {
    if lists == [] then 0 else |lists[0]| + TotalLength(lists[1..])
  }

  /** Union of all elements, with multiplicity. */
  function AllElements(lists: seq<seq<int>>): multiset<int> {
    if lists == [] then multiset{} else multiset(lists[0]) + AllElements(lists[1..])
  }

  /** Every array of the list is ascending. */
  predicate AllSorted(lists: seq<seq<int>>) {
    forall k :: 0 <= k < |lists| ==> Sorted(lists[k])
  }

  /** Where each entry of a round comes from. */
  lemma {:induction false} MergeRoundAt(lists: seq<seq<int>>, t: int)
    requires 0 <= t < (|lists| + 1) / 2
    ensures 2 * t + 1 < |lists| ==> MergeRound(lists)[t] == MergeSeq(lists[2 * t], lists[2 * t + 1])
    ensures 2 * t + 1 == |lists| ==> MergeRound(lists)[t] == lists[2 * t]
    decreases |lists|
  {
    if |lists| >= 2 && t > 0 {
      MergeRoundAt(lists[2..], t - 1);
    }
  }

  /** A round keeps every element. */
  lemma {:induction false} MergeRoundElements(lists: seq<seq<int>>)
    ensures AllElements(MergeRound(lists)) == AllElements(lists)
    ensures TotalLength(MergeRound(lists)) == TotalLength(lists)
    decreases |lists|
  {
    if |lists| >= 2 {
      MergeRoundElements(lists[2..]);
      MergePermutation(lists[0], lists[1]);
      assert lists[1..][1..] == lists[2..];
      var r := MergeRound(lists);
      assert r[1..] == MergeRound(lists[2..]);
    } else if |lists| == 1 {
      assert lists[1..] == [];
    }
  }

  /** A round of merges of ascending arrays yields ascending arrays. */
  lemma {:induction false} MergeRoundSorted(lists: seq<seq<int>>)
    requires AllSorted(lists)
    ensures AllSorted(MergeRound(lists))
  {
    var r := MergeRound(lists);
    forall t | 0 <= t < |r| ensures Sorted(r[t]) {
      MergeRoundAt(lists, t);
      if 2 * t + 1 < |lists| {
        MergeSorted(lists[2 * t], lists[2 * t + 1]);
      }
    }
  }

  /**
   * MergeSortedArrays: the final array holds every element of every input
   * (its length is the sum of the sizes) and is ascending when every input is.
   */
  lemma {:induction false} MergeAllCorrect(lists: seq<seq<int>>)
    requires |lists| >= 1
    ensures multiset(MergeAll(lists)) == AllElements(lists)
    ensures |MergeAll(lists)| == TotalLength(lists)
    ensures AllSorted(lists) ==> Sorted(MergeAll(lists))
    decreases |lists|
  {
    if |lists| == 1 {
      assert lists[1..] == [];
    } else {
      MergeRoundElements(lists);
      MergeAllCorrect(MergeRound(lists));
      if AllSorted(lists) {
        MergeRoundSorted(lists);
      }
    }
  }

  /** The contents of a list of arrays. */
  function Contents(arrays: seq<array<int>>): (r: seq<seq<int>>)
    reads arrays
    ensures |r| == |arrays|
    ensures forall k :: 0 <= k < |arrays| ==> r[k] == arrays[k][..]
  {
    seq(|arrays|, k requires 0 <= k < |arrays| reads arrays => arrays[k][..])
  }

  /** One iteration of that loop: a new array holding the merge of two whole arrays. */
  method MergePair(a1: array<int>, a2: array<int>) returns (merged: array<int>)
    ensures fresh(merged) && merged[..] == MergeSeq(a1[..], a2[..])
  {
    merged := new int[a1.Length + a2.Length];
    Merge(a1, a2, a1.Length, a2.Length, merged);
    assert merged[..] == merged[..a1.Length + a2.Length];
    assert a1[..a1.Length] == a1[..] && a2[..a2.Length] == a2[..];
  }

  /**
   * The loop of MergeSortedArrays: merges neighbours 2t and 2t + 1 into a new
   * array each and carries an odd last array over. The inputs are not modified.
   */
  method MergeRoundArrays(arrays: seq<array<int>>) returns (next: seq<array<int>>)
    ensures Contents(next) == MergeRound(Contents(arrays))
  {
    ghost var lists := Contents(arrays);
    ghost var expected := MergeRound(lists);
    next := [];
    var i := 0;
    while i < |arrays| - 1
      invariant 0 <= i <= |arrays| && i == 2 * |next|
      invariant forall t :: 0 <= t < |next| ==> next[t][..] == expected[t]
    {
      MergeRoundAt(lists, |next|);
      var merged := MergePair(arrays[i], arrays[i + 1]);
      next := next + [merged];
      i := i + 2;
    }
    if |arrays| % 2 == 1 {
      MergeRoundAt(lists, |arrays| / 2);
      next := next + [arrays[|arrays| - 1]];
    }
    ContentsAre(next, expected);
  }

  /** Contents is determined elementwise. */
  lemma ContentsAre(arrays: seq<array<int>>, lists: seq<seq<int>>)
    requires |arrays| == |lists| && forall t :: 0 <= t < |arrays| ==> arrays[t][..] == lists[t]
    ensures Contents(arrays) == lists
  {
  }

  /**
   * MergeSortedArrays, with its recursive call's result returned: rounds are
   * repeated until one array is left, which is the result.
   */
  method MergeSortedArrays(arrays: seq<array<int>>) returns (r: array<int>)
    requires |arrays| >= 1
    ensures r[..] == MergeAll(Contents(arrays))
    decreases |arrays|
  {
    if |arrays| == 1 {
      return arrays[0];
    }
    var next := MergeRoundArrays(arrays);
    r := MergeSortedArrays(next);
  }
}
