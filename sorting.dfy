/** The three in-place quicksorts of fix_suggestion.cpp (quickSort_v1, medianOfThree,
    quickSort_v2, quickSort_v3), over an array of integers. A C++ `vector<T>&` is an
    `array<int>`, an iterator into it is an index, and `std::swap`/`std::iter_swap` of two
    elements is `Swap`. Ranges passed to v1 and v2 are inclusive `[low, high]`, as in the
    source; v3 works on the half-open `[first, last)`. The specification predicates below
    are all on half-open ranges `[lo, hi)` of a sequence. */
module Sorting {

  /** s[lo..hi) is in ascending order. */
  ghost predicate SortedRange(s: seq<int>, lo: int, hi: int)
    requires 0 <= lo <= hi <= |s|
  {
    forall p, q :: lo <= p < q < hi ==> s[p] <= s[q]
  }

  /** Every element of s[lo..mid) is at most every element of s[mid..hi). */
  ghost predicate Split(s: seq<int>, lo: int, mid: int, hi: int)
    requires 0 <= lo <= mid <= hi <= |s|
  {
    forall p, q :: lo <= p < mid <= q < hi ==> s[p] <= s[q]
  }

  /** t is s with the elements of [lo, hi) rearranged and nothing outside [lo, hi) touched. */
  ghost predicate PermutesRange(s: seq<int>, t: seq<int>, lo: int, hi: int)
  {
    && |s| == |t| && 0 <= lo <= hi <= |s|
    && multiset(s) == multiset(t)
    && forall k :: 0 <= k < |s| && !(lo <= k < hi) ==> s[k] == t[k]
  }

  /** s[i] is a pivot of [lo, hi): nothing before it in the range is larger, nothing after
      it is smaller. */
  ghost predicate PartitionedAt(s: seq<int>, lo: int, i: int, hi: int)
  {
    && 0 <= lo <= i < hi <= |s|
    && (forall k :: lo <= k < i ==> s[k] <= s[i])
    && (forall k :: i < k < hi ==> s[i] <= s[k])
  }

  /** Multiset union cancels. */
  lemma MultisetCancel(l: multiset<int>, x: multiset<int>, y: multiset<int>, r: multiset<int>)
    requires l + x + r == l + y + r
    ensures x == y
  {
    assert forall e :: x[e] == (l + x + r)[e] - l[e] - r[e] && y[e] == (l + y + r)[e] - l[e] - r[e];
  }

  /** A rearrangement of [lo, hi) keeps the multiset of that range. */
  lemma RangeMultiset(s: seq<int>, t: seq<int>, lo: int, hi: int)
    requires PermutesRange(s, t, lo, hi)
    ensures multiset(s[lo..hi]) == multiset(t[lo..hi])
  {
    assert s[..lo] == t[..lo];
    assert s[hi..] == t[hi..];
    assert s == s[..lo] + s[lo..hi] + s[hi..];
    assert t == t[..lo] + t[lo..hi] + t[hi..];
    MultisetCancel(multiset(s[..lo]), multiset(s[lo..hi]), multiset(t[lo..hi]), multiset(s[hi..]));
  }

  /** Bounds on the elements of a range survive any rearrangement of that range. */
  lemma BoundsPermuted(s: seq<int>, t: seq<int>, lo: int, hi: int, v: int)
    requires PermutesRange(s, t, lo, hi)
    ensures (forall k :: lo <= k < hi ==> s[k] <= v) ==> (forall k :: lo <= k < hi ==> t[k] <= v)
    ensures (forall k :: lo <= k < hi ==> v <= s[k]) ==> (forall k :: lo <= k < hi ==> v <= t[k])
  {
    RangeMultiset(s, t, lo, hi);
    forall k | lo <= k < hi ensures exists m :: lo <= m < hi && s[m] == t[k] {
      assert t[k] == t[lo..hi][k - lo];
      assert t[k] in multiset(s[lo..hi]);
      var m :| 0 <= m < hi - lo && s[lo..hi][m] == t[k];
      assert s[lo + m] == t[k];
    }
  }

  /** Rearranging a block that lies wholly on one side of a split keeps the split. */
  lemma SplitPermuted(s: seq<int>, t: seq<int>, lo: int, mid: int, hi: int, a: int, b: int)
    requires 0 <= lo <= mid <= hi <= |s|
    requires lo <= a <= b <= hi && (b <= mid || mid <= a)
    requires PermutesRange(s, t, a, b)
    requires Split(s, lo, mid, hi)
    ensures Split(t, lo, mid, hi)
  {
    if mid <= a {
      forall p | lo <= p < mid ensures forall q :: mid <= q < hi ==> t[p] <= t[q] {
        BoundsPermuted(s, t, a, b, s[p]);
      }
    } else {
      forall q | mid <= q < hi ensures forall p :: lo <= p < mid ==> t[p] <= t[q] {
        BoundsPermuted(s, t, a, b, s[q]);
      }
    }
  }

  /** The step shared by quickSort_v1 and quickSort_v3: once [lo, hi) is partitioned at i,
      sorting the part before i and then the part after i sorts the whole range. */
  lemma {:induction false} SortAroundPivot(s1: seq<int>, s2: seq<int>, s3: seq<int>, lo: int, i: int, hi: int)
    requires PartitionedAt(s1, lo, i, hi)
    requires PermutesRange(s1, s2, lo, i) && SortedRange(s2, lo, i)
    requires PermutesRange(s2, s3, i + 1, hi) && SortedRange(s3, i + 1, hi)
    ensures PermutesRange(s1, s3, lo, hi) && SortedRange(s3, lo, hi)
    ensures s3[i] == s1[i]
  {
    BoundsPermuted(s1, s2, lo, i, s1[i]);
    BoundsPermuted(s2, s3, i + 1, hi, s1[i]);
  }

  /** std::swap of two elements. */
  method Swap(a: array<int>, x: int, y: int)
    requires 0 <= x < a.Length && 0 <= y < a.Length
    modifies a
    ensures a[x] == old(a[y]) && a[y] == old(a[x])
    ensures forall k :: 0 <= k < a.Length && k != x && k != y ==> a[k] == old(a[k])
    ensures multiset(a[..]) == multiset(old(a[..]))
  {
    a[x], a[y] := a[y], a[x];
  }

  /** The partition loop that quickSort_v1, quickSort_v2 and quickSort_v3 all contain:
      the pivot is a[low]; the right index j walks down past elements >= pivot, then the
      left index i walks up past elements <= pivot, and out-of-place pairs are swapped.
      The loop ends with i == j on an element <= pivot, which is exchanged with a[low]. */
  method Partition(a: array<int>, low: int, high: int) returns (i: int)
    requires 0 <= low <= high < a.Length
    modifies a
    ensures low <= i <= high
    ensures PermutesRange(old(a[..]), a[..], low, high + 1)
    ensures PartitionedAt(a[..], low, i, high + 1)
    ensures a[i] == old(a[low])
  {
    i := low;
    var j := high;
    var pivot := a[low];
    while i < j
      invariant low <= i <= j <= high
      invariant a[low] == pivot
      invariant forall k :: low <= k <= i ==> a[k] <= pivot
      invariant forall k :: j < k <= high ==> pivot <= a[k]
      invariant PermutesRange(old(a[..]), a[..], low, high + 1)
      decreases j - i
    {
      ghost var i0, j0 := i, j;
      while i < j && a[j] >= pivot
        invariant i0 == i <= j <= j0
        invariant forall k :: j < k <= high ==> pivot <= a[k]
      {
        j := j - 1;
      }
      while i < j && a[i] <= pivot
        invariant i0 <= i <= j
        invariant forall k :: low <= k < i ==> a[k] <= pivot
        invariant i0 == j || a[j] < pivot
      {
        i := i + 1;
      }
      if i < j {
        Swap(a, i, j);
      }
    }
    assert i == j;  // the two indices meet on an element no larger than the pivot
    Swap(a, low, i);
  }

  /** quickSort_v1: sorts the inclusive range [low, high]; a range with low >= high is left
      alone, whatever its bounds. */
  method QuickSortV1(a: array<int>, low: int, high: int)
    requires low < high ==> 0 <= low && high < a.Length
    modifies a
    ensures 0 <= low <= high + 1 <= a.Length ==>
              SortedRange(a[..], low, high + 1) && PermutesRange(old(a[..]), a[..], low, high + 1)
    ensures low >= high ==> a[..] == old(a[..])
    decreases high - low
  {
    if low >= high {
      return;
    }
    var i := Partition(a, low, high);
    ghost var s1 := a[..];
    QuickSortV1(a, low, i - 1);
    ghost var s2 := a[..];
    QuickSortV1(a, i + 1, high);
    SortAroundPivot(s1, s2, a[..], low, i, high + 1);
  }

  /** The value rand_idx takes in quickSort_v2, for an arbitrary non-negative value r of
      rand(): always an index of the current range [low, high]. */
  function RandomIndex(low: int, high: int, r: nat): (idx: int)
    requires low <= high
    ensures low <= idx <= high
  {
    low + r % (high - low + 1)
  }

  /** The largest value of a C++ `int`. */
  const IntMax := 0x7fff_ffff

  /** `low + (high - low) / 2` in medianOfThree stays within `int` at every step for any
      valid range of `int` indices (where `(low + high) / 2` would overflow once low + high
      exceeds IntMax), and it lands in [low, high] no nearer to high than to low. */
  lemma MidpointInRange(low: int, high: int)
    requires 0 <= low <= high <= IntMax
    ensures 0 <= high - low <= IntMax && 0 <= (high - low) / 2 <= IntMax
    ensures low <= low + (high - low) / 2 <= high <= IntMax
    ensures var mid := low + (high - low) / 2; mid - low <= high - mid <= mid - low + 1
  {
  }

  /** medianOfThree: orders a[low], a[mid] and a[high] by three conditional swaps and
      returns the midpoint mid. */
  method MedianOfThree(a: array<int>, low: int, high: int) returns (mid: int)
    requires 0 <= low <= high < a.Length
    modifies a
    ensures low <= mid <= high && mid - low <= high - mid <= mid - low + 1
    ensures a[low] <= a[mid] <= a[high]
    ensures PermutesRange(old(a[..]), a[..], low, high + 1)
    ensures forall k :: 0 <= k < a.Length && k != low && k != mid && k != high ==> a[k] == old(a[k])
  {
    mid := low + (high - low) / 2;
    if a[mid] < a[low] {
      Swap(a, low, mid);
    }
    if a[high] < a[low] {
      Swap(a, low, high);
    }
    if a[high] < a[mid] {
      Swap(a, mid, high);
    }
  }

  /** The loop state of quickSort_v2 on [low, high]: the current range is [lo, hi]; what lies
      before it is sorted and at most everything after it, and what lies after it is sorted
      and at least everything before it. */
  ghost predicate SortProgress(s: seq<int>, low: int, high: int, lo: int, hi: int)
  {
    && 0 <= low <= lo <= hi + 1 <= high + 1 <= |s|
    && SortedRange(s, low, lo) && Split(s, low, lo, high + 1)
    && SortedRange(s, hi + 1, high + 1) && Split(s, low, hi + 1, high + 1)
  }

  /** A sorted range that a rearrangement elsewhere does not touch stays sorted. */
  lemma SortedUntouched(s: seq<int>, t: seq<int>, lo: int, hi: int, a: int, b: int)
    requires PermutesRange(s, t, a, b) && 0 <= lo <= hi <= |s|
    requires hi <= a || b <= lo
    requires SortedRange(s, lo, hi)
    ensures SortedRange(t, lo, hi)
  {
    forall p, q | lo <= p < q < hi ensures t[p] <= t[q] {
      assert t[p] == s[p] && t[q] == s[q];
    }
  }

  /** Rearranging part of the current range [lo, hi] keeps the loop state of quickSort_v2. */
  lemma ProgressPermuted(s: seq<int>, t: seq<int>, low: int, high: int, lo: int, hi: int, a: int, b: int)
    requires SortProgress(s, low, high, lo, hi)
    requires PermutesRange(s, t, a, b) && lo <= a <= b <= hi + 1
    ensures SortProgress(t, low, high, lo, hi)
  {
    SplitPermuted(s, t, low, lo, high + 1, a, b);
    SplitPermuted(s, t, low, hi + 1, high + 1, a, b);
    SortedUntouched(s, t, low, lo, a, b);
    SortedUntouched(s, t, hi + 1, high + 1, a, b);
  }

  /** Once [lo, i) is sorted below the pivot s[i], the loop of quickSort_v2 may move on
      to [i + 1, hi]. */
  lemma AdvanceLow(s: seq<int>, low: int, high: int, lo: int, hi: int, i: int)
    requires SortProgress(s, low, high, lo, hi) && lo <= i <= hi
    requires SortedRange(s, lo, i) && PartitionedAt(s, lo, i, hi + 1)
    ensures SortProgress(s, low, high, i + 1, hi)
  {
    assert SortedRange(s, low, i + 1) by {
      forall p, q | low <= p < q < i + 1 ensures s[p] <= s[q] {
        if lo <= p && q == i {
          assert s[p] <= s[i];
        }
      }
    }
    assert Split(s, low, i + 1, high + 1) by {
      forall p, q | low <= p < i + 1 <= q < high + 1 ensures s[p] <= s[q] {
        if lo <= p && q <= hi {
          assert s[p] <= s[i] <= s[q];
        }
      }
    }
  }

  /** Once [i + 1, hi] is sorted above the pivot s[i], the loop of quickSort_v2 may move on
      to [lo, i - 1]. */
  lemma AdvanceHigh(s: seq<int>, low: int, high: int, lo: int, hi: int, i: int)
    requires SortProgress(s, low, high, lo, hi) && lo <= i <= hi
    requires SortedRange(s, i + 1, hi + 1) && PartitionedAt(s, lo, i, hi + 1)
    ensures SortProgress(s, low, high, lo, i - 1)
  {
    assert SortedRange(s, i, high + 1) by {
      forall p, q | i <= p < q < high + 1 ensures s[p] <= s[q] {
        if p == i && q <= hi {
          assert s[i] <= s[q];
        }
      }
    }
    assert Split(s, low, i, high + 1) by {
      forall p, q | low <= p < i <= q < high + 1 ensures s[p] <= s[q] {
        if lo <= p && q <= hi {
          assert s[p] <= s[i] <= s[q];
        }
      }
    }
  }

  /** quickSort_v2 after partitioning [lo, hi] at i and recursing on [lo, i - 1]: the loop
      continues on [i + 1, hi]. */
  lemma ProgressLeft(sp: seq<int>, sr: seq<int>, low: int, high: int, lo: int, hi: int, i: int)
    requires SortProgress(sp, low, high, lo, hi) && lo <= i <= hi && PartitionedAt(sp, lo, i, hi + 1)
    requires PermutesRange(sp, sr, lo, i) && SortedRange(sr, lo, i)
    ensures SortProgress(sr, low, high, i + 1, hi)
  {
    ProgressPermuted(sp, sr, low, high, lo, hi, lo, i);
    BoundsPermuted(sp, sr, lo, i, sp[i]);
    AdvanceLow(sr, low, high, lo, hi, i);
  }

  /** quickSort_v2 after partitioning [lo, hi] at i and recursing on [i + 1, hi]: the loop
      continues on [lo, i - 1]. */
  lemma ProgressRight(sp: seq<int>, sr: seq<int>, low: int, high: int, lo: int, hi: int, i: int)
    requires SortProgress(sp, low, high, lo, hi) && lo <= i <= hi && PartitionedAt(sp, lo, i, hi + 1)
    requires PermutesRange(sp, sr, i + 1, hi + 1) && SortedRange(sr, i + 1, hi + 1)
    ensures SortProgress(sr, low, high, lo, i - 1)
  {
    ProgressPermuted(sp, sr, low, high, lo, hi, i + 1, hi + 1);
    BoundsPermuted(sp, sr, i + 1, hi + 1, sp[i]);
    AdvanceHigh(sr, low, high, lo, hi, i);
  }

  /** When the loop of quickSort_v2 stops, at most one element is left in the middle, and
      the whole range is sorted. */
  lemma ProgressDone(s: seq<int>, low: int, high: int, lo: int, hi: int)
    requires SortProgress(s, low, high, lo, hi) && lo >= hi
    ensures SortedRange(s, low, high + 1)
  {
  }

  /** The recursive call of quickSort_v2 is on the shorter side of the pivot, so it covers at
      most half of the current range [low, high]. */
  lemma RecursionOnShorterSide(low: int, i: int, high: int)
    requires low <= i <= high
    ensures i - low < high - i ==> 2 * (i - low) < high - low + 1
    ensures !(i - low < high - i) ==> high - i <= i - low && 2 * (high - i) <= high - low
  {
  }

  /** The pivot choice at the head of each iteration of quickSort_v2: a[low] is swapped with
      the element at rand_idx, the three elements a[low], a[mid], a[high] are ordered, and
      the median of the three is swapped into a[low]. r is the value rand() returned. */
  method ChoosePivot(a: array<int>, low: int, high: int, r: nat)
    requires 0 <= low <= high < a.Length
    modifies a
    ensures PermutesRange(old(a[..]), a[..], low, high + 1)
    ensures var mid := low + (high - low) / 2; a[mid] <= a[low] <= a[high]
    ensures var mid, ri := low + (high - low) / 2, RandomIndex(low, high, r);
            var s := old(a[..])[low := old(a[ri])][ri := old(a[low])];
            forall k :: 0 <= k < a.Length && k != low && k != mid && k != high ==> a[k] == s[k]
  {
    var randIdx := RandomIndex(low, high, r);
    Swap(a, low, randIdx);
    assert a[..] == old(a[..])[low := old(a[randIdx])][randIdx := old(a[low])];
    var median := MedianOfThree(a, low, high);
    Swap(a, low, median);
  }

  /** quickSort_v2: picks a random element, then the median of three, as the pivot; partitions
      as v1 does; recurses on the shorter side and loops on the longer one. */
  method QuickSortV2(a: array<int>, low: int, high: int)
    requires low < high ==> 0 <= low && high < a.Length
    modifies a
    ensures 0 <= low <= high + 1 <= a.Length ==>
              SortedRange(a[..], low, high + 1) && PermutesRange(old(a[..]), a[..], low, high + 1)
    ensures low >= high ==> a[..] == old(a[..])
    decreases high - low
  {
    var lo, hi := low, high;
    while lo < hi
      invariant low < high ==> SortProgress(a[..], low, high, lo, hi)
      invariant low < high ==> PermutesRange(old(a[..]), a[..], low, high + 1)
      invariant low >= high ==> lo == low && hi == high && a[..] == old(a[..])
      decreases hi - lo
    {
      ghost var s := a[..];
      var r: nat :| true;  // the value of rand()
      ChoosePivot(a, lo, hi, r);
      var i := Partition(a, lo, hi);
      ghost var sp := a[..];
      ProgressPermuted(s, sp, low, high, lo, hi, lo, hi + 1);
      RecursionOnShorterSide(lo, i, hi);
      if i - lo < hi - i {
        assert 2 * ((i - 1) - lo + 1) <= hi - lo + 1;
        QuickSortV2(a, lo, i - 1);
        ProgressLeft(sp, a[..], low, high, lo, hi, i);
        lo := i + 1;
      } else {
        assert 2 * (hi - (i + 1) + 1) <= hi - lo + 1;
        QuickSortV2(a, i + 1, hi);
        ProgressRight(sp, a[..], low, high, lo, hi, i);
        hi := i - 1;
      }
    }
    if low < high {
      ProgressDone(a[..], low, high, lo, hi);
    }
  }

  /** quickSort_v3: the v1 algorithm over the half-open iterator range [first, last). */
  method QuickSortV3(a: array<int>, first: int, last: int)
    requires first < last ==> 0 <= first && last <= a.Length
    modifies a
    ensures 0 <= first <= last <= a.Length ==>
              SortedRange(a[..], first, last) && PermutesRange(old(a[..]), a[..], first, last)
    ensures first >= last ==> a[..] == old(a[..])
    decreases last - first
  {
    if first >= last {
      return;
    }
    var i := Partition(a, first, last - 1);
    ghost var s1 := a[..];
    QuickSortV3(a, first, i);
    ghost var s2 := a[..];
    QuickSortV3(a, i + 1, last);
    SortAroundPivot(s1, s2, a[..], first, i, last);
  }
}
