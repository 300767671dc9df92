// Model of problem_2/problem_2_DemoCode.c: k-th largest element by QuickSelect
// with a descending Lomuto partition, plus the descending bubble sort that the
// demonstration uses to check the answer.

module Selection {

  /** Every element is at least as large as every element after it. */
  ghost predicate NonIncreasing(s: seq<int>) {
    forall i, j :: 0 <= i < j < |s| ==> s[i] >= s[j]
  }

  /** Inserts x into a non-increasing sequence, before the first smaller-or-equal element. */
  function Insert(x: int, s: seq<int>): seq<int> {
    if s == [] then [x]
    else if x >= s[0] then [x] + s
    else [s[0]] + Insert(x, s[1..])
  }

  /** Reference definition: s arranged in non-increasing order (insertion sort). */
  function SortDesc(s: seq<int>): seq<int> {
    if s == [] then [] else Insert(s[0], SortDesc(s[1..]))
  }

  /** The k-th largest value of s, counting duplicates (k = 1 is the maximum). */
  function KthLargestOf(s: seq<int>, k: int): int
    requires 1 <= k <= |s|
  {
    SortDescLength(s);
    SortDesc(s)[k - 1]
  }

  lemma SortDescLength(s: seq<int>)
    ensures |SortDesc(s)| == |s|
  {
    if s != [] {
      SortDescLength(s[1..]);
      InsertLength(s[0], SortDesc(s[1..]));
    }
  }

  lemma InsertLength(x: int, s: seq<int>)
    ensures |Insert(x, s)| == |s| + 1
  {
    if s != [] && x < s[0] {
      InsertLength(x, s[1..]);
    }
  }

  /** A head no smaller than any element of a non-increasing tail keeps the order. */
  lemma ConsNonIncreasing(h: int, t: seq<int>)
    requires NonIncreasing(t)
    requires forall e :: e in t ==> h >= e
    ensures NonIncreasing([h] + t)
  {
    var r := [h] + t;
    forall i, j | 0 <= i < j < |r| ensures r[i] >= r[j] {
      assert r[j] == t[j - 1];
      if i > 0 {
        assert r[i] == t[i - 1];
      } else {
        assert t[j - 1] in t;
      }
    }
  }

  lemma {:induction false} InsertFacts(x: int, s: seq<int>)
    requires NonIncreasing(s)
    ensures NonIncreasing(Insert(x, s))
    ensures multiset(Insert(x, s)) == multiset(s) + multiset{x}
    ensures |Insert(x, s)| == |s| + 1
  {
    if s == [] {
    } else if x >= s[0] {
      forall e | e in s ensures x >= e {
        var m :| 0 <= m < |s| && s[m] == e;
      }
      ConsNonIncreasing(x, s);
    } else {
      var tail := s[1..];
      assert s == [s[0]] + tail;
      assert NonIncreasing(tail);
      InsertFacts(x, tail);
      var t := Insert(x, tail);
      forall e | e in t ensures s[0] >= e {
        assert e in multiset(t);
        if e != x {
          assert e in multiset(tail);
          var m :| 0 <= m < |tail| && tail[m] == e;
          assert s[m + 1] == e;
        }
      }
      ConsNonIncreasing(s[0], t);
    }
  }

  /** SortDesc yields a non-increasing permutation of its input. */
  lemma {:induction false} SortDescFacts(s: seq<int>)
    ensures NonIncreasing(SortDesc(s))
    ensures multiset(SortDesc(s)) == multiset(s)
    ensures |SortDesc(s)| == |s|
  {
    if s != [] {
      SortDescFacts(s[1..]);
      InsertFacts(s[0], SortDesc(s[1..]));
      assert s == [s[0]] + s[1..];
    }
  }

  /** The head of a non-empty non-increasing sequence is its maximum. */
  lemma HeadIsMax(s: seq<int>, e: int)
    requires NonIncreasing(s) && s != [] && e in multiset(s)
    ensures s[0] >= e
  {
    var m :| 0 <= m < |s| && s[m] == e;
  }

  /** Two non-increasing sequences with the same elements are equal. */
  lemma {:induction false} NonIncreasingUnique(a: seq<int>, b: seq<int>)
    requires NonIncreasing(a) && NonIncreasing(b)
    requires multiset(a) == multiset(b)
    ensures a == b
  {
    if a == [] {
      assert |b| == |multiset(b)| == 0;
    } else {
      assert |b| == |multiset(b)| == |multiset(a)| == |a|;
      assert a[0] in multiset(b);
      assert b[0] in multiset(a);
      HeadIsMax(b, a[0]);
      HeadIsMax(a, b[0]);
      assert a[0] == b[0];
      assert a == [a[0]] + a[1..];
      assert b == [b[0]] + b[1..];
      assert multiset(a[1..]) == multiset(a) - multiset{a[0]};
      assert multiset(b[1..]) == multiset(b) - multiset{b[0]};
      NonIncreasingUnique(a[1..], b[1..]);
    }
  }

  /** Any non-increasing arrangement of s is SortDesc(s). */
  lemma SortedIsSortDesc(s: seq<int>, t: seq<int>)
    requires NonIncreasing(t) && multiset(t) == multiset(s)
    ensures t == SortDesc(s)
  {
    SortDescFacts(s);
    NonIncreasingUnique(t, SortDesc(s));
  }

  /** Concatenating two non-increasing sequences, the first dominating the second, keeps the order. */
  lemma AppendNonIncreasing(x: seq<int>, y: seq<int>)
    requires NonIncreasing(x) && NonIncreasing(y)
    requires forall i, j :: 0 <= i < |x| && 0 <= j < |y| ==> x[i] >= y[j]
    ensures NonIncreasing(x + y)
  {
    var r := x + y;
    forall i, j | 0 <= i < j < |r| ensures r[i] >= r[j] {
      if j < |x| {
        assert r[i] == x[i] && r[j] == x[j];
      } else if i < |x| {
        assert r[i] == x[i] && r[j] == y[j - |x|];
      } else {
        assert r[i] == y[i - |x|] && r[j] == y[j - |x|];
      }
    }
  }

  /** Every element of s is at least p. */
  ghost predicate AllAtLeast(s: seq<int>, p: int) {
    forall x :: x in s ==> x >= p
  }

  /** Every element of s is below p. */
  ghost predicate AllBelow(s: seq<int>, p: int) {
    forall x :: x in s ==> x < p
  }

  /** After a descending partition around p, the sorted order is the sorted left part, p, then the sorted right part. */
  lemma SortDescSplit(left: seq<int>, p: int, right: seq<int>)
    requires AllAtLeast(left, p) && AllBelow(right, p)
    ensures SortDesc(left + [p] + right) == SortDesc(left) + [p] + SortDesc(right)
  {
    SortDescFacts(left);
    SortDescFacts(right);
    var sl, sr := SortDesc(left), SortDesc(right);
    forall e | e in sr ensures p >= e {
      assert e in multiset(sr);
      assert e in right;
    }
    ConsNonIncreasing(p, sr);
    var pr := [p] + sr;
    forall i, j | 0 <= i < |sl| && 0 <= j < |pr| ensures sl[i] >= pr[j] {
      assert sl[i] in multiset(sl);
      assert sl[i] in left;
      if j > 0 {
        assert pr[j] == sr[j - 1];
        assert pr[j] in multiset(sr);
        assert pr[j] in right;
      }
    }
    AppendNonIncreasing(sl, pr);
    assert sl + pr == sl + [p] + sr;
    assert multiset(sl + pr) == multiset(left + [p] + right);
    SortedIsSortDesc(left + [p] + right, sl + pr);
  }

  /** Exchanges two cells (problem_2_DemoCode.c `swap`); i == j is allowed. */
  method Swap(arr: array<int>, i: int, j: int)
    requires 0 <= i < arr.Length && 0 <= j < arr.Length
    modifies arr
    ensures arr[..] == old(arr[..])[i := old(arr[j])][j := old(arr[i])]
    ensures arr[i] == old(arr[j]) && arr[j] == old(arr[i])
    ensures forall m :: 0 <= m < arr.Length && m != i && m != j ==> arr[m] == old(arr[m])
    ensures multiset(arr[..]) == multiset(old(arr[..]))
  {
    var temp := arr[i];
    arr[i] := arr[j];
    arr[j] := temp;
  }

  /** a and b have the same length and agree at every index outside [lo, hi). */
  ghost predicate SameOutside(a: seq<int>, b: seq<int>, lo: int, hi: int) {
    |a| == |b| && forall m :: 0 <= m < |a| && !(lo <= m < hi) ==> a[m] == b[m]
  }

  lemma SameOutsideTrans(a: seq<int>, b: seq<int>, c: seq<int>, lo: int, hi: int, lo2: int, hi2: int)
    requires SameOutside(b, a, lo, hi) && SameOutside(c, b, lo2, hi2)
    requires lo <= lo2 && hi2 <= hi
    ensures SameOutside(c, a, lo, hi)
  {
  }

  /** Two permutations of each other that agree outside [lo, hi) permute that slice. */
  lemma SliceMultiset(a: seq<int>, b: seq<int>, lo: int, hi: int)
    requires 0 <= lo <= hi <= |a|
    requires multiset(a) == multiset(b)
    requires SameOutside(a, b, lo, hi)
    ensures multiset(a[lo..hi]) == multiset(b[lo..hi])
  {
    assert a == a[..lo] + a[lo..hi] + a[hi..];
    assert b == b[..lo] + b[lo..hi] + b[hi..];
    assert a[..lo] == b[..lo];
    assert a[hi..] == b[hi..];
    assert multiset(a) == multiset(a[..lo]) + multiset(a[lo..hi]) + multiset(a[hi..]);
    assert multiset(b) == multiset(a[..lo]) + multiset(b[lo..hi]) + multiset(a[hi..]);
    assert multiset(a[lo..hi]) == multiset(a) - multiset(a[..lo]) - multiset(a[hi..]);
  }

  /**
   * Descending Lomuto partition of arr[low..high] around the pivot arr[high]
   * (problem_2_DemoCode.c `partition`): larger-or-equal elements end up left of
   * the returned index, smaller ones right of it.
   */
  method Partition(arr: array<int>, low: int, high: int) returns (p: int)
    requires 0 <= low <= high < arr.Length
    modifies arr
    ensures low <= p <= high
    ensures arr[p] == old(arr[high])
    ensures forall m :: low <= m < p ==> arr[m] >= arr[p]
    ensures forall m :: p < m <= high ==> arr[m] < arr[p]
    ensures multiset(arr[..]) == multiset(old(arr[..]))
    ensures SameOutside(arr[..], old(arr[..]), low, high + 1)
  {
    var pivot := arr[high];
    var i := low - 1;
    var j := low;
    while j < high
      invariant low <= j <= high
      invariant low - 1 <= i < j
      invariant arr[high] == pivot
      invariant forall m :: low <= m <= i ==> arr[m] >= pivot
      invariant forall m :: i < m < j ==> arr[m] < pivot
      invariant multiset(arr[..]) == multiset(old(arr[..]))
      invariant forall m :: 0 <= m < arr.Length && !(low <= m <= high) ==> arr[m] == old(arr[m])
    {
      if arr[j] >= pivot {
        i := i + 1;
        Swap(arr, i, j);
      }
      j := j + 1;
    }
    Swap(arr, i + 1, high);
    p := i + 1;
  }

  /** Permutations of each other have the same sorted order. */
  lemma SortDescPermutation(s: seq<int>, t: seq<int>)
    requires multiset(s) == multiset(t)
    ensures SortDesc(s) == SortDesc(t)
  {
    SortDescFacts(t);
    SortedIsSortDesc(s, SortDesc(t));
  }

  /**
   * Where the k-th largest of a partitioned range lies: in the larger-or-equal
   * part, at the pivot, or in the smaller part at rank k minus the pivot's rank.
   */
  lemma {:induction false} PartitionRank(before: seq<int>, left: seq<int>, pivot: int, right: seq<int>, k: int)
    requires multiset(before) == multiset(left + [pivot] + right)
    requires AllAtLeast(left, pivot) && AllBelow(right, pivot)
    requires 1 <= k <= |before|
    ensures |before| == |left| + 1 + |right|
    ensures k <= |left| ==> KthLargestOf(before, k) == KthLargestOf(left, k)
    ensures k == |left| + 1 ==> KthLargestOf(before, k) == pivot
    ensures k > |left| + 1 ==> KthLargestOf(before, k) == KthLargestOf(right, k - |left| - 1)
  {
    assert |before| == |multiset(before)| == |left + [pivot] + right|;
    SortDescPermutation(before, left + [pivot] + right);
    SortDescSplit(left, pivot, right);
    SortDescLength(left);
    SortDescLength(right);
    var sl := SortDesc(left);
    if k <= |left| {
      assert SortDesc(before)[k - 1] == sl[k - 1];
    } else if k == |left| + 1 {
      assert SortDesc(before)[k - 1] == pivot;
    } else {
      assert SortDesc(before)[k - 1] == SortDesc(right)[k - |left| - 2];
    }
  }

  /** The number of elements of s strictly greater than v. */
  function CountAbove(s: seq<int>, v: int): (c: nat)
    ensures c <= |s|
  {
    if s == [] then 0 else (if s[0] > v then 1 else 0) + CountAbove(s[1..], v)
  }

  lemma {:induction false} CountAboveAppend(a: seq<int>, b: seq<int>, v: int)
    ensures CountAbove(a + b, v) == CountAbove(a, v) + CountAbove(b, v)
  {
    if a != [] {
      assert (a + b)[0] == a[0];
      assert (a + b)[1..] == a[1..] + b;
      CountAboveAppend(a[1..], b, v);
      assert CountAbove(a + b, v) == (if a[0] > v then 1 else 0) + CountAbove(a[1..] + b, v);
    } else {
      assert a + b == b;
    }
  }

  lemma MultisetRemove(b: seq<int>, j: int)
    requires 0 <= j < |b|
    ensures multiset(b[..j] + b[j + 1..]) == multiset(b) - multiset{b[j]}
  {
    assert b == b[..j] + [b[j]] + b[j + 1..];
  }

  lemma CountAboveRemove(b: seq<int>, j: int, v: int)
    requires 0 <= j < |b|
    ensures CountAbove(b, v) == CountAbove(b[..j] + b[j + 1..], v) + (if b[j] > v then 1 else 0)
  {
    assert b == (b[..j] + [b[j]]) + b[j + 1..];
    CountAboveAppend(b[..j] + [b[j]], b[j + 1..], v);
    CountAboveAppend(b[..j], [b[j]], v);
    CountAboveAppend(b[..j], b[j + 1..], v);
  }

  /** The count depends only on the elements, not on their order. */
  lemma {:induction false} CountAbovePermutation(a: seq<int>, b: seq<int>, v: int)
    requires multiset(a) == multiset(b)
    ensures CountAbove(a, v) == CountAbove(b, v)
  {
    if a == [] {
      assert |b| == |multiset(b)| == 0;
    } else {
      assert a[0] in multiset(b);
      var j :| 0 <= j < |b| && b[j] == a[0];
      MultisetRemove(b, j);
      assert a == [a[0]] + a[1..];
      assert multiset(a[1..]) == multiset(a) - multiset{a[0]};
      CountAbovePermutation(a[1..], b[..j] + b[j + 1..], v);
      CountAboveRemove(b, j, v);
    }
  }

  /** In a non-increasing sequence the elements greater than v are exactly a prefix. */
  lemma {:induction false} CountAboveSorted(t: seq<int>, v: int)
    requires NonIncreasing(t)
    ensures forall i :: 0 <= i < CountAbove(t, v) ==> t[i] > v
    ensures forall i :: CountAbove(t, v) <= i < |t| ==> t[i] <= v
  {
    if t != [] {
      var tail := t[1..];
      assert NonIncreasing(tail);
      CountAboveSorted(tail, v);
      if t[0] > v {
        forall i | 0 <= i < CountAbove(t, v) ensures t[i] > v {
          if i > 0 {
            assert t[i] == tail[i - 1];
          }
        }
        forall i | CountAbove(t, v) <= i < |t| ensures t[i] <= v {
          assert t[i] == tail[i - 1];
        }
      } else {
        if CountAbove(tail, v) > 0 {
          assert tail[0] > v;
          assert t[0] >= t[1];
        }
      }
    }
  }

  /**
   * Rank characterisation of the specification: v is the k-th largest value
   * exactly when fewer than k elements exceed v and at least k are at least v.
   */
  lemma KthLargestRank(s: seq<int>, k: int, v: int)
    requires 1 <= k <= |s|
    ensures KthLargestOf(s, k) == v <==> CountAbove(s, v) < k <= CountAbove(s, v - 1)
  {
    SortDescFacts(s);
    var t := SortDesc(s);
    CountAbovePermutation(s, t, v);
    CountAbovePermutation(s, t, v - 1);
    CountAboveSorted(t, v);
    CountAboveSorted(t, v - 1);
  }

  /**
   * Recursive selection of the k-th largest value of arr[low..high]
   * (problem_2_DemoCode.c `quickSelect`). A k outside 1..high-low+1 ends in
   * an empty range and the result -1, as in the source.
   */
  method QuickSelect(arr: array<int>, low: int, high: int, k: int) returns (r: int)
    requires 0 <= low <= high + 1 <= arr.Length
    modifies arr
    ensures r == if 1 <= k <= high - low + 1 then KthLargestOf(old(arr[..])[low..high + 1], k) else -1
    ensures multiset(arr[..]) == multiset(old(arr[..]))
    ensures SameOutside(arr[..], old(arr[..]), low, high + 1)
    decreases high - low
  {
    if low <= high {
      ghost var s0 := arr[..];
      var pivotIndex := Partition(arr, low, high);
      var pivotPosition := pivotIndex - low + 1;
      ghost var mid := arr[..];
      PartitionedRank(s0, mid, low, pivotIndex, high, k);
      if pivotPosition == k {
        r := arr[pivotIndex];
      } else if pivotPosition > k {
        r := QuickSelect(arr, low, pivotIndex - 1, k);
        SameOutsideTrans(s0, mid, arr[..], low, high + 1, low, pivotIndex);
      } else {
        r := QuickSelect(arr, pivotIndex + 1, high, k - pivotPosition);
        SameOutsideTrans(s0, mid, arr[..], low, high + 1, pivotIndex + 1, high + 1);
      }
    } else {
      r := -1;
    }
  }

  /**
   * The rank facts QuickSelect relies on, stated for the array contents
   * before (s0) and after (mid) a call of Partition that returned p.
   */
  lemma PartitionedRank(s0: seq<int>, mid: seq<int>, low: int, p: int, high: int, k: int)
    requires 0 <= low <= p <= high < |s0| == |mid|
    requires mid[p] == s0[high]
    requires forall m :: low <= m < p ==> mid[m] >= mid[p]
    requires forall m :: p < m <= high ==> mid[m] < mid[p]
    requires multiset(mid) == multiset(s0)
    requires SameOutside(mid, s0, low, high + 1)
    ensures 1 <= k <= p - low ==> KthLargestOf(s0[low..high + 1], k) == KthLargestOf(mid[low..p], k)
    ensures k == p - low + 1 ==> KthLargestOf(s0[low..high + 1], k) == mid[p]
    ensures p - low + 1 < k <= high - low + 1 ==>
      KthLargestOf(s0[low..high + 1], k) == KthLargestOf(mid[p + 1..high + 1], k - (p - low + 1))
  {
    var left, pivot, right := mid[low..p], mid[p], mid[p + 1..high + 1];
    assert mid[low..high + 1] == left + [pivot] + right;
    SliceMultiset(mid, s0, low, high + 1);
    assert AllAtLeast(left, pivot) by {
      forall x | x in left ensures x >= pivot {
        var m :| 0 <= m < |left| && left[m] == x;
        assert mid[low + m] == x;
      }
    }
    assert AllBelow(right, pivot) by {
      forall x | x in right ensures x < pivot {
        var m :| 0 <= m < |right| && right[m] == x;
        assert mid[p + 1 + m] == x;
      }
    }
    if 1 <= k <= high - low + 1 {
      PartitionRank(s0[low..high + 1], left, pivot, right, k);
    }
  }

  /**
   * The k-th largest of arr[0..n), computed on a copy so that the caller's
   * array is left alone (problem_2_DemoCode.c `findKthLargest`).
   */
  method FindKthLargest(arr: array<int>, n: int, k: int) returns (r: int)
    requires 0 <= n <= arr.Length
    ensures r == if 1 <= k <= n then KthLargestOf(arr[..n], k) else -1
  {
    var tempArr := new int[n];
    for i := 0 to n
      invariant forall m :: 0 <= m < i ==> tempArr[m] == arr[m]
    {
      tempArr[i] := arr[i];
    }
    assert tempArr[..][0..(n - 1) + 1] == arr[..n];
    r := QuickSelect(tempArr, 0, n - 1, k);
  }

  /**
   * The descending bubble sort of the demonstration's check
   * (problem_2_DemoCode.c, demonstrateAlgorithm): each pass moves the smallest
   * remaining element to the end of the unsorted prefix.
   */
  method BubbleSortDesc(a: array<int>)
    modifies a
    ensures NonIncreasing(a[..])
    ensures multiset(a[..]) == multiset(old(a[..]))
  {
    var n := a.Length;
    var i := 0;
    while i < n - 1
      invariant 0 <= i <= n
      invariant forall x, y :: n - i <= x < y < n ==> a[x] >= a[y]
      invariant forall x, y :: 0 <= x < n - i <= y < n ==> a[x] >= a[y]
      invariant multiset(a[..]) == multiset(old(a[..]))
    {
      BubblePass(a, n - i - 1);
      i := i + 1;
    }
  }

  /**
   * One pass of the bubble sort over a[0..hi]: adjacent out-of-order pairs are
   * exchanged, which carries the smallest value of the range to a[hi]. Cells
   * after hi are not touched, so a sorted, dominated suffix stays so.
   */
  method BubblePass(a: array<int>, hi: int)
    requires 0 <= hi < a.Length
    requires forall x, y :: 0 <= x <= hi < y < a.Length ==> a[x] >= a[y]
    modifies a
    ensures forall x :: 0 <= x < hi ==> a[x] >= a[hi]
    ensures forall x, y :: 0 <= x <= hi < y < a.Length ==> a[x] >= a[y]
    ensures forall y :: hi < y < a.Length ==> a[y] == old(a[y])
    ensures multiset(a[..]) == multiset(old(a[..]))
  {
    var j := 0;
    while j < hi
      invariant 0 <= j <= hi
      invariant forall x :: 0 <= x < j ==> a[x] >= a[j]
      invariant forall x, y :: 0 <= x <= hi < y < a.Length ==> a[x] >= a[y]
      invariant forall y :: hi < y < a.Length ==> a[y] == old(a[y])
      invariant multiset(a[..]) == multiset(old(a[..]))
    {
      if a[j] < a[j + 1] {
        Swap(a, j, j + 1);
      }
      j := j + 1;
    }
  }

  /**
   * The demonstration (problem_2_DemoCode.c `demonstrateAlgorithm`): the
   * QuickSelect answer and a bubble-sorted copy, whose (k-1)-th cell the
   * source prints as the check.
   */
  method DemonstrateAlgorithm(arr: array<int>, n: int, k: int) returns (result: int, sorted: seq<int>)
    requires 0 <= n <= arr.Length
    requires 1 <= k <= n
    ensures |sorted| == n
    ensures NonIncreasing(sorted) && multiset(sorted) == multiset(arr[..n])
    ensures result == sorted[k - 1]
  {
    result := FindKthLargest(arr, n, k);
    var sortedArr := new int[n];
    for i := 0 to n
      invariant forall m :: 0 <= m < i ==> sortedArr[m] == arr[m]
    {
      sortedArr[i] := arr[i];
    }
    assert sortedArr[..] == arr[..n];
    BubbleSortDesc(sortedArr);
    sorted := sortedArr[..];
    SortedIsSortDesc(arr[..n], sorted);
  }
}

/** The fixed cases of problem_2_DemoCode.c `runTests`. */
module SelectionTests {
  import opened Selection

  /** The answers of the fixed test arrays, read off their element counts. */
  lemma TestAnswer1()
    ensures KthLargestOf([3, 2, 1, 5, 6, 4], 2) == 5
  {
    KthLargestRank([3, 2, 1, 5, 6, 4], 2, 5);
  }

  lemma TestAnswer2()
    ensures KthLargestOf([3, 2, 3, 1, 2, 4, 5, 5, 6], 4) == 4
  {
    KthLargestRank([3, 2, 3, 1, 2, 4, 5, 5, 6], 4, 4);
  }

  /** One test case: the values are copied into a fresh array and searched. */
  method RunCase(values: seq<int>, k: int) returns (r: int)
    ensures r == if 1 <= k <= |values| then KthLargestOf(values, k) else -1
  {
    var arr := new int[|values|];
    for i := 0 to |values|
      invariant forall m :: 0 <= m < i ==> arr[m] == values[m]
    {
      arr[i] := values[i];
    }
    assert arr[..|values|] == values;
    r := FindKthLargest(arr, |values|, k);
  }

  /** The three fixed cases of problem_2_DemoCode.c `runTests`. */
  method RunTests() returns (r1: int, r2: int, r3: int)
    ensures r1 == 5 && r2 == 4 && r3 == 1
  {
    r1 := RunCase([3, 2, 1, 5, 6, 4], 2);
    TestAnswer1();
    r2 := RunCase([3, 2, 3, 1, 2, 4, 5, 5, 6], 4);
    TestAnswer2();
    r3 := RunCase([1], 1);
  }
}
