/** AK/QuickSort.h: the in-place sorts, over any strict weak order. */
module QuickSort {
  import opened Basics

  // ---------- orders ----------

  ghost predicate StrictWeakOrder<T(!new)>(less: (T, T) -> bool) {
    (forall x :: !less(x, x))
    && (forall x, y, z :: less(x, y) && less(y, z) ==> less(x, z))
    && (forall x, y, z :: less(x, z) ==> less(x, y) || less(y, z))
  }

  /** No element from lo to before hi is above v (below v). */
  ghost predicate NoneAbove<T>(less: (T, T) -> bool, s: seq<T>, lo: int, hi: int, v: T) {
    forall i :: 0 <= lo <= i < hi <= |s| ==> !less(v, s[i])
  }

  ghost predicate NoneBelow<T>(less: (T, T) -> bool, s: seq<T>, lo: int, hi: int, v: T) {
    forall i :: 0 <= lo <= i < hi <= |s| ==> !less(s[i], v)
  }

  ghost predicate InOrder<T>(less: (T, T) -> bool, s: seq<T>, i: int, j: int)
    requires 0 <= i < |s| && 0 <= j < |s|
  {
    !less(s[j], s[i])
  }

  ghost predicate Sorted<T>(less: (T, T) -> bool, s: seq<T>, lo: int, hi: int) {
    forall i, j :: 0 <= lo <= i < j < hi <= |s| ==> InOrder(less, s, i, j)
  }

  // ---------- permutations within a range ----------

  ghost predicate Permuted<T>(s: seq<T>, t: seq<T>, lo: int, hi: int) {
    0 <= lo <= hi <= |s| == |t| && s[..lo] == t[..lo] && s[hi..] == t[hi..]
    && multiset(s[lo..hi]) == multiset(t[lo..hi])
  }

  lemma PermutedTwice<T>(s: seq<T>, t: seq<T>, u: seq<T>, lo: int, hi: int)
    requires Permuted(s, t, lo, hi) && Permuted(t, u, lo, hi)
    ensures Permuted(s, u, lo, hi)
  {
  }

  lemma PermutedWider<T>(s: seq<T>, t: seq<T>, lo: int, hi: int, lo': int, hi': int)
    requires Permuted(s, t, lo, hi) && 0 <= lo' <= lo && hi <= hi' <= |s|
    ensures Permuted(s, t, lo', hi')
  {
    assert s[lo'..hi'] == s[lo'..lo] + s[lo..hi] + s[hi..hi'];
    assert t[lo'..hi'] == t[lo'..lo] + t[lo..hi] + t[hi..hi'];
    assert s[lo'..lo] == s[..lo][lo'..] == t[..lo][lo'..] == t[lo'..lo];
    assert s[hi..hi'] == s[hi..][..hi' - hi] == t[hi..][..hi' - hi] == t[hi..hi'];
    assert s[..lo'] == s[..lo][..lo'] == t[..lo][..lo'] == t[..lo'];
    assert s[hi'..] == s[hi..][hi' - hi..] == t[hi..][hi' - hi..] == t[hi'..];
  }

  lemma PermutedOutside<T>(s: seq<T>, t: seq<T>, lo: int, hi: int, i: int)
    requires Permuted(s, t, lo, hi) && 0 <= i < |s| && !(lo <= i < hi)
    ensures s[i] == t[i]
  {
    if i < lo {
      assert s[i] == s[..lo][i] == t[..lo][i];
    } else {
      assert s[i] == s[hi..][i - hi] == t[hi..][i - hi];
    }
  }

  lemma PermutedFrom<T>(s: seq<T>, t: seq<T>, lo: int, hi: int, i: int) returns (j: int)
    requires Permuted(s, t, lo, hi) && lo <= i < hi
    ensures lo <= j < hi && s[j] == t[i]
  {
    assert t[lo..hi][i - lo] == t[i];
    assert t[i] in multiset(t[lo..hi]);
    assert t[i] in s[lo..hi];
    var k :| 0 <= k < |s[lo..hi]| && s[lo..hi][k] == t[i];
    j := lo + k;
  }

  /** Bounds on a range survive a permutation inside it. */
  lemma PermutedKeepsBounds<T>(less: (T, T) -> bool, s: seq<T>, t: seq<T>, lo: int, hi: int, v: T)
    requires Permuted(s, t, lo, hi)
    ensures NoneAbove(less, s, lo, hi, v) ==> NoneAbove(less, t, lo, hi, v)
    ensures NoneBelow(less, s, lo, hi, v) ==> NoneBelow(less, t, lo, hi, v)
  {
    forall i | lo <= i < hi
      ensures NoneAbove(less, s, lo, hi, v) ==> !less(v, t[i])
      ensures NoneBelow(less, s, lo, hi, v) ==> !less(t[i], v)
    {
      var j := PermutedFrom(s, t, lo, hi, i);
    }
  }

  ghost function Swapped<T>(s: seq<T>, i: int, j: int): seq<T>
    requires 0 <= i < |s| && 0 <= j < |s|
  {
    s[i := s[j]][j := s[i]]
  }

  method Swap<T>(a: array<T>, i: int, j: int)
    requires 0 <= i < a.Length && 0 <= j < a.Length
    modifies a
    ensures a[..] == Swapped(old(a[..]), i, j)
  {
    a[i], a[j] := a[j], a[i];
  }

  lemma SwapPermutes<T>(s: seq<T>, i: int, j: int, lo: int, hi: int)
    requires 0 <= lo <= i < hi <= |s| && lo <= j < hi
    ensures Permuted(s, Swapped(s, i, j), lo, hi)
  {
    var u, t := s[lo..hi], Swapped(s, i, j);
    assert t[lo..hi] == u[i - lo := u[j - lo]][j - lo := u[i - lo]];
    assert multiset(t[lo..hi]) == multiset(u);
  }

  lemma SwapPermutesMore<T>(s: seq<T>, t: seq<T>, i: int, j: int, lo: int, hi: int)
    requires Permuted(s, t, lo, hi) && lo <= i < hi && lo <= j < hi
    ensures Permuted(s, Swapped(t, i, j), lo, hi)
  {
    SwapPermutes(t, i, j, lo, hi);
    PermutedTwice(s, t, Swapped(t, i, j), lo, hi);
  }

  // ---------- two pivots ----------

  /** The pivots at l and r split start..end into three parts. */
  ghost predicate Split<T>(less: (T, T) -> bool, s: seq<T>, start: int, l: int, r: int, end: int) {
    0 <= start <= l < r <= end < |s|
    && NoneAbove(less, s, start, l, s[l]) && NoneBelow(less, s, l + 1, r, s[l])
    && NoneAbove(less, s, l + 1, r, s[r]) && NoneBelow(less, s, r + 1, end + 1, s[r])
    && !less(s[r], s[l])
  }

  /** Within first..last, everything is in order except inside start..end. */
  ghost predicate Framed<T>(less: (T, T) -> bool, s: seq<T>, first: int, last: int, start: int, end: int) {
    0 <= first <= start && end <= last < |s|
    && forall i, j :: first <= i < j <= last && !(start <= i && j <= end) ==> InOrder(less, s, i, j)
  }

  lemma SplitOrders<T(!new)>(less: (T, T) -> bool, s: seq<T>, start: int, l: int, r: int, end: int, i: int, j: int)
    requires StrictWeakOrder(less) && Split(less, s, start, l, r, end) && start <= i < j <= end
    requires !(j < l) && !(l < i && j < r) && !(r < i)
    ensures InOrder(less, s, i, j)
  {
    if i < l && j > r {
      assert !less(s[l], s[i]) && !less(s[j], s[r]);
    }
  }

  lemma FramedPermuted<T>(less: (T, T) -> bool, s: seq<T>, t: seq<T>, first: int, last: int, start: int, end: int)
    requires Framed(less, s, first, last, start, end) && Permuted(s, t, start, end + 1)
    ensures Framed(less, t, first, last, start, end)
  {
    hide Permuted;
    PermutedSize(s, t, start, end + 1);
    forall i, j | first <= i < j <= last && !(start <= i && j <= end) ensures InOrder(less, t, i, j) {
      FramedPair(less, s, t, first, last, start, end, i, j);
    }
  }

  lemma FramedPair<T>(less: (T, T) -> bool, s: seq<T>, t: seq<T>, first: int, last: int, start: int, end: int, i: int, j: int)
    requires Framed(less, s, first, last, start, end) && Permuted(s, t, start, end + 1)
    requires first <= i < j <= last && !(start <= i && j <= end)
    ensures |s| == |t| && InOrder(less, t, i, j)
  {
    hide Permuted;
    PermutedSize(s, t, start, end + 1);
    if start <= i <= end {
      PermutedOutside(s, t, start, end + 1, j);
      var k := PermutedFrom(s, t, start, end + 1, i);
      assert InOrder(less, s, k, j);
    } else if start <= j <= end {
      PermutedOutside(s, t, start, end + 1, i);
      var k := PermutedFrom(s, t, start, end + 1, j);
      assert InOrder(less, s, i, k);
    } else {
      PermutedOutside(s, t, start, end + 1, i);
      PermutedOutside(s, t, start, end + 1, j);
      assert InOrder(less, s, i, j);
    }
  }

  /** Sorting one of the parts keeps the split. */
  lemma SplitPermuted<T>(less: (T, T) -> bool, s: seq<T>, t: seq<T>, start: int, l: int, r: int, end: int, lo: int, hi: int)
    requires Split(less, s, start, l, r, end) && Permuted(s, t, lo, hi)
    requires (lo == start && hi == l) || (lo == l + 1 && hi == r) || (lo == r + 1 && hi == end + 1)
    ensures Split(less, t, start, l, r, end)
  {
    PermutedOutside(s, t, lo, hi, l);
    PermutedOutside(s, t, lo, hi, r);
    PermutedKeepsBounds(less, s, t, lo, hi, s[l]);
    PermutedKeepsBounds(less, s, t, lo, hi, s[r]);
    forall i | start <= i <= end && !(lo <= i < hi) ensures s[i] == t[i] {
      PermutedOutside(s, t, lo, hi, i);
    }
  }

  lemma SortedElsewhere<T>(less: (T, T) -> bool, s: seq<T>, t: seq<T>, lo: int, hi: int, lo': int, hi': int)
    requires Permuted(s, t, lo, hi) && Sorted(less, s, lo', hi') && 0 <= lo' && hi' <= |s| && (hi' <= lo || hi <= lo')
    ensures Sorted(less, t, lo', hi')
  {
    forall i, j | lo' <= i < j < hi' ensures InOrder(less, t, i, j) {
      PermutedOutside(s, t, lo, hi, i);
      PermutedOutside(s, t, lo, hi, j);
      assert InOrder(less, s, i, j);
    }
  }

  /** When two of the parts are sorted, only the third is left to do. */
  lemma Narrow<T(!new)>(less: (T, T) -> bool, s: seq<T>, first: int, last: int, start: int, l: int, r: int, end: int, start': int, end': int)
    requires StrictWeakOrder(less) && Framed(less, s, first, last, start, end) && Split(less, s, start, l, r, end)
    requires (start' == start && end' == l - 1) || Sorted(less, s, start, l)
    requires (start' == l + 1 && end' == r - 1) || Sorted(less, s, l + 1, r)
    requires (start' == r + 1 && end' == end) || Sorted(less, s, r + 1, end + 1)
    requires start <= start' && end' <= end
    ensures Framed(less, s, first, last, start', end')
  {
    forall i, j | first <= i < j <= last && !(start' <= i && j <= end') ensures InOrder(less, s, i, j) {
      if start <= i && j <= end && !(j < l) && !(l < i && j < r) && !(r < i) {
        SplitOrders(less, s, start, l, r, end, i, j);
      }
    }
  }

  lemma Asymmetric<T(!new)>(less: (T, T) -> bool, x: T, y: T)
    requires StrictWeakOrder(less) && less(x, y)
    ensures !less(y, x)
  {
  }

  lemma PermutedSelf<T>(s: seq<T>, lo: int, hi: int)
    requires 0 <= lo <= hi <= |s|
    ensures Permuted(s, s, lo, hi)
  {
  }

  lemma SwappedAt<T>(s: seq<T>, i: int, j: int)
    requires 0 <= i < |s| && 0 <= j < |s|
    ensures |Swapped(s, i, j)| == |s| && Swapped(s, i, j)[i] == s[j] && Swapped(s, i, j)[j] == s[i]
    ensures forall k :: 0 <= k < |s| && k != i && k != j ==> Swapped(s, i, j)[k] == s[k]
  {
  }

  method ChoosePivots<T(!new)>(a: array<T>, start: int, end: int, less: (T, T) -> bool)
    requires StrictWeakOrder(less) && 0 <= start < end < a.Length
    modifies a
    ensures Permuted(old(a[..]), a[..], start, end + 1) && !less(a[..][end], a[..][start])
  {
    hide Permuted, StrictWeakOrder, Swapped;
    var size := end - start + 1;
    if size > 3 {
      var third := size / 3;
      assert start < start + third < end - third < end;
      if less(a[start + third], a[end - third]) {
        Asymmetric(less, a[start + third], a[end - third]);
        SwapTwo(a, start + third, start, end - third, end, start, end + 1);
      } else {
        SwapTwo(a, start + third, end, end - third, start, start, end + 1);
      }
    } else if !less(a[start], a[end]) {
      SwapPermutes(a[..], start, end, start, end + 1);
      SwappedAt(a[..], start, end);
      Swap(a, start, end);
    } else {
      Asymmetric(less, a[start], a[end]);
      PermutedSelf(a[..], start, end + 1);
    }
  }

  method SwapTwo<T>(a: array<T>, i: int, j: int, k: int, l: int, ghost lo: int, ghost hi: int)
    requires 0 <= lo <= i < hi <= a.Length && lo <= j < hi && lo <= k < hi && lo <= l < hi
    requires i != k && i != l && j != k && j != l
    modifies a
    ensures a[..][j] == old(a[i]) && a[..][l] == old(a[k])
    ensures Permuted(old(a[..]), a[..], lo, hi)
  {
    hide Permuted, Swapped;
    ghost var s := a[..];
    SwapPermutes(s, i, j, lo, hi);
    SwappedAt(s, i, j);
    Swap(a, i, j);
    ghost var t := a[..];
    SwapPermutesMore(s, t, k, l, lo, hi);
    SwappedAt(t, k, l);
    Swap(a, k, l);
  }

  /** How far the partition has come: below the left pivot up to j, between the pivots up
      to k, not below the right pivot after g. */
  ghost predicate Partitioned<T>(less: (T, T) -> bool, s: seq<T>, start: int, end: int, j: int, k: int, g: int) {
    0 <= start < end < |s| && start + 1 <= j <= k <= g + 2 && j <= g + 1 <= end && !less(s[end], s[start])
    && (forall i :: start < i < j ==> less(s[i], s[start]))
    && (forall i :: j <= i < k && i <= g ==> !less(s[i], s[start]) && less(s[i], s[end]))
    && (forall i :: g < i < end ==> !less(s[i], s[end]))
  }

  lemma PartitionBounds<T>(less: (T, T) -> bool, s: seq<T>, start: int, end: int, j: int, k: int, g: int)
    requires Partitioned(less, s, start, end, j, k, g)
    ensures 0 <= start < end < |s| && start + 1 <= j <= k <= g + 2 && j <= g + 1 <= end
  {
  }

  lemma FoundBetween<T>(less: (T, T) -> bool, s: seq<T>, start: int, end: int, j: int, k: int, g: int)
    requires Partitioned(less, s, start, end, j, k, g) && k <= g
    ensures !less(s[k], s[start]) && less(s[k], s[end]) ==> Partitioned(less, s, start, end, j, k + 1, g)
    ensures k < g && !less(s[g], s[end]) ==> Partitioned(less, s, start, end, j, k, g - 1)
  {
  }

  lemma FoundBelow<T>(less: (T, T) -> bool, s: seq<T>, start: int, end: int, j: int, k: int, g: int)
    requires Partitioned(less, s, start, end, j, k, g) && k <= g && less(s[k], s[start])
    ensures Partitioned(less, Swapped(s, k, j), start, end, j + 1, k + 1, g)
  {
  }

  lemma FoundAbove<T(!new)>(less: (T, T) -> bool, s: seq<T>, start: int, end: int, j: int, k: int, g: int)
    requires StrictWeakOrder(less) && Partitioned(less, s, start, end, j, k, g) && k <= g && !less(s[k], s[end])
    requires k == g || less(s[g], s[end])
    ensures var t := Swapped(s, k, g);
            if less(t[k], t[start]) then k < g && Partitioned(less, t, start, end, j, k, g - 1)
            else Partitioned(less, t, start, end, j, k + 1, g - 1)
  {
    BelowLeftIsBelowRight(less, s[g], s[start], s[end]);
  }

  lemma PlacedSplit<T(!new)>(less: (T, T) -> bool, s: seq<T>, start: int, end: int, j: int, k: int, g: int)
    requires StrictWeakOrder(less) && Partitioned(less, s, start, end, j, k, g) && k > g
    ensures Split(less, Swapped(Swapped(s, start, j - 1), end, g + 1), start, j - 1, g + 1, end)
  {
    hide StrictWeakOrder;
    var l, r := j - 1, g + 1;
    var u := Swapped(Swapped(s, start, l), end, r);
    forall i | start <= i < l ensures !less(u[l], u[i]) {
      Asymmetric(less, s[if i == start then l else i], s[start]);
    }
    forall i | l < i < r ensures !less(u[r], u[i]) && !less(u[i], u[l]) {
      Asymmetric(less, s[i], s[end]);
    }
    forall i | r < i <= end ensures !less(u[i], u[r]) {
      assert u[i] == s[if i == end then r else i];
    }
  }

  /** The three-way partition around the pivots at both ends. */
  method Partition<T(!new)>(a: array<T>, start: int, end: int, less: (T, T) -> bool) returns (l: int, r: int)
    requires StrictWeakOrder(less) && 0 <= start < end < a.Length && !less(a[..][end], a[..][start])
    modifies a
    ensures Permuted(old(a[..]), a[..], start, end + 1) && Split(less, a[..], start, l, r, end)
  {
    hide Permuted, StrictWeakOrder, Split, Swapped, Partitioned;
    ghost var s := a[..];
    var j, k, g := start + 1, start + 1, end - 1;
    PermutedSelf(s, start, end + 1);
    PartitionStarts(less, s, start, end);
    while k <= g
      invariant Permuted(s, a[..], start, end + 1) && Partitioned(less, a[..], start, end, j, k, g)
      decreases g - k
    {
      PartitionBounds(less, a[..], start, end, j, k, g);
      j, k, g := PartitionStep(a, start, end, j, k, g, less, s);
    }
    PartitionBounds(less, a[..], start, end, j, k, g);
    PlacedSplit(less, a[..], start, end, j, k, g);
    j := j - 1;
    g := g + 1;
    SwapPermutesMore(s, a[..], start, j, start, end + 1);
    Swap(a, start, j);
    SwapPermutesMore(s, a[..], end, g, start, end + 1);
    Swap(a, end, g);
    return j, g;
  }

  lemma PartitionStarts<T>(less: (T, T) -> bool, s: seq<T>, start: int, end: int)
    requires 0 <= start < end < |s| && !less(s[end], s[start])
    ensures Partitioned(less, s, start, end, start + 1, start + 1, end - 1)
  {
  }

  /** The inner loop of the partition. */
  method SkipAbove<T>(a: array<T>, start: int, end: int, ghost j: int, k: int, g0: int, less: (T, T) -> bool) returns (g: int)
    requires 0 <= start < k <= g0 < end < a.Length && Partitioned(less, a[..], start, end, j, k, g0)
    ensures k <= g <= g0 && Partitioned(less, a[..], start, end, j, k, g) && (k == g || less(a[..][g], a[..][end]))
  {
    hide Partitioned;
    g := g0;
    while !less(a[g], a[end]) && k < g
      invariant k <= g <= g0 && Partitioned(less, a[..], start, end, j, k, g)
    {
      FoundBetween(less, a[..], start, end, j, k, g);
      g := g - 1;
    }
  }

  /** The element at k is below the left pivot: it joins the elements before j. */
  method MoveBelow<T>(a: array<T>, start: int, end: int, j: int, k: int, ghost g: int, less: (T, T) -> bool, ghost s: seq<T>)
    returns (j': int)
    requires 0 <= start < j <= k <= g < end < a.Length && less(a[..][k], a[..][start])
    requires Permuted(s, a[..], start, end + 1) && Partitioned(less, a[..], start, end, j, k, g)
    modifies a
    ensures Permuted(s, a[..], start, end + 1) && Partitioned(less, a[..], start, end, j', k + 1, g) && j' == j + 1
  {
    hide Permuted, Swapped, Partitioned;
    FoundBelow(less, a[..], start, end, j, k, g);
    SwapPermutesMore(s, a[..], k, j, start, end + 1);
    Swap(a, k, j);
    j' := j + 1;
  }

  /** One pass of the partition loop. */
  method PartitionStep<T(!new)>(a: array<T>, start: int, end: int, j0: int, k0: int, g0: int, less: (T, T) -> bool, ghost s: seq<T>)
    returns (j: int, k: int, g: int)
    requires StrictWeakOrder(less) && 0 <= start < j0 <= k0 <= g0 < end < a.Length
    requires Permuted(s, a[..], start, end + 1) && Partitioned(less, a[..], start, end, j0, k0, g0)
    modifies a
    ensures Permuted(s, a[..], start, end + 1) && Partitioned(less, a[..], start, end, j, k, g)
    ensures k == k0 + 1 && g <= g0
  {
    hide Permuted, StrictWeakOrder, Swapped, Partitioned;
    j, k, g := j0, k0, g0;
    FoundBetween(less, a[..], start, end, j, k, g);
    if less(a[k], a[start]) {
      j := MoveBelow(a, start, end, j, k, g, less, s);
    } else if !less(a[k], a[end]) {
      g := SkipAbove(a, start, end, j, k, g, less);
      FoundAbove(less, a[..], start, end, j, k, g);
      SwapPermutesMore(s, a[..], k, g, start, end + 1);
      Swap(a, k, g);
      g := g - 1;
      if less(a[k], a[start]) {
        j := MoveBelow(a, start, end, j, k, g, less, s);
      }
    }
    k := k + 1;
  }

  lemma BelowLeftIsBelowRight<T(!new)>(less: (T, T) -> bool, x: T, p: T, q: T)
    requires StrictWeakOrder(less) && !less(q, p)
    ensures less(x, p) ==> less(x, q)
  {
  }

  lemma FramedAll<T>(less: (T, T) -> bool, s: seq<T>, start: int, end: int)
    requires 0 <= start && end < |s|
    ensures Framed(less, s, start, end, start, end)
  {
  }

  lemma FramedSorted<T>(less: (T, T) -> bool, s: seq<T>, first: int, last: int, start: int, end: int)
    requires Framed(less, s, first, last, start, end) && start >= end
    ensures Sorted(less, s, first, last + 1)
  {
  }

  /** Everything known while the parts are being sorted one after the other. */
  ghost predicate Progress<T>(less: (T, T) -> bool, s: seq<T>, t: seq<T>, first: int, last: int, start: int, l: int, r: int, end: int) {
    Permuted(s, t, first, last + 1) && Framed(less, t, first, last, start, end) && Split(less, t, start, l, r, end)
  }

  lemma PartDone<T>(less: (T, T) -> bool, s: seq<T>, t: seq<T>, u: seq<T>, first: int, last: int,
                    start: int, l: int, r: int, end: int, lo: int, hi: int)
    requires Progress(less, s, t, first, last, start, l, r, end) && Permuted(t, u, lo, hi)
    requires (lo == start && hi == l) || (lo == l + 1 && hi == r) || (lo == r + 1 && hi == end + 1)
    ensures Progress(less, s, u, first, last, start, l, r, end)
  {
    hide Permuted, InOrder, Split;
    assert 0 <= first <= start <= l < r <= end <= last < |t| by { SplitBounds(less, t, start, l, r, end); }
    PermutedSize(t, u, lo, hi);
    SplitPermuted(less, t, u, start, l, r, end, lo, hi);
    PermutedWider(t, u, lo, hi, start, end + 1);
    FramedPermuted(less, t, u, first, last, start, end);
    PermutedWider(t, u, lo, hi, first, last + 1);
    PermutedTwice(s, t, u, first, last + 1);
  }

  lemma SplitBounds<T>(less: (T, T) -> bool, s: seq<T>, start: int, l: int, r: int, end: int)
    requires Split(less, s, start, l, r, end)
    ensures 0 <= start <= l < r <= end < |s|
  {
  }

  lemma PermutedSize<T>(s: seq<T>, t: seq<T>, lo: int, hi: int)
    requires Permuted(s, t, lo, hi)
    ensures 0 <= lo <= hi <= |s| == |t|
  {
  }

  function AtLeastOne(n: int): int {
    if n > 1 then n else 1
  }

  function Deeper(d: nat, e: nat): nat {
    if d > e then d else e
  }

  /** Sorts first..last; the calls nest to a depth of at most log2 of the number of elements. */
  method DualPivotQuickSort<T(!new)>(a: array<T>, first: int, last: int, less: (T, T) -> bool) returns (ghost depth: nat)
    requires StrictWeakOrder(less) && 0 <= first && last < a.Length && first <= last + 1
    modifies a
    ensures Permuted(old(a[..]), a[..], first, last + 1) && Sorted(less, a[..], first, last + 1)
    ensures Pow2(depth) <= AtLeastOne(last - first + 1)
    decreases last - first + 1, 1
  {
    hide StrictWeakOrder, Permuted, Split, Framed, Sorted;
    ghost var s := a[..];
    var start, end := first, last;
    depth := 0;
    PermutedSelf(s, first, last + 1);
    FramedAll(less, s, first, last);
    while start < end
      invariant Permuted(s, a[..], first, last + 1) && Framed(less, a[..], first, last, start, end)
      invariant first <= start <= end + 1 && end <= last && Pow2(depth) <= AtLeastOne(last - first + 1)
      decreases end - start
    {
      ghost var d;
      start, end, d := SortTwoParts(a, first, last, start, end, less, s);
      depth := Deeper(d, depth);
    }
    FramedSorted(less, a[..], first, last, start, end);
  }

  /** One pass of the outer loop: partition, sort two parts, leave the longest. */
  method SortTwoParts<T(!new)>(a: array<T>, first: int, last: int, start: int, end: int, less: (T, T) -> bool, ghost s: seq<T>)
    returns (start': int, end': int, ghost depth: nat)
    requires StrictWeakOrder(less) && 0 <= first <= start < end <= last < a.Length
    requires Permuted(s, a[..], first, last + 1) && Framed(less, a[..], first, last, start, end)
    modifies a
    ensures Permuted(s, a[..], first, last + 1) && Framed(less, a[..], first, last, start', end')
    ensures start <= start' <= end' + 1 && end' <= end && end' - start' < end - start
    ensures Pow2(depth) <= end - start + 1
    decreases end - start + 1, 0
  {
    hide StrictWeakOrder, Permuted, Split, Framed, Sorted;
    var l, r := PartitionRange(a, first, last, start, end, less, s);
    SplitBounds(less, a[..], start, l, r, end);
    var left, middle, right := l - start, r - (l + 1), (end + 1) - (r + 1);
    SortedEmpty(less, a[..], start);
    ghost var d0, d1;
    if left >= middle && left >= right {
      d0 := SortPart(a, first, last, start, l, r, end, l + 1, r - 1, start, start, less, s);
      d1 := SortPart(a, first, last, start, l, r, end, r + 1, end, l + 1, r, less, s);
      start', end' := start, l - 1;
    } else if middle >= right {
      d0 := SortPart(a, first, last, start, l, r, end, start, l - 1, start, start, less, s);
      d1 := SortPart(a, first, last, start, l, r, end, r + 1, end, start, l, less, s);
      start', end' := l + 1, r - 1;
    } else {
      d0 := SortPart(a, first, last, start, l, r, end, start, l - 1, start, start, less, s);
      d1 := SortPart(a, first, last, start, l, r, end, l + 1, r - 1, start, l, less, s);
      start', end' := r + 1, end;
    }
    depth := Deeper(d0, d1) + 1;
    Narrow(less, a[..], first, last, start, l, r, end, start', end');
  }

  lemma SortedEmpty<T>(less: (T, T) -> bool, s: seq<T>, lo: int)
    ensures Sorted(less, s, lo, lo)
  {
  }

  method PartitionRange<T(!new)>(a: array<T>, first: int, last: int, start: int, end: int, less: (T, T) -> bool, ghost s: seq<T>)
    returns (l: int, r: int)
    requires StrictWeakOrder(less) && 0 <= first <= start < end <= last < a.Length
    requires Permuted(s, a[..], first, last + 1) && Framed(less, a[..], first, last, start, end)
    modifies a
    ensures Progress(less, s, a[..], first, last, start, l, r, end)
  {
    hide StrictWeakOrder, Permuted, Split, Framed;
    ghost var t := a[..];
    ChoosePivots(a, start, end, less);
    ghost var u := a[..];
    l, r := Partition(a, start, end, less);
    PermutedTwice(t, u, a[..], start, end + 1);
    FramedPermuted(less, t, a[..], first, last, start, end);
    PermutedWider(t, a[..], start, end + 1, first, last + 1);
    PermutedTwice(s, t, a[..], first, last + 1);
  }

  /** A recursive call: it sorts lo..hi and leaves the part sorted before (if any) sorted. */
  method SortPart<T(!new)>(a: array<T>, ghost first: int, ghost last: int, ghost start: int, ghost l: int, ghost r: int, ghost end: int,
                           lo: int, hi: int, ghost doneLo: int, ghost doneHi: int, less: (T, T) -> bool, ghost s: seq<T>)
    returns (ghost depth: nat)
    requires StrictWeakOrder(less) && Progress(less, s, a[..], first, last, start, l, r, end)
    requires (lo == start && hi == l - 1) || (lo == l + 1 && hi == r - 1) || (lo == r + 1 && hi == end)
    requires 0 <= start <= l < r <= end < a.Length
    requires Sorted(less, a[..], doneLo, doneHi) && 0 <= doneLo && doneHi <= a.Length && (doneHi <= lo || hi + 1 <= doneLo)
    modifies a
    ensures Progress(less, s, a[..], first, last, start, l, r, end)
    ensures Sorted(less, a[..], lo, hi + 1) && Sorted(less, a[..], doneLo, doneHi)
    ensures Pow2(depth) <= AtLeastOne(hi - lo + 1)
    decreases hi - lo + 1, 2
  {
    hide StrictWeakOrder, Permuted, Split, Framed, Sorted, Progress;
    ghost var t := a[..];
    depth := DualPivotQuickSort(a, lo, hi, less);
    PartDone(less, s, t, a[..], first, last, start, l, r, end, lo, hi + 1);
    SortedElsewhere(less, t, a[..], lo, hi + 1, doneLo, doneHi);
  }

  method QuickSortCollection<T(!new)>(a: array<T>, less: (T, T) -> bool)
    requires StrictWeakOrder(less)
    modifies a
    ensures multiset(a[..]) == multiset(old(a[..])) && Sorted(less, a[..], 0, a.Length)
  {
    ghost var depth := DualPivotQuickSort(a, 0, a.Length - 1, less);
    assert a[0..a.Length] == a[..];
    assert old(a[0..a.Length]) == old(a[..]);
  }

  // ---------- one pivot ----------

  ghost predicate SplitOne<T>(less: (T, T) -> bool, s: seq<T>, start: int, p: int, end: int) {
    0 <= start <= p < end <= |s| && NoneAbove(less, s, start, p, s[p]) && NoneBelow(less, s, p + 1, end, s[p])
  }

  ghost predicate Gathered<T>(less: (T, T) -> bool, s: seq<T>, start: int, end: int, i: int, j: int) {
    0 <= start < i <= j <= end <= |s|
    && (forall k :: start < k < i ==> less(s[k], s[start]))
    && (forall k :: i <= k < j ==> !less(s[k], s[start]))
  }

  lemma GatherStep<T>(less: (T, T) -> bool, s: seq<T>, start: int, end: int, i: int, j: int)
    requires Gathered(less, s, start, end, i, j) && j < end
    ensures if less(s[j], s[start]) then Gathered(less, Swapped(s, j, i), start, end, i + 1, j + 1)
            else Gathered(less, s, start, end, i, j + 1)
  {
  }

  lemma GatherEnd<T(!new)>(less: (T, T) -> bool, s: seq<T>, start: int, end: int, i: int)
    requires StrictWeakOrder(less) && Gathered(less, s, start, end, i, end)
    ensures SplitOne(less, Swapped(s, start, i - 1), start, i - 1, end)
  {
    hide StrictWeakOrder;
    var u := Swapped(s, start, i - 1);
    forall k | start <= k < i - 1 ensures !less(u[i - 1], u[k]) {
      Asymmetric(less, s[if k == start then i - 1 else k], s[start]);
    }
  }

  lemma GatherBounds<T>(less: (T, T) -> bool, s: seq<T>, start: int, end: int, i: int, j: int)
    requires Gathered(less, s, start, end, i, j)
    ensures start < i <= j <= end
  {
  }

  method GatherOne<T>(a: array<T>, start: int, end: int, i: int, j: int, less: (T, T) -> bool, ghost s: seq<T>) returns (i': int)
    requires 0 <= start && start + j < end <= a.Length
    requires Permuted(s, a[..], start, end) && Gathered(less, a[..], start, end, start + i, start + j)
    modifies a
    ensures Permuted(s, a[..], start, end) && Gathered(less, a[..], start, end, start + i', start + j + 1)
  {
    hide Permuted, Swapped, Gathered;
    i' := i;
    GatherStep(less, a[..], start, end, start + i, start + j);
    GatherBounds(less, a[..], start, end, start + i, start + j);
    if less(a[start + j], a[start]) {
      SwapPermutesMore(s, a[..], start + j, start + i, start, end);
      Swap(a, start + j, start + i);
      i' := i + 1;
    }
  }

  /** Moves the middle element to the front and gathers the elements below it. */
  method PartitionOne<T(!new)>(a: array<T>, start: int, end: int, less: (T, T) -> bool) returns (p: int)
    requires StrictWeakOrder(less) && 0 <= start && start + 1 < end <= a.Length
    modifies a
    ensures Permuted(old(a[..]), a[..], start, end) && SplitOne(less, a[..], start, p, end)
  {
    hide StrictWeakOrder, Permuted, Swapped, Gathered, SplitOne;
    ghost var s := a[..];
    var size := end - start;
    var pivot := size / 2;
    SwapPermutes(s, start + pivot, start, start, end);
    Swap(a, start + pivot, start);
    var i := 1;
    GatherStarts(less, a[..], start, end);
    for j := 1 to size
      invariant Permuted(s, a[..], start, end) && Gathered(less, a[..], start, end, start + i, start + j)
    {
      i := GatherOne(a, start, end, i, j, less, s);
    }
    GatherBounds(less, a[..], start, end, start + i, end);
    GatherEnd(less, a[..], start, end, start + i);
    SwapPermutesMore(s, a[..], start, start + i - 1, start, end);
    Swap(a, start, start + i - 1);
    return start + i - 1;
  }

  lemma GatherStarts<T>(less: (T, T) -> bool, s: seq<T>, start: int, end: int)
    requires 0 <= start < end <= |s|
    ensures Gathered(less, s, start, end, start + 1, start + 1)
  {
  }

  lemma NarrowOne<T(!new)>(less: (T, T) -> bool, s: seq<T>, first: int, last: int, start: int, p: int, end: int, right: bool)
    requires StrictWeakOrder(less) && Framed(less, s, first, last, start, end - 1) && SplitOne(less, s, start, p, end)
    requires if right then Sorted(less, s, start, p) else Sorted(less, s, p + 1, end)
    ensures if right then Framed(less, s, first, last, p + 1, end - 1) else Framed(less, s, first, last, start, p - 1)
  {
    forall i, j | first <= i < j <= last && start <= i && j < end && i <= p <= j ensures InOrder(less, s, i, j) {
      if i < p && p < j {
        assert !less(s[p], s[i]) && !less(s[j], s[p]);
      }
    }
  }

  lemma SplitOnePermuted<T>(less: (T, T) -> bool, s: seq<T>, t: seq<T>, start: int, p: int, end: int, lo: int, hi: int)
    requires SplitOne(less, s, start, p, end) && Permuted(s, t, lo, hi)
    requires (lo == start && hi == p) || (lo == p + 1 && hi == end)
    ensures SplitOne(less, t, start, p, end)
  {
    PermutedOutside(s, t, lo, hi, p);
    PermutedKeepsBounds(less, s, t, lo, hi, s[p]);
    forall i | start <= i < end && !(lo <= i < hi) ensures s[i] == t[i] {
      PermutedOutside(s, t, lo, hi, i);
    }
  }

  lemma SplitOneBounds<T>(less: (T, T) -> bool, s: seq<T>, start: int, p: int, end: int)
    requires SplitOne(less, s, start, p, end)
    ensures 0 <= start <= p < end <= |s|
  {
  }

  /** `depth` is how deep the calls below this one nest; the range is [first, last). */
  method SinglePivotQuickSort<T(!new)>(a: array<T>, first: int, last: int, less: (T, T) -> bool) returns (ghost depth: nat)
    requires StrictWeakOrder(less) && 0 <= first <= last <= a.Length
    modifies a
    ensures Permuted(old(a[..]), a[..], first, last) && Sorted(less, a[..], first, last)
    ensures Pow2(depth) <= AtLeastOne(last - first)
    decreases last - first, 1
  {
    hide StrictWeakOrder, Permuted, SplitOne, Framed, Sorted;
    ghost var s := a[..];
    var start, end := first, last;
    depth := 0;
    PermutedSelf(s, first, last);
    FramedAll(less, s, first, last - 1);
    while end - start > 1
      invariant first <= start <= end <= last
      invariant Permuted(s, a[..], first, last) && Framed(less, a[..], first, last - 1, start, end - 1)
      invariant Pow2(depth) <= AtLeastOne(last - first)
      decreases end - start
    {
      ghost var d;
      start, end, d := SortShorterPart(a, first, last, start, end, less, s);
      depth := Deeper(d, depth);
    }
    FramedSorted(less, a[..], first, last - 1, start, end - 1);
  }

  /** One pass of the loop: partition, recur into the shorter part, leave the other. */
  method SortShorterPart<T(!new)>(a: array<T>, first: int, last: int, start: int, end: int, less: (T, T) -> bool, ghost s: seq<T>)
    returns (start': int, end': int, ghost depth: nat)
    requires StrictWeakOrder(less) && 0 <= first <= start && start + 1 < end <= last <= a.Length
    requires Permuted(s, a[..], first, last) && Framed(less, a[..], first, last - 1, start, end - 1)
    modifies a
    ensures Permuted(s, a[..], first, last) && Framed(less, a[..], first, last - 1, start', end' - 1)
    ensures start <= start' <= end' <= end && end' - start' < end - start
    ensures Pow2(depth) <= end - start
    decreases end - start, 0
  {
    hide StrictWeakOrder, Permuted, SplitOne, Framed, Sorted;
    var p := PartitionFramed(a, first, last, start, end, less, s);
    SplitOneBounds(less, a[..], start, p, end);
    var size, i := end - start, p - start + 1;
    var lo, hi;
    if i > size / 2 {
      lo, hi := start + i, end;
      start', end' := start, start + i - 1;
    } else {
      lo, hi := start, start + i - 1;
      start', end' := start + i, end;
    }
    ghost var u := a[..];
    ghost var d := SinglePivotQuickSort(a, lo, hi, less);
    depth := d + 1;
    OnePartDone(less, s, u, a[..], first, last, start, p, end, i <= size / 2);
  }

  method PartitionFramed<T(!new)>(a: array<T>, ghost first: int, ghost last: int, start: int, end: int, less: (T, T) -> bool, ghost s: seq<T>)
    returns (p: int)
    requires StrictWeakOrder(less) && 0 <= first <= start && start + 1 < end <= last <= a.Length
    requires Permuted(s, a[..], first, last) && Framed(less, a[..], first, last - 1, start, end - 1)
    modifies a
    ensures Permuted(s, a[..], first, last) && Framed(less, a[..], first, last - 1, start, end - 1)
    ensures SplitOne(less, a[..], start, p, end)
  {
    hide StrictWeakOrder, Permuted, SplitOne, Framed;
    ghost var t := a[..];
    p := PartitionOne(a, start, end, less);
    FramedPermuted(less, t, a[..], first, last - 1, start, end - 1);
    PermutedWider(t, a[..], start, end, first, last);
    PermutedTwice(s, t, a[..], first, last);
  }

  /** With one part sorted, the other is all that is left. */
  lemma OnePartDone<T(!new)>(less: (T, T) -> bool, s: seq<T>, u: seq<T>, v: seq<T>, first: int, last: int, start: int, p: int, end: int, right: bool)
    requires StrictWeakOrder(less) && 0 <= first <= start && end <= last <= |u|
    requires Permuted(s, u, first, last) && Framed(less, u, first, last - 1, start, end - 1) && SplitOne(less, u, start, p, end)
    requires if right then Permuted(u, v, start, p) && Sorted(less, v, start, p)
             else Permuted(u, v, p + 1, end) && Sorted(less, v, p + 1, end)
    ensures Permuted(s, v, first, last)
    ensures if right then Framed(less, v, first, last - 1, p + 1, end - 1) else Framed(less, v, first, last - 1, start, p - 1)
  {
    hide StrictWeakOrder, Permuted, SplitOne, Framed, Sorted;
    SplitOneBounds(less, u, start, p, end);
    var lo, hi := if right then start else p + 1, if right then p else end;
    SplitOnePermuted(less, u, v, start, p, end, lo, hi);
    PermutedWider(u, v, lo, hi, start, end);
    FramedPermuted(less, u, v, first, last - 1, start, end - 1);
    PermutedWider(u, v, lo, hi, first, last);
    PermutedTwice(s, u, v, first, last);
    NarrowOne(less, v, first, last - 1, start, p, end, right);
  }
}
