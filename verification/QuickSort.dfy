/** quick_sort.c: partitioning around the last element, recursion into the smaller side only. */
module QuickSort {
  import opened Arithmetic
  import opened Order

  /** `t` is `s` with the elements from `lo` to `hi` (inclusive) rearranged. */
  ghost predicate PermutedIn<T>(s: seq<T>, t: seq<T>, lo: int, hi: int) {
    && |s| == |t| && 0 <= lo <= hi + 1 <= |s|
    && s[..lo] == t[..lo] && s[hi + 1..] == t[hi + 1..]
    && multiset(s[lo..hi + 1]) == multiset(t[lo..hi + 1])
  }

  /** Every pair in `[l, h]` is in order, unless both of its elements lie in `[lo, hi]`. */
  ghost predicate OrderedOutside<T>(fn: (T, T) -> int, s: seq<T>, l: int, h: int, lo: int, hi: int) {
    forall i, j :: 0 <= l <= i < j <= h < |s| && !(lo <= i && j <= hi) ==> fn(s[i], s[j]) <= 0
  }

  ghost predicate PartitionedAt<T>(fn: (T, T) -> int, s: seq<T>, lo: int, hi: int, p: int) {
    && 0 <= lo <= p <= hi < |s|
    && (forall i :: lo <= i < p ==> fn(s[i], s[p]) <= 0)
    && (forall i :: p < i <= hi ==> fn(s[i], s[p]) > 0)
  }

  lemma PermutedMember<T>(s: seq<T>, t: seq<T>, lo: int, hi: int, i: int) returns (k: int)
    requires PermutedIn(s, t, lo, hi) && 0 <= i < |t|
    ensures 0 <= k < |s| && s[k] == t[i]
    ensures if lo <= i <= hi then lo <= k <= hi else k == i
  {
    if lo <= i <= hi {
      assert t[i] in multiset(t[lo..hi + 1]);
      assert t[i] in s[lo..hi + 1];
      k :| lo <= k <= hi && s[k] == t[i];
    } else {
      k := i;
      assert i < lo ==> s[i] == s[..lo][i] == t[..lo][i];
      assert i > hi ==> s[i] == s[hi + 1..][i - hi - 1] == t[hi + 1..][i - hi - 1];
    }
  }

  lemma PermutedTrans<T>(s: seq<T>, t: seq<T>, u: seq<T>, lo: int, hi: int)
    requires PermutedIn(s, t, lo, hi) && PermutedIn(t, u, lo, hi)
    ensures PermutedIn(s, u, lo, hi)
  {
  }

  lemma PermutedWiden<T>(s: seq<T>, t: seq<T>, lo: int, hi: int, l: int, h: int)
    requires PermutedIn(s, t, lo, hi) && 0 <= l <= lo && hi <= h < |s|
    ensures PermutedIn(s, t, l, h)
  {
    assert s[..l] == s[..lo][..l] && t[..l] == t[..lo][..l];
    assert s[h + 1..] == s[hi + 1..][h - hi..] && t[h + 1..] == t[hi + 1..][h - hi..];
    assert s[l..h + 1] == s[..lo][l..] + s[lo..hi + 1] + s[hi + 1..][..h - hi];
    assert t[l..h + 1] == t[..lo][l..] + t[lo..hi + 1] + t[hi + 1..][..h - hi];
  }

  lemma SwapPermutes<T>(s: seq<T>, i: int, j: int, lo: int, hi: int)
    requires 0 <= lo <= i <= j <= hi < |s|
    ensures PermutedIn(s, s[i := s[j]][j := s[i]], lo, hi)
  {
    var t := s[i := s[j]][j := s[i]];
    assert s[..lo] == t[..lo] && s[hi + 1..] == t[hi + 1..];
    var r := s[lo..hi + 1];
    assert t[lo..hi + 1] == r[i - lo := r[j - lo]][j - lo := r[i - lo]];
  }

  /** Rearranging inside the hole leaves the order outside it. */
  lemma OrderedAfterPermuting<T>(fn: (T, T) -> int, s: seq<T>, t: seq<T>, l: int, h: int, lo: int, hi: int)
    requires OrderedOutside(fn, s, l, h, lo, hi) && PermutedIn(s, t, lo, hi) && l <= lo && hi <= h
    ensures OrderedOutside(fn, t, l, h, lo, hi)
  {
    forall i, j | 0 <= l <= i < j <= h < |t| && !(lo <= i && j <= hi)
      ensures fn(t[i], t[j]) <= 0
    {
      hide PermutedIn;
      var i' := PermutedMember(s, t, lo, hi, i);
      var j' := PermutedMember(s, t, lo, hi, j);
      PermutedLength(s, t, lo, hi);
      assert fn(s[i'], s[j']) <= 0;
    }
  }

  lemma PermutedLength<T>(s: seq<T>, t: seq<T>, lo: int, hi: int)
    requires PermutedIn(s, t, lo, hi)
    ensures |s| == |t| && 0 <= lo <= hi + 1 <= |s|
  {
  }

  /** After partitioning, a pair out of order must lie on one side of the pivot. */
  lemma PartitionOrders<T(!new)>(fn: (T, T) -> int, s: seq<T>, l: int, h: int, lo: int, hi: int, p: int, i: int, j: int)
    requires TotalPreorder(fn)
    requires 0 <= l <= lo <= hi <= h < |s|
    requires OrderedOutside(fn, s, l, h, lo, hi) && PartitionedAt(fn, s, lo, hi, p)
    requires l <= i < j <= h && !(lo <= i && j < p) && !(p < i && j <= hi)
    ensures fn(s[i], s[j]) <= 0
  {
    if lo <= i && j <= hi {
      assert i < p ==> fn(s[i], s[p]) <= 0;
      assert p < j ==> fn(s[p], s[j]) < 0;
    }
  }

  lemma SortedSlice<T>(fn: (T, T) -> int, t: seq<T>, lo: int, hi: int, i: int, j: int)
    requires 0 <= lo <= i < j < hi <= |t| && Sorted(fn, t[lo..hi])
    ensures fn(t[i], t[j]) <= 0
  {
    assert t[i] == t[lo..hi][i - lo] && t[j] == t[lo..hi][j - lo];
  }

  /** Once the side `[u, v]` of the pivot is sorted, a pair out of order must lie on the other side. */
  lemma SideSorted<T(!new)>(fn: (T, T) -> int, s: seq<T>, t: seq<T>, l: int, h: int, lo: int, hi: int, p: int,
                            u: int, v: int, i: int, j: int)
    requires TotalPreorder(fn)
    requires 0 <= l <= lo <= hi <= h < |s|
    requires OrderedOutside(fn, s, l, h, lo, hi) && PartitionedAt(fn, s, lo, hi, p)
    requires (u == lo && v == p - 1) || (u == p + 1 && v == hi)
    requires PermutedIn(s, t, u, v) && Sorted(fn, t[u..v + 1])
    requires l <= i < j <= h < |t|
    requires if u == lo then !(p < i && j <= hi) else !(lo <= i && j < p)
    ensures fn(t[i], t[j]) <= 0
  {
    hide TotalPreorder, OrderedOutside, PermutedIn, Sorted;
    PermutedLength(s, t, u, v);
    if u <= i && j <= v {
      SortedSlice(fn, t, u, v + 1, i, j);
    } else {
      var i' := PermutedMember(s, t, u, v, i);
      var j' := PermutedMember(s, t, u, v, j);
      PartitionOrders(fn, s, l, h, lo, hi, p, i', j');
    }
  }

  lemma LowerSideSorted<T(!new)>(fn: (T, T) -> int, s: seq<T>, t: seq<T>, l: int, h: int, lo: int, hi: int, p: int)
    requires TotalPreorder(fn)
    requires 0 <= l <= lo <= hi <= h < |s|
    requires OrderedOutside(fn, s, l, h, lo, hi) && PartitionedAt(fn, s, lo, hi, p)
    requires PermutedIn(s, t, lo, p - 1) && Sorted(fn, t[lo..p])
    ensures OrderedOutside(fn, t, l, h, p + 1, hi)
  {
    hide TotalPreorder, PermutedIn, Sorted, PartitionedAt;
    PivotInRange(fn, s, lo, hi, p);
    forall i, j | 0 <= l <= i < j <= h < |t| && !(p + 1 <= i && j <= hi)
      ensures fn(t[i], t[j]) <= 0
    {
      hide *;
      SideSorted(fn, s, t, l, h, lo, hi, p, lo, p - 1, i, j);
    }
  }

  lemma UpperSideSorted<T(!new)>(fn: (T, T) -> int, s: seq<T>, t: seq<T>, l: int, h: int, lo: int, hi: int, p: int)
    requires TotalPreorder(fn)
    requires 0 <= l <= lo <= hi <= h < |s|
    requires OrderedOutside(fn, s, l, h, lo, hi) && PartitionedAt(fn, s, lo, hi, p)
    requires PermutedIn(s, t, p + 1, hi) && Sorted(fn, t[p + 1..hi + 1])
    ensures OrderedOutside(fn, t, l, h, lo, p - 1)
  {
    hide TotalPreorder, PermutedIn, Sorted, PartitionedAt;
    PivotInRange(fn, s, lo, hi, p);
    forall i, j | 0 <= l <= i < j <= h < |t| && !(lo <= i && j <= p - 1)
      ensures fn(t[i], t[j]) <= 0
    {
      hide *;
      SideSorted(fn, s, t, l, h, lo, hi, p, p + 1, hi, i, j);
    }
  }

  method Partition<T>(a: array<T>, lo: int, hi: int, fn: (T, T) -> int) returns (idx: int)
    requires 0 <= lo <= hi < a.Length
    modifies a
    ensures PermutedIn(old(a[..]), a[..], lo, hi)
    ensures PartitionedAt(fn, a[..], lo, hi, idx)
  {
    hide PermutedIn;
    idx := lo - 1;
    ghost var was, pivot := a[..], a[hi];
    PermutedRefl(a[..], lo, hi);
    for i := lo to hi
      invariant lo - 1 <= idx < i && a[hi] == pivot
      invariant PermutedIn(was, a[..], lo, hi)
      invariant forall k :: lo <= k <= idx ==> fn(a[k], pivot) <= 0
      invariant forall k :: idx < k < i ==> fn(a[k], pivot) > 0
    {
      if fn(a[i], a[hi]) <= 0 {
        idx := idx + 1;
        SwapIn(a, idx, i, lo, hi, was);
      }
    }
    idx := idx + 1;
    SwapIn(a, idx, hi, lo, hi, was);
  }

  /** The `swap` macro, applied inside a range that is a rearrangement of `was`. */
  method SwapIn<T>(a: array<T>, i: int, j: int, lo: int, hi: int, ghost was: seq<T>)
    requires 0 <= lo <= i <= j <= hi < a.Length && PermutedIn(was, a[..], lo, hi)
    modifies a
    ensures PermutedIn(was, a[..], lo, hi)
    ensures a[..] == old(a[..])[i := old(a[j])][j := old(a[i])]
  {
    ghost var before := a[..];
    a[i], a[j] := a[j], a[i];
    SwapPermutes(before, i, j, lo, hi);
    PermutedTrans(was, before, a[..], lo, hi);
  }

  lemma PermutedRefl<T>(s: seq<T>, lo: int, hi: int)
    requires 0 <= lo <= hi + 1 <= |s|
    ensures PermutedIn(s, s, lo, hi)
  {
  }

  /** Recursive calls nest at most `budget` deep below this one. */
  method QuickSortRange<T(!new)>(a: array<T>, lo0: int, hi0: int, fn: (T, T) -> int, ghost budget: nat)
    requires TotalPreorder(fn)
    requires 0 <= lo0 <= hi0 + 1 <= a.Length
    requires hi0 - lo0 + 2 < 2 * Pow2(budget)
    modifies a
    ensures PermutedIn(old(a[..]), a[..], lo0, hi0)
    ensures Sorted(fn, a[lo0..hi0 + 1])
    decreases budget
  {
    hide TotalPreorder, PermutedIn, PartitionedAt, OrderedOutside, Sorted, Pow2;
    HalfBudget(budget);
    var lo, hi := lo0, hi0;
    NothingOutside(fn, a[..], lo, hi);
    ghost var was := a[..];
    PermutedRefl(a[..], lo, hi);
    while lo < hi
      invariant lo0 <= lo <= hi + 1 <= hi0 + 1
      invariant PermutedIn(was, a[..], lo0, hi0)
      invariant OrderedOutside(fn, a[..], lo0, hi0, lo, hi)
    {
      ghost var s0 := a[..];
      var pivot := Partition(a, lo, hi, fn);
      ghost var s1 := a[..];
      assert lo <= pivot <= hi by { PivotInRange(fn, s1, lo, hi, pivot); }
      if pivot - lo < hi - pivot {
        QuickSortRange(a, lo, pivot - 1, fn, budget - 1);
        LowerDone(fn, was, s0, s1, a[..], lo0, hi0, lo, hi, pivot);
        lo, hi := pivot + 1, hi;
      } else {
        QuickSortRange(a, pivot + 1, hi, fn, budget - 1);
        UpperDone(fn, was, s0, s1, a[..], lo0, hi0, lo, hi, pivot);
        lo, hi := lo, pivot - 1;
      }
    }
    NothingLeftInside(fn, a[..], lo0, hi0, lo, hi);
  }

  /** A range of two elements or more leaves a budget for its smaller side. */
  lemma HalfBudget(budget: nat)
    ensures budget == 0 ==> Pow2(budget) == 1
    ensures budget > 0 ==> Pow2(budget) == 2 * Pow2(budget - 1)
  {
  }

  /** One turn of the loop: partitioned from `s0` to `s1`, and the lower side sorted in `t`. */
  lemma LowerDone<T(!new)>(fn: (T, T) -> int, was: seq<T>, s0: seq<T>, s1: seq<T>, t: seq<T>,
                           l: int, h: int, lo: int, hi: int, p: int)
    requires TotalPreorder(fn) && 0 <= l <= lo <= hi <= h < |s1|
    requires PermutedIn(was, s0, l, h) && OrderedOutside(fn, s0, l, h, lo, hi)
    requires PermutedIn(s0, s1, lo, hi) && PartitionedAt(fn, s1, lo, hi, p)
    requires PermutedIn(s1, t, lo, p - 1) && Sorted(fn, t[lo..p])
    ensures PermutedIn(was, t, l, h) && OrderedOutside(fn, t, l, h, p + 1, hi)
  {
    hide *;
    PivotInRange(fn, s1, lo, hi, p);
    OrderedAfterPermuting(fn, s0, s1, l, h, lo, hi);
    LowerSideSorted(fn, s1, t, l, h, lo, hi, p);
    PermutedLength(s0, s1, lo, hi);
    PermutedWiden(s1, t, lo, p - 1, lo, hi);
    PermutedTrans(s0, s1, t, lo, hi);
    PermutedWiden(s0, t, lo, hi, l, h);
    PermutedTrans(was, s0, t, l, h);
  }

  /** The same with the upper side. */
  lemma UpperDone<T(!new)>(fn: (T, T) -> int, was: seq<T>, s0: seq<T>, s1: seq<T>, t: seq<T>,
                           l: int, h: int, lo: int, hi: int, p: int)
    requires TotalPreorder(fn) && 0 <= l <= lo <= hi <= h < |s1|
    requires PermutedIn(was, s0, l, h) && OrderedOutside(fn, s0, l, h, lo, hi)
    requires PermutedIn(s0, s1, lo, hi) && PartitionedAt(fn, s1, lo, hi, p)
    requires PermutedIn(s1, t, p + 1, hi) && Sorted(fn, t[p + 1..hi + 1])
    ensures PermutedIn(was, t, l, h) && OrderedOutside(fn, t, l, h, lo, p - 1)
  {
    hide *;
    PivotInRange(fn, s1, lo, hi, p);
    OrderedAfterPermuting(fn, s0, s1, l, h, lo, hi);
    UpperSideSorted(fn, s1, t, l, h, lo, hi, p);
    PermutedLength(s0, s1, lo, hi);
    PermutedWiden(s1, t, p + 1, hi, lo, hi);
    PermutedTrans(s0, s1, t, lo, hi);
    PermutedWiden(s0, t, lo, hi, l, h);
    PermutedTrans(was, s0, t, l, h);
  }

  lemma NothingOutside<T>(fn: (T, T) -> int, s: seq<T>, lo: int, hi: int)
    ensures OrderedOutside(fn, s, lo, hi, lo, hi)
  {
  }

  lemma NothingLeftInside<T>(fn: (T, T) -> int, s: seq<T>, l: int, h: int, lo: int, hi: int)
    requires 0 <= l <= h + 1 <= |s| && OrderedOutside(fn, s, l, h, lo, hi) && lo >= hi
    ensures Sorted(fn, s[l..h + 1])
  {
  }

  lemma PivotInRange<T>(fn: (T, T) -> int, s: seq<T>, lo: int, hi: int, p: int)
    requires PartitionedAt(fn, s, lo, hi, p)
    ensures lo <= p <= hi
  {
  }

  /** The binary logarithm, rounded down. */
  ghost function Log2(n: nat): (d: nat)
    requires n > 0
    ensures Pow2(d) <= n < 2 * Pow2(d)
  {
    if n == 1 then 0 else Log2(n / 2) + 1
  }

  /** The nesting is bounded by the binary logarithm of the length plus one. */
  method Sort<T(!new)>(a: array<T>, fn: (T, T) -> int)
    requires TotalPreorder(fn)
    modifies a
    ensures Sorted(fn, a[..]) && multiset(a[..]) == multiset(old(a[..]))
  {
    QuickSortRange(a, 0, a.Length - 1, fn, Log2(a.Length + 1));
    assert a[0..a.Length] == a[..];
    assert old(a[0..a.Length]) == old(a[..]);
  }
}
