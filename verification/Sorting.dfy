/** The two stable sorting routines: merge_sort.c and bubble_sort.c. */
module Sorting {
  import opened Order
  import opened StableSort

  // ---------- bubble sort ----------

  /** The elements from `i` on are sorted and not below anything before them. */
  ghost predicate SuffixDone<T>(fn: (T, T) -> int, s: seq<T>, i: int) {
    forall p, q :: 0 <= p < q < |s| && i <= q ==> fn(s[p], s[q]) <= 0
  }

  /** Nothing before position `j` is above the element there. */
  ghost predicate MaximumAt<T>(fn: (T, T) -> int, s: seq<T>, j: int) {
    forall p :: 0 <= p < j < |s| ==> fn(s[p], s[j]) <= 0
  }

  method BubbleSort<T(!new)>(a: array<T>, fn: (T, T) -> int)
    requires TotalPreorder(fn)
    modifies a
    ensures StableSortOf(fn, old(a[..]), a[..])
  {
    hide TotalPreorder;
    var len := a.Length;
    for i := 0 to len
      invariant SameTies(fn, old(a[..]), a[..])
      invariant SuffixDone(fn, a[..], len - i)
    {
      for j := 0 to len - 1 - i
        invariant SameTies(fn, old(a[..]), a[..])
        invariant SuffixDone(fn, a[..], len - i)
        invariant MaximumAt(fn, a[..], j)
      {
        ghost var before := a[..];
        if fn(a[j], a[j + 1]) > 0 {
          a[j], a[j + 1] := a[j + 1], a[j];
        }
        BubbleStep(fn, before, j, len - i, a[..]);
      }
    }
  }

  lemma BubbleStep<T(!new)>(fn: (T, T) -> int, s: seq<T>, j: nat, i: nat, t: seq<T>)
    requires TotalPreorder(fn)
    requires j + 1 < i <= |s| && SuffixDone(fn, s, i) && MaximumAt(fn, s, j)
    requires t == if fn(s[j], s[j + 1]) > 0 then s[j := s[j + 1]][j + 1 := s[j]] else s
    ensures SuffixDone(fn, t, i) && MaximumAt(fn, t, j + 1) && SameTies(fn, s, t)
  {
    if fn(s[j], s[j + 1]) > 0 {
      SwapNeighbours(fn, s, j, t);
      forall p, q | 0 <= p < q < |t| && i <= q
        ensures fn(t[p], t[q]) <= 0
      {
        var p' := if p == j then j + 1 else if p == j + 1 then j else p;
        assert t[p] == s[p'] && t[q] == s[q] && p' < q;
      }
    } else {
      forall p | 0 <= p < j + 1
        ensures fn(t[p], t[j + 1]) <= 0
      {
        assert p < j ==> fn(s[p], s[j]) <= 0;
      }
    }
  }

  // ---------- merge sort ----------

  /** Merging two runs; the left one goes first on a tie. */
  function Merged<T>(fn: (T, T) -> int, x: seq<T>, y: seq<T>): (r: seq<T>)
    ensures |r| == |x| + |y|
  {
    if x == [] then y
    else if y == [] then x
    else if fn(x[0], y[0]) <= 0 then [x[0]] + Merged(fn, x[1..], y)
    else [y[0]] + Merged(fn, x, y[1..])
  }

  lemma {:induction false} MergedMembers<T>(fn: (T, T) -> int, x: seq<T>, y: seq<T>, e: T)
    ensures e in Merged(fn, x, y) <==> e in x || e in y
  {
    if x != [] && y != [] {
      if fn(x[0], y[0]) <= 0 {
        MergedMembers(fn, x[1..], y, e);
      } else {
        MergedMembers(fn, x, y[1..], e);
      }
    }
  }

  /** Merging keeps, in each class of tied elements, the left run's before the right run's. */
  lemma {:induction false} MergedTies<T(!new)>(fn: (T, T) -> int, x: seq<T>, y: seq<T>, e: T)
    requires TotalPreorder(fn) && Sorted(fn, x)
    ensures Ties(fn, Merged(fn, x, y), e) == Ties(fn, x, e) + Ties(fn, y, e)
  {
    if x == [] || y == [] {
      TiesUnfold(fn, [], e);
      return;
    }
    var m := Merged(fn, x, y);
    TiesUnfold(fn, m, e);
    TiesUnfold(fn, x, e);
    TiesUnfold(fn, y, e);
    hide TotalPreorder, Sorted, Ties;
    if fn(x[0], y[0]) <= 0 {
      SortedTail(fn, x);
      MergedTies(fn, x[1..], y, e);
      assert m[1..] == Merged(fn, x[1..], y);
    } else {
      MergedTies(fn, x, y[1..], e);
      assert m[1..] == Merged(fn, x, y[1..]);
      if fn(y[0], e) == 0 {
        NoTiesAbove(fn, x, y[0], e);
      }
    }
  }

  lemma SortedTail<T>(fn: (T, T) -> int, x: seq<T>)
    requires x != [] && Sorted(fn, x)
    ensures Sorted(fn, x[1..])
  {
  }

  lemma {:induction false} MergedSorted<T(!new)>(fn: (T, T) -> int, x: seq<T>, y: seq<T>)
    requires TotalPreorder(fn) && Sorted(fn, x) && Sorted(fn, y)
    ensures Sorted(fn, Merged(fn, x, y))
  {
    if x != [] && y != [] {
      if fn(x[0], y[0]) <= 0 {
        MergedSorted(fn, x[1..], y);
        SortedCons(fn, x[0], x[1..], y);
      } else {
        MergedSorted(fn, x, y[1..]);
        SortedCons(fn, y[0], x, y[1..]);
      }
    }
  }

  /** Merging two sorted runs gives the stable sort of one followed by the other. */
  lemma MergedIsStableSort<T(!new)>(fn: (T, T) -> int, x: seq<T>, y: seq<T>)
    requires TotalPreorder(fn) && Sorted(fn, x) && Sorted(fn, y)
    ensures StableSortOf(fn, x + y, Merged(fn, x, y))
  {
    hide TotalPreorder;
    MergedSorted(fn, x, y);
    forall e: T
      ensures Ties(fn, x + y, e) == Ties(fn, Merged(fn, x, y), e)
    {
      TiesConcat(fn, x, y, e);
      MergedTies(fn, x, y, e);
    }
  }

  lemma SortedCons<T(!new)>(fn: (T, T) -> int, h: T, x: seq<T>, y: seq<T>)
    requires TotalPreorder(fn) && Sorted(fn, Merged(fn, x, y)) && Sorted(fn, x) && Sorted(fn, y)
    requires x == [] || fn(h, x[0]) <= 0
    requires y == [] || fn(h, y[0]) <= 0
    ensures Sorted(fn, [h] + Merged(fn, x, y))
  {
    hide Merged, TotalPreorder, Sorted;
    var m := Merged(fn, x, y);
    forall i | 0 <= i < |m|
      ensures fn(h, m[i]) <= 0
    {
      MergedMembers(fn, x, y, m[i]);
      if m[i] in x {
        BelowFirst(fn, h, x, m[i]);
      } else {
        BelowFirst(fn, h, y, m[i]);
      }
    }
    SortedBelow(fn, h, m);
  }

  lemma BelowFirst<T(!new)>(fn: (T, T) -> int, h: T, x: seq<T>, e: T)
    requires TotalPreorder(fn) && Sorted(fn, x) && e in x && fn(h, x[0]) <= 0
    ensures fn(h, e) <= 0
  {
    assert fn(x[0], x[0]) == 0;
    assert fn(x[0], e) <= 0;
  }

  lemma SortedBelow<T>(fn: (T, T) -> int, h: T, m: seq<T>)
    requires Sorted(fn, m) && forall i :: 0 <= i < |m| ==> fn(h, m[i]) <= 0
    ensures Sorted(fn, [h] + m)
  {
  }

  lemma NoTiesAbove<T(!new)>(fn: (T, T) -> int, x: seq<T>, h: T, e: T)
    requires TotalPreorder(fn) && Sorted(fn, x) && x != [] && fn(x[0], h) > 0 && fn(h, e) == 0
    ensures Ties(fn, x, e) == []
  {
    var x0 := x[0];
    assert fn(x0, x0) == 0 && fn(e, h) <= 0;
    forall y | y in x
      ensures fn(y, e) != 0
    {
      assert fn(x0, y) <= 0 && fn(y, e) == 0 ==> fn(x0, e) <= 0;
    }
    TiesOfNone(fn, x, e);
  }

  /** `memcpy` between two arrays. */
  method Copy<T>(src: array<T>, from: nat, dst: array<T>, to: nat, n: nat)
    requires src != dst && from + n <= src.Length && to + n <= dst.Length
    modifies dst
    ensures dst[..] == old(dst[..to]) + src[from..from + n] + old(dst[to + n..])
  {
    forall t | 0 <= t < n {
      dst[to + t] := src[from + t];
    }
  }

  /** Merges `a[l..m]` and `a[m + 1..r]` (bounds inclusive) through the scratch buffer. */
  method Merge<T(!new)>(a: array<T>, l: nat, m: nat, r: nat, tmp: array<T>, fn: (T, T) -> int)
    requires l <= m < r < a.Length <= tmp.Length && a != tmp
    modifies a, tmp
    ensures a[..] == old(a[..l]) + Merged(fn, old(a[l..m + 1]), old(a[m + 1..r + 1])) + old(a[r + 1..])
  {
    hide Merged;
    var n1, n2 := m - l + 1, r - m;
    ghost var p, x, y, q := a[..l], a[l..m + 1], a[m + 1..r + 1], a[r + 1..];
    Copy(a, l, tmp, 0, n1);
    Copy(a, m + 1, tmp, n1, n2);
    assert tmp[..n1] == x && tmp[n1..n1 + n2] == y;
    var i, j, k, done := MergeLoop(a, l, tmp, n1, n2, fn, x, y, p, q);
    MergedEnd(fn, x, y, i, j, p, done, q, Merged(fn, x, y));
    MergeRest(a, k, r, tmp, i, n1, n1 + j, n1 + n2, p + done, x[i..], y[j..], q);
  }

  /** The merging loop, which stops when one of the two runs is exhausted. */
  method MergeLoop<T(!new)>(a: array<T>, l: nat, tmp: array<T>, n1: nat, n2: nat, fn: (T, T) -> int,
                            ghost x: seq<T>, ghost y: seq<T>, ghost p: seq<T>, ghost q: seq<T>)
      returns (i: nat, j: nat, k: nat, ghost done: seq<T>)
    requires a != tmp && l + n1 + n2 <= a.Length && n1 + n2 <= tmp.Length
    requires tmp[..n1] == x && tmp[n1..n1 + n2] == y && a[..l] == p && a[l + n1 + n2..] == q
    modifies a
    ensures i <= n1 && j <= n2 && k == l + i + j && (i == n1 || j == n2)
    ensures a[..k] == p + done && a[l + n1 + n2..] == q
    ensures tmp[i..n1] == x[i..] && tmp[n1 + j..n1 + n2] == y[j..]
    ensures Merged(fn, x, y) == done + Merged(fn, x[i..], y[j..])
  {
    hide Merged;
    i, j, k, done := 0, 0, l, [];
    MergedStart(fn, x, y);
    while i < n1 && j < n2
      invariant 0 <= i <= n1 && 0 <= j <= n2 && k == l + i + j && |done| == i + j
      invariant a[..k] == p + done && a[l + n1 + n2..] == q
      invariant Merged(fn, x, y) == done + Merged(fn, x[i..], y[j..])
      decreases n1 + n2 - i - j
    {
      ghost var before, next := a[..], if fn(x[i], y[j]) <= 0 then x[i] else y[j];
      MergedStep(fn, x, y, i, j, done);
      if fn(tmp[i], tmp[n1 + j]) <= 0 {
        a[k] := tmp[i];
        i := i + 1;
      } else {
        a[k] := tmp[n1 + j];
        j := j + 1;
      }
      StoreNext(before, p, done, k, next, a[..]);
      done := done + [next];
      k := k + 1;
    }
    assert tmp[i..n1] == tmp[..n1][i..] && tmp[n1 + j..n1 + n2] == tmp[n1..n1 + n2][j..];
  }

  lemma MergedStart<T>(fn: (T, T) -> int, x: seq<T>, y: seq<T>)
    ensures Merged(fn, x, y) == [] + Merged(fn, x[0..], y[0..])
  {
    assert x[0..] == x && y[0..] == y;
  }

  lemma MergedStep<T>(fn: (T, T) -> int, x: seq<T>, y: seq<T>, i: nat, j: nat, done: seq<T>)
    requires i < |x| && j < |y|
    ensures done + Merged(fn, x[i..], y[j..]) ==
            if fn(x[i], y[j]) <= 0 then (done + [x[i]]) + Merged(fn, x[i + 1..], y[j..])
            else (done + [y[j]]) + Merged(fn, x[i..], y[j + 1..])
  {
    assert x[i..][1..] == x[i + 1..] && y[j..][1..] == y[j + 1..];
  }

  lemma MergedEnd<T>(fn: (T, T) -> int, x: seq<T>, y: seq<T>, i: nat, j: nat, p: seq<T>, done: seq<T>, q: seq<T>,
                     whole: seq<T>)
    requires i <= |x| && j <= |y| && (i == |x| || j == |y|)
    requires whole == done + Merged(fn, x[i..], y[j..])
    ensures (p + done) + (x[i..] + y[j..]) + q == p + whole + q
  {
    assert Merged(fn, x[i..], y[j..]) == x[i..] + y[j..];
  }

  lemma StoreNext<T>(s: seq<T>, p: seq<T>, done: seq<T>, k: nat, v: T, t: seq<T>)
    requires k < |s| && s[..k] == p + done && t == s[k := v]
    ensures t[..k + 1] == p + (done + [v])
  {
  }

  /** The copies after the merging loop: what is left of the one run that is not exhausted. */
  method MergeRest<T>(a: array<T>, k: nat, r: nat, tmp: array<T>, i: nat, n1: nat, j: nat, n2: nat,
                      ghost p: seq<T>, ghost x: seq<T>, ghost y: seq<T>, ghost q: seq<T>)
    requires a != tmp && k <= r + 1 <= a.Length && i <= n1 <= j <= n2 <= tmp.Length
    requires (n1 - i) + (n2 - j) == r + 1 - k && (i == n1 || j == n2)
    requires a[..k] == p && tmp[i..n1] == x && tmp[j..n2] == y && a[r + 1..] == q
    modifies a
    ensures a[..] == p + (x + y) + q
  {
    if i < n1 {
      Copy(tmp, i, a, k, n1 - i);
    }
    if j < n2 {
      Copy(tmp, j, a, k, n2 - j);
    }
  }

  /** Two sorted halves that already meet in order need no merging: side by side they are sorted. */
  lemma MeetInOrder<T(!new)>(fn: (T, T) -> int, x: seq<T>, y: seq<T>)
    requires TotalPreorder(fn) && Sorted(fn, x) && Sorted(fn, y)
    requires x != [] && y != [] && fn(x[|x| - 1], y[0]) <= 0
    ensures StableSortOf(fn, x + y, x + y)
    ensures Merged(fn, x, y) == x + y
  {
    var z, xn, y0 := x + y, x[|x| - 1], y[0];
    assert fn(xn, xn) == 0 && fn(y0, y0) == 0;
    forall i, j | 0 <= i < j < |z|
      ensures fn(z[i], z[j]) <= 0
    {
      if i < |x| <= j {
        assert fn(x[i], xn) <= 0 && fn(y0, y[j - |x|]) <= 0;
        assert fn(x[i], y0) <= 0;
      }
    }
    MergedIsStableSort(fn, x, y);
    StableSortIsUnique(fn, Merged(fn, x, y), z);
  }

  lemma SortedHalvesMerge<T(!new)>(fn: (T, T) -> int, u: seq<T>, v: seq<T>, x: seq<T>, y: seq<T>)
    requires TotalPreorder(fn) && StableSortOf(fn, u, x) && StableSortOf(fn, v, y)
    ensures StableSortOf(fn, u + v, Merged(fn, x, y))
  {
    hide TotalPreorder;
    MergedIsStableSort(fn, x, y);
    forall e: T
      ensures Ties(fn, u + v, e) == Ties(fn, Merged(fn, x, y), e)
    {
      TiesConcat(fn, u, v, e);
      TiesConcat(fn, x, y, e);
    }
  }

  method MergeRange<T(!new)>(a: array<T>, l: nat, r: nat, tmp: array<T>, fn: (T, T) -> int)
    requires TotalPreorder(fn)
    requires l <= r < a.Length <= tmp.Length && a != tmp
    modifies a, tmp
    ensures a[..l] == old(a[..l]) && a[r + 1..] == old(a[r + 1..])
    ensures StableSortOf(fn, old(a[l..r + 1]), a[l..r + 1])
    decreases r - l
  {
    hide TotalPreorder, Sorted, SameTies, Merged;
    ghost var was := a[..];
    if l < r {
      var m := l + (r - l) / 2;
      MergeRange(a, l, m, tmp, fn);
      ghost var mid := a[..];
      MergeRange(a, m + 1, r, tmp, fn);
      ghost var x, y := a[l..m + 1], a[m + 1..r + 1];
      HalvesApart(was, mid, a[..], l, m, r);
      if fn(a[m], a[m + 1]) > 0 {
        Merge(a, l, m, r, tmp, fn);
      } else {
        MeetInOrder(fn, x, y);
        assert a[l..r + 1] == x + y;
      }
      assert a[l..r + 1] == Merged(fn, x, y);
      SortedHalvesMerge(fn, was[l..m + 1], was[m + 1..r + 1], x, y);
    } else {
      AlreadySorted(fn, a[l..r + 1]);
    }
  }

  /** Sorting the right half disturbs neither the left one nor what is outside. */
  lemma HalvesApart<T>(was: seq<T>, mid: seq<T>, now: seq<T>, l: nat, m: nat, r: nat)
    requires l <= m < r < |was| == |mid| == |now|
    requires mid[..l] == was[..l] && mid[m + 1..] == was[m + 1..]
    requires now[..m + 1] == mid[..m + 1] && now[r + 1..] == mid[r + 1..]
    ensures was[m + 1..r + 1] == mid[m + 1..r + 1] && now[l..m + 1] == mid[l..m + 1]
    ensures now[..l] == was[..l] && now[r + 1..] == was[r + 1..]
    ensures was[l..r + 1] == was[l..m + 1] + was[m + 1..r + 1]
  {
    assert was[m + 1..r + 1] == was[m + 1..][..r - m] && mid[m + 1..r + 1] == mid[m + 1..][..r - m];
    assert now[l..m + 1] == now[..m + 1][l..] && mid[l..m + 1] == mid[..m + 1][l..];
    assert now[..l] == now[..m + 1][..l] && mid[..l] == mid[..m + 1][..l];
    assert mid[r + 1..] == mid[m + 1..][r - m..] && was[r + 1..] == was[m + 1..][r - m..];
  }

  lemma AlreadySorted<T(!new)>(fn: (T, T) -> int, s: seq<T>)
    requires |s| <= 1
    ensures StableSortOf(fn, s, s)
  {
  }

  /** The length must be positive: the last index is `len - 1` in an unsigned type. */
  method MergeSort<T(!new)>(a: array<T>, zero: T, fn: (T, T) -> int)
    requires TotalPreorder(fn) && a.Length > 0
    modifies a
    ensures StableSortOf(fn, old(a[..]), a[..])
  {
    var tmp := new T[a.Length](_ => zero);
    MergeRange(a, 0, a.Length - 1, tmp, fn);
    assert a[0..a.Length] == a[..];
    assert old(a[0..a.Length]) == old(a[..]);
  }

  /** Merge sort and bubble sort leave identical arrays, whatever elements tie. */
  lemma StableSortsAgree<T(!new)>(fn: (T, T) -> int, s: seq<T>, merged: seq<T>, bubbled: seq<T>)
    requires TotalPreorder(fn)
    requires StableSortOf(fn, s, merged) && StableSortOf(fn, s, bubbled)
    ensures merged == bubbled && multiset(merged) == multiset(s)
  {
    StableSortIsUnique(fn, merged, bubbled);
    SameTiesIsPermutation(fn, s, merged);
  }

  /** Both sorts, on two arrays that hold the same. */
  method SortBothWays<T(!new)>(a: array<T>, b: array<T>, zero: T, fn: (T, T) -> int)
    requires TotalPreorder(fn) && a.Length > 0 && a != b && a[..] == b[..]
    modifies a, b
    ensures a[..] == b[..] && StableSortOf(fn, old(a[..]), a[..])
  {
    hide TotalPreorder, StableSortOf;
    ghost var s := a[..];
    MergeSort(a, zero, fn);
    BubbleSort(b, fn);
    StableSortsAgree(fn, s, a[..], b[..]);
  }
}
