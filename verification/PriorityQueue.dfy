/** pq.c: a priority queue in an array.  Insertion sweeps the whole array once; deletion sifts the
    root down, with two early exits that can leave the heap order broken at one node. */
module PriorityQueue {
  import opened Order

  function Parent(i: int): int {
    (i - 1) / 2
  }

  function Sibling(i: int): int {
    if i % 2 == 1 then i + 1 else i - 1
  }

  function Swap<T>(s: seq<T>, i: nat, j: nat): (t: seq<T>)
    requires i < |s| && j < |s|
    ensures |t| == |s| && multiset(t) == multiset(s)
  {
    s[i := s[j]][j := s[i]]
  }

  /** The loop of `heapify_up`: every index from `idx` down to 1 is compared with its parent. */
  function SweepUp<T>(fn: (T, T) -> int, s: seq<T>, idx: nat): (t: seq<T>)
    requires idx < |s|
    ensures |t| == |s| && multiset(t) == multiset(s)
    decreases idx
  {
    if idx == 0 then s
    else
      var p := Parent(idx);
      SweepUp(fn, if fn(s[p], s[idx]) > 0 then Swap(s, idx, p) else s, idx - 1)
  }

  /** The loop of `heapify_down`. */
  function SiftDown<T>(fn: (T, T) -> int, s: seq<T>, idx: nat): (t: seq<T>)
    ensures |t| == |s| && multiset(t) == multiset(s)
    decreases |s| - idx
  {
    var l, r := 2 * idx + 1, 2 * idx + 2;
    if r >= |s| then s
    else if fn(s[r], s[l]) < 0 && fn(s[r], s[idx]) < 0 then SiftDown(fn, Swap(s, idx, r), r)
    else if fn(s[r], s[l]) > 0 && fn(s[l], s[idx]) < 0 then SiftDown(fn, Swap(s, idx, l), l)
    else s
  }

  lemma SweepUpStep<T>(fn: (T, T) -> int, s: seq<T>, idx: nat)
    requires idx < |s|
    ensures idx == 0 ==> SweepUp(fn, s, idx) == s
    ensures idx > 0 ==> 0 <= Parent(idx) < idx
    ensures idx > 0 && fn(s[Parent(idx)], s[idx]) <= 0 ==> SweepUp(fn, s, idx) == SweepUp(fn, s, idx - 1)
    ensures idx > 0 && fn(s[Parent(idx)], s[idx]) > 0 ==>
              SweepUp(fn, s, idx) == SweepUp(fn, Swap(s, idx, Parent(idx)), idx - 1)
  {
  }

  lemma SiftDownStep<T>(fn: (T, T) -> int, s: seq<T>, idx: nat)
    ensures var l, r := 2 * idx + 1, 2 * idx + 2;
            SiftDown(fn, s, idx) ==
            if r >= |s| then s
            else if fn(s[r], s[l]) < 0 && fn(s[r], s[idx]) < 0 then SiftDown(fn, Swap(s, idx, r), r)
            else if fn(s[r], s[l]) > 0 && fn(s[l], s[idx]) < 0 then SiftDown(fn, Swap(s, idx, l), l)
            else s
  {
  }

  function Inserted<T>(fn: (T, T) -> int, s: seq<T>, v: T): seq<T> {
    SweepUp(fn, s + [v], |s|)
  }

  /** The array handed to `heapify_down`: the last element has replaced the root. */
  function LastToRoot<T>(s: seq<T>): (t: seq<T>)
    requires |s| > 1
    ensures |t| == |s| - 1
  {
    s[..|s| - 1][0 := s[|s| - 1]]
  }

  function Deleted<T>(fn: (T, T) -> int, s: seq<T>): seq<T>
    requires s != []
  {
    if |s| == 1 then [] else SiftDown(fn, LastToRoot(s), 0)
  }

  lemma DeletedMultiset<T>(fn: (T, T) -> int, s: seq<T>)
    requires s != []
    ensures multiset(s) == multiset{s[0]} + multiset(Deleted(fn, s))
  {
    var n := |s| - 1;
    if n > 0 {
      assert s == [s[0]] + s[1..n] + [s[n]];
      assert LastToRoot(s) == [s[n]] + s[1..n];
    } else {
      assert s == [s[0]];
    }
  }

  ghost predicate MinimumAt<T>(fn: (T, T) -> int, s: seq<T>, p: int) {
    0 <= p < |s| && forall i :: 0 <= i < |s| ==> fn(s[p], s[i]) <= 0
  }

  ghost predicate Heap<T>(fn: (T, T) -> int, s: seq<T>) {
    forall j :: 0 < j < |s| ==> fn(s[Parent(j)], s[j]) <= 0
  }

  // ---------- insertion ----------

  /** The sweep carries a minimum that starts at or below the swept range to the root. */
  lemma {:induction false} SweepUpMinimum<T(!new)>(fn: (T, T) -> int, s: seq<T>, idx: nat, p: nat)
    requires TotalPreorder(fn) && p <= idx < |s| && MinimumAt(fn, s, p)
    ensures MinimumAt(fn, SweepUp(fn, s, idx), 0)
    decreases idx
  {
    hide *;
    SweepUpStep(fn, s, idx);
    if idx > 0 {
      MinimumStep(fn, s, idx, p);
      var q := Parent(idx);
      if fn(s[q], s[idx]) > 0 {
        SweepUpMinimum(fn, Swap(s, idx, q), idx - 1, if p == idx then q else p);
      } else {
        SweepUpMinimum(fn, s, idx - 1, if p == idx then q else p);
      }
    } else {
      assert p == 0;
    }
  }

  lemma MinimumStep<T(!new)>(fn: (T, T) -> int, s: seq<T>, idx: nat, p: nat)
    requires TotalPreorder(fn) && 0 < idx < |s| && p <= idx && MinimumAt(fn, s, p)
    ensures var q := Parent(idx);
            MinimumAt(fn, if fn(s[q], s[idx]) > 0 then Swap(s, idx, q) else s, if p == idx then q else p)
  {
    var q := Parent(idx);
    if fn(s[q], s[idx]) > 0 {
      var t := Swap(s, idx, q);
      var p' := if p == idx then q else p;
      assert p != q;
      forall i | 0 <= i < |t|
        ensures fn(t[p'], t[i]) <= 0
      {
        assert t[p'] == s[p] && t[i] == s[if i == idx then q else if i == q then idx else i];
      }
    } else if p == idx {
      forall i | 0 <= i < |s|
        ensures fn(s[q], s[i]) <= 0
      {
        assert fn(s[p], s[i]) <= 0;
      }
    }
  }

  lemma {:induction false} MinimumExists<T(!new)>(fn: (T, T) -> int, s: seq<T>) returns (p: nat)
    requires TotalPreorder(fn) && s != []
    ensures MinimumAt(fn, s, p)
  {
    p := 0;
    assert fn(s[0], s[0]) == 0;
    for n := 1 to |s|
      invariant p < n
      invariant forall i :: 0 <= i < n ==> fn(s[p], s[i]) <= 0
    {
      assert fn(s[n], s[n]) == 0;
      if fn(s[p], s[n]) > 0 {
        p := n;
      }
    }
  }

  /** Whatever the array looked like, after an insertion its root is a minimum of everything held. */
  lemma InsertBringsMinimum<T(!new)>(fn: (T, T) -> int, s: seq<T>, v: T)
    requires TotalPreorder(fn)
    ensures MinimumAt(fn, Inserted(fn, s, v), 0)
  {
    var p := MinimumExists(fn, s + [v]);
    SweepUpMinimum(fn, s + [v], |s|, p);
  }

  /** Heap order, except on the edge above `c`, across which `c`'s children are still in order. */
  ghost predicate HeapButAbove<T>(fn: (T, T) -> int, s: seq<T>, c: int) {
    && 0 <= c < |s|
    && (forall j :: 0 < j < |s| && j != c ==> fn(s[Parent(j)], s[j]) <= 0)
    && (forall j :: 0 < c && 0 < j < |s| && Parent(j) == c ==> fn(s[Parent(c)], s[j]) <= 0)
  }

  lemma {:induction false} SweepUpHeap<T(!new)>(fn: (T, T) -> int, s: seq<T>, idx: nat, c: nat)
    requires TotalPreorder(fn) && c <= idx < |s| && HeapButAbove(fn, s, c)
    ensures Heap(fn, SweepUp(fn, s, idx))
    decreases idx
  {
    hide *;
    SweepUpStep(fn, s, idx);
    if idx == 0 {
      NothingAboveRoot(fn, s, c);
    } else if c < idx {
      EdgeElsewhere(fn, s, c, idx);
      SweepUpHeap(fn, s, idx - 1, c);
    } else if fn(s[Parent(idx)], s[idx]) > 0 {
      SwapUpStep(fn, s, c);
      SweepUpHeap(fn, Swap(s, idx, Parent(idx)), idx - 1, Parent(idx));
    } else {
      NothingAboveRoot(fn, s, c);
      SweepUpHeap(fn, s, idx - 1, 0);
    }
  }

  lemma EdgeElsewhere<T>(fn: (T, T) -> int, s: seq<T>, c: nat, j: nat)
    requires HeapButAbove(fn, s, c) && 0 < j < |s| && j != c
    ensures fn(s[Parent(j)], s[j]) <= 0
  {
  }

  lemma NothingAboveRoot<T>(fn: (T, T) -> int, s: seq<T>, c: nat)
    requires HeapButAbove(fn, s, c) && (c > 0 ==> fn(s[Parent(c)], s[c]) <= 0)
    ensures HeapButAbove(fn, s, 0) && Heap(fn, s)
  {
  }

  lemma SwapUpStep<T(!new)>(fn: (T, T) -> int, s: seq<T>, c: nat)
    requires TotalPreorder(fn) && HeapButAbove(fn, s, c) && c > 0 && fn(s[Parent(c)], s[c]) > 0
    ensures HeapButAbove(fn, Swap(s, c, Parent(c)), Parent(c))
  {
    var p := Parent(c);
    var t := Swap(s, c, p);
    forall j | 0 < j < |t| && j != p
      ensures fn(t[Parent(j)], t[j]) <= 0
      ensures 0 < p && Parent(j) == p ==> fn(t[Parent(p)], t[j]) <= 0
    {
      hide *;
      SwapUpEdge(fn, s, c, j);
    }
    hide Swap, TotalPreorder;
  }

  lemma SwapUpEdge<T(!new)>(fn: (T, T) -> int, s: seq<T>, c: nat, j: nat)
    requires TotalPreorder(fn) && HeapButAbove(fn, s, c) && c > 0 && fn(s[Parent(c)], s[c]) > 0
    requires 0 < j < |s| && j != Parent(c)
    ensures var p, t := Parent(c), Swap(s, c, Parent(c));
            && fn(t[Parent(j)], t[j]) <= 0
            && (0 < p && Parent(j) == p ==> fn(t[Parent(p)], t[j]) <= 0)
  {
    var p := Parent(c);
    if j != c {
      assert fn(s[Parent(j)], s[j]) <= 0;
    }
    if 0 < p {
      assert fn(s[Parent(p)], s[p]) <= 0;
    }
  }

  /** On an array that is a heap, insertion keeps the heap order. */
  lemma InsertKeepsHeap<T(!new)>(fn: (T, T) -> int, s: seq<T>, v: T)
    requires TotalPreorder(fn) && Heap(fn, s)
    ensures Heap(fn, Inserted(fn, s, v))
  {
    SweepUpHeap(fn, s + [v], |s|, |s|);
  }

  // ---------- deletion ----------

  /** Below `idx`, each node on the way to `q` is strictly smaller than its sibling. */
  ghost predicate StrictPath<T>(fn: (T, T) -> int, s: seq<T>, idx: nat, q: nat) {
    q == idx ||
    (idx < q < |s| && Sibling(q) < |s| && fn(s[q], s[Sibling(q)]) < 0 && StrictPath(fn, s, idx, Parent(q)))
  }

  /** The element at `idx` would sift down to `q`, which has a smaller child, but no strictly
      smallest one that the code would take: its right child is missing or ties with the left one. */
  ghost predicate StuckAt<T>(fn: (T, T) -> int, s: seq<T>, idx: nat, q: nat) {
    && idx < |s| && 2 * q + 1 < |s|
    && StrictPath(fn, s, idx, q)
    && fn(s[2 * q + 1], s[idx]) < 0
    && (2 * q + 2 < |s| ==> fn(s[2 * q + 2], s[2 * q + 1]) == 0)
  }

  /** Heap order, except below `idx`, and `idx`'s parent is in order with `idx`'s children. */
  ghost predicate HeapButBelow<T>(fn: (T, T) -> int, s: seq<T>, idx: nat) {
    && (forall j :: 0 < j < |s| && Parent(j) != idx ==> fn(s[Parent(j)], s[j]) <= 0)
    && (forall j :: 0 < idx && 0 < j < |s| && Parent(j) == idx ==> fn(s[Parent(idx)], s[j]) <= 0)
  }

  /** A strict path that leaves `idx` leaves it by a child, below which everything is no smaller. */
  lemma {:induction false} StrictPathChild<T(!new)>(fn: (T, T) -> int, s: seq<T>, idx: nat, q: nat) returns (c: nat)
    requires TotalPreorder(fn) && HeapButBelow(fn, s, idx)
    requires q != idx && StrictPath(fn, s, idx, q)
    ensures c == 2 * idx + 1 || c == 2 * idx + 2
    ensures c <= q < |s| && Sibling(c) < |s| && fn(s[c], s[Sibling(c)]) < 0
    ensures fn(s[c], s[q]) <= 0
    decreases q
  {
    if Parent(q) == idx {
      c := q;
      assert fn(s[c], s[c]) == 0;
    } else {
      c := StrictPathChild(fn, s, idx, Parent(q));
      assert fn(s[Parent(q)], s[q]) <= 0;
    }
  }

  /** Where the sift stops at once, the edges out of order are exactly those below a stuck node. */
  lemma SiftStops<T(!new)>(fn: (T, T) -> int, s: seq<T>, idx: nat, j: nat)
    requires TotalPreorder(fn) && HeapButBelow(fn, s, idx) && idx < |s| && 0 < j < |s|
    requires 2 * idx + 2 < |s| ==> !(fn(s[2 * idx + 2], s[2 * idx + 1]) < 0 && fn(s[2 * idx + 2], s[idx]) < 0)
    requires 2 * idx + 2 < |s| ==> !(fn(s[2 * idx + 2], s[2 * idx + 1]) > 0 && fn(s[2 * idx + 1], s[idx]) < 0)
    ensures fn(s[Parent(j)], s[j]) > 0 <==> StuckAt(fn, s, idx, Parent(j))
  {
    if Parent(j) != idx {
      assert fn(s[Parent(j)], s[j]) <= 0;
      hide TotalPreorder, HeapButBelow;
      if StuckAt(fn, s, idx, Parent(j)) {
        StuckBelowStop(fn, s, idx, Parent(j));
      }
    } else {
      hide HeapButBelow;
      assert j == 2 * idx + 1 || j == 2 * idx + 2;
    }
  }

  lemma StuckBelowStop<T(!new)>(fn: (T, T) -> int, s: seq<T>, idx: nat, q: nat)
    requires TotalPreorder(fn) && HeapButBelow(fn, s, idx)
    requires q != idx && StuckAt(fn, s, idx, q)
    ensures 2 * idx + 2 < |s|
    ensures || (fn(s[2 * idx + 2], s[2 * idx + 1]) < 0 && fn(s[2 * idx + 2], s[idx]) < 0)
            || (fn(s[2 * idx + 2], s[2 * idx + 1]) > 0 && fn(s[2 * idx + 1], s[idx]) < 0)
  {
    hide HeapButBelow, StuckAt, StrictPath, TotalPreorder;
    StuckParts(fn, s, idx, q);
    var c := StrictPathChild(fn, s, idx, q);
    LeftEdge(fn, s, idx, q);
    Chained(fn, s[c], s[q], s[2 * q + 1]);
    BelowSmaller(fn, s[c], s[2 * q + 1], s[idx]);
    Opposite(fn, s[c], s[Sibling(c)]);
  }

  lemma StuckParts<T>(fn: (T, T) -> int, s: seq<T>, idx: nat, q: nat)
    requires StuckAt(fn, s, idx, q)
    ensures idx < |s| && 2 * q + 1 < |s| && StrictPath(fn, s, idx, q) && fn(s[2 * q + 1], s[idx]) < 0
  {
  }

  lemma LeftEdge<T>(fn: (T, T) -> int, s: seq<T>, idx: nat, q: nat)
    requires HeapButBelow(fn, s, idx) && q != idx && 2 * q + 1 < |s|
    ensures fn(s[q], s[2 * q + 1]) <= 0
  {
    assert Parent(2 * q + 1) == q;
  }

  lemma Opposite<T(!new)>(fn: (T, T) -> int, a: T, b: T)
    requires TotalPreorder(fn)
    ensures fn(a, b) < 0 <==> fn(b, a) > 0
    ensures fn(a, b) > 0 <==> fn(b, a) < 0
  {
  }

  lemma Chained<T(!new)>(fn: (T, T) -> int, a: T, b: T, c: T)
    requires TotalPreorder(fn) && fn(a, b) <= 0 && fn(b, c) <= 0
    ensures fn(a, c) <= 0
  {
  }

  lemma BelowSmaller<T(!new)>(fn: (T, T) -> int, a: T, b: T, c: T)
    requires TotalPreorder(fn) && fn(a, b) <= 0 && fn(b, c) < 0
    ensures fn(a, c) < 0
  {
    assert fn(c, a) <= 0 ==> fn(c, b) <= 0;
  }

  lemma StrictPathAfterSwap<T>(fn: (T, T) -> int, s: seq<T>, idx: nat, c: nat, q: nat)
    requires c == 2 * idx + 1 || c == 2 * idx + 2
    requires c < |s| && Sibling(c) < |s| && fn(s[c], s[Sibling(c)]) < 0 && fn(s[Sibling(c)], s[c]) > 0
    ensures q != idx && StrictPath(fn, s, idx, q) <==> StrictPath(fn, Swap(s, idx, c), c, q)
    ensures StrictPath(fn, Swap(s, idx, c), c, q) ==> q >= c
    decreases q
  {
    if q > idx {
      StrictPathAfterSwap(fn, s, idx, c, Parent(q));
    }
  }

  lemma SwapDownEdge<T(!new)>(fn: (T, T) -> int, s: seq<T>, idx: nat, c: nat, j: nat)
    requires TotalPreorder(fn) && HeapButBelow(fn, s, idx)
    requires c == 2 * idx + 1 || c == 2 * idx + 2
    requires c < |s| && Sibling(c) < |s| && fn(s[Sibling(c)], s[c]) > 0 && fn(s[c], s[idx]) < 0
    requires 0 < j < |s|
    ensures var t := Swap(s, idx, c);
            && (Parent(j) != c ==> fn(t[Parent(j)], t[j]) <= 0)
            && (Parent(j) == c ==> fn(t[idx], t[j]) <= 0)
  {
    if Parent(j) == idx {
      hide HeapButBelow;
      assert j == c || j == Sibling(c);
    } else {
      assert fn(s[Parent(j)], s[j]) <= 0;
      if j == idx {
        assert Parent(c) == idx && fn(s[Parent(idx)], s[c]) <= 0;
      }
    }
  }

  lemma SwapDownStep<T(!new)>(fn: (T, T) -> int, s: seq<T>, idx: nat, c: nat)
    requires TotalPreorder(fn) && HeapButBelow(fn, s, idx)
    requires c == 2 * idx + 1 || c == 2 * idx + 2
    requires c < |s| && Sibling(c) < |s| && fn(s[Sibling(c)], s[c]) > 0 && fn(s[c], s[idx]) < 0
    ensures HeapButBelow(fn, Swap(s, idx, c), c)
  {
    var t := Swap(s, idx, c);
    forall j | 0 < j < |t|
      ensures Parent(j) != c ==> fn(t[Parent(j)], t[j]) <= 0
      ensures Parent(j) == c ==> fn(t[idx], t[j]) <= 0
    {
      hide *;
      SwapDownEdge(fn, s, idx, c, j);
    }
    hide TotalPreorder, Swap;
    assert Parent(c) == idx;
  }

  /** The edges that are out of order after the sift are exactly those below a stuck node. */
  lemma {:induction false} SiftDownEdges<T(!new)>(fn: (T, T) -> int, s: seq<T>, idx: nat, j: nat)
    requires TotalPreorder(fn) && HeapButBelow(fn, s, idx) && idx < |s| && 0 < j < |s|
    ensures var t := SiftDown(fn, s, idx);
            fn(t[Parent(j)], t[j]) > 0 <==> StuckAt(fn, s, idx, Parent(j))
    decreases |s| - idx
  {
    hide TotalPreorder, HeapButBelow, StuckAt, SiftDown, Swap;
    SiftDownStep(fn, s, idx);
    var l, r := 2 * idx + 1, 2 * idx + 2;
    if r < |s| && fn(s[r], s[l]) < 0 && fn(s[r], s[idx]) < 0 {
      Opposite(fn, s[r], s[l]);
      SiftMoves(fn, s, idx, r, j);
      SiftDownEdges(fn, Swap(s, idx, r), r, j);
    } else if r < |s| && fn(s[r], s[l]) > 0 && fn(s[l], s[idx]) < 0 {
      SiftMoves(fn, s, idx, l, j);
      SiftDownEdges(fn, Swap(s, idx, l), l, j);
    } else {
      SiftStops(fn, s, idx, j);
    }
  }

  lemma SiftMoves<T(!new)>(fn: (T, T) -> int, s: seq<T>, idx: nat, c: nat, j: nat)
    requires TotalPreorder(fn) && HeapButBelow(fn, s, idx) && idx < |s| && 0 < j < |s|
    requires c == 2 * idx + 1 || c == 2 * idx + 2
    requires c < |s| && Sibling(c) < |s| && fn(s[Sibling(c)], s[c]) > 0 && fn(s[c], s[idx]) < 0
    ensures HeapButBelow(fn, Swap(s, idx, c), c)
    ensures StuckAt(fn, s, idx, Parent(j)) <==> StuckAt(fn, Swap(s, idx, c), c, Parent(j))
  {
    hide TotalPreorder, HeapButBelow, StuckAt, Swap;
    SwapDownStep(fn, s, idx, c);
    Opposite(fn, s[Sibling(c)], s[c]);
    StuckAfterMove(fn, s, idx, c, Parent(j));
  }

  lemma StuckAfterMove<T>(fn: (T, T) -> int, s: seq<T>, idx: nat, c: nat, q: nat)
    requires c == 2 * idx + 1 || c == 2 * idx + 2
    requires c < |s| && Sibling(c) < |s| && fn(s[c], s[Sibling(c)]) < 0 && fn(s[Sibling(c)], s[c]) > 0
    ensures StuckAt(fn, s, idx, q) <==> StuckAt(fn, Swap(s, idx, c), c, q)
  {
    hide StrictPath;
    StrictPathAfterSwap(fn, s, idx, c, q);
    if StrictPath(fn, s, idx, q) {
      StrictPathBelow(fn, s, idx, q);
    }
  }

  lemma StrictPathBelow<T>(fn: (T, T) -> int, s: seq<T>, idx: nat, q: nat)
    requires StrictPath(fn, s, idx, q)
    ensures q >= idx
  {
  }

  /** The nodes at which deleting from `s` leaves the heap order broken: where the last element, put
      at the root, would stop on its way down although a child is smaller. */
  ghost predicate DeleteSticksAt<T>(fn: (T, T) -> int, s: seq<T>, q: nat) {
    |s| > 1 && StuckAt(fn, LastToRoot(s), 0, q)
  }

  lemma LastToRootOfHeap<T>(fn: (T, T) -> int, s: seq<T>)
    requires Heap(fn, s) && |s| > 1
    ensures HeapButBelow(fn, LastToRoot(s), 0)
  {
    forall j | 0 < j < |s| - 1 && Parent(j) != 0
      ensures fn(LastToRoot(s)[Parent(j)], LastToRoot(s)[j]) <= 0
    {
      assert fn(s[Parent(j)], s[j]) <= 0;
    }
  }

  /** Deleting from a heap breaks exactly the edges below a node where the deletion sticks. */
  lemma DeleteEdges<T(!new)>(fn: (T, T) -> int, s: seq<T>, j: nat)
    requires TotalPreorder(fn) && Heap(fn, s) && s != [] && 0 < j < |s| - 1
    ensures |Deleted(fn, s)| == |s| - 1
    ensures var t := Deleted(fn, s);
            fn(t[Parent(j)], t[j]) > 0 <==> DeleteSticksAt(fn, s, Parent(j))
  {
    LastToRootOfHeap(fn, s);
    SiftDownEdges(fn, LastToRoot(s), 0, j);
  }

  /** So the result is a heap if and only if the deletion sticks nowhere. */
  lemma DeleteKeepsHeapIff<T(!new)>(fn: (T, T) -> int, s: seq<T>)
    requires TotalPreorder(fn) && Heap(fn, s) && s != []
    ensures Heap(fn, Deleted(fn, s)) <==> !exists q: nat :: DeleteSticksAt(fn, s, q)
  {
    hide StuckAt, SiftDown, TotalPreorder;
    var t := Deleted(fn, s);
    forall j: nat | 0 < j < |t|
      ensures fn(t[Parent(j)], t[j]) > 0 <==> DeleteSticksAt(fn, s, Parent(j))
    {
      DeleteEdges(fn, s, j);
    }
    forall q: nat | DeleteSticksAt(fn, s, q)
      ensures !Heap(fn, t)
    {
      assert 2 * q + 1 < |t| by { SticksAboveChild(fn, s, q); }
      var j := 2 * q + 1;
      assert Parent(j) == q && fn(t[Parent(j)], t[j]) > 0;
    }
    if !Heap(fn, t) {
      var j: nat :| 0 < j < |t| && fn(t[Parent(j)], t[j]) > 0;
      assert DeleteSticksAt(fn, s, Parent(j));
    }
  }

  lemma SticksAboveChild<T>(fn: (T, T) -> int, s: seq<T>, q: nat)
    requires DeleteSticksAt(fn, s, q)
    ensures 2 * q + 1 < |s| - 1
    ensures 2 * q + 2 < |s| - 1 ==> fn(s[2 * q + 2], s[2 * q + 1]) == 0
  {
  }

  /** Without ties the only edge that can break is that of a lone left child, the very last node, so
      nothing breaks when the remaining length is odd. */
  lemma DeleteWithoutTies<T(!new)>(fn: (T, T) -> int, s: seq<T>, j: nat)
    requires TotalPreorder(fn) && Heap(fn, s) && s != []
    requires forall a, b :: 0 <= a < b < |s| ==> fn(s[b], s[a]) != 0
    requires 0 < j < |s| - 1 && (j != |s| - 2 || |s| % 2 == 0)
    ensures |Deleted(fn, s)| == |s| - 1
    ensures fn(Deleted(fn, s)[Parent(j)], Deleted(fn, s)[j]) <= 0
  {
    hide Deleted, TotalPreorder, Heap, DeleteSticksAt;
    DeleteEdges(fn, s, j);
    var q := Parent(j);
    assert j == 2 * q + 1 || j == 2 * q + 2;
    if DeleteSticksAt(fn, s, q) {
      SticksAboveChild(fn, s, q);
    }
  }

  /** The two ways to stick, on concrete heaps: a lone left child, and a tie between the children. */
  lemma DeleteCanBreakTheHeap()
    ensures Heap(Difference, [1, 2, 3]) && Deleted(Difference, [1, 2, 3]) == [3, 2]
    ensures Heap(Difference, [1, 2, 2, 5]) && Deleted(Difference, [1, 2, 2, 5]) == [5, 2, 2]
  {
    assert LastToRoot([1, 2, 3]) == [3, 2];
    assert LastToRoot([1, 2, 2, 5]) == [5, 2, 2];
  }

  // ---------- whole runs ----------

  datatype Op<T> = Insert(value: T) | Delete

  /** The queue's array and everything deleted so far, oldest first. */
  datatype State<T> = State(held: seq<T>, out: seq<T>)

  function Step<T>(fn: (T, T) -> int, st: State<T>, op: Op<T>): State<T> {
    match op
    case Insert(v) => State(Inserted(fn, st.held, v), st.out)
    case Delete => if st.held == [] then st else State(Deleted(fn, st.held), st.out + [st.held[0]])
  }

  function Run<T>(fn: (T, T) -> int, ops: seq<Op<T>>): State<T> {
    if ops == [] then State([], [])
    else Step(fn, Run(fn, ops[..|ops| - 1]), ops[|ops| - 1])
  }

  function Offered<T>(ops: seq<Op<T>>): seq<T> {
    if ops == [] then []
    else Offered(ops[..|ops| - 1]) + match ops[|ops| - 1] case Insert(v) => [v] case Delete => []
  }

  /** No run loses or invents an element. */
  lemma {:induction false} RunConserves<T>(fn: (T, T) -> int, ops: seq<Op<T>>)
    ensures var st := Run(fn, ops);
            multiset(st.held) + multiset(st.out) == multiset(Offered(ops))
  {
    hide Inserted, Deleted;
    if ops != [] {
      var st := Run(fn, ops[..|ops| - 1]);
      RunConserves(fn, ops[..|ops| - 1]);
      match ops[|ops| - 1]
      case Insert(v) =>
        assert multiset(Inserted(fn, st.held, v)) == multiset(st.held) + multiset{v} by {
          InsertedMultiset(fn, st.held, v);
        }
      case Delete =>
        if st.held != [] {
          DeletedMultiset(fn, st.held);
        }
    }
  }

  lemma InsertedMultiset<T>(fn: (T, T) -> int, s: seq<T>, v: T)
    ensures multiset(Inserted(fn, s, v)) == multiset(s) + multiset{v}
  {
  }

  /** In every reachable state, a deletion right after an insertion returns a minimum of all that was
      offered and has not been deleted yet. */
  lemma DeleteAfterInsertIsMinimum<T(!new)>(fn: (T, T) -> int, ops: seq<Op<T>>, v: T)
    requires TotalPreorder(fn)
    ensures var before, after := Run(fn, ops + [Insert(v)]), Run(fn, ops + [Insert(v), Delete]);
            && |after.out| == |before.out| + 1
            && var x := after.out[|before.out|];
               && x in multiset(Offered(ops + [Insert(v)])) - multiset(before.out)
               && (forall y :: y in multiset(Offered(ops + [Insert(v)])) - multiset(before.out) ==> fn(x, y) <= 0)
  {
    hide Inserted, Deleted, TotalPreorder;
    var ops1, ops2 := ops + [Insert(v)], ops + [Insert(v), Delete];
    assert ops1[..|ops1| - 1] == ops && ops2[..|ops2| - 1] == ops1;
    var held := Run(fn, ops).held;
    InsertBringsMinimum(fn, held, v);
    InsertedMultiset(fn, held, v);
    RunConserves(fn, ops1);
    var t := Inserted(fn, held, v);
    assert multiset(Offered(ops1)) - multiset(Run(fn, ops1).out) == multiset(t);
    assert t[0] in multiset(t);
  }

  lemma RunNext<T>(fn: (T, T) -> int, ops: seq<Op<T>>, op: Op<T>)
    ensures Run(fn, ops + [op]) == Step(fn, Run(fn, ops), op)
  {
    assert (ops + [op])[..|ops|] == ops;
  }

  /** The sweep leaves a heap as it is. */
  lemma {:induction false} SweepUpOfHeap<T>(fn: (T, T) -> int, s: seq<T>, idx: nat)
    requires Heap(fn, s) && idx < |s|
    ensures SweepUp(fn, s, idx) == s
    decreases idx
  {
    if idx > 0 {
      assert fn(s[Parent(idx)], s[idx]) <= 0;
      SweepUpOfHeap(fn, s, idx - 1);
    }
  }

  lemma InsertedLast<T>(fn: (T, T) -> int, s: seq<T>, v: T)
    requires Heap(fn, s + [v])
    ensures Inserted(fn, s, v) == s + [v]
  {
    SweepUpOfHeap(fn, s + [v], |s|);
  }

  /** Both heaps above are reached by a run, and the deletion after the one that sticks does not hand out
      a minimum: 3 and 5 leave the queue before 2 does. */
  lemma DeleteCanMissTheMinimum()
    ensures var ops := [Insert(1), Insert(2), Insert(3)];
            && Run(Difference, ops) == State([1, 2, 3], [])
            && Run(Difference, ops + [Delete] + [Delete]) == State([2], [1, 3])
    ensures var ops := [Insert(1), Insert(2), Insert(2)] + [Insert(5)];
            && Run(Difference, ops) == State([1, 2, 2, 5], [])
            && Run(Difference, ops + [Delete] + [Delete]) == State([2, 2], [1, 5])
  {
    hide Run, Inserted, Deleted;
    var ops, more := [Insert(1), Insert(2), Insert(3)], [Insert(1), Insert(2), Insert(2)];
    RunOfThree(3, ops);
    RunOfThree(2, more);
    RunNext(Difference, more, Insert(5));
    assert [1, 2, 2] + [5] == [1, 2, 2, 5];
    InsertedLast(Difference, [1, 2, 2], 5);
    DeleteCanBreakTheHeap();
    DeletedFromBroken();
    TwoDeletes(ops, [1, 2, 3], [3, 2], [2]);
    TwoDeletes(more + [Insert(5)], [1, 2, 2, 5], [5, 2, 2], [2, 2]);
  }

  lemma DeletedFromBroken()
    ensures Deleted(Difference, [3, 2]) == [2] && Deleted(Difference, [5, 2, 2]) == [2, 2]
  {
    assert LastToRoot([3, 2]) == [2];
    assert LastToRoot([5, 2, 2]) == [2, 2];
  }

  lemma TwoDeletes(ops: seq<Op<int>>, s: seq<int>, t: seq<int>, u: seq<int>)
    requires Run(Difference, ops) == State(s, []) && s != [] && t != []
    requires Deleted(Difference, s) == t && Deleted(Difference, t) == u
    ensures Run(Difference, ops + [Delete] + [Delete]) == State(u, [s[0], t[0]])
  {
    hide Run, Inserted, Deleted;
    RunNext(Difference, ops, Delete);
    RunNext(Difference, ops + [Delete], Delete);
    assert [] + [s[0]] == [s[0]] && [s[0]] + [t[0]] == [s[0], t[0]];
  }

  lemma RunOfThree(x: int, ops: seq<Op<int>>)
    requires x >= 1 && ops == [Insert(1), Insert(2), Insert(x)]
    ensures Run(Difference, ops) == State([1, 2, x], [])
  {
    hide Inserted, Heap;
    var none: seq<Op<int>> := [];
    assert [] + [1] == [1] && [1] + [2] == [1, 2] && [1, 2] + [x] == [1, 2, x];
    assert Heap(Difference, [1]) && Heap(Difference, [1, 2]) && Heap(Difference, [1, 2, x]) by {
      SmallHeaps(x);
    }
    AppendOne(none, [], 1, [1]);
    AppendOne([Insert(1)], [1], 2, [1, 2]);
    AppendOne([Insert(1), Insert(2)], [1, 2], x, [1, 2, x]);
    assert none + [Insert(1)] == [Insert(1)] && [Insert(1)] + [Insert(2)] == [Insert(1), Insert(2)];
    assert [Insert(1), Insert(2)] + [Insert(x)] == ops;
  }

  lemma SmallHeaps(x: int)
    requires x >= 1
    ensures Heap(Difference, [1]) && Heap(Difference, [1, 2]) && Heap(Difference, [1, 2, x])
  {
  }

  lemma AppendOne(ops: seq<Op<int>>, s: seq<int>, v: int, t: seq<int>)
    requires Run(Difference, ops) == State(s, []) && t == s + [v] && Heap(Difference, t)
    ensures Run(Difference, ops + [Insert(v)]) == State(t, [])
  {
    hide Run, Inserted, Heap;
    RunNext(Difference, ops, Insert(v));
    InsertedLast(Difference, s, v);
  }

  // ---------- the array ----------

  lemma InsertedIs<T>(fn: (T, T) -> int, s: seq<T>, v: T)
    ensures Inserted(fn, s, v) == SweepUp(fn, s + [v], |s|)
  {
  }

  lemma LastAtRoot<T>(s: seq<T>)
    requires |s| > 1
    ensures Swap(s, 0, |s| - 1)[..|s| - 1] == LastToRoot(s)
  {
  }

  class Pq<T(!new)> {
    const zero: T  // what a slot holds after `memset(..., 0, ...)`
    var len: nat
    var cap: nat
    var data: array<T>

    ghost predicate Valid()
      reads this, data
    {
      len <= cap == data.Length && cap > 0 && ZeroFrom(len)
    }

    ghost predicate ZeroFrom(n: nat)
      reads this`data, data
    {
      forall i :: n <= i < data.Length ==> data[i] == zero
    }

    ghost function Contents(): seq<T>
      reads this, data
      requires Valid()
    {
      data[..len]
    }

    constructor (zero: T)
      ensures Valid() && fresh(data) && Contents() == [] && cap == 2 && this.zero == zero
    {
      this.zero := zero;
      len, cap := 0, 2;
      data := new T[2](_ => zero);
    }

    method Realloc()
      requires Valid()
      modifies this
      ensures Valid() && fresh(data) && cap == 2 * old(cap) && Contents() == old(Contents())
    {
      cap := 2 * cap;
      var tmp := new T[cap](_ => zero);
      forall i | 0 <= i < len {
        tmp[i] := data[i];
      }
      data := tmp;
    }

    /** Everything `pq_insert` does before it sweeps: grow if full, then store behind the last element. */
    method PutLast(value: T)
      requires Valid()
      modifies this, data
      ensures data == old(data) || fresh(data)
      ensures len == old(len) < cap == data.Length
      ensures cap == if old(len) == old(cap) then 2 * old(cap) else old(cap)
      ensures data[..len + 1] == old(Contents()) + [value]
      ensures ZeroFrom(len + 1)
    {
      if len == cap {
        Realloc();
      }
      data[len] := value;
    }

    /** The `swap` macro, applied within the first `n` slots. */
    method SwapAt(i: nat, j: nat, ghost n: nat)
      requires i < n <= data.Length && j < n
      modifies data
      ensures data[..n] == Swap(old(data[..n]), i, j)
      ensures forall k :: n <= k < data.Length ==> data[k] == old(data[k])
    {
      data[i], data[j] := data[j], data[i];
    }

    lemma Parts()
      requires Valid()
      ensures Contents() == data[..len] && |Contents()| == len <= cap == data.Length
    {
    }

    lemma Whole(s: seq<T>)
      requires len <= cap == data.Length && cap > 0 && ZeroFrom(len) && data[..len] == s
      ensures Valid() && Contents() == s
    {
    }

    method HeapifyUp(start: nat, fn: (T, T) -> int, ghost s: seq<T>)
      requires start < data.Length && data[..start + 1] == s
      modifies data
      ensures data[..start + 1] == SweepUp(fn, s, start)
      ensures old(ZeroFrom(start + 1)) ==> ZeroFrom(start + 1)
    {
      hide SweepUp, Swap;
      var idx := start;
      while idx > 0
        invariant 0 <= idx <= start
        invariant SweepUp(fn, data[..start + 1], idx) == SweepUp(fn, s, start)
        invariant forall i :: start < i < data.Length ==> data[i] == old(data[i])
      {
        SweepUpStep(fn, data[..start + 1], idx);
        var parent := Parent(idx);
        if fn(data[parent], data[idx]) > 0 {
          SwapAt(idx, parent, start + 1);
        }
        idx := idx - 1;
      }
      SweepUpStep(fn, data[..start + 1], 0);
    }

    method HeapifyDown(fn: (T, T) -> int)
      requires len <= data.Length
      modifies data
      ensures data[..len] == SiftDown(fn, old(data[..len]), 0)
      ensures old(ZeroFrom(len)) ==> ZeroFrom(len)
    {
      hide SiftDown, Swap;
      var idx := 0;
      SiftDownStep(fn, data[..len], idx);
      while idx < len
        invariant SiftDown(fn, data[..len], idx) == SiftDown(fn, old(data[..len]), 0)
        invariant forall i :: len <= i < data.Length ==> data[i] == old(data[i])
        decreases len - idx
      {
        ghost var s := data[..len];
        SiftDownStep(fn, s, idx);
        var left, right := 2 * idx + 1, 2 * idx + 2;
        if left >= len {
          return;
        }
        if right >= len {
          return;
        }
        var rightToLeft, rightToVal, leftToVal :=
          fn(data[right], data[left]), fn(data[right], data[idx]), fn(data[left], data[idx]);
        if rightToLeft < 0 && rightToVal < 0 {
          SwapAt(idx, right, len);
          idx := right;
        } else if rightToLeft > 0 && leftToVal < 0 {
          SwapAt(idx, left, len);
          idx := left;
        } else {
          return;
        }
      }
      SiftDownStep(fn, data[..len], idx);
    }

    method Insert(value: T, fn: (T, T) -> int)
      requires Valid()
      modifies this, data
      ensures Valid() && (data == old(data) || fresh(data))
      ensures Contents() == Inserted(fn, old(Contents()), value)
      ensures cap == if old(len) == old(cap) then 2 * old(cap) else old(cap)
    {
      hide *;
      ghost var s := Contents();
      Parts();
      PutLast(value);
      HeapifyUp(len, fn, s + [value]);
      InsertedIs(fn, s, value);
      len := len + 1;
      Whole(Inserted(fn, s, value));
    }

    /** Swaps the root with the last element, which leaves the queue. */
    method LastReplacesRoot()
      requires Valid() && len > 1
      modifies this`len, data
      ensures Valid() && len == old(len) - 1 && Contents() == LastToRoot(old(Contents()))
    {
      hide Swap;
      ghost var s := Contents();
      len := len - 1;
      SwapAt(0, len, len + 1);
      LastAtRoot(s);
      data[len] := zero;
      assert data[..len] == Swap(s, 0, len)[..len];
    }

    method Delete(fn: (T, T) -> int) returns (ok: bool, out: T)
      requires Valid()
      modifies this`len, data
      ensures Valid() && ok == (old(len) > 0)
      ensures !ok ==> Contents() == old(Contents())
      ensures ok ==> out == old(Contents())[0] && Contents() == Deleted(fn, old(Contents()))
    {
      if len == 0 {
        return false, zero;
      }
      ghost var s := Contents();
      ok, out := true, data[0];
      if len == 1 {
        data[0] := zero;
        len := len - 1;
        return;
      }
      hide SiftDown, LastToRoot, ZeroFrom;
      LastReplacesRoot();
      HeapifyDown(fn);
    }
  }

  /** Every run on a new queue object hands out what the abstract run hands out, and ends with what it
      holds. */
  method Replay<T(!new)>(zero: T, ops: seq<Op<T>>, fn: (T, T) -> int) returns (q: Pq<T>, out: seq<T>)
    ensures fresh(q) && q.Valid() && State(q.Contents(), out) == Run(fn, ops)
  {
    hide Run, Inserted, Deleted, Pq.Valid;
    q := new Pq(zero);
    out := [];
    NothingRun(fn, ops);
    for n := 0 to |ops|
      invariant fresh(q) && fresh(q.data) && q.Valid() && State(q.Contents(), out) == Run(fn, ops[..n])
    {
      assert ops[..n + 1] == ops[..n] + [ops[n]];
      RunNext(fn, ops[..n], ops[n]);
      q.Parts();
      match ops[n] {
        case Insert(v) =>
          q.Insert(v, fn);
        case Delete =>
          var ok, x := q.Delete(fn);
          out := if ok then out + [x] else out;
      }
    }
    assert ops[..|ops|] == ops;
  }

  lemma NothingRun<T>(fn: (T, T) -> int, ops: seq<Op<T>>)
    ensures Run(fn, ops[..0]) == State([], [])
  {
  }
}
