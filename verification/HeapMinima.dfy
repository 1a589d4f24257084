/** When a deletion from the priority queue of pq.c hands out a minimum. */
module HeapMinima {
  import opened Order
  import opened PriorityQueue

  // ---------- one deletion from a heap ----------

  /** The sift touches nothing before the node where it starts. */
  lemma {:induction false} SiftKeepsAbove<T>(fn: (T, T) -> int, s: seq<T>, idx: nat, j: nat)
    requires j < idx && j < |s|
    ensures SiftDown(fn, s, idx)[j] == s[j]
    decreases |s| - idx
  {
    SiftDownStep(fn, s, idx);
    var l, r := 2 * idx + 1, 2 * idx + 2;
    hide SiftDown;
    if r < |s| && fn(s[r], s[l]) < 0 && fn(s[r], s[idx]) < 0 {
      SiftKeepsAbove(fn, Swap(s, idx, r), r, j);
    } else if r < |s| && fn(s[r], s[l]) > 0 && fn(s[l], s[idx]) < 0 {
      SiftKeepsAbove(fn, Swap(s, idx, l), l, j);
    }
  }

  /** What is not above the root's children is not above anything but the root. */
  lemma {:induction false} BelowChildren<T(!new)>(fn: (T, T) -> int, s: seq<T>, m: T, j: nat)
    requires TotalPreorder(fn) && Heap(fn, s) && 0 < j < |s|
    requires fn(m, s[1]) <= 0 && (2 < |s| ==> fn(m, s[2]) <= 0)
    ensures fn(m, s[j]) <= 0
  {
    if j > 2 {
      BelowChildren(fn, s, m, Parent(j));
      Chained(fn, m, s[Parent(j)], s[j]);
    }
  }

  lemma Itself<T(!new)>(fn: (T, T) -> int, a: T)
    requires TotalPreorder(fn)
    ensures fn(a, a) == 0
  {
  }

  /** Where the sift stops although both children are there, it has not moved below a smaller one, unless
      the children tie. */
  lemma StopsInOrder<T(!new)>(fn: (T, T) -> int, x: T, l: T, r: T)
    requires TotalPreorder(fn)
    requires !(fn(r, l) < 0 && fn(r, x) < 0) && !(fn(r, l) > 0 && fn(l, x) < 0)
    requires fn(r, l) != 0 || fn(l, x) >= 0
    ensures fn(x, l) <= 0 && fn(x, r) <= 0
  {
    Opposite(fn, l, x);
    Opposite(fn, r, x);
    Opposite(fn, l, r);
    assert fn(x, l) <= 0 && fn(l, r) <= 0 ==> fn(x, r) <= 0;
    assert fn(x, r) <= 0 && fn(r, l) <= 0 ==> fn(x, l) <= 0;
  }

  /** The root after a deletion that does not stick there is not above either child of the old root. */
  lemma RootAfterDelete<T(!new)>(fn: (T, T) -> int, s: seq<T>)
    requires TotalPreorder(fn) && |s| > 1 && !DeleteSticksAt(fn, s, 0)
    ensures |Deleted(fn, s)| == |s| - 1
    ensures var m := Deleted(fn, s)[0]; fn(m, s[1]) <= 0 && (2 < |s| ==> fn(m, s[2]) <= 0)
  {
    hide SiftDown, TotalPreorder;
    var u := LastToRoot(s);
    if |s| == 2 {
      SiftDownStep(fn, u, 0);
      Itself(fn, s[1]);
    } else if |s| == 3 {
      SiftDownStep(fn, u, 0);
      Opposite(fn, s[1], s[2]);
      Itself(fn, s[2]);
    } else {
      assert u[1] == s[1] && u[2] == s[2];
      hide LastToRoot;
      RootAfterSift(fn, u);
    }
  }

  lemma RootAfterSift<T(!new)>(fn: (T, T) -> int, u: seq<T>)
    requires TotalPreorder(fn) && |u| > 2 && !StuckAt(fn, u, 0, 0)
    ensures var m := SiftDown(fn, u, 0)[0]; fn(m, u[1]) <= 0 && fn(m, u[2]) <= 0
  {
    hide SiftDown, TotalPreorder, Swap;
    SiftDownStep(fn, u, 0);
    if fn(u[2], u[1]) < 0 && fn(u[2], u[0]) < 0 {
      SwappedRoot(u, 2);
      SiftKeepsAbove(fn, Swap(u, 0, 2), 2, 0);
      Itself(fn, u[2]);
    } else if fn(u[2], u[1]) > 0 && fn(u[1], u[0]) < 0 {
      SwappedRoot(u, 1);
      SiftKeepsAbove(fn, Swap(u, 0, 1), 1, 0);
      Opposite(fn, u[2], u[1]);
      Itself(fn, u[1]);
    } else {
      StopsInOrder(fn, u[0], u[1], u[2]);
    }
  }

  lemma SwappedRoot<T>(u: seq<T>, c: nat)
    requires 0 < c < |u|
    ensures Swap(u, 0, c)[0] == u[c]
  {
  }

  lemma RemainsBelowRoot<T>(fn: (T, T) -> int, s: seq<T>, i: nat) returns (j: nat)
    requires s != [] && i < |Deleted(fn, s)|
    ensures 0 < j < |s| && s[j] == Deleted(fn, s)[i]
  {
    hide Deleted;
    DeletedMultiset(fn, s);
    var t := Deleted(fn, s);
    assert s == [s[0]] + s[1..];
    assert multiset(s) == multiset{s[0]} + multiset(s[1..]);
    assert multiset(t) == multiset(s) - multiset{s[0]} == multiset(s[1..]);
    assert t[i] in multiset(t);
    assert t[i] in s[1..];
    j :| 0 < j < |s| && s[j] == t[i];
  }

  /** After a deletion from a heap the root is a minimum, so that the next deletion hands one out, if and
      only if the deletion does not stick at the root.  Sticking further down does no harm to the root. */
  lemma DeleteLeavesMinimumIff<T(!new)>(fn: (T, T) -> int, s: seq<T>)
    requires TotalPreorder(fn) && Heap(fn, s) && |s| > 1
    ensures MinimumAt(fn, Deleted(fn, s), 0) <==> !DeleteSticksAt(fn, s, 0)
  {
    hide Deleted, DeleteSticksAt, TotalPreorder, Heap;
    var t := Deleted(fn, s);
    if DeleteSticksAt(fn, s, 0) {
      SticksAboveChild(fn, s, 0);
      DeleteEdges(fn, s, 1);
    } else {
      RootAfterDelete(fn, s);
      forall i | 0 <= i < |t|
        ensures fn(t[0], t[i]) <= 0
      {
        var j := RemainsBelowRoot(fn, s, i);
        BelowChildren(fn, s, t[0], j);
      }
    }
  }

  // ---------- states reached without ties ----------

  ghost predicate NoTies<T>(fn: (T, T) -> int, s: seq<T>) {
    forall a, b :: 0 <= a < b < |s| ==> fn(s[b], s[a]) != 0
  }

  /** Heap order on every edge but that of a lone left child, which can only be the last node. */
  ghost predicate AlmostHeap<T>(fn: (T, T) -> int, s: seq<T>) {
    forall j :: 0 < j < |s| && !(j == |s| - 1 && j % 2 == 1) ==> fn(s[Parent(j)], s[j]) <= 0
  }

  /** A lone left child is in order with its grandparent. */
  ghost predicate GrandparentOrder<T>(fn: (T, T) -> int, s: seq<T>) {
    |s| > 2 && |s| % 2 == 0 ==> fn(s[Parent(Parent(|s| - 1))], s[|s| - 1]) <= 0
  }

  /** What holds in every state that a run without ties reaches. */
  ghost predicate NearHeap<T>(fn: (T, T) -> int, s: seq<T>) {
    AlmostHeap(fn, s) && GrandparentOrder(fn, s)
  }

  lemma HeapIsNear<T(!new)>(fn: (T, T) -> int, s: seq<T>)
    requires TotalPreorder(fn) && Heap(fn, s)
    ensures NearHeap(fn, s)
  {
    if |s| > 2 && |s| % 2 == 0 {
      var j := |s| - 1;
      assert Parent(j) > 0;
      Chained(fn, s[Parent(Parent(j))], s[Parent(j)], s[j]);
    }
  }

  lemma OddIsHeap<T>(fn: (T, T) -> int, s: seq<T>)
    requires NearHeap(fn, s) && (|s| % 2 == 1 || s == [])
    ensures Heap(fn, s)
  {
  }

  /** Only with two elements can the root be above another one. */
  lemma NearHeapMinimum<T(!new)>(fn: (T, T) -> int, s: seq<T>)
    requires TotalPreorder(fn) && NearHeap(fn, s) && s != [] && |s| != 2
    ensures MinimumAt(fn, s, 0)
  {
    forall i | 0 <= i < |s|
      ensures fn(s[0], s[i]) <= 0
    {
      RootBelow(fn, s, i);
    }
  }

  lemma {:induction false} RootBelow<T(!new)>(fn: (T, T) -> int, s: seq<T>, i: nat)
    requires TotalPreorder(fn) && NearHeap(fn, s) && i < |s| && |s| != 2
    ensures fn(s[0], s[i]) <= 0
  {
    if i == 0 {
      Itself(fn, s[0]);
    } else {
      var p := if i == |s| - 1 && i % 2 == 1 then Parent(Parent(i)) else Parent(i);
      assert 0 <= p < i && fn(s[p], s[i]) <= 0;
      RootBelow(fn, s, p);
      Chained(fn, s[0], s[p], s[i]);
    }
  }

  // ---------- insertion ----------

  /** A parent and its two children. */
  datatype Family<T> = Family(top: T, left: T, right: T)

  /** The sweep's steps at the right child and then at the left one. */
  function Settled<T>(fn: (T, T) -> int, a: T, l: T, r: T): Family<T> {
    var top, right := if fn(a, r) > 0 then r else a, if fn(a, r) > 0 then a else r;
    if fn(top, l) > 0 then Family(l, top, right) else Family(top, l, right)
  }

  lemma SettledInOrder<T(!new)>(fn: (T, T) -> int, a: T, l: T, r: T)
    requires TotalPreorder(fn)
    ensures var f := Settled(fn, a, l, r); fn(f.top, f.left) <= 0 && fn(f.top, f.right) <= 0
    ensures forall g :: fn(g, a) <= 0 && fn(g, l) <= 0 ==>
              var f := Settled(fn, a, l, r); fn(g, f.left) <= 0 && fn(g, f.right) <= 0
  {
    Opposite(fn, a, r);
    var top, right := if fn(a, r) > 0 then r else a, if fn(a, r) > 0 then a else r;
    assert fn(top, right) <= 0;
    Opposite(fn, top, l);
    assert fn(l, top) <= 0 ==> fn(l, right) <= 0;
    forall g | fn(g, a) <= 0 && fn(g, l) <= 0
      ensures var f := Settled(fn, a, l, r); fn(g, f.left) <= 0 && fn(g, f.right) <= 0
    {
      assert fn(a, r) <= 0 ==> fn(g, r) <= 0;
      assert fn(l, top) <= 0 ==> fn(g, top) <= 0;
    }
  }

  /** The array after these two steps, when the new element is a right child. */
  function Beside<T>(fn: (T, T) -> int, s: seq<T>, v: T): (w: seq<T>)
    requires |s| >= 2 && |s| % 2 == 0
    ensures |w| == |s| + 1
  {
    var n := |s|;
    var p := Parent(n);
    var f := Settled(fn, s[p], s[n - 1], v);
    s[p := f.top][n - 1 := f.left] + [f.right]
  }

  /** One step of the sweep. */
  function Compared<T>(fn: (T, T) -> int, s: seq<T>, idx: nat): (t: seq<T>)
    requires 0 < idx < |s|
    ensures |t| == |s|
  {
    if fn(s[Parent(idx)], s[idx]) > 0 then Swap(s, idx, Parent(idx)) else s
  }

  lemma SweepCompared<T>(fn: (T, T) -> int, s: seq<T>, idx: nat)
    requires 0 < idx < |s|
    ensures SweepUp(fn, s, idx) == SweepUp(fn, Compared(fn, s, idx), idx - 1)
  {
    hide SweepUp, Swap;
    SweepUpStep(fn, s, idx);
  }

  lemma SweepBeside<T>(fn: (T, T) -> int, s: seq<T>, v: T)
    requires |s| >= 2 && |s| % 2 == 0
    ensures Inserted(fn, s, v) == SweepUp(fn, Beside(fn, s, v), |s| - 2)
  {
    hide SweepUp, Compared, Beside;
    var n, w := |s|, s + [v];
    SweepCompared(fn, w, n);
    SweepCompared(fn, Compared(fn, w, n), n - 1);
    FirstStep(fn, s, v);
    SecondStep(fn, s, v);
  }

  /** The array after the first step. */
  function BesideOnce<T>(fn: (T, T) -> int, s: seq<T>, v: T): (w: seq<T>)
    requires |s| >= 2
    ensures |w| == |s| + 1
  {
    var p := Parent(|s|);
    if fn(s[p], v) > 0 then s[p := v] + [s[p]] else s + [v]
  }

  lemma FirstStep<T>(fn: (T, T) -> int, s: seq<T>, v: T)
    requires |s| >= 2
    ensures Compared(fn, s + [v], |s|) == BesideOnce(fn, s, v)
  {
    var n, p, w := |s|, Parent(|s|), s + [v];
    assert w[p] == s[p] && w[n] == v;
    assert w[n := w[p]][p := w[n]] == s[p := v] + [s[p]];
  }

  lemma SecondStep<T>(fn: (T, T) -> int, s: seq<T>, v: T)
    requires |s| >= 2 && |s| % 2 == 0
    ensures Compared(fn, BesideOnce(fn, s, v), |s| - 1) == Beside(fn, s, v)
  {
    var n, p, w, f := |s|, Parent(|s|), BesideOnce(fn, s, v), Settled(fn, s[Parent(|s|)], s[|s| - 1], v);
    assert Parent(n - 1) == p < n - 1;
    var top, right := if fn(s[p], v) > 0 then v else s[p], if fn(s[p], v) > 0 then s[p] else v;
    assert w == s[p := top] + [right];
    assert w[p] == top && w[n - 1] == s[n - 1];
    assert w[n - 1 := top][p := s[n - 1]] == s[p := s[n - 1]][n - 1 := top] + [right];
    assert s[p := top][n - 1 := s[n - 1]] == s[p := top];
  }

  lemma BesideEdge<T(!new)>(fn: (T, T) -> int, s: seq<T>, v: T, j: nat)
    requires TotalPreorder(fn) && NearHeap(fn, s) && |s| >= 2 && |s| % 2 == 0 && 0 < j <= |s| && j != Parent(|s|)
    ensures var w := Beside(fn, s, v); fn(w[Parent(j)], w[j]) <= 0
  {
    hide TotalPreorder;
    var n, p := |s|, Parent(|s|);
    assert n == 2 * p + 2;
    SettledInOrder(fn, s[p], s[n - 1], v);
    hide Settled;
    if j < n - 1 {
      assert Parent(j) != p && fn(s[Parent(j)], s[j]) <= 0;
    }
  }

  lemma BesideGrandparent<T(!new)>(fn: (T, T) -> int, s: seq<T>, v: T)
    requires TotalPreorder(fn) && NearHeap(fn, s) && |s| > 2 && |s| % 2 == 0
    ensures var w, p := Beside(fn, s, v), Parent(|s|);
            0 <= Parent(p) < p && fn(w[Parent(p)], w[|s| - 1]) <= 0 && fn(w[Parent(p)], w[|s|]) <= 0
  {
    hide TotalPreorder, NearHeap, Beside, Settled;
    GrandparentEdges(fn, s);
    BesideFamily(fn, s, v);
    SettledInOrder(fn, s[Parent(|s|)], s[|s| - 1], v);
  }

  lemma GrandparentEdges<T>(fn: (T, T) -> int, s: seq<T>)
    requires NearHeap(fn, s) && |s| > 2 && |s| % 2 == 0
    ensures var p := Parent(|s|);
            && 0 <= Parent(p) < p < |s| - 1
            && fn(s[Parent(p)], s[p]) <= 0 && fn(s[Parent(p)], s[|s| - 1]) <= 0
  {
    assert |s| == 2 * Parent(|s|) + 2;
  }

  lemma BesideFamily<T>(fn: (T, T) -> int, s: seq<T>, v: T)
    requires |s| > 2 && |s| % 2 == 0 && 0 <= Parent(Parent(|s|)) < Parent(|s|) < |s| - 1
    ensures var w, p := Beside(fn, s, v), Parent(|s|);
            var f := Settled(fn, s[p], s[|s| - 1], v);
            w[Parent(p)] == s[Parent(p)] && w[|s| - 1] == f.left && w[|s|] == f.right
  {
    hide Settled;
  }

  lemma BesideIsHeapButAbove<T(!new)>(fn: (T, T) -> int, s: seq<T>, v: T)
    requires TotalPreorder(fn) && NearHeap(fn, s) && |s| >= 2 && |s| % 2 == 0
    ensures HeapButAbove(fn, Beside(fn, s, v), Parent(|s|))
  {
    hide TotalPreorder, NearHeap, Beside;
    var w, p := Beside(fn, s, v), Parent(|s|);
    assert |s| == 2 * p + 2;
    forall j: nat | 0 < j < |w| && j != p
      ensures fn(w[Parent(j)], w[j]) <= 0
    {
      BesideEdge(fn, s, v, j);
    }
    if p > 0 {
      BesideGrandparent(fn, s, v);
      assert forall j :: Parent(j) == p ==> j == |s| - 1 || j == |s|;
    }
  }

  /** An insertion turns every such state back into a heap. */
  lemma InsertRestoresHeap<T(!new)>(fn: (T, T) -> int, s: seq<T>, v: T)
    requires TotalPreorder(fn) && NearHeap(fn, s)
    ensures Heap(fn, Inserted(fn, s, v))
  {
    hide TotalPreorder, NearHeap, Inserted, SweepUp, HeapButAbove, Heap;
    if |s| >= 2 && |s| % 2 == 0 {
      SweepBeside(fn, s, v);
      BesideIsHeapButAbove(fn, s, v);
      SweepUpHeap(fn, Beside(fn, s, v), |s| - 2, Parent(|s|));
    } else {
      OddIsHeap(fn, s);
      InsertKeepsHeap(fn, s, v);
    }
  }

  // ---------- deletion ----------

  lemma SwapHasNoTies<T(!new)>(fn: (T, T) -> int, s: seq<T>, i: nat, j: nat)
    requires TotalPreorder(fn) && NoTies(fn, s) && i < |s| && j < |s|
    ensures NoTies(fn, Swap(s, i, j))
  {
    var t := Swap(s, i, j);
    forall a, b | 0 <= a < b < |t|
      ensures fn(t[b], t[a]) != 0
    {
      var a', b' := if a == i then j else if a == j then i else a, if b == i then j else if b == j then i else b;
      assert t[a] == s[a'] && t[b] == s[b'] && a' != b';
      Opposite(fn, s[a'], s[b']);
      assert a' < b' ==> fn(s[b'], s[a']) != 0;
      assert b' < a' ==> fn(s[a'], s[b']) != 0;
    }
  }

  /** Without ties the sift leaves every node in order with its grandparent. */
  lemma {:induction false} SiftGrandparents<T(!new)>(fn: (T, T) -> int, s: seq<T>, idx: nat, j: nat)
    requires TotalPreorder(fn) && NoTies(fn, s) && HeapButBelow(fn, s, idx) && idx < |s|
    requires 0 < j < |s| && Parent(j) > 0
    ensures var t := SiftDown(fn, s, idx); fn(t[Parent(Parent(j))], t[j]) <= 0
    decreases |s| - idx
  {
    hide TotalPreorder, NoTies, HeapButBelow, StuckAt, SiftDown, Swap;
    SiftDownStep(fn, s, idx);
    var l, r := 2 * idx + 1, 2 * idx + 2;
    if r < |s| && fn(s[r], s[l]) < 0 && fn(s[r], s[idx]) < 0 {
      Opposite(fn, s[r], s[l]);
      SiftMoves(fn, s, idx, r, j);
      SwapHasNoTies(fn, s, idx, r);
      SiftGrandparents(fn, Swap(s, idx, r), r, j);
    } else if r < |s| && fn(s[r], s[l]) > 0 && fn(s[l], s[idx]) < 0 {
      SiftMoves(fn, s, idx, l, j);
      SwapHasNoTies(fn, s, idx, l);
      SiftGrandparents(fn, Swap(s, idx, l), l, j);
    } else {
      StoppedGrandparents(fn, s, idx, j);
    }
  }

  lemma StoppedGrandparents<T(!new)>(fn: (T, T) -> int, s: seq<T>, idx: nat, j: nat)
    requires TotalPreorder(fn) && NoTies(fn, s) && HeapButBelow(fn, s, idx) && idx < |s|
    requires 0 < j < |s| && Parent(j) > 0
    requires 2 * idx + 2 < |s| ==> !(fn(s[2 * idx + 2], s[2 * idx + 1]) < 0 && fn(s[2 * idx + 2], s[idx]) < 0)
    requires 2 * idx + 2 < |s| ==> !(fn(s[2 * idx + 2], s[2 * idx + 1]) > 0 && fn(s[2 * idx + 1], s[idx]) < 0)
    ensures fn(s[Parent(Parent(j))], s[j]) <= 0
  {
    hide TotalPreorder;
    var q := Parent(j);
    var g := Parent(q);
    if q != idx {
      assert fn(s[q], s[j]) <= 0;
      if g == idx {
        StoppedChild(fn, s, idx, q);
      } else {
        assert fn(s[g], s[q]) <= 0;
      }
      hide *;
      Chained(fn, s[g], s[q], s[j]);
    }
  }

  lemma StoppedChild<T(!new)>(fn: (T, T) -> int, s: seq<T>, idx: nat, q: nat)
    requires TotalPreorder(fn) && NoTies(fn, s) && 0 < q && Parent(q) == idx && 2 * q + 1 < |s|
    requires 2 * idx + 2 < |s| ==> !(fn(s[2 * idx + 2], s[2 * idx + 1]) < 0 && fn(s[2 * idx + 2], s[idx]) < 0)
    requires 2 * idx + 2 < |s| ==> !(fn(s[2 * idx + 2], s[2 * idx + 1]) > 0 && fn(s[2 * idx + 1], s[idx]) < 0)
    ensures fn(s[idx], s[q]) <= 0
  {
    assert q == 2 * idx + 1 || q == 2 * idx + 2;
    assert fn(s[2 * idx + 2], s[2 * idx + 1]) != 0;
    hide TotalPreorder, NoTies;
    StopsInOrder(fn, s[idx], s[2 * idx + 1], s[2 * idx + 2]);
  }

  lemma LastToRootBelow<T>(fn: (T, T) -> int, s: seq<T>)
    requires NearHeap(fn, s) && |s| > 1
    ensures HeapButBelow(fn, LastToRoot(s), 0)
  {
    forall j | 0 < j < |s| - 1 && Parent(j) != 0
      ensures fn(LastToRoot(s)[Parent(j)], LastToRoot(s)[j]) <= 0
    {
      assert fn(s[Parent(j)], s[j]) <= 0;
    }
  }

  lemma LastToRootHasNoTies<T(!new)>(fn: (T, T) -> int, s: seq<T>)
    requires TotalPreorder(fn) && NoTies(fn, s) && |s| > 1
    ensures NoTies(fn, LastToRoot(s))
  {
    var n, u := |s| - 1, LastToRoot(s);
    forall a, b | 0 <= a < b < |u|
      ensures fn(u[b], u[a]) != 0
    {
      Opposite(fn, s[n], s[b]);
      assert fn(s[n], s[b]) != 0 && fn(s[b], s[a]) != 0;
    }
  }

  /** Without ties a deletion breaks no edge but that of a lone left child. */
  lemma DeleteKeepsNear<T(!new)>(fn: (T, T) -> int, s: seq<T>)
    requires TotalPreorder(fn) && NoTies(fn, s) && NearHeap(fn, s) && s != []
    ensures NearHeap(fn, Deleted(fn, s))
  {
    hide TotalPreorder, NoTies, HeapButBelow, StuckAt, SiftDown;
    if |s| > 1 {
      var u, t := LastToRoot(s), Deleted(fn, s);
      LastToRootBelow(fn, s);
      LastToRootHasNoTies(fn, s);
      hide LastToRoot;
      forall j: nat | 0 < j < |t| && !(j == |t| - 1 && j % 2 == 1)
        ensures fn(t[Parent(j)], t[j]) <= 0
      {
        EdgeAfterSift(fn, u, j);
      }
      if |t| > 2 && |t| % 2 == 0 {
        SiftGrandparents(fn, u, 0, |t| - 1);
      }
    }
  }

  lemma EdgeAfterSift<T(!new)>(fn: (T, T) -> int, u: seq<T>, j: nat)
    requires TotalPreorder(fn) && NoTies(fn, u) && HeapButBelow(fn, u, 0)
    requires 0 < j < |u| && !(j == |u| - 1 && j % 2 == 1)
    ensures var t := SiftDown(fn, u, 0); fn(t[Parent(j)], t[j]) <= 0
  {
    hide TotalPreorder, NoTies, HeapButBelow, StuckAt, SiftDown;
    SiftDownEdges(fn, u, 0, j);
    if StuckAt(fn, u, 0, Parent(j)) {
      StuckAboveLone(fn, u, Parent(j));
    }
  }

  lemma StuckAboveLone<T>(fn: (T, T) -> int, s: seq<T>, q: nat)
    requires NoTies(fn, s) && StuckAt(fn, s, 0, q)
    ensures 2 * q + 2 == |s|
  {
    hide StrictPath;
  }

  // ---------- whole runs ----------

  /** No two elements tie, not even two that are equal. */
  ghost predicate TieFree<T(!new)>(fn: (T, T) -> int, m: multiset<T>) {
    forall x, y :: x in m && y in m && fn(x, y) == 0 ==> x == y && m[x] == 1
  }

  lemma TieFreeSequence<T(!new)>(fn: (T, T) -> int, s: seq<T>, m: multiset<T>)
    requires TieFree(fn, m) && multiset(s) <= m
    ensures NoTies(fn, s)
  {
    forall a, b | 0 <= a < b < |s|
      ensures fn(s[b], s[a]) != 0
    {
      assert s[a] in multiset(s) && s[b] in multiset(s);
      if s[a] == s[b] {
        TwiceThere(s, a, b);
      }
    }
  }

  lemma TwiceThere<T>(s: seq<T>, a: nat, b: nat)
    requires a < b < |s| && s[a] == s[b]
    ensures multiset(s)[s[a]] >= 2
  {
    assert s == s[..b] + [s[b]] + s[b + 1..];
    assert s[..b][a] == s[a];
    assert s[a] in multiset(s[..b]);
  }

  /** Everything a run holds was offered. */
  lemma HeldHasNoTies<T(!new)>(fn: (T, T) -> int, ops: seq<Op<T>>)
    requires TieFree(fn, multiset(Offered(ops)))
    ensures NoTies(fn, Run(fn, ops).held)
  {
    hide Run, TieFree, NoTies;
    RunConserves(fn, ops);
    TieFreeSequence(fn, Run(fn, ops).held, multiset(Offered(ops)));
  }

  lemma OfferedBefore<T(!new)>(fn: (T, T) -> int, ops: seq<Op<T>>)
    requires ops != [] && TieFree(fn, multiset(Offered(ops)))
    ensures TieFree(fn, multiset(Offered(ops[..|ops| - 1])))
  {
    var m, k := multiset(Offered(ops)), multiset(Offered(ops[..|ops| - 1]));
    assert k <= m;
    forall x, y | x in k && y in k && fn(x, y) == 0
      ensures x == y && k[x] == 1
    {
      assert x in m && y in m;
    }
  }

  lemma {:induction false} RunIsNear<T(!new)>(fn: (T, T) -> int, ops: seq<Op<T>>)
    requires TotalPreorder(fn) && TieFree(fn, multiset(Offered(ops)))
    ensures NearHeap(fn, Run(fn, ops).held)
  {
    hide TotalPreorder, TieFree, NoTies, Inserted, Deleted;
    if ops != [] {
      var before, op := ops[..|ops| - 1], ops[|ops| - 1];
      hide NearHeap;
      OfferedBefore(fn, ops);
      RunIsNear(fn, before);
      var s := Run(fn, before).held;
      match op
      case Insert(v) =>
        InsertRestoresHeap(fn, s, v);
        HeapIsNear(fn, Inserted(fn, s, v));
      case Delete =>
        HeldHasNoTies(fn, before);
        if s != [] {
          DeleteKeepsNear(fn, s);
        }
    }
  }

  /** In every state that a run without ties reaches, a deletion hands out a minimum of what is held, unless
      exactly two elements are held. */
  lemma DeleteHandsOutMinimum<T(!new)>(fn: (T, T) -> int, ops: seq<Op<T>>)
    requires TotalPreorder(fn) && TieFree(fn, multiset(Offered(ops)))
    ensures var before, after := Run(fn, ops), Run(fn, ops + [Delete]);
            before.held != [] && |before.held| != 2 ==>
              MinimumAt(fn, before.held, 0) && after.out == before.out + [before.held[0]]
  {
    hide Run, NearHeap;
    RunIsNear(fn, ops);
    RunNext(fn, ops, Delete);
    var s := Run(fn, ops).held;
    if s != [] && |s| != 2 {
      NearHeapMinimum(fn, s);
    }
  }

  lemma DeletedFromThree<T(!new)>(fn: (T, T) -> int, s: seq<T>)
    requires TotalPreorder(fn) && |s| == 3
    ensures Deleted(fn, s) == [s[2], s[1]]
    ensures MinimumAt(fn, Deleted(fn, s), 0) <==> !(fn(s[1], s[2]) < 0)
  {
    assert LastToRoot(s) == [s[2], s[1]];
    Opposite(fn, s[1], s[2]);
    Itself(fn, s[2]);
  }

  lemma DeletedLength<T>(fn: (T, T) -> int, s: seq<T>)
    requires s != []
    ensures |Deleted(fn, s)| == |s| - 1
  {
  }

  /** In the same states, what a deletion leaves has a minimum at the root, unless it takes one of three
      elements and the last two of them are in ascending order. */
  lemma DeleteLeavesMinimum<T(!new)>(fn: (T, T) -> int, ops: seq<Op<T>>)
    requires TotalPreorder(fn) && TieFree(fn, multiset(Offered(ops))) && |Run(fn, ops).held| > 1
    ensures var s := Run(fn, ops).held;
            MinimumAt(fn, Run(fn, ops + [Delete]).held, 0) <==> !(|s| == 3 && fn(s[1], s[2]) < 0)
  {
    hide Run, Deleted, NearHeap, TotalPreorder, NoTies, TieFree;
    var s := Run(fn, ops).held;
    RunNext(fn, ops, Delete);
    var t := Deleted(fn, s);
    DeletedLength(fn, s);
    if |s| == 3 {
      DeletedFromThree(fn, s);
    } else {
      RunIsNear(fn, ops);
      HeldHasNoTies(fn, ops);
      DeleteKeepsNear(fn, s);
      NearHeapMinimum(fn, t);
    }
  }

  /** The exact condition, for every run without ties that ends with something held: the next deletion
      hands out a minimum unless the last operation was a deletion from three elements of which the second
      is below the third. */
  lemma NextDeletionIsMinimumIff<T(!new)>(fn: (T, T) -> int, ops: seq<Op<T>>, op: Op<T>)
    requires TotalPreorder(fn) && TieFree(fn, multiset(Offered(ops + [op]))) && Run(fn, ops + [op]).held != []
    ensures var s := Run(fn, ops).held;
            MinimumAt(fn, Run(fn, ops + [op]).held, 0) <==> !(op.Delete? && |s| == 3 && fn(s[1], s[2]) < 0)
  {
    hide Run, TotalPreorder, TieFree, MinimumAt, Inserted, Deleted;
    var s := Run(fn, ops).held;
    RunNext(fn, ops, op);
    OfferedBefore(fn, ops + [op]);
    assert (ops + [op])[..|ops|] == ops;
    match op
    case Insert(v) =>
      InsertBringsMinimum(fn, s, v);
    case Delete =>
      if s != [] {
        DeletedLength(fn, s);
      }
      DeleteLeavesMinimum(fn, ops);
  }
}
