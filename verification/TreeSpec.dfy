/** The n-ary trees of tree.c as values.  A node is named by its path: the child indices that lead to it
    from the root. */
module TreeSpec {
  import opened Options
  import opened Order
  import opened Sequences

  datatype Tree<K> = Node(key: K, children: seq<Tree<K>>)

  type Path = seq<nat>

  predicate IsPath<K>(t: Tree<K>, p: Path) {
    p == [] || (p[0] < |t.children| && IsPath(t.children[p[0]], p[1..]))
  }

  function Sub<K>(t: Tree<K>, p: Path): Tree<K>
    requires IsPath(t, p)
  {
    if p == [] then t else Sub(t.children[p[0]], p[1..])
  }

  // ---------- the two searches ----------

  /** Depth first: the node itself, then its subtrees from left to right. */
  function Dfs<K>(fn: (K, K) -> int, t: Tree<K>, key: K): Option<Path>
    decreases t, |t.children| + 1
  {
    if fn(t.key, key) == 0 then Some([]) else DfsFrom(fn, t, key, 0)
  }

  function DfsFrom<K>(fn: (K, K) -> int, t: Tree<K>, key: K, i: nat): Option<Path>
    requires i <= |t.children|
    decreases t, |t.children| - i
  {
    if i == |t.children| then None
    else match Dfs(fn, t.children[i], key)
      case Some(p) => Some([i] + p)
      case None => DfsFrom(fn, t, key, i + 1)
  }

  lemma DfsStart<K>(fn: (K, K) -> int, t: Tree<K>, key: K)
    ensures Dfs(fn, t, key) == if fn(t.key, key) == 0 then Some([]) else DfsFrom(fn, t, key, 0)
  {
  }

  lemma DfsStep<K>(fn: (K, K) -> int, t: Tree<K>, key: K, i: nat)
    requires i <= |t.children|
    ensures i == |t.children| ==> DfsFrom(fn, t, key, i) == None
    ensures i < |t.children| ==>
              DfsFrom(fn, t, key, i) ==
              match Dfs(fn, t.children[i], key)
                case Some(p) => Some([i] + p)
                case None => DfsFrom(fn, t, key, i + 1)
  {
  }

  function Size<K>(t: Tree<K>): nat
    decreases t, |t.children| + 1
  {
    1 + SizeFrom(t, 0)
  }

  function SizeFrom<K>(t: Tree<K>, i: nat): nat
    requires i <= |t.children|
    decreases t, |t.children| - i
  {
    if i == |t.children| then 0 else Size(t.children[i]) + SizeFrom(t, i + 1)
  }

  /** A queued subtree, and where it is. */
  datatype Item<K> = Item(path: Path, tree: Tree<K>)

  function Queued<K>(q: seq<Item<K>>): nat {
    if q == [] then 0 else Size(q[0].tree) + Queued(q[1..])
  }

  function Children<K>(it: Item<K>): (s: seq<Item<K>>)
    ensures |s| == |it.tree.children|
  {
    seq(|it.tree.children|, i requires 0 <= i < |it.tree.children| => Item(it.path + [i], it.tree.children[i]))
  }

  lemma {:induction false} QueuedConcat<K>(q: seq<Item<K>>, r: seq<Item<K>>)
    ensures Queued(q + r) == Queued(q) + Queued(r)
  {
    if q == [] {
      assert q + r == r;
    } else {
      assert (q + r)[1..] == q[1..] + r;
      QueuedConcat(q[1..], r);
    }
  }

  lemma {:induction false} QueuedChildren<K>(it: Item<K>, i: nat)
    requires i <= |it.tree.children|
    ensures Queued(Children(it)[i..]) == SizeFrom(it.tree, i)
    decreases |it.tree.children| - i
  {
    if i < |it.tree.children| {
      assert Children(it)[i..][1..] == Children(it)[i + 1..];
      QueuedChildren(it, i + 1);
    }
  }

  /** What makes the loop of the breadth-first search end: the total size of the queued subtrees. */
  lemma QueueShrinks<K>(q: seq<Item<K>>)
    requires q != []
    ensures Queued(q[1..] + Children(q[0])) < Queued(q)
  {
    QueuedConcat(q[1..], Children(q[0]));
    QueuedChildren(q[0], 0);
    assert Children(q[0])[0..] == Children(q[0]);
  }

  /** Breadth first: the loop over the queue. */
  function Bfs<K>(fn: (K, K) -> int, q: seq<Item<K>>, key: K): Option<Path>
    decreases Queued(q)
  {
    if q == [] then None
    else if fn(key, q[0].tree.key) == 0 then Some(q[0].path)
    else
      QueueShrinks(q);
      Bfs(fn, q[1..] + Children(q[0]), key)
  }

  lemma BfsStep<K>(fn: (K, K) -> int, q: seq<Item<K>>, key: K)
    requires q != []
    ensures Bfs(fn, q, key) ==
            if fn(key, q[0].tree.key) == 0 then Some(q[0].path) else Bfs(fn, q[1..] + Children(q[0]), key)
  {
  }

  function BfsFind<K>(fn: (K, K) -> int, t: Tree<K>, key: K): Option<Path> {
    Bfs(fn, [Item([], t)], key)
  }

  // ---------- what the searches find ----------

  ghost predicate Matches<K>(fn: (K, K) -> int, t: Tree<K>, key: K, p: Path) {
    IsPath(t, p) && fn(Sub(t, p).key, key) == 0
  }

  /** `p` comes before `q` in preorder. */
  predicate Before(p: Path, q: Path) {
    q != [] && (p == [] || p[0] < q[0] || (p[0] == q[0] && Before(p[1..], q[1..])))
  }

  /** `p` comes before `q` level by level. */
  predicate Above(p: Path, q: Path) {
    |p| < |q| || (|p| == |q| && Before(p, q))
  }

  /** Depth-first search finds the first match in preorder, if there is a match at all. */
  lemma {:induction false} DfsFindsFirst<K>(fn: (K, K) -> int, t: Tree<K>, key: K)
    ensures match Dfs(fn, t, key)
            case Some(p) => Matches(fn, t, key, p) && forall q :: Matches(fn, t, key, q) ==> q == p || Before(p, q)
            case None => forall q :: !Matches(fn, t, key, q)
    decreases t, |t.children| + 1
  {
    if fn(t.key, key) != 0 {
      DfsFromFindsFirst(fn, t, key, 0);
    }
  }

  lemma {:induction false} DfsFromFindsFirst<K>(fn: (K, K) -> int, t: Tree<K>, key: K, i: nat)
    requires i <= |t.children|
    ensures match DfsFrom(fn, t, key, i)
            case Some(p) => p != [] && Matches(fn, t, key, p) &&
              forall q :: q != [] && q[0] >= i && Matches(fn, t, key, q) ==> q == p || Before(p, q)
            case None => forall q :: q != [] && q[0] >= i ==> !Matches(fn, t, key, q)
    decreases t, |t.children| - i
  {
    if i < |t.children| {
      DfsFindsFirst(fn, t.children[i], key);
      match Dfs(fn, t.children[i], key)
      case Some(p) =>
        assert ([i] + p)[1..] == p;
        forall q: Path | q != [] && q[0] >= i && Matches(fn, t, key, q)
          ensures q == [i] + p || Before([i] + p, q)
        {
          if q[0] == i {
            assert Matches(fn, t.children[i], key, q[1..]);
            assert q == [i] + q[1..];
          }
        }
      case None =>
        DfsFromFindsFirst(fn, t, key, i + 1);
        forall q: Path | q != [] && q[0] == i
          ensures !Matches(fn, t, key, q)
        {
          assert !Matches(fn, t.children[i], key, q[1..]);
        }
    }
  }

  lemma {:induction false} BeforeTrans(p: Path, q: Path, r: Path)
    requires Before(p, q) && Before(q, r)
    ensures Before(p, r)
  {
    if p != [] && p[0] == q[0] == r[0] {
      BeforeTrans(p[1..], q[1..], r[1..]);
    }
  }

  lemma {:induction false} BeforeAntisymmetric(p: Path, q: Path)
    ensures !(Before(p, q) && Before(q, p)) && !Before(p, p)
  {
    if p != [] {
      BeforeAntisymmetric(p[1..], p[1..]);
      if q != [] {
        BeforeAntisymmetric(p[1..], q[1..]);
      }
    }
  }

  lemma {:induction false} BeforeExtended(p: Path, q: Path, x: Path, y: Path)
    requires |p| == |q| && Before(p, q)
    ensures Before(p + x, q + y)
  {
    if p[0] == q[0] {
      BeforeExtended(p[1..], q[1..], x, y);
    }
    assert (p + x)[1..] == p[1..] + x && (q + y)[1..] == q[1..] + y;
  }

  lemma {:induction false} BeforeSibling(p: Path, i: nat, j: nat)
    requires i < j
    ensures Before(p + [i], p + [j])
  {
    if p != [] {
      assert (p + [i])[1..] == p[1..] + [i] && (p + [j])[1..] == p[1..] + [j];
      BeforeSibling(p[1..], i, j);
    }
  }

  lemma {:induction false} SubExtended<K>(t: Tree<K>, p: Path, r: Path)
    requires IsPath(t, p)
    ensures IsPath(t, p + r) <==> IsPath(Sub(t, p), r)
    ensures IsPath(t, p + r) ==> Sub(t, p + r) == Sub(Sub(t, p), r)
  {
    if p == [] {
      assert p + r == r;
    } else {
      assert (p + r)[1..] == p[1..] + r;
      SubExtended(t.children[p[0]], p[1..], r);
    }
  }

  /** The queue holds subtrees of `t`, level by level, from at most two adjacent levels; those of the lower
      level are children of nodes before the first one queued. */
  ghost predicate LevelOrder<K>(t: Tree<K>, q: seq<Item<K>>) {
    && (forall i :: 0 <= i < |q| ==> IsPath(t, q[i].path) && q[i].tree == Sub(t, q[i].path))
    && (forall i, j :: 0 <= i < j < |q| ==> Above(q[i].path, q[j].path))
    && (forall i :: 0 <= i < |q| && |q[i].path| != |q[0].path| ==>
          |q[i].path| == |q[0].path| + 1 && Before(q[i].path[..|q[0].path|], q[0].path))
  }

  lemma LevelOrderNext<K>(t: Tree<K>, q: seq<Item<K>>)
    requires q != [] && LevelOrder(t, q)
    ensures LevelOrder(t, q[1..] + Children(q[0]))
  {
    var p, cs, r := q[0].path, Children(q[0]), q[1..] + Children(q[0]);
    forall i | 0 <= i < |cs|
      ensures IsPath(t, cs[i].path) && cs[i].tree == Sub(t, cs[i].path)
    {
      SubExtended(t, p, [i]);
      assert Sub(t, p).children[i] == Sub(Sub(t, p), [i]);
    }
    forall i, j | 0 <= i < j < |r|
      ensures Above(r[i].path, r[j].path)
    {
      if j >= |q| - 1 {
        var c := j - (|q| - 1);
        if i >= |q| - 1 {
          BeforeSibling(p, i - (|q| - 1), c);
        } else if |r[i].path| == |p| + 1 {
          var x := r[i].path;
          assert x == q[i + 1].path;
          BeforeExtended(x[..|p|], p, [x[|p|]], [c]);
          assert x == x[..|p|] + [x[|p|]];
        }
      }
    }
    forall i | 0 <= i < |r| && |r[i].path| != |r[0].path|
      ensures |r[i].path| == |r[0].path| + 1 && Before(r[i].path[..|r[0].path|], r[0].path)
    {
      if |q| > 1 {
        NextLevelBehind(t, q, i);
      }
    }
  }

  lemma NextLevelBehind<K>(t: Tree<K>, q: seq<Item<K>>, i: nat)
    requires |q| > 1 && LevelOrder(t, q) && i < |q[1..] + Children(q[0])|
    requires var r := q[1..] + Children(q[0]); |r[i].path| != |r[0].path|
    ensures var r := q[1..] + Children(q[0]);
            |r[i].path| == |r[0].path| + 1 && Before(r[i].path[..|r[0].path|], r[0].path)
  {
    var p, f, r := q[0].path, q[1].path, q[1..] + Children(q[0]);
    var x := r[i].path;
    assert Above(p, f);
    if i < |q| - 1 {
      assert x == q[i + 1].path && Above(f, x) && (x == p || Above(p, x));
      if |f| == |p| {
        BeforeTrans(x[..|p|], p, f);
      }
    } else {
      assert x[..|p|] == p;
    }
  }

  lemma {:induction false} AboveDescendants<K>(t: Tree<K>, q: seq<Item<K>>, i: nat, r: Path)
    requires LevelOrder(t, q) && i < |q| && (i > 0 || r != [])
    ensures Above(q[0].path, q[i].path + r)
  {
    if i > 0 {
      assert Above(q[0].path, q[i].path);
      if |q[i].path + r| == |q[0].path| {
        assert q[i].path + r == q[i].path;
      }
    }
  }

  /** Breadth-first search finds the first match level by level, among all the queued subtrees. */
  lemma {:induction false} BfsFindsFirst<K(!new)>(fn: (K, K) -> int, t: Tree<K>, q: seq<Item<K>>, key: K)
    requires TotalPreorder(fn) && LevelOrder(t, q)
    ensures match Bfs(fn, q, key)
            case Some(p) => Matches(fn, t, key, p) &&
              forall i, r :: 0 <= i < |q| && Matches(fn, q[i].tree, key, r) ==> q[i].path + r == p || Above(p, q[i].path + r)
            case None => forall i, r :: 0 <= i < |q| ==> !Matches(fn, q[i].tree, key, r)
    decreases Queued(q)
  {
    if q == [] {
      return;
    }
    if fn(key, q[0].tree.key) == 0 {
      forall i, r | 0 <= i < |q| && Matches(fn, q[i].tree, key, r)
        ensures q[i].path + r == q[0].path || Above(q[0].path, q[i].path + r)
      {
        if i == 0 && r == [] {
          assert q[0].path + [] == q[0].path;
        } else {
          AboveDescendants(t, q, i, r);
        }
      }
      return;
    }
    var next := q[1..] + Children(q[0]);
    QueueShrinks(q);
    LevelOrderNext(t, q);
    BfsFindsFirst(fn, t, next, key);
    forall i, r | 0 <= i < |q| && Matches(fn, q[i].tree, key, r)
      ensures match Bfs(fn, next, key)
              case Some(p) => q[i].path + r == p || Above(p, q[i].path + r)
              case None => false
    {
      var j, s := Requeued(fn, q, key, i, r);
      assert next[j].path + s == q[i].path + r;
    }
  }

  /** A match below a queued subtree is below one of the next queue's subtrees, if it is not the root of
      the first one. */
  lemma Requeued<K(!new)>(fn: (K, K) -> int, q: seq<Item<K>>, key: K, i: nat, r: Path) returns (j: nat, s: Path)
    requires TotalPreorder(fn) && i < |q| && Matches(fn, q[i].tree, key, r) && fn(key, q[0].tree.key) != 0
    ensures var next := q[1..] + Children(q[0]);
            j < |next| && Matches(fn, next[j].tree, key, s) && next[j].path + s == q[i].path + r
  {
    if i > 0 {
      j, s := i - 1, r;
    } else {
      assert r != [];
      j, s := |q| - 1 + r[0], r[1..];
      assert (q[0].path + [r[0]]) + r[1..] == q[0].path + r;
    }
  }

  /** The match at `p` comes first in preorder, and none is nearer to the root. */
  ghost predicate FirstBothWays<K>(fn: (K, K) -> int, t: Tree<K>, key: K, p: Path) {
    Matches(fn, t, key, p) && forall q :: Matches(fn, t, key, q) ==> q == p || (Before(p, q) && |p| <= |q|)
  }

  /** The two searches agree on whether there is a match.  When there is one, they agree on which one to return
      if and only if some match is first in both orders. */
  lemma SearchesAgreeIff<K(!new)>(fn: (K, K) -> int, t: Tree<K>, key: K)
    requires TotalPreorder(fn)
    ensures Dfs(fn, t, key).Some? <==> exists p :: Matches(fn, t, key, p)
    ensures BfsFind(fn, t, key).Some? <==> exists p :: Matches(fn, t, key, p)
    ensures (exists p :: Matches(fn, t, key, p)) ==>
              (Dfs(fn, t, key) == BfsFind(fn, t, key) <==> exists p :: FirstBothWays(fn, t, key, p))
  {
    var items := [Item([], t)];
    DfsFindsFirst(fn, t, key);
    BfsFindsFirst(fn, t, items, key);
    var d, b := Dfs(fn, t, key), BfsFind(fn, t, key);
    forall p | Matches(fn, t, key, p)
      ensures b.Some? && (p == b.value || Above(b.value, p))
    {
      assert Matches(fn, items[0].tree, key, p) && items[0].path + p == p;
    }
    if d.Some? && d == b {
      assert FirstBothWays(fn, t, key, d.value);
    }
    if p :| FirstBothWays(fn, t, key, p) {
      BeforeAntisymmetric(d.value, p);
      BeforeAntisymmetric(b.value, p);
    }
  }

  /** With a repeated key the searches can return different nodes: one match is first in preorder, the
      other one is nearer to the root. */
  lemma SearchesCanDiffer()
    ensures var t := Node(0, [Node(1, [Node(2, [])]), Node(2, [])]);
            Dfs(Difference, t, 2) == Some([0, 0]) && BfsFind(Difference, t, 2) == Some([1])
  {
    var leaf := Node(2, []);
    var left := Node(1, [leaf]);
    var t := Node(0, [left, leaf]);
    DfsStart(Difference, leaf, 2);
    DfsStart(Difference, left, 2);
    DfsStep(Difference, left, 2, 0);
    DfsStart(Difference, t, 2);
    DfsStep(Difference, t, 2, 0);
    var q0 := [Item([], t)];
    var q1 := [Item([0], left), Item([1], leaf)];
    var q2 := [Item([1], leaf), Item([0, 0], leaf)];
    assert [] + [0] == [0] + [] == [0] && [] + [1] == [1] && [0] + [0] == [0, 0];
    assert Children(q0[0]) == q1 && q0[1..] == [];
    assert Children(q1[0]) == [Item([0, 0], leaf)] && q1[1..] == [Item([1], leaf)];
    BfsStep(Difference, q0, 2);
    BfsStep(Difference, q1, 2);
    BfsStep(Difference, q2, 2);
  }

  // ---------- unique keys ----------

  ghost predicate UniqueKeys<K(!new)>(fn: (K, K) -> int, t: Tree<K>) {
    forall key, p, q :: Matches(fn, t, key, p) && Matches(fn, t, key, q) ==> p == q
  }

  /** With unique keys the two searches return the same node. */
  lemma SearchesAgree<K(!new)>(fn: (K, K) -> int, t: Tree<K>, key: K)
    requires TotalPreorder(fn) && UniqueKeys(fn, t)
    ensures Dfs(fn, t, key) == BfsFind(fn, t, key)
  {
    SearchesAgreeIff(fn, t, key);
    if p :| Matches(fn, t, key, p) {
      assert FirstBothWays(fn, t, key, p);
    }
  }

  // ---------- insertion and deletion ----------

  /** A new leaf becomes the last child of the node at `p`. */
  function InsertAt<K>(t: Tree<K>, p: Path, key: K): Tree<K>
    requires IsPath(t, p)
  {
    if p == [] then Node(t.key, t.children + [Node(key, [])])
    else Node(t.key, t.children[p[0] := InsertAt(t.children[p[0]], p[1..], key)])
  }

  /** The node at `p` goes with everything below it; its later siblings close the gap. */
  function DeleteAt<K>(t: Tree<K>, p: Path): Tree<K>
    requires IsPath(t, p) && p != []
  {
    if |p| == 1 then Node(t.key, Removed(t.children, p[0]))
    else Node(t.key, t.children[p[0] := DeleteAt(t.children[p[0]], p[1..])])
  }

  /** The path of the new leaf. */
  function NewLeaf<K>(t: Tree<K>, p: Path): Path
    requires IsPath(t, p)
  {
    p + [|Sub(t, p).children|]
  }

  /** Insertion adds one node and moves none. */
  lemma {:induction false} InsertAtPaths<K>(t: Tree<K>, p: Path, key: K, q: Path)
    requires IsPath(t, p)
    ensures IsPath(InsertAt(t, p, key), q) <==> IsPath(t, q) || q == NewLeaf(t, p)
    ensures IsPath(t, q) ==>
              var u, v := Sub(InsertAt(t, p, key), q), Sub(t, q);
              u.key == v.key && |u.children| == |v.children| + if q == p then 1 else 0
    ensures q == NewLeaf(t, p) ==> !IsPath(t, q) && Sub(InsertAt(t, p, key), q) == Node(key, [])
  {
    if p == [] {
      assert NewLeaf(t, p) == [|t.children|];
      if q != [] && q[0] == |t.children| {
        assert q == [q[0]] + q[1..];
      }
    } else {
      var i := p[0];
      assert NewLeaf(t, p) == [i] + NewLeaf(t.children[i], p[1..]);
      if q != [] && q[0] == i {
        assert q == [i] + q[1..] && p == [i] + p[1..];
        InsertAtPaths(t.children[i], p[1..], key, q[1..]);
      }
    }
  }

  /** The old path of the node that is at `q` after the deletion at `p`. */
  function Back(p: Path, q: Path): (r: Path)
    requires p != []
    ensures |r| == |q|
  {
    if q == [] || q[0] < p[0] then q
    else if |p| == 1 then [q[0] + 1] + q[1..]
    else if q[0] == p[0] then [q[0]] + Back(p[1..], q[1..])
    else q
  }

  /** Deletion keeps exactly the nodes that are not at or below `p`, each with its key; only the parent
      of the deleted node has a child less. */
  lemma {:induction false} DeleteAtPaths<K>(t: Tree<K>, p: Path, q: Path)
    requires IsPath(t, p) && p != []
    ensures IsPath(DeleteAt(t, p), q) <==> IsPath(t, Back(p, q))
    ensures IsPath(t, Back(p, q)) ==>
              var u, v := Sub(DeleteAt(t, p), q), Sub(t, Back(p, q));
              u.key == v.key && |u.children| == |v.children| - if q == p[..|p| - 1] then 1 else 0
  {
    if |p| > 1 && q != [] && q[0] == p[0] {
      DeleteAtPaths(t.children[p[0]], p[1..], q[1..]);
      assert q == [q[0]] + q[1..] && p[..|p| - 1] == [p[0]] + p[1..][..|p| - 2];
      assert Back(p, q)[1..] == Back(p[1..], q[1..]);
    } else if |p| == 1 {
      assert p[..0] == [];
    }
  }

  /** The new path of the node that was at `r` before the deletion at `p`. */
  function Forward(p: Path, r: Path): (q: Path)
    requires p != [] && !(p <= r)
    ensures |q| == |r|
  {
    if r == [] || r[0] < p[0] then r
    else if |p| == 1 then [r[0] - 1] + r[1..]
    else if r[0] == p[0] then [r[0]] + Forward(p[1..], r[1..])
    else r
  }

  /** Every node that is not at or below `p` has a new path. */
  lemma {:induction false} BackForward(p: Path, r: Path)
    requires p != [] && !(p <= r)
    ensures Back(p, Forward(p, r)) == r
  {
    if |p| > 1 && r != [] && r[0] == p[0] {
      assert p == [p[0]] + p[1..] && r == [r[0]] + r[1..];
      BackForward(p[1..], r[1..]);
    }
  }

  /** Every new path is the path of just one kept node. */
  lemma {:induction false} ForwardBack(p: Path, q: Path)
    requires p != []
    ensures !(p <= Back(p, q)) && Forward(p, Back(p, q)) == q
  {
    if q != [] && q[0] >= p[0] {
      assert q == [q[0]] + q[1..] && Back(p, q) != [];
      if |p| > 1 && q[0] == p[0] {
        ForwardBack(p[1..], q[1..]);
        assert Back(p, q)[1..] == Back(p[1..], q[1..]);
        assert p == [p[0]] + p[1..];
      }
    }
  }

  lemma ParentTail(p: Path, q: Path)
    requires |p| > 1 && q != [] && q[0] == p[0]
    ensures q == p[..|p| - 1] <==> q[1..] == p[1..][..|p[1..]| - 1]
    ensures p[1..][|p[1..]| - 1] == p[|p| - 1]
  {
    assert q == [q[0]] + q[1..];
    assert p[..|p| - 1] == [p[0]] + p[1..][..|p[1..]| - 1];
  }

  /** The children of a kept node are its old children, but for the gap at the deleted one. */
  lemma {:induction false} BackExtended(p: Path, q: Path, i: nat)
    requires p != []
    ensures Back(p, q + [i]) == Back(p, q) + [if q == p[..|p| - 1] && i >= p[|p| - 1] then i + 1 else i]
  {
    if q == [] {
      assert q + [i] == [i] && [i][1..] == [];
      assert |p| > 1 ==> |p[..|p| - 1]| > 0;
      if |p| > 1 {
        assert Back(p[1..], []) == [];
      }
    } else {
      assert (q + [i])[1..] == q[1..] + [i];
      if |p| > 1 && q[0] == p[0] {
        BackExtended(p[1..], q[1..], i);
        ParentTail(p, q);
      }
    }
  }

  // ---------- runs ----------

  /** Insertion of a key below a parent, and deletion. */
  datatype Op<K> = Insert(key: K, parent: K) | Delete(key: K)

  /** The operation, once its search has found `found`; it does not delete the root. */
  function Apply<K>(t: Tree<K>, op: Op<K>, found: Option<Path>): Tree<K>
    requires found.Some? ==> IsPath(t, found.value) && (op.Delete? ==> found.value != [])
  {
    if found.None? then t
    else if op.Insert? then InsertAt(t, found.value, op.key)
    else DeleteAt(t, found.value)
  }

  function Sought<K>(op: Op<K>): K {
    if op.Insert? then op.parent else op.key
  }

  /** A tree keeps unique keys when the inserted key is new. */
  lemma InsertKeepsUnique<K(!new)>(fn: (K, K) -> int, t: Tree<K>, at: Path, key: K)
    requires TotalPreorder(fn) && UniqueKeys(fn, t) && IsPath(t, at) && forall p :: !Matches(fn, t, key, p)
    ensures UniqueKeys(fn, InsertAt(t, at, key))
  {
    var u := InsertAt(t, at, key);
    forall k, p, q | Matches(fn, u, k, p) && Matches(fn, u, k, q)
      ensures p == q
    {
      InsertAtPaths(t, at, key, p);
      InsertAtPaths(t, at, key, q);
      assert IsPath(t, p) ==> Matches(fn, t, k, p);
      assert IsPath(t, q) ==> Matches(fn, t, k, q);
      if p != q {
        var old' := if IsPath(t, p) then p else q;
        assert fn(Sub(t, old').key, k) == 0 && fn(key, k) == 0;
        assert Matches(fn, t, key, old');
      }
    }
  }

  lemma DeleteKeepsUnique<K(!new)>(fn: (K, K) -> int, t: Tree<K>, at: Path)
    requires UniqueKeys(fn, t) && IsPath(t, at) && at != []
    ensures UniqueKeys(fn, DeleteAt(t, at))
  {
    var u := DeleteAt(t, at);
    forall k, p, q | Matches(fn, u, k, p) && Matches(fn, u, k, q)
      ensures p == q
    {
      DeleteAtPaths(t, at, p);
      DeleteAtPaths(t, at, q);
      assert Matches(fn, t, k, Back(at, p)) && Matches(fn, t, k, Back(at, q));
      ForwardBack(at, p);
      ForwardBack(at, q);
    }
  }

  /** Either search. */
  function Search<K>(fn: (K, K) -> int, depthFirst: bool, t: Tree<K>, key: K): Option<Path> {
    if depthFirst then Dfs(fn, t, key) else BfsFind(fn, t, key)
  }

  /** A run of operations with one of the two searches, tree by tree; the root is not deleted. */
  ghost predicate RunOf<K>(fn: (K, K) -> int, depthFirst: bool, trees: seq<Tree<K>>, ops: seq<Op<K>>) {
    && |trees| == |ops| + 1
    && forall i :: 0 <= i < |ops| ==> StepOf(fn, depthFirst, trees[i], ops[i], trees[i + 1])
  }

  ghost predicate StepOf<K>(fn: (K, K) -> int, depthFirst: bool, t: Tree<K>, op: Op<K>, u: Tree<K>) {
    var found := Search(fn, depthFirst, t, Sought(op));
    && (found.Some? ==> IsPath(t, found.value) && (op.Delete? ==> found.value != []))
    && u == Apply(t, op, found)
  }

  /** Every inserted key is new when it is inserted. */
  ghost predicate NewKeys<K(!new)>(fn: (K, K) -> int, trees: seq<Tree<K>>, ops: seq<Op<K>>)
    requires |trees| == |ops| + 1
  {
    forall i, p :: 0 <= i < |ops| && ops[i].Insert? ==> !Matches(fn, trees[i], ops[i].key, p)
  }

  /** From a tree with unique keys, insertions of new keys and deletions build the same trees whichever
      search they use, step by step. */
  lemma {:induction false} RunsAgree<K(!new)>(fn: (K, K) -> int, ds: seq<Tree<K>>, bs: seq<Tree<K>>, ops: seq<Op<K>>)
    requires TotalPreorder(fn) && RunOf(fn, true, ds, ops) && RunOf(fn, false, bs, ops) && NewKeys(fn, ds, ops)
    requires ds[0] == bs[0] && UniqueKeys(fn, ds[0])
    ensures ds == bs && UniqueKeys(fn, ds[|ops|])
  {
    if ops != [] {
      var n := |ops| - 1;
      RunsAgree(fn, ds[..n + 1], bs[..n + 1], ops[..n]);
      var t, op := ds[n], ops[n];
      assert t == ds[..n + 1][n] && bs[n] == bs[..n + 1][n];
      assert StepOf(fn, true, t, op, ds[n + 1]) && StepOf(fn, false, t, op, bs[n + 1]);
      SearchesAgree(fn, t, Sought(op));
      var found := Dfs(fn, t, Sought(op));
      if found.Some? {
        if op.Insert? {
          InsertKeepsUnique(fn, t, found.value, op.key);
        } else {
          DeleteKeepsUnique(fn, t, found.value);
        }
      }
      assert ds == ds[..n + 1] + [ds[n + 1]] && bs == bs[..n + 1] + [bs[n + 1]];
    }
  }
}
