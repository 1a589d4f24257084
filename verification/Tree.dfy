/** tree.c on linked nodes.  The tree keeps two ghost fields: its value, and which node is at which path. */
module Tree {
  import opened Options
  import opened Sequences
  import Queue
  import S = TreeSpec

  class Node<K> {
    const key: K
    var slots: seq<Node?<K>>
    var len: nat
    var cap: nat
    var parent: Node?<K>

    /** The first `len` slots hold the children, the others up to `cap` are zero. */
    ghost predicate Slotted()
      reads `slots, `len, `cap
    {
      && len <= cap == |slots|
      && (forall i :: 0 <= i < len ==> slots[i] != null)
      && (forall i :: len <= i < cap ==> slots[i] == null)
    }

    ghost function Children(): (cs: seq<Node<K>>)
      requires Slotted()
      reads `slots, `len, `cap
      ensures |cs| == len && forall i :: 0 <= i < len ==> cs[i] == slots[i]
    {
      var ss, n := slots, len;
      seq(n, i requires 0 <= i < n <= |ss| && ss[i] != null => ss[i])
    }

    constructor (key: K)
      ensures this.key == key && Slotted() && Children() == [] && cap == 0 && parent == null
    {
      this.key := key;
      slots, len, cap, parent := [], 0, 0, null;
    }

    /** `tree_node_realloc`: more slots, all the new ones zero. */
    method Realloc()
      requires Slotted()
      modifies `slots, `cap
      ensures Slotted() && Children() == old(Children())
      ensures cap == if old(cap) == 0 then 2 else 2 * old(cap)
    {
      var newCap := if cap == 0 then 2 else 2 * cap;
      slots := slots[..len] + seq(newCap - len, _ => null);
      cap := newCap;
    }

    /** `tree_node_insert`: `node` becomes the last child. */
    method InsertChild(node: Node<K>)
      requires Slotted()
      modifies `slots, `len, `cap, node`parent
      ensures Slotted() && Children() == old(Children()) + [node] && node.parent == this
      ensures cap == if old(len) < old(cap) then old(cap) else if old(cap) == 0 then 2 else 2 * old(cap)
    {
      if len == cap {
        Realloc();
      }
      slots := slots[len := node];
      len := len + 1;
      node.parent := this;
    }

    /** `tree_node_delete`: the slots behind the deleted child move down by one, and the one that this frees
        is zeroed. */
    method DeleteChild(idx: nat)
      requires Slotted() && idx < len
      modifies `slots, `len
      ensures Slotted() && Children() == Removed(old(Children()), idx) && len == old(len) - 1
    {
      var last := len - 1;
      if idx == last {
        slots := slots[idx := null];
        len := len - 1;
        return;
      }
      slots := slots[..idx] + slots[idx + 1..last + 1] + slots[last..];
      slots := slots[last := null];
      len := len - 1;
    }
  }

  type Places<!K> = map<S.Path, Node<K>>

  /** A node with these fields can stand at path `p` of the tree `t`: it has the key and the number of
      children the tree has there, and is linked to its children and its parent. */
  ghost predicate Fits<K>(at: Places<K>, t: S.Tree<K>, p: S.Path, key: K, children: seq<Node<K>>, parent: Node?<K>)
    requires S.IsPath(t, p)
  {
    var u := S.Sub(t, p);
    && key == u.key
    && |children| == |u.children|
    && (forall i :: 0 <= i < |children| ==> p + [i] in at && children[i] == at[p + [i]])
    && (if p == [] then parent == null else p[..|p| - 1] in at && parent == at[p[..|p| - 1]])
  }

  ghost predicate Placed<K>(at: Places<K>, t: S.Tree<K>, p: S.Path)
    requires p in at && S.IsPath(t, p)
    reads at[p]
  {
    at[p].Slotted() && Fits(at, t, p, at[p].key, at[p].Children(), at[p].parent)
  }

  ghost predicate Mapped<K>(at: Places<K>, t: S.Tree<K>) {
    && (forall p :: p in at <==> S.IsPath(t, p))
    && (forall p, q :: p in at && q in at && at[p] == at[q] ==> p == q)
  }

  ghost predicate Laid<K>(at: Places<K>, t: S.Tree<K>)
    reads at.Values
  {
    Mapped(at, t) && forall p :: p in at ==> Placed(at, t, p)
  }

  /** What a search promises: a null pointer or the node at the path, with its index among its siblings. */
  ghost predicate Located<K>(at: Places<K>, path: Option<S.Path>, node: Node?<K>, idx: nat) {
    match path
    case None => node == null
    case Some(p) => p in at && node == at[p] && (p != [] ==> idx == p[|p| - 1])
  }

  function Under(p: S.Path, r: Option<S.Path>): Option<S.Path> {
    match r
    case None => None
    case Some(q) => Some(p + q)
  }

  lemma NodeAt<K>(at: Places<K>, t: S.Tree<K>, p: S.Path)
    requires Laid(at, t) && p in at
    ensures S.IsPath(t, p) && at[p].key == S.Sub(t, p).key
    ensures at[p].Slotted() && at[p].len == |S.Sub(t, p).children|
  {
    assert Placed(at, t, p);
  }

  lemma ChildAt<K>(at: Places<K>, t: S.Tree<K>, p: S.Path, i: nat)
    requires Laid(at, t) && p in at && i < at[p].len
    ensures i < at[p].len <= |at[p].slots| && p + [i] in at && at[p].slots[i] == at[p + [i]] && S.IsPath(t, p + [i])
    ensures i < |S.Sub(t, p).children| == at[p].len
    ensures S.Sub(t, p + [i]) == S.Sub(t, p).children[i]
  {
    assert Placed(at, t, p);
    S.SubExtended(t, p, [i]);
  }

  /** `depth_first_find_node` below the node at `p`.  The index passed in comes back when the root of the
      subtree is the match; `p` is only for the proof. */
  method DepthFirstFindNode<K>(node: Node<K>, fn: (K, K) -> int, key: K, idx0: nat,
                               ghost at: Places<K>, ghost t: S.Tree<K>, ghost p: S.Path)
    returns (found: Node?<K>, idx: nat)
    requires Laid(at, t) && p in at && at[p] == node && (p != [] ==> idx0 == p[|p| - 1])
    ensures Located(at, Under(p, S.Dfs(fn, S.Sub(t, p), key)), found, idx)
    decreases S.Sub(t, p)
  {
    hide Laid, S.Sub, S.IsPath, S.Dfs, S.DfsFrom;
    idx := idx0;
    NodeAt(at, t, p);
    ghost var u := S.Sub(t, p);
    S.DfsStart(fn, u, key);
    if fn(node.key, key) == 0 {
      assert p + [] == p;
      return node, idx;
    }
    var len := node.len;
    var i := 0;
    while i < len
      invariant 0 <= i <= len == |u.children|
      invariant S.Dfs(fn, u, key) == S.DfsFrom(fn, u, key, i)
    {
      ChildAt(at, t, p, i);
      S.DfsStep(fn, u, key, i);
      found, idx := DepthFirstFindNode(node.slots[i], fn, key, i, at, t, p + [i]);
      if found != null {
        ghost var r := S.Dfs(fn, u.children[i], key);
        assert p + [i] + r.value == p + ([i] + r.value);
        return;
      }
      i := i + 1;
    }
    S.DfsStep(fn, u, key, len);
    found := null;
  }

  /** The queue holds the nodes of the queued subtrees. */
  ghost predicate Enqueued<K>(at: Places<K>, t: S.Tree<K>, items: seq<S.Item<K>>, queued: seq<(Node<K>, nat)>) {
    && |items| == |queued|
    && forall k :: 0 <= k < |items| ==> EnqueuedAt(at, t, items[k], queued[k])
  }

  ghost predicate EnqueuedAt<K>(at: Places<K>, t: S.Tree<K>, it: S.Item<K>, x: (Node<K>, nat)) {
    && it.path in at && x.0 == at[it.path]
    && S.IsPath(t, it.path) && it.tree == S.Sub(t, it.path)
    && (it.path != [] ==> x.1 == it.path[|it.path| - 1])
  }

  lemma Dequeued<K>(at: Places<K>, t: S.Tree<K>, items: seq<S.Item<K>>, was: seq<(Node<K>, nat)>,
                    x: (Node<K>, nat), queued: seq<(Node<K>, nat)>)
    requires Enqueued(at, t, items, was) && was == [x] + queued
    ensures items != [] && EnqueuedAt(at, t, items[0], x) && Enqueued(at, t, items[1..], queued)
  {
    assert was[0] == x;
    assert forall k :: 0 <= k < |queued| ==> queued[k] == was[k + 1];
  }

  lemma EnqueuedMore<K>(at: Places<K>, t: S.Tree<K>, items: seq<S.Item<K>>, queued: seq<(Node<K>, nat)>,
                        it: S.Item<K>, x: (Node<K>, nat))
    requires Enqueued(at, t, items, queued) && EnqueuedAt(at, t, it, x)
    ensures Enqueued(at, t, items + [it], queued + [x])
  {
  }

  lemma ItemAt<K>(at: Places<K>, t: S.Tree<K>, it: S.Item<K>, x: (Node<K>, nat))
    requires Laid(at, t) && EnqueuedAt(at, t, it, x)
    ensures x.0.key == it.tree.key && x.0.len == |it.tree.children|
    ensures Located(at, Some(it.path), x.0, x.1)
  {
    NodeAt(at, t, it.path);
  }

  lemma ChildItem<K>(at: Places<K>, t: S.Tree<K>, it: S.Item<K>, x: (Node<K>, nat), i: nat)
    requires Laid(at, t) && EnqueuedAt(at, t, it, x) && i < x.0.len
    ensures i < |x.0.slots| && x.0.slots[i] != null
    ensures i < |S.Children(it)| && EnqueuedAt(at, t, S.Children(it)[i], (x.0.slots[i], i))
  {
    ChildAt(at, t, it.path, i);
  }

  lemma RootItem<K>(at: Places<K>, t: S.Tree<K>, root: Node<K>)
    requires Laid(at, t) && [] in at && at[[]] == root
    ensures Enqueued(at, t, [S.Item([], t)], [(root, 0)])
  {
  }

  lemma NothingQueued<K>(at: Places<K>, t: S.Tree<K>, fn: (K, K) -> int, key: K, items: seq<S.Item<K>>,
                         q: Queue.Queue<(Node<K>, nat)>)
    requires q.Valid() && q.len == 0 && Enqueued(at, t, items, q.Contents())
    ensures Located(at, S.Bfs(fn, items, key), null, 0)
  {
  }

  /** The inner loop of the breadth-first search: queues the children of a node just taken off. */
  method EnqueChildren<K>(q: Queue.Queue<(Node<K>, nat)>, cur: (Node<K>, nat), ghost at: Places<K>, ghost t: S.Tree<K>,
                          ghost it: S.Item<K>, ghost items: seq<S.Item<K>>)
    requires q.Valid() && Laid(at, t) && Enqueued(at, t, items, q.Contents()) && EnqueuedAt(at, t, it, cur)
    modifies q, q.repr
    ensures q.Valid() && fresh(q.repr - old(q.repr)) && Enqueued(at, t, items + S.Children(it), q.Contents())
  {
    hide Laid, Located, Enqueued, EnqueuedAt, S.Sub, S.IsPath, Queue.Queue.Valid;
    ItemAt(at, t, it, cur);
    ghost var now := items;
    var len := cur.0.len;
    for i := 0 to len
      invariant len == |S.Children(it)| == cur.0.len && Laid(at, t)
      invariant q.Valid() && fresh(q.repr - old(q.repr))
      invariant now == items + S.Children(it)[..i] && Enqueued(at, t, now, q.Contents())
    {
      ChildItem(at, t, it, cur, i);
      EnqueuedMore(at, t, now, q.Contents(), S.Children(it)[i], (cur.0.slots[i], i));
      q.Enque((cur.0.slots[i], i));
      now := now + [S.Children(it)[i]];
    }
    assert S.Children(it)[..len] == S.Children(it);
  }

  /** `breadth_first_find_node`. */
  method BreadthFirstFindNode<K>(root: Node<K>, fn: (K, K) -> int, key: K, ghost at: Places<K>, ghost t: S.Tree<K>)
    returns (found: Node?<K>, idx: nat)
    requires Laid(at, t) && [] in at && at[[]] == root
    ensures Located(at, S.BfsFind(fn, t, key), found, idx)
  {
    hide Laid, Located, Enqueued, EnqueuedAt, S.Sub, S.IsPath, S.Bfs, S.Queued, S.Children, Queue.Queue.Valid;
    var q := new Queue.Queue<(Node<K>, nat)>();
    q.Enque((root, 0));
    ghost var items := [S.Item([], t)];
    RootItem(at, t, root);
    assert q.Contents() == [(root, 0)];
    while q.len > 0
      invariant q.Valid() && fresh(q) && fresh(q.repr)
      invariant Laid(at, t) && Enqueued(at, t, items, q.Contents())
      invariant S.BfsFind(fn, t, key) == S.Bfs(fn, items, key)
      decreases S.Queued(items)
    {
      ghost var was := q.Contents();
      var out := q.Deque();
      var cur := out.value;
      Dequeued(at, t, items, was, cur, q.Contents());
      ghost var it := items[0];
      ItemAt(at, t, it, cur);
      S.BfsStep(fn, items, key);
      if fn(key, cur.0.key) == 0 {
        return cur.0, cur.1;
      }
      EnqueChildren(q, cur, at, t, it, items[1..]);
      S.QueueShrinks(items);
      items := items[1..] + S.Children(it);
    }
    NothingQueued(at, t, fn, key, items, q);
    found, idx := null, 0;
  }

  // ---------- insertion and deletion ----------

  /** A new last child of the node at `p`. */
  lemma LaidAfterInsert<K>(at: Places<K>, was: S.Tree<K>, p: S.Path, node: Node<K>, now: Places<K>)
    requires Mapped(at, was) && p in at && node !in at.Values
    requires S.IsPath(was, p) && now == at[S.NewLeaf(was, p) := node]
    ensures Mapped(now, S.InsertAt(was, p, node.key))
  {
    forall q
      ensures q in now <==> S.IsPath(S.InsertAt(was, p, node.key), q)
    {
      S.InsertAtPaths(was, p, node.key, q);
    }
    forall q, r | q in now && r in now && now[q] == now[r]
      ensures q == r
    {
      assert q in at ==> at[q] in at.Values;
      assert r in at ==> at[r] in at.Values;
    }
  }

  lemma FitsAfterInsert<K>(at: Places<K>, t: S.Tree<K>, p: S.Path, node: Node<K>, q: S.Path,
                           key: K, children: seq<Node<K>>, parent: Node?<K>)
    requires Mapped(at, t) && S.IsPath(t, p) && S.IsPath(t, q) && Fits(at, t, q, key, children, parent)
    ensures S.IsPath(S.InsertAt(t, p, node.key), q)
    ensures Fits(at[S.NewLeaf(t, p) := node], S.InsertAt(t, p, node.key), q, key,
                 if q == p then children + [node] else children, parent)
  {
    S.InsertAtPaths(t, p, node.key, q);
    S.InsertAtPaths(t, p, node.key, S.NewLeaf(t, p));
  }

  lemma FitsNew<K>(at: Places<K>, t: S.Tree<K>, p: S.Path, node: Node<K>)
    requires Mapped(at, t) && S.IsPath(t, p)
    ensures S.IsPath(S.InsertAt(t, p, node.key), S.NewLeaf(t, p))
    ensures Fits(at[S.NewLeaf(t, p) := node], S.InsertAt(t, p, node.key), S.NewLeaf(t, p), node.key, [], at[p])
  {
    S.InsertAtPaths(t, p, node.key, S.NewLeaf(t, p));
    assert S.NewLeaf(t, p)[..|p|] == p;
  }

  /** Where the nodes are that are not at or below `p`, once those are gone. */
  ghost function KeptAt<K>(at: Places<K>, p: S.Path): (now: Places<K>)
    requires p != []
    ensures forall q :: q in now <==> S.Back(p, q) in at
    ensures forall q :: q in now ==> now[q] == at[S.Back(p, q)]
  {
    var kept := set r | r in at && !(p <= r) :: S.Forward(p, r);
    assert forall q :: q in kept <==> S.Back(p, q) in at by {
      forall q
        ensures q in kept <==> S.Back(p, q) in at
      {
        S.ForwardBack(p, q);
        if q in kept {
          var r :| r in at && !(p <= r) && S.Forward(p, r) == q;
          S.BackForward(p, r);
        }
      }
    }
    map q | q in kept :: at[S.Back(p, q)]
  }

  lemma MappedAfterDelete<K>(at: Places<K>, t: S.Tree<K>, p: S.Path)
    requires Mapped(at, t) && p in at && p != []
    ensures S.IsPath(t, p) && Mapped(KeptAt(at, p), S.DeleteAt(t, p))
  {
    var now := KeptAt(at, p);
    forall q
      ensures q in now <==> S.IsPath(S.DeleteAt(t, p), q)
    {
      S.DeleteAtPaths(t, p, q);
    }
    forall q, r | q in now && r in now && now[q] == now[r]
      ensures q == r
    {
      S.ForwardBack(p, q);
      S.ForwardBack(p, r);
    }
  }

  /** The children of the node at `q` once the child that `p` leads to is gone. */
  function Remaining<K>(p: S.Path, q: S.Path, children: seq<Node<K>>): seq<Node<K>>
    requires p != [] && (q == p[..|p| - 1] ==> p[|p| - 1] < |children|)
  {
    if q == p[..|p| - 1] then Removed(children, p[|p| - 1]) else children
  }

  lemma BackParent(p: S.Path, q: S.Path)
    requires p != [] && q != []
    ensures S.Back(p, q)[..|q| - 1] == S.Back(p, q[..|q| - 1])
  {
    hide S.Back;
    var up, i := q[..|q| - 1], q[|q| - 1];
    assert q == up + [i];
    S.BackExtended(p, up, i);
  }

  lemma FitsAfterDelete<K>(at: Places<K>, t: S.Tree<K>, p: S.Path, q: S.Path,
                           key: K, children: seq<Node<K>>, parent: Node?<K>)
    requires Mapped(at, t) && S.IsPath(t, p) && p != [] && S.IsPath(t, S.Back(p, q))
    requires Fits(at, t, S.Back(p, q), key, children, parent)
    requires q == p[..|p| - 1] ==> p[|p| - 1] < |children|
    ensures S.IsPath(S.DeleteAt(t, p), q)
    ensures Fits(KeptAt(at, p), S.DeleteAt(t, p), q, key, Remaining(p, q, children), parent)
  {
    hide Mapped, KeptAt, S.Back, S.Sub, S.IsPath, S.DeleteAt;
    S.DeleteAtPaths(t, p, q);
    var now, cs := KeptAt(at, p), Remaining(p, q, children);
    forall i | 0 <= i < |cs|
      ensures q + [i] in now && cs[i] == now[q + [i]]
    {
      S.BackExtended(p, q, i);
      var j := if q == p[..|p| - 1] && i >= p[|p| - 1] then i + 1 else i;
      assert children[j] == at[S.Back(p, q) + [j]];
    }
    if q != [] {
      BackParent(p, q);
    }
  }

  lemma BackOfParent(p: S.Path)
    requires p != []
    ensures S.Back(p, p[..|p| - 1]) == p[..|p| - 1]
    ensures forall q :: S.Back(p, q) == p[..|p| - 1] ==> q == p[..|p| - 1]
  {
    S.ForwardBack(p, p[..|p| - 1]);
    BackOfPrefix(p, p[..|p| - 1]);
    forall q | S.Back(p, q) == p[..|p| - 1]
      ensures q == p[..|p| - 1]
    {
      S.ForwardBack(p, q);
    }
  }

  lemma {:induction false} BackOfPrefix(p: S.Path, q: S.Path)
    requires p != [] && q < p
    ensures S.Back(p, q) == q
  {
    if q != [] {
      BackOfPrefix(p[1..], q[1..]);
    }
  }

  lemma OnePath<K>(at: Places<K>, t: S.Tree<K>, p: S.Path, q: S.Path)
    requires Mapped(at, t) && p in at && q in at
    ensures at[p] == at[q] <==> p == q
    ensures S.IsPath(t, p) && S.IsPath(t, q)
  {
  }

  lemma ParentOf<K>(at: Places<K>, t: S.Tree<K>, p: S.Path)
    requires Laid(at, t) && p in at && p != []
    ensures p[..|p| - 1] in at && at[p].parent == at[p[..|p| - 1]]
    ensures at[p].parent.Slotted() && p[|p| - 1] < at[p].parent.len
  {
    hide *;
    var up, i := p[..|p| - 1], p[|p| - 1];
    assert up + [i] == p;
    ParentLink(at, t, p);
    NodeAt(at, t, p);
    NodeAt(at, t, up);
    S.SubExtended(t, up, [i]);
    ChildExists(S.Sub(t, up), i);
  }

  lemma ParentLink<K>(at: Places<K>, t: S.Tree<K>, p: S.Path)
    requires Laid(at, t) && p in at && p != []
    ensures p[..|p| - 1] in at && at[p].parent == at[p[..|p| - 1]]
  {
    assert Placed(at, t, p);
  }

  lemma ChildExists<K>(u: S.Tree<K>, i: nat)
    requires S.IsPath(u, [i])
    ensures i < |u.children|
  {
  }

  lemma RootIsAll<K>(t: S.Tree<K>)
    ensures S.Sub(t, []) == t
    ensures forall p: S.Path :: [] + p == p
  {
  }

  /** A new leaf is not at the root's place. */
  lemma RootStays<K>(t: S.Tree<K>, p: S.Path)
    requires S.IsPath(t, p)
    ensures S.NewLeaf(t, p) != []
  {
  }

  /** Makes a new node the last child of the node at `p`. */
  method LinkChild<K>(parent: Node<K>, node: Node<K>, ghost at: Places<K>, ghost t: S.Tree<K>, ghost p: S.Path)
    requires Laid(at, t) && p in at && at[p] == parent
    requires node !in at.Values && node.Slotted() && node.Children() == []
    modifies parent`slots, parent`len, parent`cap, node`parent
    ensures S.IsPath(t, p) && Laid(at[S.NewLeaf(t, p) := node], S.InsertAt(t, p, node.key))
  {
    hide Fits, Mapped, Node.Slotted, Node.Children, S.Sub, S.IsPath, S.InsertAt, S.NewLeaf;
    NodeAt(at, t, p);
    ghost var now := at[S.NewLeaf(t, p) := node];
    LaidAfterInsert(at, t, p, node, now);
    FitsNew(at, t, p, node);
    parent.InsertChild(node);
    forall q | q in now
      ensures Placed(now, S.InsertAt(t, p, node.key), q)
    {
      if q != S.NewLeaf(t, p) {
        var n := at[q];
        OnePath(at, t, p, q);
        assert old(Placed(at, t, q)) && n in at.Values;
        FitsAfterInsert(at, t, p, node, q, n.key, old(n.Children()), n.parent);
      }
    }
  }

  class Tree<K> {
    var root: Node?<K>
    ghost var shape: Option<S.Tree<K>>
    ghost var at: Places<K>

    ghost predicate Valid()
      reads this, at.Values
    {
      match shape
      case None => root == null && at == map[]
      case Some(t) => root != null && [] in at && at[[]] == root && Laid(at, t)
    }

    constructor ()
      ensures Valid() && shape == None
    {
      root, shape, at := null, None, map[];
    }

    method DepthFirstFind(key: K, fn: (K, K) -> int) returns (found: bool)
      requires Valid()
      ensures found <==> shape.Some? && S.Dfs(fn, shape.value, key).Some?
    {
      hide Laid, S.Dfs;
      if root == null {
        return false;
      }
      RootIsAll(shape.value);
      var node, _ := DepthFirstFindNode(root, fn, key, 0, at, shape.value, []);
      return node != null;
    }

    method BreadthFirstFind(key: K, fn: (K, K) -> int) returns (found: bool)
      requires Valid()
      ensures found <==> shape.Some? && S.BfsFind(fn, shape.value, key).Some?
    {
      hide Laid, S.Bfs;
      if root == null {
        return false;
      }
      var node, _ := BreadthFirstFindNode(root, fn, key, at, shape.value);
      return node != null;
    }

    /** Without a parent key: a root, if there is none yet. */
    method InsertRoot(key: K) returns (res: int)
      requires Valid()
      modifies this
      ensures Valid() && (old(shape).Some? ==> res == -1 && shape == old(shape) && at == old(at))
      ensures old(shape).None? ==> res == 0 && shape == Some(S.Node(key, [])) && fresh(at.Values)
    {
      if root != null {
        return -1;
      }
      root := new Node(key);
      shape := Some(S.Node(key, []));
      at := map[[] := root];
      return 0;
    }

    /** Links a new node below the node at `p`. */
    method InsertBelow(parent: Node<K>, key: K, ghost p: S.Path)
      requires Valid() && shape.Some? && p in at && at[p] == parent
      modifies this, parent
      ensures S.IsPath(old(shape.value), p) && shape == Some(S.InsertAt(old(shape.value), p, key)) && Valid()
      ensures fresh(at.Values - old(at.Values))
    {
      hide Laid, S.Sub, S.IsPath, S.InsertAt, S.NewLeaf, Node.Slotted, Node.Children;
      var node := new Node(key);
      ghost var t := shape.value;
      LinkChild(parent, node, at, t, p);
      RootStays(t, p);
      at := at[S.NewLeaf(t, p) := node];
      shape := Some(S.InsertAt(t, p, key));
    }

    /** Unlinks the node at `p`, which is not the root, from its parent. */
    method DeleteBelow(node: Node<K>, idx: nat, ghost p: S.Path)
      requires Valid() && shape.Some? && p in at && at[p] == node && p != [] && idx == p[|p| - 1]
      modifies this, node.parent
      ensures S.IsPath(old(shape.value), p) && shape == Some(S.DeleteAt(old(shape.value), p)) && Valid()
      ensures at.Values <= old(at.Values)
    {
      hide Fits, Mapped, KeptAt, Node.Slotted, Node.Children, S.Sub, S.IsPath, S.DeleteAt, S.Back;
      ghost var t, before, up := shape.value, at, p[..|p| - 1];
      ParentOf(at, t, p);
      BackOfParent(p);
      MappedAfterDelete(at, t, p);
      label L:
      node.parent.DeleteChild(idx);
      at := KeptAt(before, p);
      shape := Some(S.DeleteAt(t, p));
      forall q | q in at
        ensures Placed(at, shape.value, q)
      {
        var b := S.Back(p, q);
        var n := before[b];
        OnePath(before, t, up, b);
        assert old@L(Placed(before, t, b)) && n in before.Values;
        FitsAfterDelete(before, t, p, q, n.key, old@L(n.Children()), n.parent);
      }
    }

    /** Below the node that the depth-first search finds for `parKey`, or as the root without one; -1 when
        there is no such node, or a root already. */
    method DepthFirstInsert(key: K, parKey: Option<K>, fn: (K, K) -> int) returns (res: int)
      requires Valid() && (parKey.Some? ==> root != null)
      modifies this, at.Values
      ensures Valid() && fresh(at.Values - old(at.Values)) && (res == 0 || res == -1)
      ensures old(shape).None? ==> res == 0 && shape == Some(S.Node(key, []))
      ensures old(shape).Some? && parKey.None? ==> res == -1 && shape == old(shape)
      ensures parKey.Some? ==>
                match S.Dfs(fn, old(shape.value), parKey.value)
                case None => res == -1 && shape == old(shape)
                case Some(p) =>
                  && res == 0 && S.IsPath(old(shape.value), p)
                  && shape == Some(S.InsertAt(old(shape.value), p, key))
    {
      hide Laid, S.Dfs, S.Bfs, S.IsPath, S.Sub, S.InsertAt;
      if parKey == None {
        res := InsertRoot(key);
        return;
      }
      ghost var found := S.Dfs(fn, shape.value, parKey.value);
      RootIsAll(shape.value);
      var parent, _ := DepthFirstFindNode(root, fn, parKey.value, 0, at, shape.value, []);
      if parent == null {
        return -1;
      }
      InsertBelow(parent, key, found.value);
      return 0;
    }

    /** Below the node that the breadth-first search finds for `parKey`, or as the root without one; -1 when
        there is no such node, or a root already. */
    method BreadthFirstInsert(key: K, parKey: Option<K>, fn: (K, K) -> int) returns (res: int)
      requires Valid() && (parKey.Some? ==> root != null)
      modifies this, at.Values
      ensures Valid() && fresh(at.Values - old(at.Values)) && (res == 0 || res == -1)
      ensures old(shape).None? ==> res == 0 && shape == Some(S.Node(key, []))
      ensures old(shape).Some? && parKey.None? ==> res == -1 && shape == old(shape)
      ensures parKey.Some? ==>
                match S.BfsFind(fn, old(shape.value), parKey.value)
                case None => res == -1 && shape == old(shape)
                case Some(p) =>
                  && res == 0 && S.IsPath(old(shape.value), p)
                  && shape == Some(S.InsertAt(old(shape.value), p, key))
    {
      hide Laid, S.Dfs, S.Bfs, S.IsPath, S.Sub, S.InsertAt;
      if parKey == None {
        res := InsertRoot(key);
        return;
      }
      ghost var found := S.BfsFind(fn, shape.value, parKey.value);
      var parent, _ := BreadthFirstFindNode(root, fn, parKey.value, at, shape.value);
      if parent == null {
        return -1;
      }
      InsertBelow(parent, key, found.value);
      return 0;
    }

    /** The node that the depth-first search finds goes with everything below it; -1 when there is none.
        The search must not find the root. */
    method DepthFirstDelete(key: K, fn: (K, K) -> int) returns (res: int)
      requires Valid() && (shape.Some? ==> S.Dfs(fn, shape.value, key) != Some([]))
      modifies this, at.Values
      ensures Valid() && at.Values <= old(at.Values) && (res == 0 || res == -1)
      ensures old(shape).None? ==> res == -1 && shape == None
      ensures old(shape).Some? ==>
                match S.Dfs(fn, old(shape.value), key)
                case None => res == -1 && shape == old(shape)
                case Some(p) =>
                  && res == 0 && S.IsPath(old(shape.value), p)
                  && shape == Some(S.DeleteAt(old(shape.value), p))
    {
      hide Laid, S.Dfs, S.Bfs, S.IsPath, S.Sub, S.DeleteAt;
      if root == null {
        return -1;
      }
      ghost var found := S.Dfs(fn, shape.value, key);
      RootIsAll(shape.value);
      var node, idx := DepthFirstFindNode(root, fn, key, 0, at, shape.value, []);
      if node == null {
        return -1;
      }
      ParentOf(at, shape.value, found.value);
      DeleteBelow(node, idx, found.value);
      return 0;
    }

    /** The node that the breadth-first search finds goes with everything below it; -1 when there is none.
        The search must not find the root. */
    method BreadthFirstDelete(key: K, fn: (K, K) -> int) returns (res: int)
      requires Valid() && (shape.Some? ==> S.BfsFind(fn, shape.value, key) != Some([]))
      modifies this, at.Values
      ensures Valid() && at.Values <= old(at.Values) && (res == 0 || res == -1)
      ensures old(shape).None? ==> res == -1 && shape == None
      ensures old(shape).Some? ==>
                match S.BfsFind(fn, old(shape.value), key)
                case None => res == -1 && shape == old(shape)
                case Some(p) =>
                  && res == 0 && S.IsPath(old(shape.value), p)
                  && shape == Some(S.DeleteAt(old(shape.value), p))
    {
      hide Laid, S.Dfs, S.Bfs, S.IsPath, S.Sub, S.DeleteAt;
      if root == null {
        return -1;
      }
      ghost var found := S.BfsFind(fn, shape.value, key);
      var node, idx := BreadthFirstFindNode(root, fn, key, at, shape.value);
      if node == null {
        return -1;
      }
      ParentOf(at, shape.value, found.value);
      DeleteBelow(node, idx, found.value);
      return 0;
    }
  }

  // ---------- whole runs ----------

  /** One operation, with either search. */
  method Apply<K>(tree: Tree<K>, op: S.Op<K>, fn: (K, K) -> int, depthFirst: bool, ghost u: S.Tree<K>) returns (res: int)
    requires tree.Valid() && tree.shape.Some? && S.StepOf(fn, depthFirst, tree.shape.value, op, u)
    modifies tree, tree.at.Values
    ensures tree.Valid() && fresh(tree.at.Values - old(tree.at.Values)) && tree.shape == Some(u)
    ensures res == if S.Search(fn, depthFirst, old(tree.shape.value), S.Sought(op)).Some? then 0 else -1
  {
    hide Laid, S.Dfs, S.BfsFind, S.IsPath, S.InsertAt, S.DeleteAt;
    match op {
      case Insert(key, parent) =>
        if depthFirst {
          res := tree.DepthFirstInsert(key, Some(parent), fn);
        } else {
          res := tree.BreadthFirstInsert(key, Some(parent), fn);
        }
      case Delete(key) =>
        if depthFirst {
          res := tree.DepthFirstDelete(key, fn);
        } else {
          res := tree.BreadthFirstDelete(key, fn);
        }
    }
  }

  /** Every run of insertions below a parent and deletions on a tree object, with either search, goes
      through the trees of the abstract run and returns 0 exactly where its search finds a node. */
  method Replay<K>(tree: Tree<K>, ops: seq<S.Op<K>>, fn: (K, K) -> int, depthFirst: bool, ghost trees: seq<S.Tree<K>>)
      returns (results: seq<int>)
    requires S.RunOf(fn, depthFirst, trees, ops) && tree.Valid() && tree.shape == Some(trees[0])
    modifies tree, tree.at.Values
    ensures tree.Valid() && tree.shape == Some(trees[|ops|]) && |results| == |ops|
    ensures forall i :: 0 <= i < |ops| ==>
              results[i] == if S.Search(fn, depthFirst, trees[i], S.Sought(ops[i])).Some? then 0 else -1
  {
    hide Tree.Valid, S.StepOf, S.Search;
    results := [];
    for n := 0 to |ops|
      invariant tree.Valid() && tree.shape == Some(trees[n]) && fresh(tree.at.Values - old(tree.at.Values))
      invariant |results| == n
      invariant forall i :: 0 <= i < n ==>
                  results[i] == if S.Search(fn, depthFirst, trees[i], S.Sought(ops[i])).Some? then 0 else -1
    {
      var res := Apply(tree, ops[n], fn, depthFirst, trees[n + 1]);
      results := results + [res];
    }
  }
}
