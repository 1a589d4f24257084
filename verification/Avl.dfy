/** avl_tree.c on linked nodes: each method leaves the nodes in the shape of the tree that AvlTree
    computes for it. */
module Avl {
  import opened Arithmetic
  import opened Order
  import T = AvlTree

  class Node<K(!new)> {
    var height: int
    var left: Node?<K>
    var right: Node?<K>
    var key: K
    ghost var tree: T.Tree<K>
    ghost var repr: set<Node<K>>

    /** The nodes below this one form the tree `tree`, without sharing. */
    ghost predicate Valid()
      reads this, repr
      decreases repr
      ensures Valid() ==> this in repr && tree.Node?
    {
      && this in repr
      && (left != null ==> left in repr && left.repr <= repr - {this} && left.Valid())
      && (right != null ==> right in repr && right.repr <= repr - {this} && right.Valid())
      && Repr(left) !! Repr(right)
      && repr == {this} + Repr(left) + Repr(right)
      && tree == T.Node(Tree(left), height, key, Tree(right))
    }

    /** The subtrees are valid and share nothing with each other or with this node, whose own height
        and ghost fields may be out of date. */
    ghost predicate Apart()
      reads this, left, right, Repr(left), Repr(right)
    {
      && (left != null ==> left.Valid() && this !in left.repr)
      && (right != null ==> right.Valid() && this !in right.repr)
      && Repr(left) !! Repr(right)
    }

    lemma Parts()
      requires Valid()
      ensures Apart() && repr == {this} + Repr(left) + Repr(right)
      ensures tree == T.Node(Tree(left), height, key, Tree(right))
    {
    }

    constructor (key: K)
      ensures Valid() && tree == T.Node(T.Leaf, 1, key, T.Leaf) && repr == {this}
    {
      height := 1;
      left, right := null, null;
      this.key := key;
      tree := T.Node(T.Leaf, 1, key, T.Leaf);
      repr := {this};
    }

    /** Recomputes the stored height. */
    method Refresh()
      requires Apart()
      modifies this
      ensures left == old(left) && right == old(right) && key == old(key)
      ensures Valid() && tree == T.Join(Tree(left), key, Tree(right))
      ensures repr == {this} + Repr(left) + Repr(right)
    {
      height := T.Max(HeightOf(left), HeightOf(right)) + 1;
      tree := T.Node(Tree(left), height, key, Tree(right));
      repr := {this} + Repr(left) + Repr(right);
    }
  }

  ghost function Tree<K(!new)>(n: Node?<K>): T.Tree<K>
    reads n
  {
    if n == null then T.Leaf else n.tree
  }

  ghost function Repr<K(!new)>(n: Node?<K>): set<Node<K>>
    reads n
  {
    if n == null then {} else n.repr
  }

  ghost predicate Sound<K(!new)>(n: Node?<K>)
    reads n, Repr(n)
  {
    n != null ==> n.Valid()
  }

  function HeightOf<K(!new)>(n: Node?<K>): (h: int)
    requires Sound(n)
    reads n, Repr(n)
    ensures h == T.Height(Tree(n))
  {
    if n == null then 0 else n.height
  }

  function BalanceOf<K(!new)>(n: Node?<K>): (b: int)
    requires Sound(n)
    reads n, Repr(n)
    ensures b == T.Balance(Tree(n))
  {
    if n == null then 0 else HeightOf(n.left) - HeightOf(n.right)
  }

  method RightRotate<K(!new)>(y: Node<K>) returns (x: Node<K>)
    requires y.Apart() && y.left != null
    modifies y, y.left
    ensures x == old(y.left) && x.Valid()
    ensures x.repr == {y} + old(Repr(y.left)) + old(Repr(y.right))
    ensures x.tree == T.RightRotate(T.Join(old(Tree(y.left)), old(y.key), old(Tree(y.right))))
  {
    hide T.Max, T.Join, T.RightRotate, Node.Valid;
    x := y.left;
    x.Parts();
    var t2 := x.right;
    ghost var a, b, c := Tree(x.left), Tree(t2), Tree(y.right);
    Rotated(a, x.key, b, y.key, c, x.height);
    x.right := y;
    y.left := t2;
    y.Refresh();
    x.Refresh();
  }

  method LeftRotate<K(!new)>(x: Node<K>) returns (y: Node<K>)
    requires x.Apart() && x.right != null
    modifies x, x.right
    ensures y == old(x.right) && y.Valid()
    ensures y.repr == {x} + old(Repr(x.left)) + old(Repr(x.right))
    ensures y.tree == T.LeftRotate(T.Join(old(Tree(x.left)), old(x.key), old(Tree(x.right))))
  {
    hide T.Max, T.Join, T.LeftRotate, Node.Valid;
    y := x.right;
    y.Parts();
    var t2 := y.left;
    ghost var a, b, c := Tree(x.left), Tree(t2), Tree(y.right);
    Rotated(a, x.key, b, y.key, c, y.height);
    y.left := x;
    x.right := t2;
    x.Refresh();
    y.Refresh();
  }

  lemma Rotated<K>(a: T.Tree<K>, xk: K, b: T.Tree<K>, yk: K, c: T.Tree<K>, h: int)
    ensures T.RightRotate(T.Join(T.Node(a, h, xk, b), yk, c)) == T.Join(a, xk, T.Join(b, yk, c))
    ensures T.LeftRotate(T.Join(a, xk, T.Node(b, h, yk, c))) == T.Join(T.Join(a, xk, b), yk, c)
  {
  }

  /** A rotation does not look at the stored height of the node it is applied to. */
  lemma RotationIgnoresHeight<K>(t: T.Tree<K>)
    requires t.Node?
    ensures T.RightRotate(T.Join(t.left, t.key, t.right)) == if t.left.Node? then T.RightRotate(t) else T.Join(t.left, t.key, t.right)
    ensures T.LeftRotate(T.Join(t.left, t.key, t.right)) == if t.right.Node? then T.LeftRotate(t) else T.Join(t.left, t.key, t.right)
  {
  }

  method RightRotateValid<K(!new)>(y: Node<K>) returns (x: Node<K>)
    requires y.Valid() && y.left != null
    modifies y, y.left
    ensures x.Valid() && x.repr == old(y.repr) && x.tree == T.RightRotate(old(y.tree))
  {
    hide Node.Valid, T.Join, T.RightRotate, T.LeftRotate;
    y.Parts();
    RotationIgnoresHeight(y.tree);
    x := RightRotate(y);
  }

  method LeftRotateValid<K(!new)>(x: Node<K>) returns (y: Node<K>)
    requires x.Valid() && x.right != null
    modifies x, x.right
    ensures y.Valid() && y.repr == old(x.repr) && y.tree == T.LeftRotate(old(x.tree))
  {
    hide Node.Valid, T.Join, T.RightRotate, T.LeftRotate;
    x.Parts();
    RotationIgnoresHeight(x.tree);
    y := LeftRotate(x);
  }

  method RotateLeftRight<K(!new)>(root: Node<K>) returns (r: Node<K>)
    requires root.Valid() && root.left != null && root.left.right != null
    modifies root.repr
    ensures r.Valid() && r.repr == old(root.repr)
    ensures r.tree == T.RightRotate(old(root.tree.(left := T.LeftRotate(root.tree.left))))
  {
    hide Node.Valid, T.Join, T.RightRotate, T.LeftRotate;
    root.Parts();
    root.left.Parts();
    ghost var t := root.tree;
    root.left := LeftRotateValid(root.left);
    RotationIgnoresHeight(t.(left := Tree(root.left)));
    r := RightRotate(root);
  }

  method RotateRightLeft<K(!new)>(root: Node<K>) returns (r: Node<K>)
    requires root.Valid() && root.right != null && root.right.left != null
    modifies root.repr
    ensures r.Valid() && r.repr == old(root.repr)
    ensures r.tree == T.LeftRotate(old(root.tree.(right := T.RightRotate(root.tree.right))))
  {
    hide Node.Valid, T.Join, T.RightRotate, T.LeftRotate;
    root.Parts();
    root.right.Parts();
    ghost var t := root.tree;
    root.right := RightRotateValid(root.right);
    RotationIgnoresHeight(t.(right := Tree(root.right)));
    r := LeftRotate(root);
  }

  // ---------- insertion ----------

  method RestoreByKey<K(!new)>(root: Node<K>, key: K, fn: (K, K) -> int) returns (r: Node<K>)
    requires root.Valid() && T.SafeByKey(fn, root.tree, key)
    modifies root.repr
    ensures r.Valid() && r.repr == old(root.repr)
    ensures r.tree == T.RestoreByKey(fn, old(root.tree), key)
    ensures old(-1 <= T.Balance(root.tree) <= 1) ==> r == root && r.tree == old(r.tree)
  {
    hide Node.Valid, T.Join, T.RightRotate, T.LeftRotate;
    root.Parts();
    var balance := BalanceOf(root);
    if balance > 1 {
      root.left.Parts();
    }
    if balance < -1 {
      root.right.Parts();
    }
    if balance > 1 && fn(key, root.left.key) < 0 {
      r := RightRotateValid(root);
      return;
    }
    if balance < -1 && fn(key, root.right.key) > 0 {
      r := LeftRotateValid(root);
      return;
    }
    if balance > 1 && fn(key, root.left.key) > 0 {
      r := RotateLeftRight(root);
      return;
    }
    if balance < -1 && fn(key, root.right.key) < 0 {
      r := RotateRightLeft(root);
      return;
    }
    r := root;
  }

  /** `insert`: `success` is set where the new node is created.  `rotations` counts the nodes at which it
      rotates.  Calls nest as deep as the tree is high. */
  method InsertNode<K(!new)>(root: Node?<K>, key: K, fn: (K, K) -> int)
      returns (r: Node<K>, success: bool, ghost rotations: nat)
    requires Sound(root) && TotalPreorder(fn) && T.Avl(fn, Tree(root))
    modifies Repr(root)
    ensures r.Valid() && fresh(r.repr - old(Repr(root)))
    ensures r.tree == T.Insert(fn, old(Tree(root)), key)
    ensures success == !T.HasKey(fn, old(Tree(root)), key)
    ensures !success ==> r == root
    ensures rotations == T.Rotations(fn, old(Tree(root)), key)
    decreases T.Height(Tree(root))
  {
    hide Node.Valid, T.HasKey, T.Join, T.RestoreByKey, TotalPreorder, T.Balanced, T.Ordered;
    ghost var t := Tree(root);
    if root == null {
      NoKeyInLeaf(fn, key);
      r := new Node(key);
      return r, true, 0;
    }
    root.Parts();
    T.OrderedParts(fn, t);
    T.HasKeyBySide(fn, t, key);
    T.InsertUnfolds(fn, t, key);
    BalancedParts(t);
    var cmp := fn(key, root.key);
    if cmp < 0 {
      root.left, success, rotations := InsertNode(root.left, key, fn);
    } else if cmp > 0 {
      root.right, success, rotations := InsertNode(root.right, key, fn);
    } else {
      return root, false, 0;
    }
    root.Refresh();
    T.UpdatedSafe(fn, t, key);
    assert root.tree == T.Updated(fn, t, key);
    rotations := rotations + if T.Rotates(fn, root.tree, key) then 1 else 0;
    if !success {
      T.InsertDuplicate(fn, t, key);
    }
    r := RestoreByKey(root, key, fn);
  }

  lemma NoKeyInLeaf<K>(fn: (K, K) -> int, key: K)
    ensures !T.HasKey(fn, T.Leaf, key)
  {
  }

  lemma BalancedParts<K>(t: T.Tree<K>)
    requires t.Node? && T.Balanced(t)
    ensures T.Balanced(t.left) && T.Balanced(t.right) && -1 <= T.Balance(t) <= 1
    ensures 0 <= T.Height(t.left) < T.Height(t) && 0 <= T.Height(t.right) < T.Height(t)
  {
  }

  // ---------- deletion ----------

  method RestoreByBalance<K(!new)>(root: Node<K>) returns (r: Node<K>)
    requires root.Valid() && T.SafeByBalance(root.tree)
    modifies root.repr
    ensures r.Valid() && r.repr == old(root.repr)
    ensures r.tree == T.RestoreByBalance(old(root.tree))
  {
    hide Node.Valid, T.Join, T.RightRotate, T.LeftRotate;
    root.Parts();
    var balance := BalanceOf(root);
    if balance > 1 {
      root.left.Parts();
    }
    if balance < -1 {
      root.right.Parts();
    }
    if balance > 1 && BalanceOf(root.left) >= 0 {
      r := RightRotateValid(root);
      return;
    }
    if balance > 1 && BalanceOf(root.left) < 0 {
      r := RotateLeftRight(root);
      return;
    }
    if balance < -1 && BalanceOf(root.right) <= 0 {
      r := LeftRotateValid(root);
      return;
    }
    if balance < -1 && BalanceOf(root.right) > 0 {
      r := RotateRightLeft(root);
      return;
    }
    r := root;
  }

  method MinValueNode<K(!new)>(node: Node<K>) returns (cur: Node<K>)
    requires node.Valid()
    ensures cur in node.repr && cur.Valid()
    ensures cur.key == T.MinKey(node.tree)
  {
    hide Node.Valid;
    cur := node;
    cur.Parts();
    while cur.left != null
      invariant cur.Valid() && cur in node.repr && cur.repr <= node.repr && cur.Apart()
      invariant cur.tree == T.Node(Tree(cur.left), cur.height, cur.key, Tree(cur.right))
      invariant cur.repr == {cur} + Repr(cur.left) + Repr(cur.right)
      invariant T.MinKey(cur.tree) == T.MinKey(node.tree)
      decreases cur.tree
    {
      cur := cur.left;
      cur.Parts();
    }
  }

  /** `delete_node`: `success` is set only where a node with one child is overwritten by that child.
      Calls nest as deep as the tree is high. */
  method DeleteNode<K(!new)>(root: Node?<K>, key: K, fn: (K, K) -> int)
      returns (r: Node?<K>, success: bool)
    requires Sound(root) && T.Balanced(Tree(root))
    modifies Repr(root)
    ensures Sound(r) && Repr(r) <= old(Repr(root))
    ensures Tree(r) == T.Delete(fn, old(Tree(root)), key)
    ensures success == T.Spliced(fn, old(Tree(root)), key)
    decreases T.Height(Tree(root)), 1
  {
    hide Node.Valid, T.Join, T.RestoreByBalance, T.Balanced, T.MinKey;
    ghost var t := Tree(root);
    if root == null {
      return null, false;
    }
    root.Parts();
    BalancedParts(t);
    T.DeleteUnfolds(fn, t, key);
    r := root;
    var cmp := fn(key, root.key);
    if cmp < 0 {
      root.left, success := DeleteNode(root.left, key, fn);
      root.Refresh();
    } else if cmp > 0 {
      root.right, success := DeleteNode(root.right, key, fn);
      root.Refresh();
    } else {
      var gone;
      gone, success := RemoveHere(root, key, fn);
      if gone {
        return null, success;
      }
    }
    assert root.tree == T.Emptied(fn, t, key);
    DeleteIsSafe(fn, t, key);
    r := RestoreByBalance(root);
  }

  /** The branch of `delete_node` for a key that ties with the root's: `gone` when the root was a leaf. */
  method RemoveHere<K(!new)>(root: Node<K>, key: K, fn: (K, K) -> int)
      returns (gone: bool, success: bool)
    requires root.Valid() && T.Balanced(root.tree) && fn(key, root.key) == 0
    modifies root.repr
    ensures gone == old(root.tree.left.Leaf? && root.tree.right.Leaf?)
    ensures !gone ==> root.Valid() && root.repr <= old(root.repr) && root.tree == T.Emptied(fn, old(root.tree), key)
    ensures success == T.Spliced(fn, old(root.tree), key)
    decreases T.Height(root.tree), 0
  {
    hide Node.Valid, T.Join, T.RestoreByBalance, T.Balanced, T.MinKey;
    root.Parts();
    BalancedParts(root.tree);
    if root.left == null || root.right == null {
      var tmp := if root.left != null then root.left else root.right;
      if tmp == null {
        return true, false;
      }
      tmp.Parts();
      root.height, root.left, root.right, root.key := tmp.height, tmp.left, tmp.right, tmp.key;
      gone, success := false, true;
    } else {
      var tmp := MinValueNode(root.right);
      root.key := tmp.key;
      root.right, success := DeleteNode(root.right, tmp.key, fn);
      gone := false;
    }
    root.Refresh();
  }

  lemma DeleteIsSafe<K>(fn: (K, K) -> int, t: T.Tree<K>, k: K)
    requires T.Balanced(t) && t.Node? && !(fn(k, t.key) == 0 && t.left.Leaf? && t.right.Leaf?)
    ensures T.SafeByBalance(T.Emptied(fn, t, k))
  {
    T.DeleteBalanced(fn, t.left, k);
    T.DeleteBalanced(fn, t.right, k);
    if t.right.Node? {
      T.DeleteBalanced(fn, t.right, T.MinKey(t.right));
    }
    T.EmptiedBalance(fn, t, k);
  }

  // ---------- the tree ----------

  class Vec<K> {
    var items: seq<K>

    constructor ()
      ensures items == []
    {
      items := [];
    }

    method Push(x: K)
      modifies this
      ensures items == old(items) + [x]
    {
      items := items + [x];
    }
  }

  method InWalk<K(!new)>(node: Node?<K>, vec: Vec<K>)
    requires Sound(node)
    modifies vec
    ensures vec.items == old(vec.items) + T.InOrder(Tree(node))
    decreases Tree(node)
  {
    if node == null {
      return;
    }
    InWalk(node.left, vec);
    vec.Push(node.key);
    InWalk(node.right, vec);
  }

  class Avl<K(!new)> {
    const fn: (K, K) -> int
    var root: Node?<K>
    var numEl: int

    /** A search tree in balance, whose recorded size may be too large, but never too small. */
    ghost predicate Valid()
      reads this, root, Repr(root)
    {
      && TotalPreorder(fn)
      && Sound(root)
      && T.Avl(fn, Tree(root))
      && numEl >= T.Size(Tree(root))
    }

    constructor (fn: (K, K) -> int)
      requires TotalPreorder(fn)
      ensures Valid() && root == null && numEl == 0 && this.fn == fn
    {
      this.fn := fn;
      root, numEl := null, 0;
    }

    /** Returns whether the key was added.  Calls nest as deep as the tree is high, which is logarithmic. */
    method Insert(key: K) returns (ok: bool, ghost rotations: nat)
      requires Valid()
      modifies this, Repr(root)
      ensures Valid() && fresh(Repr(root) - old(Repr(root)))
      ensures ok == !old(T.HasKey(fn, Tree(root), key))
      ensures Tree(root) == T.Insert(fn, old(Tree(root)), key)
      ensures T.Keys(Tree(root)) == old(T.Keys(Tree(root))) + if ok then {key} else {}
      ensures !ok ==> Tree(root) == old(Tree(root)) && numEl == old(numEl)
      ensures ok ==> numEl == old(numEl) + 1 && T.Size(Tree(root)) == old(T.Size(Tree(root))) + 1
      ensures rotations <= 1 && Pow2(old(T.Height(Tree(root))) / 2) <= old(T.Size(Tree(root))) + 1
    {
      hide TotalPreorder, T.Ordered, T.Balanced, Node.Valid, T.Insert, T.HasKey, T.Keys, T.Size, T.Rotations, Pow2;
      ghost var t := Tree(root);
      T.InsertOrdered(fn, t, key);
      T.InsertBalanced(fn, t, key);
      T.InsertRotatesOnce(fn, t, key);
      T.LogarithmicDepth(t);
      if T.HasKey(fn, t, key) {
        T.InsertDuplicate(fn, t, key);
      }
      var r;
      r, ok, rotations := InsertNode(root, key, fn);
      if !ok {
        return;
      }
      root := r;
      numEl := numEl + 1;
    }

    /** Removes exactly the keys that tie with `key`; `ok` is what the caller is told.  An absent key leaves the
        tree as it is.  The height bounds the nesting here too. */
    method Delete(key: K) returns (ok: bool)
      requires Valid()
      modifies this, Repr(root)
      ensures Valid() && Repr(root) <= old(Repr(root))
      ensures Tree(root) == T.Delete(fn, old(Tree(root)), key)
      ensures T.Keys(Tree(root)) == T.Without(fn, old(T.Keys(Tree(root))), key)
      ensures ok == old(T.HasKey(fn, Tree(root), key) && T.Height(T.Victim(fn, Tree(root), key)) > 1)
      ensures numEl == old(numEl) - if ok then 1 else 0
      ensures T.Size(Tree(root)) == old(T.Size(Tree(root))) - if old(T.HasKey(fn, Tree(root), key)) then 1 else 0
      ensures old(!T.HasKey(fn, Tree(root), key)) ==> Tree(root) == old(Tree(root)) && numEl == old(numEl)
      ensures Pow2(old(T.Height(Tree(root))) / 2) <= old(T.Size(Tree(root))) + 1
    {
      hide TotalPreorder, T.Ordered, T.Balanced, Node.Valid, T.Delete, T.HasKey, T.Keys, T.Size, T.Without, T.Spliced, T.Victim, Pow2;
      ghost var t := Tree(root);
      T.DeleteOrdered(fn, t, key);
      T.DeleteBalanced(fn, t, key);
      T.DeleteReports(fn, t, key);
      T.LogarithmicDepth(t);
      if !T.HasKey(fn, t, key) {
        T.DeleteAbsent(fn, t, key);
      }
      root, ok := DeleteNode(root, key, fn);
      if ok {
        numEl := numEl - 1;
      }
    }

    /** Lists every key once, in strictly increasing order. */
    method InOrder() returns (vec: Vec<K>)
      requires Valid()
      ensures fresh(vec) && StrictlySorted(fn, vec.items)
      ensures |vec.items| == T.Size(Tree(root)) && forall x :: x in vec.items <==> x in T.Keys(Tree(root))
    {
      vec := new Vec();
      InWalk(root, vec);
      assert [] + T.InOrder(Tree(root)) == T.InOrder(Tree(root));
      T.InOrderIncreases(fn, Tree(root));
    }
  }

  // ---------- whole runs ----------

  datatype Op<K> = Add(key: K) | Remove(key: K)

  /** What an operation does to a set of keys, no two of which tie. */
  ghost function KeysAfter<K>(fn: (K, K) -> int, ks: set<K>, op: Op<K>): set<K> {
    match op
    case Add(k) => if exists x :: x in ks && fn(k, x) == 0 then ks else ks + {k}
    case Remove(k) => T.Without(fn, ks, k)
  }

  ghost function KeysRun<K>(fn: (K, K) -> int, ops: seq<Op<K>>): set<K> {
    if ops == [] then {} else KeysAfter(fn, KeysRun(fn, ops[..|ops| - 1]), ops[|ops| - 1])
  }

  function TreeAfter<K>(fn: (K, K) -> int, t: T.Tree<K>, op: Op<K>): T.Tree<K> {
    match op
    case Add(k) => T.Insert(fn, t, k)
    case Remove(k) => T.Delete(fn, t, k)
  }

  function TreeRun<K>(fn: (K, K) -> int, ops: seq<Op<K>>): T.Tree<K> {
    if ops == [] then T.Leaf else TreeAfter(fn, TreeRun(fn, ops[..|ops| - 1]), ops[|ops| - 1])
  }

  /** Whether an operation on `t` reports success: an insertion if the key is new, a deletion if the key is
      there and the node that goes has a child. */
  ghost predicate Reports<K>(fn: (K, K) -> int, t: T.Tree<K>, op: Op<K>) {
    match op
    case Add(k) => !T.HasKey(fn, t, k)
    case Remove(k) => T.HasKey(fn, t, k) && T.Height(T.Victim(fn, t, k)) > 1
  }

  /** Insertions reported less deletions reported. */
  function Counted<K>(ops: seq<Op<K>>, codes: seq<bool>): int
    requires |codes| == |ops|
  {
    if ops == [] then 0
    else
      var n := |ops| - 1;
      Counted(ops[..n], codes[..n]) + if !codes[n] then 0 else if ops[n].Add? then 1 else -1
  }

  lemma RunNext<K>(fn: (K, K) -> int, ops: seq<Op<K>>, i: nat, codes: seq<bool>, ok: bool)
    requires i < |ops| && |codes| == i
    ensures KeysRun(fn, ops[..i + 1]) == KeysAfter(fn, KeysRun(fn, ops[..i]), ops[i])
    ensures TreeRun(fn, ops[..i + 1]) == TreeAfter(fn, TreeRun(fn, ops[..i]), ops[i])
    ensures Counted(ops[..i + 1], codes + [ok]) ==
            Counted(ops[..i], codes) + if !ok then 0 else if ops[i].Add? then 1 else -1
  {
    assert ops[..i + 1][..i] == ops[..i] && (codes + [ok])[..i] == codes;
  }

  method Apply<K(!new)>(t: Avl<K>, op: Op<K>) returns (ok: bool)
    requires t.Valid()
    modifies t, Repr(t.root)
    ensures t.Valid() && fresh(Repr(t.root) - old(Repr(t.root)))
    ensures T.Keys(Tree(t.root)) == KeysAfter(t.fn, old(T.Keys(Tree(t.root))), op)
    ensures Tree(t.root) == TreeAfter(t.fn, old(Tree(t.root)), op)
    ensures ok == Reports(t.fn, old(Tree(t.root)), op)
    ensures t.numEl == old(t.numEl) + if !ok then 0 else if op.Add? then 1 else -1
  {
    hide TotalPreorder, T.Avl, T.Keys, T.Without, T.Insert, T.Delete, T.Victim, Node.Valid;
    match op {
      case Add(k) =>
        var done, _ := t.Insert(k);
        ok := done;
      case Remove(k) =>
        ok := t.Delete(k);
    }
  }

  /** Every run on an empty tree is a run on a set of keys and ends with a valid AVL tree of it; `codes` are
      the results the callers see, operation by operation, and `num_el` counts by them alone. */
  method Replay<K(!new)>(fn: (K, K) -> int, ops: seq<Op<K>>) returns (t: Avl<K>, codes: seq<bool>)
    requires TotalPreorder(fn)
    ensures fresh(t) && t.Valid() && t.fn == fn
    ensures T.Keys(Tree(t.root)) == KeysRun(fn, ops) && Tree(t.root) == TreeRun(fn, ops)
    ensures |codes| == |ops| && forall i :: 0 <= i < |ops| ==> codes[i] == Reports(fn, TreeRun(fn, ops[..i]), ops[i])
    ensures t.numEl == Counted(ops, codes)
  {
    hide TotalPreorder, T.Avl, T.Keys, KeysAfter, KeysRun, TreeAfter, TreeRun, Reports, Counted, Node.Valid, Avl.Valid;
    t := new Avl(fn);
    codes := [];
    NothingRun(fn, ops);
    for i := 0 to |ops|
      invariant t.Valid() && fresh(t) && fresh(Repr(t.root)) && t.fn == fn
      invariant T.Keys(Tree(t.root)) == KeysRun(fn, ops[..i]) && Tree(t.root) == TreeRun(fn, ops[..i])
      invariant |codes| == i && t.numEl == Counted(ops[..i], codes)
      invariant forall j :: 0 <= j < i ==> codes[j] == Reports(fn, TreeRun(fn, ops[..j]), ops[j])
    {
      var ok := Apply(t, ops[i]);
      RunNext(fn, ops, i, codes, ok);
      codes := codes + [ok];
    }
    assert ops[..|ops|] == ops;
  }

  lemma NothingRun<K>(fn: (K, K) -> int, ops: seq<Op<K>>)
    ensures KeysRun(fn, ops[..0]) == {} == T.Keys<K>(T.Leaf)
    ensures TreeRun(fn, ops[..0]) == T.Leaf && Counted(ops[..0], []) == 0
  {
  }
}
