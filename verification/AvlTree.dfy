/** The values of avl_tree.c's trees, what insertion and deletion make of them, and why the result is
    again an AVL tree.  Avl.dfy shows that the code on linked nodes computes exactly this. */
module AvlTree {
  import opened Arithmetic
  import opened Order

  datatype Tree<K> = Leaf | Node(left: Tree<K>, height: int, key: K, right: Tree<K>)

  function Height<K>(t: Tree<K>): int {
    if t.Leaf? then 0 else t.height
  }

  function Balance<K>(t: Tree<K>): int {
    if t.Leaf? then 0 else Height(t.left) - Height(t.right)
  }

  function Max(a: int, b: int): int {
    if a > b then a else b
  }

  /** A node whose stored height has just been recomputed. */
  function Join<K>(l: Tree<K>, k: K, r: Tree<K>): Tree<K> {
    Node(l, Max(Height(l), Height(r)) + 1, k, r)
  }

  function RightRotate<K>(y: Tree<K>): Tree<K> {
    if y.Node? && y.left.Node? then Join(y.left.left, y.left.key, Join(y.left.right, y.key, y.right)) else y
  }

  function LeftRotate<K>(x: Tree<K>): Tree<K> {
    if x.Node? && x.right.Node? then Join(Join(x.left, x.key, x.right.left), x.right.key, x.right.right) else x
  }

  // ---------- the operations ----------

  /** Insertion's choice of rotation, which looks at keys. */
  function RestoreByKey<K>(fn: (K, K) -> int, t: Tree<K>, k: K): Tree<K>
    requires t.Node?
  {
    var b := Balance(t);
    if b > 1 && t.left.Node? && fn(k, t.left.key) < 0 then RightRotate(t)
    else if b < -1 && t.right.Node? && fn(k, t.right.key) > 0 then LeftRotate(t)
    else if b > 1 && t.left.Node? && fn(k, t.left.key) > 0 then RightRotate(t.(left := LeftRotate(t.left)))
    else if b < -1 && t.right.Node? && fn(k, t.right.key) < 0 then LeftRotate(t.(right := RightRotate(t.right)))
    else t
  }

  function Insert<K>(fn: (K, K) -> int, t: Tree<K>, k: K): Tree<K> {
    if t.Leaf? then Node(Leaf, 1, k, Leaf)
    else if fn(k, t.key) < 0 then RestoreByKey(fn, Join(Insert(fn, t.left, k), t.key, t.right), k)
    else if fn(k, t.key) > 0 then RestoreByKey(fn, Join(t.left, t.key, Insert(fn, t.right, k)), k)
    else t
  }

  /** Deletion's choice of rotation, which looks at the balance of the higher child. */
  function RestoreByBalance<K>(t: Tree<K>): Tree<K>
    requires t.Node?
  {
    var b := Balance(t);
    if b > 1 && Balance(t.left) >= 0 then RightRotate(t)
    else if b > 1 then RightRotate(t.(left := LeftRotate(t.left)))
    else if b < -1 && Balance(t.right) <= 0 then LeftRotate(t)
    else if b < -1 then LeftRotate(t.(right := RightRotate(t.right)))
    else t
  }

  function MinKey<K>(t: Tree<K>): K
    requires t.Node?
  {
    if t.left.Leaf? then t.key else MinKey(t.left)
  }

  function Delete<K>(fn: (K, K) -> int, t: Tree<K>, k: K): Tree<K> {
    if t.Leaf? then Leaf
    else if fn(k, t.key) < 0 then RestoreByBalance(Join(Delete(fn, t.left, k), t.key, t.right))
    else if fn(k, t.key) > 0 then RestoreByBalance(Join(t.left, t.key, Delete(fn, t.right, k)))
    else if t.left.Leaf? && t.right.Leaf? then Leaf
    else if t.left.Leaf? then RestoreByBalance(Join(t.right.left, t.right.key, t.right.right))
    else if t.right.Leaf? then RestoreByBalance(Join(t.left.left, t.left.key, t.left.right))
    else
      var m := MinKey(t.right);
      RestoreByBalance(Join(t.left, m, Delete(fn, t.right, m)))
  }

  /** Whether deletion sets `success`: only where it splices out a node with exactly one child. */
  predicate Spliced<K>(fn: (K, K) -> int, t: Tree<K>, k: K) {
    if t.Leaf? then false
    else if fn(k, t.key) < 0 then Spliced(fn, t.left, k)
    else if fn(k, t.key) > 0 then Spliced(fn, t.right, k)
    else if t.left.Leaf? || t.right.Leaf? then t.left.Node? || t.right.Node?
    else Spliced(fn, t.right, MinKey(t.right))
  }

  // ---------- the invariants ----------

  function Keys<K>(t: Tree<K>): set<K> {
    if t.Leaf? then {} else Keys(t.left) + {t.key} + Keys(t.right)
  }

  function Size<K>(t: Tree<K>): nat {
    if t.Leaf? then 0 else Size(t.left) + 1 + Size(t.right)
  }

  function InOrder<K>(t: Tree<K>): seq<K> {
    if t.Leaf? then [] else InOrder(t.left) + [t.key] + InOrder(t.right)
  }

  ghost predicate Below<K>(fn: (K, K) -> int, s: set<K>, k: K) {
    forall x :: x in s ==> fn(x, k) < 0
  }

  ghost predicate Above<K>(fn: (K, K) -> int, s: set<K>, k: K) {
    forall x :: x in s ==> fn(k, x) < 0
  }

  /** Search order. */
  ghost predicate Ordered<K>(fn: (K, K) -> int, t: Tree<K>) {
    t.Node? ==>
      && Ordered(fn, t.left) && Below(fn, Keys(t.left), t.key)
      && Ordered(fn, t.right) && Above(fn, Keys(t.right), t.key)
  }

  /** At every node, the stored height is exact and the two subtrees' heights differ by at most 1. */
  ghost predicate Balanced<K>(t: Tree<K>)
    ensures Balanced(t) ==> (if t.Leaf? then Height(t) == 0 else Height(t) > 0)
  {
    t.Node? ==>
      && Balanced(t.left) && Balanced(t.right)
      && t.height == Max(Height(t.left), Height(t.right)) + 1
      && -1 <= Balance(t) <= 1
  }

  ghost predicate Avl<K>(fn: (K, K) -> int, t: Tree<K>) {
    Ordered(fn, t) && Balanced(t)
  }

  ghost predicate HasKey<K>(fn: (K, K) -> int, t: Tree<K>, k: K) {
    exists x :: x in Keys(t) && fn(k, x) == 0
  }

  // ---------- rotations ----------

  lemma BelowTrans<K(!new)>(fn: (K, K) -> int, s: set<K>, a: K, b: K)
    requires TotalPreorder(fn) && fn(a, b) < 0
    ensures Below(fn, s, a) ==> Below(fn, s, b)
    ensures Above(fn, s, b) ==> Above(fn, s, a)
  {
    forall x | x in s
      ensures fn(x, a) < 0 ==> fn(x, b) < 0
      ensures fn(b, x) < 0 ==> fn(a, x) < 0
    {
      assert fn(x, a) < 0 && fn(b, x) <= 0 ==> fn(b, a) <= 0;
      assert fn(b, x) < 0 && fn(x, a) <= 0 ==> fn(b, a) <= 0;
    }
  }

  /** `r` is a search tree with the keys and the number of nodes of `t`. */
  ghost predicate Rearranged<K(!new)>(fn: (K, K) -> int, t: Tree<K>, r: Tree<K>) {
    Ordered(fn, r) && Keys(r) == Keys(t) && Size(r) == Size(t)
  }

  lemma OrderedNode<K(!new)>(fn: (K, K) -> int, l: Tree<K>, h: int, k: K, r: Tree<K>)
    ensures Ordered(fn, Node(l, h, k, r)) <==>
            Ordered(fn, l) && Below(fn, Keys(l), k) && Ordered(fn, r) && Above(fn, Keys(r), k)
    ensures Keys(Node(l, h, k, r)) == Keys(l) + {k} + Keys(r)
    ensures Size(Node(l, h, k, r)) == Size(l) + 1 + Size(r)
  {
  }

  lemma BelowUnion<K(!new)>(fn: (K, K) -> int, s: set<K>, t: set<K>, k: K, x: K)
    ensures Below(fn, s + {x} + t, k) <==> Below(fn, s, k) && fn(x, k) < 0 && Below(fn, t, k)
    ensures Above(fn, s + {x} + t, k) <==> Above(fn, s, k) && fn(k, x) < 0 && Above(fn, t, k)
  {
    assert x in s + {x} + t;
    assert s <= s + {x} + t && t <= s + {x} + t;
  }

  /** What a rotation rests on: both ways to hang three subtrees below two keys are search trees, or none. */
  lemma Reassociated<K(!new)>(fn: (K, K) -> int, a: Tree<K>, x: K, b: Tree<K>, y: K, c: Tree<K>, h: int, i: int, j: int, k: int)
    requires TotalPreorder(fn)
    ensures var t, r := Node(Node(a, h, x, b), i, y, c), Node(a, j, x, Node(b, k, y, c));
            && (Ordered(fn, t) <==> Ordered(fn, r)) && Keys(t) == Keys(r) && Size(t) == Size(r)
  {
    OrderedNode(fn, a, h, x, b);
    OrderedNode(fn, Node(a, h, x, b), i, y, c);
    OrderedNode(fn, b, k, y, c);
    OrderedNode(fn, a, j, x, Node(b, k, y, c));
    BelowUnion(fn, Keys(a), Keys(b), y, x);
    BelowUnion(fn, Keys(b), Keys(c), x, y);
    if fn(x, y) < 0 {
      BelowTrans(fn, Keys(a), x, y);
      BelowTrans(fn, Keys(c), x, y);
    }
    hide *;
    assert Keys(a) + {x} + Keys(b) + {y} + Keys(c) == Keys(a) + {x} + (Keys(b) + {y} + Keys(c));
  }

  lemma RightRotateOrdered<K(!new)>(fn: (K, K) -> int, y: Tree<K>)
    requires TotalPreorder(fn) && Ordered(fn, y)
    ensures Rearranged(fn, y, RightRotate(y))
  {
    hide TotalPreorder, Ordered, Keys, Size;
    if y.Node? && y.left.Node? {
      var x, r := y.left, RightRotate(y);
      Reassociated(fn, x.left, x.key, x.right, y.key, y.right, x.height, y.height, r.height, r.right.height);
    }
  }

  lemma LeftRotateOrdered<K(!new)>(fn: (K, K) -> int, x: Tree<K>)
    requires TotalPreorder(fn) && Ordered(fn, x)
    ensures Rearranged(fn, x, LeftRotate(x))
  {
    hide TotalPreorder, Ordered, Keys, Size;
    if x.Node? && x.right.Node? {
      var y, r := x.right, LeftRotate(x);
      Reassociated(fn, x.left, x.key, y.left, y.key, y.right, r.left.height, r.height, x.height, y.height);
    }
  }

  lemma WithRearrangedChild<K(!new)>(fn: (K, K) -> int, t: Tree<K>, l: Tree<K>, r: Tree<K>)
    requires t.Node? && Ordered(fn, t) && Rearranged(fn, t.left, l) && Rearranged(fn, t.right, r)
    ensures Rearranged(fn, t, t.(left := l, right := r))
  {
  }

  /** The double rotations keep the order, the keys and the number of nodes. */
  lemma DoubleRotations<K(!new)>(fn: (K, K) -> int, t: Tree<K>)
    requires TotalPreorder(fn) && t.Node? && Ordered(fn, t)
    ensures Rearranged(fn, t, RightRotate(t.(left := LeftRotate(t.left))))
    ensures Rearranged(fn, t, LeftRotate(t.(right := RightRotate(t.right))))
  {
    hide TotalPreorder, LeftRotate, RightRotate;
    LeftRotateOrdered(fn, t.left);
    RightRotateOrdered(fn, t.right);
    var u, v := t.(left := LeftRotate(t.left)), t.(right := RightRotate(t.right));
    WithRearrangedChild(fn, t, u.left, u.right);
    WithRearrangedChild(fn, t, v.left, v.right);
    RightRotateOrdered(fn, u);
    LeftRotateOrdered(fn, v);
  }

  lemma RestoreByKeyKeeps<K(!new)>(fn: (K, K) -> int, t: Tree<K>, k: K)
    requires TotalPreorder(fn) && t.Node? && Ordered(fn, t)
    ensures Rearranged(fn, t, RestoreByKey(fn, t, k))
  {
    hide TotalPreorder, LeftRotate, RightRotate;
    RightRotateOrdered(fn, t);
    LeftRotateOrdered(fn, t);
    DoubleRotations(fn, t);
  }

  lemma RestoreByBalanceKeeps<K(!new)>(fn: (K, K) -> int, t: Tree<K>)
    requires TotalPreorder(fn) && t.Node? && Ordered(fn, t)
    ensures Rearranged(fn, t, RestoreByBalance(t))
  {
    hide TotalPreorder, LeftRotate, RightRotate;
    RightRotateOrdered(fn, t);
    LeftRotateOrdered(fn, t);
    DoubleRotations(fn, t);
  }

  // ---------- insertion ----------

  /** In a search tree, comparing with the root tells on which side a key can be. */
  lemma HasKeyBySide<K(!new)>(fn: (K, K) -> int, t: Tree<K>, k: K)
    requires TotalPreorder(fn) && t.Node? && Ordered(fn, t)
    ensures fn(k, t.key) < 0 ==> (HasKey(fn, t, k) <==> HasKey(fn, t.left, k))
    ensures fn(k, t.key) > 0 ==> (HasKey(fn, t, k) <==> HasKey(fn, t.right, k))
    ensures fn(k, t.key) == 0 ==> HasKey(fn, t, k)
  {
    assert t.key in Keys(t);
    forall x | x in Keys(t) && fn(k, x) == 0
      ensures fn(k, t.key) < 0 ==> x in Keys(t.left)
      ensures fn(k, t.key) > 0 ==> x in Keys(t.right)
    {
      assert fn(x, k) == 0;
      assert fn(x, k) <= 0 && fn(k, t.key) <= 0 ==> fn(x, t.key) <= 0;
      assert fn(k, x) <= 0 && fn(x, t.key) <= 0 ==> fn(k, t.key) <= 0;
    }
  }

  /** The node on the insertion path with its subtree already updated, before any rotation. */
  function Updated<K>(fn: (K, K) -> int, t: Tree<K>, k: K): Tree<K>
    requires t.Node?
  {
    if fn(k, t.key) < 0 then Join(Insert(fn, t.left, k), t.key, t.right)
    else Join(t.left, t.key, Insert(fn, t.right, k))
  }

  lemma InsertUnfolds<K>(fn: (K, K) -> int, t: Tree<K>, k: K)
    requires t.Node?
    ensures fn(k, t.key) != 0 ==> Insert(fn, t, k) == RestoreByKey(fn, Updated(fn, t, k), k)
    ensures fn(k, t.key) == 0 ==> Insert(fn, t, k) == t
  {
  }

  /** Insertion keeps the search order and adds the key, unless a key that ties with it is present. */
  lemma {:induction false} InsertOrdered<K(!new)>(fn: (K, K) -> int, t: Tree<K>, k: K)
    requires TotalPreorder(fn) && Ordered(fn, t)
    ensures var r := Insert(fn, t, k);
            && Ordered(fn, r)
            && Keys(r) == (if HasKey(fn, t, k) then Keys(t) else Keys(t) + {k})
            && Size(r) == (if HasKey(fn, t, k) then Size(t) else Size(t) + 1)
  {
    if t.Leaf? {
      assert !HasKey(fn, t, k);
    } else {
      InsertUnfolds(fn, t, k);
      HasKeyBySide(fn, t, k);
      OrderedParts(fn, t);
      AboveFromOpposite(fn, t.key, k);
      hide TotalPreorder, HasKey, Ordered, RestoreByKey, Insert, Keys, Size, Updated;
      if fn(k, t.key) != 0 {
        if fn(k, t.key) < 0 {
          InsertOrdered(fn, t.left, k);
        } else {
          InsertOrdered(fn, t.right, k);
        }
        UpdatedHolds(fn, t, k);
        RestoreByKeyKeeps(fn, Updated(fn, t, k), k);
      }
    }
  }

  lemma UpdatedHolds<K(!new)>(fn: (K, K) -> int, t: Tree<K>, k: K)
    requires t.Node? && fn(k, t.key) != 0 && Ordered(fn, t)
    requires fn(t.key, k) < 0 <==> fn(k, t.key) > 0
    requires var c := if fn(k, t.key) < 0 then t.left else t.right;
             var r := Insert(fn, c, k);
             && Ordered(fn, r)
             && Keys(r) == (if HasKey(fn, c, k) then Keys(c) else Keys(c) + {k})
             && Size(r) == (if HasKey(fn, c, k) then Size(c) else Size(c) + 1)
    ensures var c := if fn(k, t.key) < 0 then t.left else t.right;
            var u := Updated(fn, t, k);
            && u.Node? && Ordered(fn, u)
            && Keys(u) == (if HasKey(fn, c, k) then Keys(t) else Keys(t) + {k})
            && Size(u) == (if HasKey(fn, c, k) then Size(t) else Size(t) + 1)
  {
    hide HasKey, Insert, Below, Above;
    var u := Updated(fn, t, k);
    OrderedJoin(fn, u, t, k);
    hide Ordered;
    assert Keys(u) == Keys(u.left) + {t.key} + Keys(u.right);
  }

  lemma AboveFromOpposite<K(!new)>(fn: (K, K) -> int, a: K, b: K)
    requires TotalPreorder(fn)
    ensures fn(a, b) < 0 <==> fn(b, a) > 0
  {
  }

  lemma OrderedParts<K>(fn: (K, K) -> int, t: Tree<K>)
    requires t.Node? && Ordered(fn, t)
    ensures Ordered(fn, t.left) && Ordered(fn, t.right)
    ensures Below(fn, Keys(t.left), t.key) && Above(fn, Keys(t.right), t.key)
  {
  }

  /** Replacing the subtrees of an ordered node by ordered ones that hold nothing new but keys on the
      right side of the root leaves it ordered. */
  lemma OrderedJoin<K>(fn: (K, K) -> int, u: Tree<K>, t: Tree<K>, k: K)
    requires u.Node? && t.Node? && u.key == t.key && Ordered(fn, t)
    requires Ordered(fn, u.left) && Ordered(fn, u.right)
    requires forall x | x in Keys(u.left) :: x in Keys(t.left) || (x == k && fn(k, t.key) < 0)
    requires forall x | x in Keys(u.right) :: x in Keys(t.right) || (x == k && fn(t.key, k) < 0)
    ensures Ordered(fn, u)
  {
  }

  // ---------- insertion: balance ----------

  /** A node one too heavy on the left, mended by the rotation that fits its left child. */
  lemma MendLeft<K>(t: Tree<K>)
    requires t.Node? && Balanced(t.left) && Balanced(t.right) && Balance(t) == 2
    requires t.height == Max(Height(t.left), Height(t.right)) + 1
    ensures t.left.Node? && RestoreByBalance(t).Node? && Balanced(RestoreByBalance(t))
    ensures Height(RestoreByBalance(t)) == if Balance(t.left) == 0 then t.height else t.height - 1
    ensures Balance(t.left) < 0 ==> t.left.right.Node?
  {
  }

  lemma MendRight<K>(t: Tree<K>)
    requires t.Node? && Balanced(t.left) && Balanced(t.right) && Balance(t) == -2
    requires t.height == Max(Height(t.left), Height(t.right)) + 1
    ensures t.right.Node? && RestoreByBalance(t).Node? && Balanced(RestoreByBalance(t))
    ensures Height(RestoreByBalance(t)) == if Balance(t.right) == 0 then t.height else t.height - 1
    ensures Balance(t.right) > 0 ==> t.right.left.Node?
  {
  }

  /** Which rotation a deletion performs: a single one when the heavy child is even or leans to its own side,
      a double one only when that child leans the other way, and none in balance. */
  lemma RestorePicks<K>(u: Tree<K>)
    requires SafeByBalance(u)
    ensures -1 <= Balance(u) <= 1 ==> RestoreByBalance(u) == u
    ensures Balance(u) > 1 && Balance(u.left) >= 0 ==>
              RestoreByBalance(u) == Join(u.left.left, u.left.key, Join(u.left.right, u.key, u.right))
    ensures Balance(u) > 1 && Balance(u.left) < 0 ==>
              var m := u.left.right;
              RestoreByBalance(u) == Join(Join(u.left.left, u.left.key, m.left), m.key, Join(m.right, u.key, u.right))
    ensures Balance(u) < -1 && Balance(u.right) <= 0 ==>
              RestoreByBalance(u) == Join(Join(u.left, u.key, u.right.left), u.right.key, u.right.right)
    ensures Balance(u) < -1 && Balance(u.right) > 0 ==>
              var m := u.right.left;
              RestoreByBalance(u) == Join(Join(u.left, u.key, m.left), m.key, Join(m.right, u.right.key, u.right.right))
  {
  }

  /** What insertion does to heights: a subtree grows by at most one level, and one that grows was not
      rotated and leans to the side of the new key. */
  ghost predicate Grows<K>(fn: (K, K) -> int, t: Tree<K>, r: Tree<K>, k: K) {
    && r.Node? && Balanced(r) && Height(t) <= Height(r) <= Height(t) + 1
    && (t.Node? && Height(r) > Height(t) ==>
          && r.key == t.key && fn(k, t.key) != 0
          && Balance(r) == if fn(k, t.key) < 0 then 1 else -1)
  }

  lemma {:induction false} InsertBalanced<K(!new)>(fn: (K, K) -> int, t: Tree<K>, k: K)
    requires Balanced(t)
    ensures Grows(fn, t, Insert(fn, t, k), k)
  {
    if t.Node? {
      if fn(k, t.key) < 0 {
        InsertBalanced(fn, t.left, k);
        GrowsLeft(fn, t, Insert(fn, t.left, k), k);
      } else if fn(k, t.key) > 0 {
        InsertBalanced(fn, t.right, k);
        GrowsRight(fn, t, Insert(fn, t.right, k), k);
      }
    }
  }

  lemma GrowsLeft<K(!new)>(fn: (K, K) -> int, t: Tree<K>, l: Tree<K>, k: K)
    requires t.Node? && Balanced(t) && Grows(fn, t.left, l, k) && fn(k, t.key) < 0
    ensures var u := Join(l, t.key, t.right);
            && RestoreByKey(fn, u, k) == RestoreByBalance(u)
            && Grows(fn, t, RestoreByKey(fn, u, k), k)
            && (Balance(u) > 1 ==> Height(RestoreByKey(fn, u, k)) == Height(t))
  {
    var u := Join(l, t.key, t.right);
    if Balance(u) > 1 {
      MendLeft(u);
      hide Balanced, RightRotate, LeftRotate;
    }
  }

  lemma GrowsRight<K(!new)>(fn: (K, K) -> int, t: Tree<K>, r: Tree<K>, k: K)
    requires t.Node? && Balanced(t) && Grows(fn, t.right, r, k) && fn(k, t.key) > 0
    ensures var u := Join(t.left, t.key, r);
            && RestoreByKey(fn, u, k) == RestoreByBalance(u)
            && Grows(fn, t, RestoreByKey(fn, u, k), k)
            && (Balance(u) < -1 ==> Height(RestoreByKey(fn, u, k)) == Height(t))
  {
    var u := Join(t.left, t.key, r);
    if Balance(u) < -1 {
      MendRight(u);
      hide Balanced, RightRotate, LeftRotate;
    }
  }

  /** Whether insertion rotates at a node it has just updated. */
  predicate Rotates<K>(fn: (K, K) -> int, u: Tree<K>, k: K)
    requires u.Node?
  {
    || (Balance(u) > 1 && u.left.Node? && fn(k, u.left.key) != 0)
    || (Balance(u) < -1 && u.right.Node? && fn(k, u.right.key) != 0)
  }

  /** The number of nodes at which the whole insertion rotates. */
  function Rotations<K>(fn: (K, K) -> int, t: Tree<K>, k: K): nat {
    if t.Leaf? || fn(k, t.key) == 0 then 0
    else
      Rotations(fn, if fn(k, t.key) < 0 then t.left else t.right, k)
      + if Rotates(fn, Updated(fn, t, k), k) then 1 else 0
  }

  /** Insertion rotates (once, singly or doubly) at no more than one node, and exactly where a node is
      out of balance; choosing by key picks the rotation that choosing by balance would pick. */
  lemma {:induction false} InsertRotatesOnce<K(!new)>(fn: (K, K) -> int, t: Tree<K>, k: K)
    requires Balanced(t)
    ensures Rotations(fn, t, k) <= 1
    ensures Rotations(fn, t, k) == 1 ==> Height(Insert(fn, t, k)) == Height(t)
    ensures t.Node? && fn(k, t.key) != 0 ==>
              var u := Updated(fn, t, k);
              && (Rotates(fn, u, k) <==> !(-1 <= Balance(u) <= 1))
              && RestoreByKey(fn, u, k) == RestoreByBalance(u)
  {
    if t.Node? && fn(k, t.key) != 0 {
      var left := fn(k, t.key) < 0;
      var c := if left then t.left else t.right;
      InsertRotatesOnce(fn, c, k);
      InsertBalanced(fn, c, k);
      InsertBalanced(fn, t, k);
      InsertUnfolds(fn, t, k);
      UpdatedBalance(fn, t, k);
    }
  }

  lemma UpdatedBalance<K(!new)>(fn: (K, K) -> int, t: Tree<K>, k: K)
    requires Balanced(t) && t.Node? && fn(k, t.key) != 0
    requires var c := if fn(k, t.key) < 0 then t.left else t.right; Grows(fn, c, Insert(fn, c, k), k)
    ensures var c, u := if fn(k, t.key) < 0 then t.left else t.right, Updated(fn, t, k);
            && (Rotates(fn, u, k) <==> !(-1 <= Balance(u) <= 1))
            && (Rotates(fn, u, k) ==> Height(Insert(fn, c, k)) > Height(c) && Height(RestoreByKey(fn, u, k)) == Height(t))
            && (Height(Insert(fn, c, k)) == Height(c) ==> Height(RestoreByKey(fn, u, k)) == Height(t))
            && RestoreByKey(fn, u, k) == RestoreByBalance(u)
  {
    if fn(k, t.key) < 0 {
      GrowsLeft(fn, t, Insert(fn, t.left, k), k);
    } else {
      GrowsRight(fn, t, Insert(fn, t.right, k), k);
    }
    hide Insert, LeftRotate, RightRotate;
  }

  /** Inserting a key that ties with one already present changes nothing, not even a height. */
  lemma {:induction false} InsertDuplicate<K(!new)>(fn: (K, K) -> int, t: Tree<K>, k: K)
    requires TotalPreorder(fn) && Avl(fn, t) && HasKey(fn, t, k)
    ensures Insert(fn, t, k) == t && Rotations(fn, t, k) == 0
    ensures t.Node? && fn(k, t.key) != 0 ==> Updated(fn, t, k) == t
  {
    if t.Node? {
      HasKeyBySide(fn, t, k);
      hide TotalPreorder, HasKey, Below, Above;
      if fn(k, t.key) < 0 {
        InsertDuplicate(fn, t.left, k);
        assert Updated(fn, t, k) == t;
      } else if fn(k, t.key) > 0 {
        InsertDuplicate(fn, t.right, k);
        assert Updated(fn, t, k) == t;
      }
    }
  }

  /** What the rotations dereference is there. */
  ghost predicate SafeByKey<K>(fn: (K, K) -> int, u: Tree<K>, k: K) {
    u.Node?
    && (Balance(u) > 1 ==> u.left.Node? && (fn(k, u.left.key) > 0 ==> u.left.right.Node?))
    && (Balance(u) < -1 ==> u.right.Node? && (fn(k, u.right.key) < 0 ==> u.right.left.Node?))
  }

  ghost predicate SafeByBalance<K>(u: Tree<K>) {
    u.Node?
    && (Balance(u) > 1 ==> u.left.Node? && (Balance(u.left) < 0 ==> u.left.right.Node?))
    && (Balance(u) < -1 ==> u.right.Node? && (Balance(u.right) > 0 ==> u.right.left.Node?))
  }

  lemma UpdatedSafe<K(!new)>(fn: (K, K) -> int, t: Tree<K>, k: K)
    requires Balanced(t) && t.Node? && fn(k, t.key) != 0
    ensures SafeByKey(fn, Updated(fn, t, k), k)
  {
    var c := if fn(k, t.key) < 0 then t.left else t.right;
    InsertBalanced(fn, c, k);
    hide Insert;
  }

  // ---------- deletion ----------

  lemma {:induction false} MinKeyIsLeast<K(!new)>(fn: (K, K) -> int, t: Tree<K>)
    requires TotalPreorder(fn) && t.Node? && Ordered(fn, t)
    ensures MinKey(t) in Keys(t)
    ensures Above(fn, Keys(t) - {MinKey(t)}, MinKey(t))
  {
    if t.left.Node? {
      var m := MinKey(t.left);
      MinKeyIsLeast(fn, t.left);
      assert fn(m, t.key) < 0;
      BelowTrans(fn, Keys(t.right), m, t.key);
    }
  }

  /** The keys of `s` that do not tie with `k`. */
  function Without<K>(fn: (K, K) -> int, s: set<K>, k: K): set<K> {
    set x | x in s && fn(k, x) != 0
  }

  /** Only one key of a search tree can tie with `k`, and only on the side where it belongs. */
  lemma WithoutBySide<K(!new)>(fn: (K, K) -> int, t: Tree<K>, k: K)
    requires TotalPreorder(fn) && t.Node? && Ordered(fn, t)
    ensures fn(k, t.key) < 0 ==> Without(fn, Keys(t), k) == Without(fn, Keys(t.left), k) + {t.key} + Keys(t.right)
    ensures fn(k, t.key) > 0 ==> Without(fn, Keys(t), k) == Keys(t.left) + {t.key} + Without(fn, Keys(t.right), k)
    ensures fn(k, t.key) == 0 ==> Without(fn, Keys(t), k) == Keys(t.left) + Keys(t.right)
  {
    var y := t.key;
    assert Keys(t) == Keys(t.left) + {y} + Keys(t.right);
    forall x | x in Keys(t.left)
      ensures fn(k, t.key) >= 0 ==> fn(k, x) != 0
    {
      assert fn(x, y) < 0 && fn(y, x) > 0;
      assert fn(y, k) <= 0 && fn(k, x) <= 0 ==> fn(y, x) <= 0;
    }
    forall x | x in Keys(t.right)
      ensures fn(k, t.key) <= 0 ==> fn(k, x) != 0
    {
      assert fn(y, x) < 0 && fn(x, y) > 0;
      assert fn(x, k) <= 0 && fn(k, y) <= 0 ==> fn(x, y) <= 0;
    }
  }

  /** The node at which the deletion path stands, with its subtree already updated. */
  function Emptied<K>(fn: (K, K) -> int, t: Tree<K>, k: K): Tree<K>
    requires t.Node? && !(fn(k, t.key) == 0 && t.left.Leaf? && t.right.Leaf?)
  {
    if fn(k, t.key) < 0 then Join(Delete(fn, t.left, k), t.key, t.right)
    else if fn(k, t.key) > 0 then Join(t.left, t.key, Delete(fn, t.right, k))
    else if t.left.Leaf? then Join(t.right.left, t.right.key, t.right.right)
    else if t.right.Leaf? then Join(t.left.left, t.left.key, t.left.right)
    else Join(t.left, MinKey(t.right), Delete(fn, t.right, MinKey(t.right)))
  }

  lemma DeleteUnfolds<K>(fn: (K, K) -> int, t: Tree<K>, k: K)
    requires t.Node?
    ensures fn(k, t.key) == 0 && t.left.Leaf? && t.right.Leaf? ==> Delete(fn, t, k) == Leaf
    ensures !(fn(k, t.key) == 0 && t.left.Leaf? && t.right.Leaf?) ==>
              Delete(fn, t, k) == RestoreByBalance(Emptied(fn, t, k))
  {
  }

  ghost predicate DeletesFrom<K>(fn: (K, K) -> int, t: Tree<K>, r: Tree<K>, k: K) {
    && Ordered(fn, r)
    && Keys(r) == Without(fn, Keys(t), k)
    && Size(r) == if HasKey(fn, t, k) then Size(t) - 1 else Size(t)
  }

  /** Deletion keeps the search order and removes exactly the keys that tie with the given one. */
  lemma {:induction false} DeleteOrdered<K(!new)>(fn: (K, K) -> int, t: Tree<K>, k: K)
    requires TotalPreorder(fn) && Ordered(fn, t)
    ensures DeletesFrom(fn, t, Delete(fn, t, k), k)
    decreases t
  {
    if t.Leaf? {
      assert !HasKey(fn, t, k);
      return;
    }
    DeleteUnfolds(fn, t, k);
    OrderedParts(fn, t);
    if fn(k, t.key) < 0 {
      DeleteOrdered(fn, t.left, k);
      EmptiedOnSide(fn, t, k);
    } else if fn(k, t.key) > 0 {
      DeleteOrdered(fn, t.right, k);
      EmptiedOnSide(fn, t, k);
    } else if t.left.Node? && t.right.Node? {
      DeleteOrdered(fn, t.right, MinKey(t.right));
      EmptiedAtNode(fn, t, k);
    } else {
      EmptiedAtLeaf(fn, t, k);
      if t.left.Leaf? && t.right.Leaf? {
        return;
      }
    }
    hide TotalPreorder, Delete, Emptied, Keys, Ordered, HasKey, RestoreByBalance;
    RestoreByBalanceKeeps(fn, Emptied(fn, t, k));
  }

  lemma EmptiedOnSide<K(!new)>(fn: (K, K) -> int, t: Tree<K>, k: K)
    requires TotalPreorder(fn) && t.Node? && fn(k, t.key) != 0 && Ordered(fn, t)
    requires var c := if fn(k, t.key) < 0 then t.left else t.right; DeletesFrom(fn, c, Delete(fn, c, k), k)
    ensures DeletesFrom(fn, t, Emptied(fn, t, k), k)
  {
    HasKeyBySide(fn, t, k);
    WithoutBySide(fn, t, k);
    hide TotalPreorder, Delete, HasKey;
  }

  /** The successor takes the deleted key's place: it is above all of the left subtree and below what
      remains of the right one. */
  lemma EmptiedAtNode<K(!new)>(fn: (K, K) -> int, t: Tree<K>, k: K)
    requires TotalPreorder(fn) && t.Node? && fn(k, t.key) == 0 && t.left.Node? && t.right.Node? && Ordered(fn, t)
    requires DeletesFrom(fn, t.right, Delete(fn, t.right, MinKey(t.right)), MinKey(t.right))
    ensures DeletesFrom(fn, t, Emptied(fn, t, k), k)
  {
    var m := MinKey(t.right);
    HasKeyBySide(fn, t, k);
    WithoutBySide(fn, t, k);
    MinKeyIsLeast(fn, t.right);
    OrderedParts(fn, t);
    BelowTrans(fn, Keys(t.left), t.key, m);
    assert fn(m, m) == 0;
    hide TotalPreorder, Delete;
    assert HasKey(fn, t.right, m);
    assert Without(fn, Keys(t.right), m) == Keys(t.right) - {m};
  }

  lemma EmptiedAtLeaf<K(!new)>(fn: (K, K) -> int, t: Tree<K>, k: K)
    requires TotalPreorder(fn) && t.Node? && fn(k, t.key) == 0 && (t.left.Leaf? || t.right.Leaf?) && Ordered(fn, t)
    ensures DeletesFrom(fn, t, if t.left.Leaf? && t.right.Leaf? then Leaf else Emptied(fn, t, k), k)
  {
    HasKeyBySide(fn, t, k);
    WithoutBySide(fn, t, k);
    hide TotalPreorder, HasKey;
    if t.left.Node? || t.right.Node? {
      var c, u := if t.left.Leaf? then t.right else t.left, Emptied(fn, t, k);
      assert Keys(u) == Keys(c) && Size(u) == Size(c) && Ordered(fn, u);
      assert Without(fn, Keys(t), k) == Keys(c) && Size(t) == Size(c) + 1;
    }
  }

  /** Deletion restores balance and exact heights, and lowers a subtree by at most one level. */
  lemma {:induction false} DeleteBalanced<K>(fn: (K, K) -> int, t: Tree<K>, k: K)
    requires Balanced(t)
    ensures Balanced(Delete(fn, t, k))
    ensures Height(t) - 1 <= Height(Delete(fn, t, k)) <= Height(t)
    decreases t
  {
    if t.Leaf? {
      return;
    }
    DeleteUnfolds(fn, t, k);
    if fn(k, t.key) < 0 {
      DeleteBalanced(fn, t.left, k);
    } else if fn(k, t.key) > 0 {
      DeleteBalanced(fn, t.right, k);
    } else if t.left.Node? && t.right.Node? {
      DeleteBalanced(fn, t.right, MinKey(t.right));
    } else if t.left.Leaf? && t.right.Leaf? {
      return;
    }
    EmptiedBalance(fn, t, k);
  }

  lemma EmptiedBalance<K>(fn: (K, K) -> int, t: Tree<K>, k: K)
    requires Balanced(t) && t.Node? && !(fn(k, t.key) == 0 && t.left.Leaf? && t.right.Leaf?)
    requires fn(k, t.key) < 0 ==> Shrinks(t.left, Delete(fn, t.left, k))
    requires fn(k, t.key) > 0 ==> Shrinks(t.right, Delete(fn, t.right, k))
    requires fn(k, t.key) == 0 && t.left.Node? && t.right.Node? ==>
               Shrinks(t.right, Delete(fn, t.right, MinKey(t.right)))
    ensures SafeByBalance(Emptied(fn, t, k))
    ensures Shrinks(t, RestoreByBalance(Emptied(fn, t, k)))
  {
    var u := Emptied(fn, t, k);
    hide Delete;
    if Balance(u) > 1 {
      MendLeft(u);
      hide RightRotate, LeftRotate;
    } else if Balance(u) < -1 {
      MendRight(u);
      hide RightRotate, LeftRotate;
    }
  }

  ghost predicate Shrinks<K>(t: Tree<K>, r: Tree<K>) {
    Balanced(r) && Height(t) - 1 <= Height(r) <= Height(t)
  }

  /** Deleting a key that ties with none in the tree changes nothing, not even a height. */
  lemma {:induction false} DeleteAbsent<K(!new)>(fn: (K, K) -> int, t: Tree<K>, k: K)
    requires TotalPreorder(fn) && Avl(fn, t) && !HasKey(fn, t, k)
    ensures Delete(fn, t, k) == t
  {
    if t.Node? {
      HasKeyBySide(fn, t, k);
      hide TotalPreorder, HasKey, Below, Above;
      if fn(k, t.key) < 0 {
        DeleteAbsent(fn, t.left, k);
      } else {
        DeleteAbsent(fn, t.right, k);
      }
    }
  }

  /** The subtree whose root is the node that deleting `k` unlinks: the node that holds `k`, or, when
      that one has two children, its in-order successor. */
  function Victim<K>(fn: (K, K) -> int, t: Tree<K>, k: K): Tree<K> {
    if t.Leaf? then Leaf
    else if fn(k, t.key) < 0 then Victim(fn, t.left, k)
    else if fn(k, t.key) > 0 then Victim(fn, t.right, k)
    else if t.left.Leaf? || t.right.Leaf? then t
    else Leftmost(t.right)
  }

  function Leftmost<K>(t: Tree<K>): Tree<K> {
    if t.Leaf? || t.left.Leaf? then t else Leftmost(t.left)
  }

  /** Deletion reports success if and only if the node it unlinks has a child.  When a leaf is unlinked
      the key is gone all the same, but the caller is told that it was not found. */
  lemma {:induction false} DeleteReports<K(!new)>(fn: (K, K) -> int, t: Tree<K>, k: K)
    requires TotalPreorder(fn) && Avl(fn, t)
    ensures HasKey(fn, t, k) <==> Victim(fn, t, k).Node?
    ensures Spliced(fn, t, k) <==> HasKey(fn, t, k) && Height(Victim(fn, t, k)) > 1
    decreases t
  {
    if t.Leaf? {
      assert !HasKey(fn, t, k);
    } else {
      HasKeyBySide(fn, t, k);
      if fn(k, t.key) < 0 {
        DeleteReports(fn, t.left, k);
      } else if fn(k, t.key) > 0 {
        DeleteReports(fn, t.right, k);
      } else if t.left.Node? && t.right.Node? {
        hide TotalPreorder, HasKey;
        SuccessorReports(fn, t.right);
      }
    }
  }

  lemma {:induction false} SuccessorReports<K(!new)>(fn: (K, K) -> int, t: Tree<K>)
    requires TotalPreorder(fn) && t.Node? && Avl(fn, t)
    ensures Leftmost(t).Node?
    ensures Spliced(fn, t, MinKey(t)) <==> Height(Leftmost(t)) > 1
  {
    var m := MinKey(t);
    if t.left.Node? {
      MinKeyIsLeast(fn, t.left);
      assert fn(m, t.key) < 0;
      SuccessorReports(fn, t.left);
    } else {
      assert fn(m, m) == 0;
    }
  }

  /** A single node: its key is deleted, and the deletion reports that there was nothing to delete. */
  lemma DeleteReportsFailureOnLeaf<K(!new)>(fn: (K, K) -> int, k: K)
    requires TotalPreorder(fn)
    ensures var t := Insert(fn, Leaf, k);
            HasKey(fn, t, k) && Delete(fn, t, k) == Leaf && !Spliced(fn, t, k)
  {
    assert fn(k, k) == 0;
    assert k in Keys(Insert(fn, Leaf, k));
  }

  // ---------- traversal, size and height ----------

  /** In-order traversal lists every key once, in strictly increasing order. */
  lemma {:induction false} InOrderIncreases<K(!new)>(fn: (K, K) -> int, t: Tree<K>)
    requires TotalPreorder(fn) && Ordered(fn, t)
    ensures StrictlySorted(fn, InOrder(t))
    ensures |InOrder(t)| == Size(t)
    ensures forall x :: x in InOrder(t) <==> x in Keys(t)
  {
    if t.Node? {
      InOrderIncreases(fn, t.left);
      InOrderIncreases(fn, t.right);
      OrderedParts(fn, t);
      var l, r := InOrder(t.left), InOrder(t.right);
      hide Ordered, StrictlySorted, TotalPreorder;
      SortedAround(fn, l, t.key, r);
    }
  }

  lemma SortedAround<K(!new)>(fn: (K, K) -> int, l: seq<K>, y: K, r: seq<K>)
    requires TotalPreorder(fn) && StrictlySorted(fn, l) && StrictlySorted(fn, r)
    requires (forall x | x in l :: fn(x, y) < 0) && (forall x | x in r :: fn(y, x) < 0)
    ensures StrictlySorted(fn, l + [y] + r)
  {
    forall i, j | 0 <= i < |l| && 0 <= j < |r|
      ensures fn(l[i], r[j]) < 0
    {
      var a, b := l[i], r[j];
      assert fn(a, y) < 0 && fn(y, b) < 0;
      assert fn(b, a) <= 0 && fn(a, y) <= 0 ==> fn(b, y) <= 0;
    }
  }

  function Fib(n: nat): nat {
    if n < 2 then n else Fib(n - 1) + Fib(n - 2)
  }

  lemma {:induction false} FibMonotone(m: nat, n: nat)
    requires m <= n
    ensures Fib(m) <= Fib(n)
    decreases n - m
  {
    if m < n {
      FibMonotone(m + 1, n);
    }
  }

  lemma {:induction false} FibExponential(n: nat)
    ensures Pow2(n / 2) <= Fib(n + 2)
    decreases n
  {
    if n >= 2 {
      FibExponential(n - 2);
      FibMonotone(n, n + 1);
      assert Fib(n + 2) == Fib(n + 1) + Fib(n);
      assert Pow2(n / 2) == 2 * Pow2(n / 2 - 1);
    }
  }

  /** A tree of height h has at least Fib(h + 2) - 1 nodes. */
  lemma {:induction false} FibonacciBound<K>(t: Tree<K>)
    requires Balanced(t)
    ensures Height(t) >= 0 && Fib(Height(t) + 2) <= Size(t) + 1
  {
    if t.Node? {
      FibonacciBound(t.left);
      FibonacciBound(t.right);
      var h := Height(t);
      FibMonotone(h, Height(t.left) + 2);
      FibMonotone(h, Height(t.right) + 2);
      assert Fib(h + 2) == Fib(h + 1) + Fib(h);
    }
  }

  /** Height is logarithmic, and with it the nesting of calls in both operations, which recurse into lower
      trees only. */
  lemma LogarithmicDepth<K>(t: Tree<K>)
    requires Balanced(t)
    ensures Height(t) >= 0 && Pow2(Height(t) / 2) <= Size(t) + 1
  {
    FibonacciBound(t);
    FibExponential(Height(t));
  }
}
