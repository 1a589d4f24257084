/** bt_bfs.c: breadth-first search over linked binary nodes. */
module BtBfs {
  import Queue

  datatype Tree<T> = Leaf | Node(left: Tree<T>, data: T, right: Tree<T>)

  ghost predicate Contains<T>(t: Tree<T>, fn: (T, T) -> int, needle: T) {
    t.Node? && (fn(t.data, needle) == 0 || Contains(t.left, fn, needle) || Contains(t.right, fn, needle))
  }

  function Size<T>(t: Tree<T>): nat {
    if t == Leaf then 0 else Size(t.left) + 1 + Size(t.right)
  }

  class BinaryNode<T> {
    const data: T
    var left: BinaryNode?<T>
    var right: BinaryNode?<T>
    ghost var tree: Tree<T>
    ghost var repr: set<BinaryNode<T>>

    ghost predicate Valid()
      reads this, repr
      decreases repr
    {
      && this in repr && tree.Node? && tree.data == data
      && (if left == null then tree.left == Leaf
          else left in repr && left.repr <= repr - {this} && left.Valid() && tree.left == left.tree)
      && (if right == null then tree.right == Leaf
          else right in repr && right.repr <= repr - {this} && right.Valid() && tree.right == right.tree)
    }

    constructor (data: T, left: BinaryNode?<T>, right: BinaryNode?<T>)
      requires (left != null ==> left.Valid()) && (right != null ==> right.Valid())
      ensures Valid() && this.data == data && this.left == left && this.right == right
    {
      this.data, this.left, this.right := data, left, right;
      tree := Node(if left == null then Leaf else left.tree, data, if right == null then Leaf else right.tree);
      repr := {this} + (if left == null then {} else left.repr) + (if right == null then {} else right.repr);
    }
  }

  /** The trees of the queued nodes. */
  ghost function Trees<T>(queued: seq<BinaryNode<T>>): (s: seq<Tree<T>>)
    reads queued
    ensures |s| == |queued| && forall i :: 0 <= i < |s| ==> s[i] == queued[i].tree
  {
    if queued == [] then [] else [queued[0].tree] + Trees(queued[1..])
  }

  ghost predicate InSome<T>(ts: seq<Tree<T>>, fn: (T, T) -> int, needle: T) {
    exists i :: 0 <= i < |ts| && Contains(ts[i], fn, needle)
  }

  function TotalSize<T>(ts: seq<Tree<T>>): nat {
    if ts == [] then 0 else Size(ts[0]) + TotalSize(ts[1..])
  }

  lemma {:induction false} TotalSizeConcat<T>(ts: seq<Tree<T>>, us: seq<Tree<T>>)
    ensures TotalSize(ts + us) == TotalSize(ts) + TotalSize(us)
  {
    if ts == [] {
      assert ts + us == us;
    } else {
      assert (ts + us)[1..] == ts[1..] + us;
      TotalSizeConcat(ts[1..], us);
    }
  }

  /** Queueing one more subtree. */
  lemma Queueing<T>(ts: seq<Tree<T>>, t: Tree<T>, fn: (T, T) -> int, needle: T)
    ensures InSome(ts + [t], fn, needle) <==> InSome(ts, fn, needle) || Contains(t, fn, needle)
    ensures TotalSize(ts + [t]) == TotalSize(ts) + Size(t)
  {
    TotalSizeConcat(ts, [t]);
    var us := ts + [t];
    assert us[|ts|] == t;
    if InSome(ts, fn, needle) {
      var i :| 0 <= i < |ts| && Contains(ts[i], fn, needle);
      assert us[i] == ts[i];
    }
  }

  lemma Dequeueing<T>(ts: seq<Tree<T>>, fn: (T, T) -> int, needle: T)
    requires ts != []
    ensures InSome(ts, fn, needle) <==> Contains(ts[0], fn, needle) || InSome(ts[1..], fn, needle)
  {
    if InSome(ts[1..], fn, needle) {
      var i :| 0 <= i < |ts[1..]| && Contains(ts[1..][i], fn, needle);
      assert ts[i + 1] == ts[1..][i];
    }
    assert forall i :: 0 < i < |ts| ==> ts[i] == ts[1..][i - 1];
  }

  ghost predicate AllValid<T>(queued: seq<BinaryNode<T>>)
    reads queued, set i, o | 0 <= i < |queued| && o in queued[i].repr :: o
  {
    forall i :: 0 <= i < |queued| ==> queued[i].Valid()
  }

  method EnqueChild<T>(q: Queue.Queue<BinaryNode<T>>, child: BinaryNode?<T>, fn: (T, T) -> int, needle: T, ghost t: Tree<T>)
    requires q.Valid() && AllValid(q.Contents())
    requires if child == null then t == Leaf else child.Valid() && t == child.tree
    modifies q, q.repr
    ensures q.Valid() && AllValid(q.Contents()) && fresh(q.repr - old(q.repr))
    ensures InSome(Trees(q.Contents()), fn, needle) <==> old(InSome(Trees(q.Contents()), fn, needle)) || Contains(t, fn, needle)
    ensures TotalSize(Trees(q.Contents())) == old(TotalSize(Trees(q.Contents()))) + Size(t)
  {
    hide InSome, TotalSize, BinaryNode.Valid, Queue.Queue.Valid, Trees;
    if child != null {
      ghost var ts := Trees(q.Contents());
      Queueing(ts, t, fn, needle);
      q.Enque(child);
      assert Trees(q.Contents()) == ts + [t];
    }
  }

  /** What taking the first node off the queue leaves to be searched. */
  lemma Dequeued<T>(was: seq<BinaryNode<T>>, cur: BinaryNode<T>, queued: seq<BinaryNode<T>>, fn: (T, T) -> int, needle: T)
    requires AllValid(was) && was == [cur] + queued
    ensures cur.Valid() && AllValid(queued)
    ensures InSome(Trees(was), fn, needle) <==> Contains(cur.tree, fn, needle) || InSome(Trees(queued), fn, needle)
    ensures TotalSize(Trees(was)) == Size(cur.tree) + TotalSize(Trees(queued))
  {
    hide InSome, BinaryNode.Valid;
    assert was[0] == cur && was[1..] == queued;
    Dequeueing(Trees(was), fn, needle);
    assert Trees(was)[1..] == Trees(queued);
  }

  lemma Parts<T>(n: BinaryNode<T>, fn: (T, T) -> int, needle: T)
    requires n.Valid()
    ensures n.tree.Node?
    ensures if n.left == null then n.tree.left == Leaf else n.left.Valid() && n.tree.left == n.left.tree
    ensures if n.right == null then n.tree.right == Leaf else n.right.Valid() && n.tree.right == n.right.tree
    ensures Contains(n.tree, fn, needle) <==>
            fn(n.data, needle) == 0 || Contains(n.tree.left, fn, needle) || Contains(n.tree.right, fn, needle)
    ensures Size(n.tree) == 1 + Size(n.tree.left) + Size(n.tree.right)
  {
  }

  lemma Started<T>(head: BinaryNode<T>, fn: (T, T) -> int, needle: T)
    requires head.Valid()
    ensures AllValid([head]) && (InSome(Trees([head]), fn, needle) <==> Contains(head.tree, fn, needle))
  {
    assert Trees([head])[0] == head.tree;
  }

  method EnqueChildren<T>(q: Queue.Queue<BinaryNode<T>>, cur: BinaryNode<T>, fn: (T, T) -> int, needle: T)
    requires q.Valid() && AllValid(q.Contents()) && cur.Valid() && fn(cur.data, needle) != 0
    modifies q, q.repr
    ensures q.Valid() && AllValid(q.Contents()) && fresh(q.repr - old(q.repr))
    ensures InSome(Trees(q.Contents()), fn, needle) <==>
            old(InSome(Trees(q.Contents()), fn, needle)) || Contains(cur.tree, fn, needle)
    ensures TotalSize(Trees(q.Contents())) < old(TotalSize(Trees(q.Contents()))) + Size(cur.tree)
  {
    hide InSome, Contains, Size, TotalSize, AllValid, BinaryNode.Valid, Queue.Queue.Valid, Trees;
    Parts(cur, fn, needle);
    ghost var l, r := cur.tree.left, cur.tree.right;
    EnqueChild(q, cur.left, fn, needle, l);
    EnqueChild(q, cur.right, fn, needle, r);
  }

  /** The search decides whether some node of the tree matches, and ends. */
  method Bfs<T>(head: BinaryNode<T>, needle: T, fn: (T, T) -> int) returns (found: bool)
    requires head.Valid()
    ensures found <==> Contains(head.tree, fn, needle)
  {
    hide InSome, Contains, Size, TotalSize, AllValid, BinaryNode.Valid, Queue.Queue.Valid, Trees;
    var q := new Queue.Queue<BinaryNode<T>>();
    q.Enque(head);
    Started(head, fn, needle);
    assert q.Contents() == [head];
    while q.len > 0
      invariant q.Valid() && fresh(q) && fresh(q.repr) && AllValid(q.Contents())
      invariant Contains(head.tree, fn, needle) <==> InSome(Trees(q.Contents()), fn, needle)
      decreases TotalSize(Trees(q.Contents()))
    {
      ghost var was := q.Contents();
      var out := q.Deque();
      var cur := out.value;
      Dequeued(was, cur, q.Contents(), fn, needle);
      Parts(cur, fn, needle);
      if fn(cur.data, needle) == 0 {
        return true;
      }
      EnqueChildren(q, cur, fn, needle);
    }
    NothingQueued(q, fn, needle);
    found := false;
  }

  lemma NothingQueued<T>(q: Queue.Queue<BinaryNode<T>>, fn: (T, T) -> int, needle: T)
    requires q.Valid() && q.len == 0
    ensures !InSome(Trees(q.Contents()), fn, needle)
  {
  }
}
