/** queue.c: a first-in first-out queue of linked nodes. */
module Queue {
  import opened Options

  class QNode<T> {
    var next: QNode?<T>
    const data: T

    /** Nothing is promised about the link of a new node: `qnode_new` does not initialise it. */
    constructor (data: T)
      ensures this.data == data
    {
      this.data := data;
      next := null;
    }
  }

  class Queue<T> {
    var len: nat
    var head: QNode?<T>
    var tail: QNode?<T>
    ghost var nodes: seq<QNode<T>>
    /** The nodes queued so far. */
    ghost var repr: set<QNode<T>>

    ghost predicate Valid()
      reads this, repr
    {
      && len == |nodes|
      && (forall i :: 0 <= i < |nodes| ==> nodes[i] in repr)
      && (forall i, j :: 0 <= i < j < |nodes| ==> nodes[i] != nodes[j])
      && (forall i :: 0 <= i < |nodes| - 1 ==> nodes[i].next == nodes[i + 1])
      && (if nodes == [] then head == tail == null else head == nodes[0] && tail == nodes[|nodes| - 1])
    }

    ghost function Contents(): (s: seq<T>)
      reads this
      ensures |s| == |nodes| && forall i :: 0 <= i < |nodes| ==> s[i] == nodes[i].data
    {
      var ns := nodes;
      seq(|ns|, i requires 0 <= i < |ns| => ns[i].data)
    }

    constructor ()
      ensures Valid() && repr == {} && Contents() == []
    {
      len, head, tail, nodes, repr := 0, null, null, [], {};
    }

    method Enque(data: T)
      requires Valid()
      modifies this, repr
      ensures Valid() && Contents() == old(Contents()) + [data]
      ensures fresh(repr - old(repr))
    {
      var node := new QNode(data);
      len := len + 1;
      nodes := nodes + [node];
      repr := repr + {node};
      if head == null {
        head, tail := node, node;
        return;
      }
      tail.next := node;
      tail := node;
    }

    method Deque() returns (out: Option<T>)
      requires Valid()
      modifies this
      ensures Valid() && (out.None? <==> old(len) == 0)
      ensures repr == old(repr)
      ensures out.None? ==> Contents() == old(Contents())
      ensures out.Some? ==> old(Contents()) == [out.value] + Contents()
    {
      if len == 0 {
        return None;
      }
      var node := head;
      out := Some(node.data);
      len := len - 1;
      nodes := nodes[1..];
      if len == 0 {
        head, tail := null, null;
        return;
      }
      head := node.next;
    }
  }
}
