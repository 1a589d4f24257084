/** lru.c: a doubly linked recency list, a table from keys to list nodes, and a table back. */
module Lru {
  import opened HashRows
  import opened HashTable
  import opened Options
  import opened Sequences
  import S = LruSpec

  class Node<V> {
    var prev: Node?<V>
    var next: Node?<V>
    var data: V

    constructor (data: V)
      ensures prev == null && next == null && this.data == data
    {
      prev, next := null, null;
      this.data := data;
    }
  }

  /** The node at position `i`, or null outside the sequence. */
  function At<V>(order: seq<Node<V>>, i: int): Node?<V> {
    if 0 <= i < |order| then order[i] else null
  }

  ghost predicate Linked<V>(order: seq<Node<V>>, i: int)
    reads order`prev, order`next
  {
    0 <= i < |order| ==> order[i].prev == At(order, i - 1) && order[i].next == At(order, i + 1)
  }

  /** The links of a node other than the one at `gone`, when the neighbours of that one skip it. */
  ghost predicate Skips<V>(order: seq<Node<V>>, gone: int, i: int)
    reads order`prev, order`next
  {
    0 <= i < |order| && i != gone ==>
      && order[i].prev == At(order, if i == gone + 1 then i - 2 else i - 1)
      && order[i].next == At(order, if i == gone - 1 then i + 2 else i + 1)
  }

  lemma RemovedOrder<V>(order: seq<Node<V>>, i: nat)
    requires i < |order| && forall p, q :: 0 <= p < q < |order| ==> order[p] != order[q]
    ensures var o := Removed(order, i);
            order[i] !in o && forall p, q :: 0 <= p < q < |o| ==> o[p] != o[q]
  {
  }

  /** Whom a node has beside it once the one at `i` is gone. */
  lemma NeighboursAfterRemoval<V>(order: seq<Node<V>>, i: nat, k: nat)
    requires i < |order| && k < |order| - 1
    ensures var o, k' := Removed(order, i), if k < i then k else k + 1;
            && o[k] == order[k']
            && At(o, k - 1) == At(order, if k' == i + 1 then k' - 2 else k' - 1)
            && At(o, k + 1) == At(order, if k' == i - 1 then k' + 2 else k' + 1)
  {
  }

  /** The recency list of the cache: its two ends and the links between the nodes. */
  class List<V> {
    var head: Node?<V>
    var tail: Node?<V>
    ghost var order: seq<Node<V>>  // from head to tail

    ghost predicate Valid()
      reads this, order`prev, order`next
    {
      && (forall i, j :: 0 <= i < j < |order| ==> order[i] != order[j])
      && (forall i :: 0 <= i < |order| ==> Linked(order, i))
      && head == At(order, 0) && tail == At(order, |order| - 1)
    }

    constructor ()
      ensures Valid() && order == []
    {
      head, tail, order := null, null, [];
    }

    lemma Ends()
      requires Valid()
      ensures forall i, j :: 0 <= i < j < |order| ==> order[i] != order[j]
      ensures tail == At(order, |order| - 1)
    {
    }

    method Detach(node: Node<V>, ghost i: nat)
      requires Valid() && i < |order| && order[i] == node
      modifies this, order`prev, order`next
      ensures Valid() && order == Removed(old(order), i)
      ensures node.prev == null && node.next == null && node !in order
    {
      Unlink(node, i);
      if node == head {
        head := node.next;
      }
      if node == tail {
        tail := node.prev;
      }
      ClearLinks(node, i);
    }

    /** The last step of detaching, when everything else already skips the node. */
    method ClearLinks(node: Node<V>, ghost i: nat)
      requires i < |order| && order[i] == node
      requires forall p, q :: 0 <= p < q < |order| ==> order[p] != order[q]
      requires forall k :: 0 <= k < |order| ==> Skips(order, i, k)
      requires head == At(Removed(order, i), 0) && tail == At(Removed(order, i), |order| - 2)
      modifies this`order, node`prev, node`next
      ensures Valid() && order == Removed(old(order), i)
      ensures node.prev == null && node.next == null && node !in order
    {
      hide Removed;
      ghost var was := order;
      RemovedOrder(was, i);
      assert forall k :: 0 <= k < |was| ==> Skips(was, i, k);
      label L:
      node.prev, node.next := null, null;
      order := Removed(order, i);
      forall k | 0 <= k < |order|
        ensures Linked(order, k)
      {
        ghost var k' := if k < i then k else k + 1;
        NeighboursAfterRemoval(was, i, k);
        assert order[k] == was[k'] && was[k'] != node;
        assert old@L(Skips(was, i, k'));
        assert order[k].prev == old@L(was[k'].prev) && order[k].next == old@L(was[k'].next);
      }
    }

    /** Makes the neighbours of the node skip it. */
    method Unlink(node: Node<V>, ghost i: nat)
      requires Valid() && i < |order| && order[i] == node
      modifies order`prev, order`next
      ensures node.prev == At(order, i - 1) && node.next == At(order, i + 1)
      ensures forall k :: 0 <= k < |order| ==> Skips(order, i, k)
    {
      assert Linked(order, i);
      if node.prev != null {
        node.prev.next := node.next;
      }
      if node.next != null {
        node.next.prev := node.prev;
      }
      forall k | 0 <= k < |order|
        ensures Skips(order, i, k)
      {
        assert old(Linked(order, k));
      }
    }

    /** What every hit does. */
    method MoveToFront(node: Node<V>, ghost i: nat)
      requires Valid() && i < |order| && order[i] == node
      modifies this, order`prev, order`next
      ensures Valid() && order == [old(order)[i]] + Removed(old(order), i)
      ensures forall n :: n in order <==> n in old(order)
    {
      hide List.Valid;
      Detach(node, i);
      Prepend(node);
      assert forall j :: 0 <= j < |old(order)| ==> old(order)[j] == order[if j < i then j + 1 else if j == i then 0 else j];
    }

    method Prepend(node: Node<V>)
      requires Valid() && node !in order && node.prev == null && node.next == null
      modifies this, order`prev, node`next
      ensures Valid() && order == [node] + old(order)
    {
      ghost var was := order;
      order := [node] + order;
      if head == null {
        head, tail := node, node;
        return;
      }
      node.next := head;
      head.prev := node;
      head := node;
      forall k | 0 <= k < |order|
        ensures Linked(order, k)
      {
        assert k > 0 ==> order[k] == was[k - 1] && old(Linked(order, k - 1));
      }
    }
  }

  // ---------- the two indices ----------

  /** The two maps are inverse to each other, and their nodes are exactly those of the list. */
  ghost predicate Indexed<K, V>(order: seq<Node<V>>, lookup: map<K, Node<V>>, reverse: map<Node<V>, K>) {
    && (forall n :: n in reverse ==> n in order)
    && Named(order, reverse)
    && (forall n :: n in reverse ==> reverse[n] in lookup && lookup[reverse[n]] == n)
    && (forall k :: k in lookup ==> lookup[k] in reverse && reverse[lookup[k]] == k)
  }

  ghost predicate Named<K, V>(order: seq<Node<V>>, reverse: map<Node<V>, K>) {
    forall n :: n in order ==> n in reverse
  }

  /** The keys of the nodes, in list order. */
  ghost function KeysOf<K, V>(order: seq<Node<V>>, reverse: map<Node<V>, K>): (ks: seq<K>)
    requires Named(order, reverse)
    ensures |ks| == |order|
  {
    seq(|order|, i requires 0 <= i < |order| => reverse[order[i]])
  }

  /** The nodes' keys and data, in list order. */
  ghost function Bindings<K, V>(order: seq<Node<V>>, reverse: map<Node<V>, K>): (s: S.Cache<K, V>)
    reads order`data
    requires Named(order, reverse)
    ensures |s| == |order| && forall i :: 0 <= i < |order| ==> s[i] == Entry(reverse[order[i]], order[i].data)
  {
    if order == [] then [] else [Entry(reverse[order[0]], order[0].data)] + Bindings(order[1..], reverse)
  }

  lemma BindingsKeys<K, V>(order: seq<Node<V>>, reverse: map<Node<V>, K>)
    requires Named(order, reverse)
    ensures S.Keys(Bindings(order, reverse)) == KeysOf(order, reverse)
  {
  }

  lemma BindingsMoved<K, V>(order: seq<Node<V>>, reverse: map<Node<V>, K>, i: nat)
    requires Named(order, reverse) && i < |order|
    ensures Named([order[i]] + Removed(order, i), reverse)
    ensures var s := Bindings(order, reverse);
            Bindings([order[i]] + Removed(order, i), reverse) == [s[i]] + Removed(s, i)
  {
    hide Bindings;
    assert order[i] in order;
  }

  lemma BindingsAdded<K, V>(order: seq<Node<V>>, reverse: map<Node<V>, K>, n: Node<V>, k: K)
    requires Named(order, reverse) && n !in order
    ensures Named([n] + order, reverse[n := k])
    ensures Bindings([n] + order, reverse[n := k]) == [Entry(k, n.data)] + Bindings(order, reverse)
  {
    hide Bindings;
  }

  lemma BindingsRemoved<K, V>(order: seq<Node<V>>, reverse: map<Node<V>, K>)
    requires Named(order, reverse) && order != []
    requires forall i, j :: 0 <= i < j < |order| ==> order[i] != order[j]
    ensures var last := |order| - 1;
            && Named(Removed(order, last), reverse - {order[last]})
            && Bindings(Removed(order, last), reverse - {order[last]}) == Bindings(order, reverse)[..last]
  {
    hide Bindings;
    var last := |order| - 1;
    var o := Removed(order, last);
    forall n | n in o
      ensures n in order && n != order[last]
    {
      var j :| 0 <= j < |o| && o[j] == n;
      assert o[j] == order[j];
    }
  }

  lemma LookupFinds<K, V>(order: seq<Node<V>>, lookup: map<K, Node<V>>, reverse: map<Node<V>, K>, k: K)
    requires Indexed(order, lookup, reverse)
    ensures var i := S.IndexOf(KeysOf(order, reverse), k);
            if k in lookup then i < |order| && order[i] == lookup[k] else i == |order|
  {
    hide S.IndexOf;
    var ks := KeysOf(order, reverse);
    var i := S.IndexOf(ks, k);
    if i < |order| {
      assert order[i] in order && ks[i] == k;
    }
    if k in lookup {
      var j :| 0 <= j < |order| && order[j] == lookup[k];
      assert ks[j] == k;
    }
  }

  lemma IndexedMoved<K, V>(order: seq<Node<V>>, lookup: map<K, Node<V>>, reverse: map<Node<V>, K>, i: nat)
    requires Indexed(order, lookup, reverse) && i < |order|
    ensures Indexed([order[i]] + Removed(order, i), lookup, reverse)
  {
    var o := [order[i]] + Removed(order, i);
    forall n | n in order
      ensures n in o
    {
      var j :| 0 <= j < |order| && order[j] == n;
      assert o[if j < i then j + 1 else if j == i then 0 else j] == n;
    }
  }

  lemma IndexedAdded<K, V>(order: seq<Node<V>>, lookup: map<K, Node<V>>, reverse: map<Node<V>, K>, k: K, n: Node<V>)
    requires Indexed(order, lookup, reverse) && n !in order && k !in lookup
    ensures Indexed([n] + order, lookup[k := n], reverse[n := k])
  {
  }

  lemma IndexedRemoved<K, V>(order: seq<Node<V>>, lookup: map<K, Node<V>>, reverse: map<Node<V>, K>)
    requires Indexed(order, lookup, reverse) && order != []
    requires forall i, j :: 0 <= i < j < |order| ==> order[i] != order[j]
    ensures var last := order[|order| - 1];
            last in reverse && Indexed(Removed(order, |order| - 1), lookup - {reverse[last]}, reverse - {last})
  {
    var last := order[|order| - 1];
    var o := Removed(order, |order| - 1);
    assert last in order;
    forall n | n in order && n != last
      ensures n in o
    {
      var j :| 0 <= j < |order| && order[j] == n;
      assert o[j] == n;
    }
  }

  // ---------- the cache ----------

  ghost function Nodes<V>(order: seq<Node<V>>): (nodes: set<object>)
    ensures forall n | n in order :: n in nodes
  {
    set n | n in order
  }

  /** The parts of the cache share no object. */
  ghost predicate Separate(list: object, nodes: set<object>, forth: set<object>, back: set<object>) {
    forth !! back && list !in forth && list !in back && nodes !! forth && nodes !! back
  }

  lemma SeparateParts(list: object, nodes: set<object>, forth: set<object>, back: set<object>)
    requires Separate(list, nodes, forth, back)
    ensures forth !! back && list !in forth && list !in back && nodes !! forth && nodes !! back
  {
  }

  /** One more node, and more objects in the tables that are no parts of the list. */
  lemma SeparateGrows(list: object, nodes: set<object>, forth: set<object>, back: set<object>,
                      node: object, forth': set<object>, back': set<object>)
    requires Separate(list, nodes, forth, back) && forth' !! back'
    requires node !in forth' && node !in back'
    requires (forth' - forth) !! ({list} + nodes) && (back' - back) !! ({list} + nodes)
    ensures Separate(list, {node} + nodes, forth', back')
  {
  }

  lemma SeparateShrinks(list: object, nodes: set<object>, forth: set<object>, back: set<object>, nodes': set<object>)
    requires Separate(list, nodes, forth, back) && nodes' <= nodes
    ensures Separate(list, nodes', forth, back)
  {
  }

  lemma UnionGrows(list: set<object>, nodes: set<object>, forth: set<object>, back: set<object>,
                   node: object, forth': set<object>, back': set<object>)
    ensures list + ({node} + nodes) + forth' + back' - (list + nodes + forth + back) <=
            {node} + (forth' - forth) + (back' - back)
  {
  }

  lemma NodesHave<V>(order: seq<Node<V>>)
    ensures forall n | n in order :: n in Nodes(order)
  {
  }

  lemma NodesAdded<V>(order: seq<Node<V>>, n: Node<V>)
    ensures Nodes([n] + order) == {n as object} + Nodes(order)
  {
  }

  lemma NodesDropped<V>(order: seq<Node<V>>, i: nat)
    requires i < |order|
    ensures Nodes(Removed(order, i)) <= Nodes(order)
  {
  }

  class Lru<K(==), V> {
    const cap: nat
    const list: List<V>
    const lookup: Table<K, Node<V>>
    const reverse: Table<Node<V>, K>
    var len: nat

    ghost function Repr(): set<object>
      reads list, lookup, reverse
    {
      {list} + Nodes(list.order) + lookup.repr + reverse.repr
    }

    /** Everything but the number of nodes. */
    ghost predicate Consistent()
      reads list, list.order`prev, list.order`next, lookup, lookup.repr, reverse, reverse.repr
    {
      && list.Valid() && lookup.Valid() && reverse.Valid()
      && Separate(list, Nodes(list.order), lookup.repr, reverse.repr)
      && Named(list.order, reverse.contents)
      && Indexed(list.order, lookup.contents, reverse.contents)
    }

    /** The list never holds more than `cap` nodes, although `len` goes on counting. */
    ghost predicate Valid()
      reads this, list, list.order`prev, list.order`next, lookup, lookup.repr, reverse, reverse.repr
    {
      Consistent() && this !in Repr() && |list.order| == if len < cap then len else cap
    }

    /** The bindings held, the most recently used one first. */
    ghost function Recency(): S.Cache<K, V>
      reads list, list.order`data, reverse
      requires Named(list.order, reverse.contents)
    {
      Bindings(list.order, reverse.contents)
    }

    constructor (cap: nat, hashKey: K -> nat, hashNode: Node<V> -> nat)
      ensures Valid() && fresh(Repr()) && Recency() == [] && this.cap == cap && len == 0
    {
      hide List.Valid, Table.Valid;
      var recency := new List();
      var forth := new Table(hashKey);
      var back := new Table(hashNode);
      this.cap, len, list, lookup, reverse := cap, 0, recency, forth, back;
    }

    /** Moves a node that is in the list to its front. */
    method Touch(node: Node<V>, ghost i: nat)
      requires Consistent() && i < |list.order| && list.order[i] == node
      modifies list, list.order`prev, list.order`next
      ensures Consistent() && Repr() == old(Repr()) && |list.order| == |old(list.order)|
      ensures Recency() == old([Recency()[i]] + Removed(Recency(), i))
    {
      hide List.Valid, Table.Valid, Indexed, Bindings, Named;
      IndexedMoved(list.order, lookup.contents, reverse.contents, i);
      BindingsMoved(list.order, reverse.contents, i);
      list.MoveToFront(node, i);
    }

    /** Whether the cache holds the key, and if so at which position its node is. */
    lemma Located(key: K)
      requires Consistent()
      ensures var i := S.IndexOf(S.Keys(Recency()), key);
              if key in lookup.contents then i < |list.order| && list.order[i] == lookup.contents[key]
              else i == |list.order|
    {
      BindingsKeys(list.order, reverse.contents);
      LookupFinds(list.order, lookup.contents, reverse.contents, key);
    }

    method Get(key: K) returns (r: Option<V>)
      requires Valid()
      modifies Repr()
      ensures Valid() && Repr() == old(Repr())
      ensures Recency() == S.Step(old(Recency()), cap, S.Get(key))
      ensures r == S.Answer(old(Recency()), key) && len == old(len)
    {
      hide List.Valid, Table.Valid, Indexed, Bindings, Named, S.IndexOf, S.Keys;
      Located(key);
      var found := lookup.Get(key);
      match found
      case None =>
        r := None;
      case Some(node) =>
        Touch(node, S.IndexOf(S.Keys(Recency()), key));
        r := Some(node.data);
    }

    method Update(key: K, value: V)
      requires Valid()
      modifies this, Repr()
      ensures Valid() && fresh(Repr() - old(Repr()))
      ensures Recency() == S.Step(old(Recency()), cap, S.Update(key, value))
      ensures len == old(len) + if key in old(S.Keys(Recency())) then 0 else 1
    {
      hide List.Valid, Table.Valid, Indexed, Bindings, Named, S.IndexOf, S.Keys, S.Step, S.Truncated, S.Refreshed;
      Located(key);
      ghost var s, i := Recency(), S.IndexOf(S.Keys(Recency()), key);
      var found := lookup.Get(key);
      if found.None? {
        S.UpdateOfMissing(s, cap, key, value);
        AddAndTrim(key, value);
      } else {
        S.UpdateOfHeld(s, cap, key, value);
        Refresh(found.value, value, i, s);
      }
    }

    /** The branch of `lru_update` for a key that is not held. */
    method AddAndTrim(key: K, value: V)
      requires Valid() && key !in lookup.contents
      modifies this`len, Repr()
      ensures Valid() && fresh(Repr() - old(Repr()))
      ensures Recency() == S.Truncated([Entry(key, value)] + old(Recency()), cap) && len == old(len) + 1
    {
      hide List.Valid, Table.Valid, Indexed, Bindings, Named, S.Truncated;
      AddNode(key, value);
      TrimCache();
    }

    method Overwrite(node: Node<V>, value: V, ghost i: nat)
      requires Consistent() && i < |list.order| && list.order[i] == node
      modifies node`data
      ensures Consistent()
      ensures Recency() == old(Recency()[i := Entry(Recency()[i].key, value)])
    {
      hide List.Valid, Table.Valid, Indexed, Bindings, Named;
      list.Ends();
      node.data := value;
    }

    /** The branch of `lru_update` for a key that is held. */
    method Refresh(node: Node<V>, value: V, ghost i: nat, ghost s: S.Cache<K, V>)
      requires Consistent() && i < |list.order| && list.order[i] == node && s == Recency()
      modifies node`data, list, list.order`prev, list.order`next
      ensures Consistent() && Repr() == old(Repr()) && |list.order| == |old(list.order)|
      ensures Recency() == S.Refreshed(s, i, value)
    {
      hide List.Valid, Table.Valid, Indexed, Bindings, Named;
      Overwrite(node, value, i);
      Touch(node, i);
    }

    /** The branch of `lru_update` for a new key, up to the trimming. */
    method AddNode(key: K, value: V)
      requires Consistent() && this !in Repr() && key !in lookup.contents
      modifies this`len, Repr()
      ensures Consistent() && this !in Repr() && fresh(Repr() - old(Repr()))
      ensures len == old(len) + 1 && |list.order| == |old(list.order)| + 1
      ensures Recency() == [Entry(key, value)] + old(Recency())
    {
      hide List.Valid, Table.Valid, Indexed, Bindings, Named, Nodes, Separate;
      var node := new Node(value);
      ghost var nodes, forth, back := Nodes(list.order), lookup.repr, reverse.repr;
      NodesHave(list.order);
      Enter(node, key, nodes);
      len := len + 1;
      PutFirst(node);
      UnionGrows({list as object}, nodes, forth, back, node, lookup.repr, reverse.repr);
    }

    /** Puts a node that is in both tables into the list. */
    method PutFirst(node: Node<V>)
      requires list.Valid() && lookup.Valid() && reverse.Valid()
      requires node !in list.order && node.prev == null && node.next == null
      requires Named([node] + list.order, reverse.contents)
      requires Indexed([node] + list.order, lookup.contents, reverse.contents)
      requires Separate(list, Nodes([node] + list.order), lookup.repr, reverse.repr)
      modifies list, list.order`prev, node`next
      ensures Consistent() && list.order == [node] + old(list.order)
      ensures Recency() == old(Bindings([node] + list.order, reverse.contents))
    {
      hide List.Valid, Table.Valid, Indexed, Bindings, Named, Nodes, Separate;
      ghost var order := [node] + list.order;
      SeparateParts(list, Nodes(order), lookup.repr, reverse.repr);
      NodesHave(order);
      assert forall n | n in list.order :: n in order;
      list.Prepend(node);
    }

    /** Enters a new node into both tables, which is all but putting it into the list. */
    method Enter(node: Node<V>, key: K, ghost nodes: set<object>)
      requires Consistent() && key !in lookup.contents && nodes == Nodes(list.order)
      requires node !in list.order && node !in lookup.repr && node !in reverse.repr
      modifies lookup.repr, reverse.repr
      ensures list.Valid() && lookup.Valid() && reverse.Valid() && list.order == old(list.order)
      ensures Named([node] + list.order, reverse.contents)
      ensures Indexed([node] + list.order, lookup.contents, reverse.contents)
      ensures Bindings([node] + list.order, reverse.contents) == [Entry(key, node.data)] + old(Recency())
      ensures Nodes([node] + list.order) == {node as object} + nodes
      ensures Separate(list, {node as object} + nodes, lookup.repr, reverse.repr)
      ensures fresh(lookup.repr - old(lookup.repr)) && fresh(reverse.repr - old(reverse.repr))
    {
      hide List.Valid, Table.Valid, Indexed, Bindings, Named, Nodes, Separate;
      ghost var forth, back := lookup.repr, reverse.repr;
      SeparateParts(list, nodes, forth, back);
      NodesHave(list.order);
      IndexedAdded(list.order, lookup.contents, reverse.contents, key, node);
      BindingsAdded(list.order, reverse.contents, node, key);
      NodesAdded(list.order, node);
      Register(node, key, {list} + nodes);
      SeparateGrows(list, nodes, forth, back, node, lookup.repr, reverse.repr);
    }

    /** Enters a new node into both tables.  None of `others` becomes part of them. */
    method Register(node: Node<V>, key: K, ghost others: set<object>)
      requires lookup.Valid() && reverse.Valid() && lookup.repr !! reverse.repr
      requires node !in lookup.repr && node !in reverse.repr
      modifies lookup.repr, reverse.repr
      ensures lookup.Valid() && reverse.Valid() && lookup.repr !! reverse.repr
      ensures fresh(lookup.repr - old(lookup.repr)) && fresh(reverse.repr - old(reverse.repr))
      ensures (lookup.repr - old(lookup.repr)) !! others && (reverse.repr - old(reverse.repr)) !! others
      ensures lookup.contents == old(lookup.contents)[key := node]
      ensures reverse.contents == old(reverse.contents)[node := key]
    {
      hide Table.Valid;
      lookup.Insert(key, node);
      reverse.Insert(node, key);
    }

    /** Removes a node from both tables. */
    method Unregister(node: Node<V>)
      requires lookup.Valid() && reverse.Valid() && lookup.repr !! reverse.repr && node in reverse.contents
      modifies lookup.repr, reverse.repr
      ensures lookup.Valid() && reverse.Valid() && lookup.repr == old(lookup.repr) && reverse.repr == old(reverse.repr)
      ensures lookup.contents == old(lookup.contents) - {old(reverse.contents)[node]}
      ensures reverse.contents == old(reverse.contents) - {node}
    {
      hide Table.Valid;
      var key := reverse.Get(node);
      var _ := lookup.Delete(key.value);
      var _ := reverse.Delete(node);
    }

    method TrimCache()
      requires Consistent() && this !in Repr() && len > 0
      requires |list.order| == 1 + if len - 1 < cap then len - 1 else cap
      modifies Repr()
      ensures Valid() && fresh(Repr() - old(Repr()))
      ensures Recency() == S.Truncated(old(Recency()), cap)
    {
      hide List.Valid, Table.Valid, Indexed, Bindings, Named, Nodes, Separate;
      if len <= cap {
        return;
      }
      DropTail();
    }

    /** Takes the tail out of the list and out of both tables. */
    method DropTail()
      requires Consistent() && this !in Repr() && list.order != []
      modifies Repr()
      ensures Consistent() && Repr() <= old(Repr()) && |list.order| == |old(list.order)| - 1
      ensures Recency() == old(Recency())[..|list.order|]
    {
      hide List.Valid, Table.Valid, Indexed, Bindings, Named, Nodes, Separate;
      list.Ends();
      ghost var order, last := list.order, |list.order| - 1;
      IndexedRemoved(order, lookup.contents, reverse.contents);
      BindingsRemoved(order, reverse.contents);
      SeparateParts(list, Nodes(order), lookup.repr, reverse.repr);
      NodesHave(order);
      NodesDropped(order, last);
      SeparateShrinks(list, Nodes(order), lookup.repr, reverse.repr, Nodes(Removed(order, last)));
      var tail := list.tail;
      list.Detach(tail, last);
      Unregister(tail);
    }
  }

  /** A whole run on a fresh cache returns what the abstract run returns, ends with what it holds, and has
      counted its insertions in `len`. */
  method Replay<K(==), V>(ops: seq<S.Op<K, V>>, cap: nat, hashKey: K -> nat, hashNode: Node<V> -> nat)
      returns (cache: Lru<K, V>, answers: seq<Option<V>>)
    ensures cache.Valid() && cache.cap == cap && cache.Recency() == S.Run(ops, cap)
    ensures answers == S.Answers(ops, cap) && cache.len == S.Insertions(ops, cap)
  {
    hide S.Step, S.Run, S.Answers, S.Answer, S.Insertions, S.Keys, List.Valid, Table.Valid, Indexed, Bindings, Named;
    cache := new Lru(cap, hashKey, hashNode);
    answers := [];
    NothingRun(ops, cap);
    for n := 0 to |ops|
      invariant cache.Valid() && fresh(cache) && fresh(cache.Repr()) && cache.cap == cap
      invariant cache.Recency() == S.Run(ops[..n], cap) && answers == S.Answers(ops[..n], cap)
      invariant cache.len == S.Insertions(ops[..n], cap)
    {
      S.RunNext(ops, cap, n);
      var answer: Option<V> := None;
      match ops[n] {
        case Update(key, value) =>
          cache.Update(key, value);
        case Get(key) =>
          answer := cache.Get(key);
      }
      answers := answers + [answer];
    }
    assert ops[..|ops|] == ops;
  }

  lemma NothingRun<K, V>(ops: seq<S.Op<K, V>>, cap: nat)
    ensures S.Run(ops[..0], cap) == [] && S.Answers(ops[..0], cap) == [] && S.Insertions(ops[..0], cap) == 0
  {
  }
}
