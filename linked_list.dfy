/** The sentinel-headed singly linked list of src/linked_list.c. A list is
    the handle `*list` to its first node (the head made by `ll_init`); nodes
    carry an `int` value and an untyped data pointer and are chained through
    `next`. The ghost sequence `nodes` is the chain from the head, in order. */
module LinkedList {
  import opened Wrappers
  import opened Seqs

  /** The `void *data` a node carries: `None` is NULL, `Some(h)` an untyped
      allocation. */
  type Data = Option<nat>

  class Node {
    const value: int
    const data: Data
    var next: Node?

    /** `ll_create_node`: a node carrying `value` and `data`, with no successor. */
    constructor (value: int, data: Data)
      ensures this.value == value && this.data == data && next == null
    {
      this.value := value;
      this.data := data;
      next := null;
    }

    /** `ll_is_enqueued`: whether the node has a successor. */
    method IsEnqueued() returns (r: bool)
      ensures r <==> next != null
    {
      r := next != null;
    }
  }

  /** `ll_delete_node`: a node that still has a successor is refused and the
      caller's pointer is left alone; otherwise the node (and its data) is
      released and the caller's pointer becomes NULL. The release itself is
      not modelled. */
  method DeleteNode(n: Node) returns (deleted: bool, ptr: Node?)
    ensures deleted <==> n.next == null
    ensures ptr == if deleted then null else n
  {
    var enqueued := n.IsEnqueued();
    if enqueued {
      return false, n;
    }
    return true, null;
  }

  /** The values of a chain of nodes, in order. */
  function ValuesOf(ns: seq<Node>): (vs: seq<int>)
    ensures |vs| == |ns|
    ensures forall i :: 0 <= i < |ns| ==> vs[i] == ns[i].value
  {
    seq(|ns|, i requires 0 <= i < |ns| => ns[i].value)
  }

  /** Inserting or removing a node inserts or removes its value at the same
      position. */
  lemma ValuesOfInsert(ns: seq<Node>, k: nat, n: Node)
    requires k <= |ns|
    ensures ValuesOf(InsertAt(ns, k, n)) == InsertAt(ValuesOf(ns), k, n.value)
  {
  }

  lemma ValuesOfRemove(ns: seq<Node>, k: nat)
    requires k < |ns|
    ensures ValuesOf(RemoveAt(ns, k)) == RemoveAt(ValuesOf(ns), k)
  {
  }

  lemma ValuesOfAppend(ns: seq<Node>, n: Node)
    ensures ValuesOf(ns + [n]) == ValuesOf(ns) + [n.value]
  {
  }

  class List {
    var head: Node?
    ghost var nodes: seq<Node>
    ghost var Repr: set<object>

    /** The handle, its nodes in chain order, each linked to the next, the
        last one ending the chain, and no node twice; `Repr` holds the handle
        and every node. */
    ghost predicate Valid()
      reads this, Repr
    {
      this in Repr && (forall i :: 0 <= i < |nodes| ==> nodes[i] in Repr) &&
      (head == null <==> nodes == []) &&
      (nodes != [] ==> head == nodes[0] && nodes[|nodes| - 1].next == null) &&
      (forall i {:trigger nodes[i].next} :: 0 <= i < |nodes| - 1 ==> nodes[i].next == nodes[i + 1]) &&
      Distinct(nodes)
    }

    /** The values of the nodes, head first. */
    ghost function Values(): seq<int>
      reads this
    {
      ValuesOf(nodes)
    }

    /** `ll_init`: a list made of one fresh head node. */
    constructor Init(value: int, data: Data)
      ensures Valid() && fresh(head) && Repr == {this, head}
      ensures nodes == [head] && head.value == value && head.data == data
      ensures Values() == [value]
    {
      var n := new Node(value, data);
      head := n;
      nodes := [n];
      Repr := {this, n};
    }

    /** `ll_get_node_value` of the head node (`*list`). Its `assert` on a
        NULL node aborts the program, which is `None` here: exactly when the
        list has lost its head and holds no value. */
    method HeadValue() returns (v: Option<int>)
      requires Valid()
      ensures v.None? <==> Values() == []
      ensures v.Some? ==> v.value == Values()[0]
    {
      if head == null {
        return None;
      }
      v := Some(head.value);
    }

    /** A node of the list has a successor exactly when it is not the last. */
    lemma EnqueuedUnlessLast(k: nat)
      requires Valid() && k < |nodes|
      ensures nodes[k].next != null <==> k < |nodes| - 1
    {
    }

    /** `ll_add_at_head`: the new node goes right after the head, which stays
        first; the old successors follow it in their old order. */
    method AddAtHead(newnode: Node)
      requires Valid() && head != null && newnode !in Repr
      modifies this, head, newnode
      ensures Valid() && head == old(head)
      ensures nodes == InsertAt(old(nodes), 1, newnode)
      ensures Values() == InsertAt(old(Values()), 1, newnode.value)
      ensures Repr == old(Repr) + {newnode}
    {
      newnode.next := head.next;
      head.next := newnode;
      nodes := InsertAt(nodes, 1, newnode);
      Repr := Repr + {newnode};
      ValuesOfInsert(old(nodes), 1, newnode);
    }

    /** `ll_add_at_tail`: walks to the last node and links the new node after
        it. */
    method AddAtTail(newnode: Node)
      requires Valid() && head != null && newnode !in Repr && newnode.next == null
      modifies this, Repr
      ensures Valid() && head == old(head)
      ensures nodes == old(nodes) + [newnode]
      ensures Values() == old(Values()) + [newnode.value]
      ensures Repr == old(Repr) + {newnode}
    {
      var ptr := head;
      ghost var k := 0;
      while ptr.next != null
        invariant 0 <= k < |nodes| && ptr == nodes[k]
        decreases |nodes| - k
      {
        ptr := ptr.next;
        k := k + 1;
      }
      ptr.next := newnode;
      nodes := nodes + [newnode];
      Repr := Repr + {newnode};
      ValuesOfAppend(old(nodes), newnode);
    }

    /** `ll_add_after_node`: links the new node right after `present`. */
    method AddAfterNode(present: Node, newnode: Node)
      requires Valid() && present in nodes && newnode !in Repr
      modifies this, present, newnode
      ensures Valid() && head == old(head)
      ensures nodes == InsertAt(old(nodes), FirstIndex(old(nodes), present) + 1, newnode)
      ensures Values() == InsertAt(old(Values()), FirstIndex(old(nodes), present) + 1, newnode.value)
      ensures Repr == old(Repr) + {newnode}
    {
      LinkAfter(present, newnode);
      ValuesOfInsert(old(nodes), FirstIndex(old(nodes), present) + 1, newnode);
    }

    /** The relinking of `ll_add_after_node`: the new node takes over the
        successor of `present` and becomes its successor. */
    method LinkAfter(present: Node, newnode: Node)
      requires Valid() && present in nodes && newnode !in Repr
      modifies this, present, newnode
      ensures Valid() && head == old(head)
      ensures nodes == InsertAt(old(nodes), FirstIndex(old(nodes), present) + 1, newnode)
      ensures Repr == old(Repr) + {newnode}
    {
      ghost var k := FirstIndex(nodes, present);
      ghost var was := nodes;
      assert was[k] == present;
      newnode.next := present.next;
      present.next := newnode;
      nodes := InsertAt(nodes, k + 1, newnode);
      Repr := Repr + {newnode};
      forall i | 0 <= i < |nodes| - 1 ensures nodes[i].next == nodes[i + 1] {
        if i < k {
          assert nodes[i] == was[i] && nodes[i + 1] == was[i + 1];
          assert was[i] != present && was[i] != newnode;
          assert old(was[i].next) == was[i + 1];
        } else if i > k + 1 {
          assert nodes[i] == was[i - 1] && nodes[i + 1] == was[i];
          assert was[i - 1] != present && was[i - 1] != newnode;
          assert old(was[i - 1].next) == was[i];
        } else if i == k + 1 {
          assert old(was[k].next) == was[k + 1];
        } else {
          assert nodes[i] == present && nodes[i + 1] == newnode;
        }
      }
      DistinctInsert(was, k + 1, newnode);
      forall i | 0 <= i < |nodes| ensures nodes[i] in Repr {
        assert nodes[i] == if i <= k then was[i] else if i == k + 1 then newnode else was[i - 1];
      }
      assert nodes[|nodes| - 1] == if k + 1 == |was| then newnode else was[|was| - 1];
    }

    /** `ll_dequeue_node`. A node of the list is unlinked (the head by moving
        the handle to its successor, any other by relinking its predecessor),
        its `next` is cleared and it is returned. A node that is not in the
        list gives NULL and changes nothing. */
    method Dequeue(a: Node) returns (r: Node?)
      requires Valid()
      modifies this, Repr
      ensures Valid()
      ensures a in old(nodes) ==>
        r == a && a.next == null &&
        nodes == RemoveAt(old(nodes), FirstIndex(old(nodes), a)) &&
        Values() == RemoveAt(old(Values()), FirstIndex(old(nodes), a)) &&
        Repr == old(Repr) - {a}
      ensures a !in old(nodes) ==> r == null && nodes == old(nodes) && Repr == old(Repr)
    {
      var ptr := head;
      if ptr != a {
        ptr := Predecessor(a);
        if ptr == null {
          return null;
        }
        UnlinkAfter(ptr, a);
      } else {
        UnlinkHead();
      }
      ValuesOfRemove(old(nodes), FirstIndex(old(nodes), a));
      return a;
    }

    /** The head case of `ll_dequeue_node`: the handle moves to the head's
        successor and the old head's `next` is cleared (the relinking of
        `ptr`, which is the head itself here, changes nothing). */
    method UnlinkHead()
      requires Valid() && head != null
      modifies this, head
      ensures Valid() && old(head).next == null
      ensures old(head) in old(nodes) && FirstIndex(old(nodes), old(head)) == 0
      ensures nodes == RemoveAt(old(nodes), 0) && Repr == old(Repr) - {old(head)}
    {
      var a := head;
      assert a as object != this;
      ghost var was := nodes;
      head := a.next;
      a.next := null;
      nodes := RemoveAt(was, 0);
      Repr := Repr - {a};
      DistinctRemove(was, 0);
      forall i | 0 <= i < |nodes| ensures nodes[i] in Repr {
        assert nodes[i] == was[i + 1];
      }
      forall i | 0 <= i < |nodes| - 1 ensures nodes[i].next == nodes[i + 1] {
        assert nodes[i] == was[i + 1] && nodes[i + 1] == was[i + 2];
        assert old(was[i + 1].next) == was[i + 2];
      }
      if nodes != [] {
        assert nodes[|nodes| - 1] == was[|was| - 1];
      }
    }

    /** The other case of `ll_dequeue_node`: the predecessor `ptr` of `a` is
        relinked to `a`'s successor and `a`'s `next` is cleared. */
    method UnlinkAfter(ptr: Node, a: Node)
      requires Valid() && a in nodes && FirstIndex(nodes, a) > 0 && ptr == nodes[FirstIndex(nodes, a) - 1]
      modifies ptr, a, this
      ensures Valid() && a.next == null && head == old(head)
      ensures nodes == RemoveAt(old(nodes), FirstIndex(old(nodes), a)) && Repr == old(Repr) - {a}
    {
      assert a as object != this && ptr as object != this;
      ghost var was := nodes;
      ghost var idx := FirstIndex(nodes, a);
      ptr.next := a.next;
      a.next := null;
      nodes := RemoveAt(was, idx);
      Repr := Repr - {a};
      DistinctRemove(was, idx);
      forall i | 0 <= i < |nodes| ensures nodes[i] in Repr {
        assert nodes[i] == if i < idx then was[i] else was[i + 1];
      }
      forall i | 0 <= i < |nodes| - 1 ensures nodes[i].next == nodes[i + 1] {
        if i < idx - 1 {
          assert nodes[i] == was[i] && nodes[i + 1] == was[i + 1];
          assert was[i] != ptr && was[i] != a;
          assert old(was[i].next) == was[i + 1];
        } else if i >= idx {
          assert nodes[i] == was[i + 1] && nodes[i + 1] == was[i + 2];
          assert was[i + 1] != ptr && was[i + 1] != a;
          assert old(was[i + 1].next) == was[i + 2];
        } else {
          assert old(was[idx].next) == was[idx + 1];
        }
      }
      if idx < |was| - 1 {
        assert nodes[|nodes| - 1] == was[|was| - 1];
      }
    }

    /** The walk of `ll_dequeue_node` for a node other than the head: the
        node whose successor is `a`, or NULL when no node is followed by it. */
    method Predecessor(a: Node) returns (ptr: Node?)
      requires Valid() && head != a
      ensures a in nodes ==> FirstIndex(nodes, a) > 0 && ptr == nodes[FirstIndex(nodes, a) - 1]
      ensures a !in nodes ==> ptr == null
    {
      ptr := head;
      ghost var k := 0;
      while ptr != null
        invariant ptr != null ==> k < |nodes| && ptr == nodes[k]
        invariant ptr == null ==> k == |nodes|
        invariant forall j :: 0 <= j <= k && j < |nodes| ==> nodes[j] != a
        decreases |nodes| - k
      {
        if ptr.next == a {
          break;
        }
        ptr := ptr.next;
        k := k + 1;
      }
      if ptr != null {
        assert nodes[k + 1] == a;
        assert FirstIndex(nodes, a) == k + 1;
      }
    }

    /** `ll_length`: the number of nodes after the head. */
    method Length() returns (count: nat)
      requires Valid() && head != null
      ensures count == |nodes| - 1
    {
      count := 0;
      var ptr := head.next;
      while ptr != null
        invariant ptr != null ==> count + 1 < |nodes| && ptr == nodes[count + 1]
        invariant ptr == null ==> count + 1 == |nodes|
        decreases |nodes| - count
      {
        ptr := ptr.next;
        count := count + 1;
      }
    }

    /** `ll_find`: the first node, head included, holding `value`, or NULL. */
    method Find(value: int) returns (r: Node?)
      requires Valid()
      ensures value in Values() ==> r == nodes[FirstIndex(Values(), value)]
      ensures value !in Values() ==> r == null
    {
      var ptr := head;
      ghost var k := 0;
      while ptr != null
        invariant ptr != null ==> k < |nodes| && ptr == nodes[k]
        invariant ptr == null ==> k == |nodes|
        invariant forall j :: 0 <= j < k ==> nodes[j].value != value
        decreases |nodes| - k
      {
        if ptr.value == value {
          break;
        }
        ptr := ptr.next;
        k := k + 1;
      }
      if ptr != null {
        assert FirstIndex(Values(), value) == k;
      } else {
        assert value !in Values();
      }
      r := ptr;
    }

    /** `ll_delete_linked_list`: repeatedly unlinks and releases the current
        head until the list is empty; every node it held ends unlinked. */
    method DeleteAll()
      requires Valid()
      modifies this, Repr
      ensures Valid() && head == null && nodes == []
      ensures forall j :: 0 <= j < |old(nodes)| ==> old(nodes)[j].next == null
    {
      ghost var orig := nodes;
      ghost var i := 0;
      var ptr := head;
      while ptr != null
        invariant Valid() && ptr == head
        invariant 0 <= i <= |orig| && nodes == orig[i..]
        invariant Repr <= old(Repr)
        invariant forall j :: 0 <= j < i ==> orig[j] !in Repr && orig[j].next == null
        invariant Distinct(orig)
        decreases |orig| - i
      {
        var tmp := ptr;
        ptr := ptr.next;
        DeleteHead(tmp);
        i := i + 1;
      }
    }

    /** One step of `ll_delete_linked_list`: the head `tmp` is dequeued and
        released, leaving the list of its successors. */
    method DeleteHead(tmp: Node)
      requires Valid() && tmp == head
      modifies this, Repr
      ensures Valid() && nodes == old(nodes)[1..] && head == old(tmp.next)
      ensures tmp !in Repr && tmp.next == null && Repr <= old(Repr)
    {
      assert FirstIndex(nodes, tmp) == 0;
      var removed := Dequeue(tmp);
      var deleted, ptr := DeleteNode(tmp);
      assert nodes == old(nodes)[1..];
    }
  }
}
