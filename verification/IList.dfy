/** The singly linked list of ilist.hpp. */
module IList {
  class Node<T> {
    var data: T
    var next: Node?<T>

    constructor (data: T)
      ensures this.data == data && next == null
    {
      this.data := data;
      next := null;
    }
  }

  class List<T> {
    var head: Node?<T>
    var tail: Node?<T>
    var size: nat
    ghost var nodes: seq<Node<T>>

    ghost predicate Valid()
      reads this, nodes
    {
      && size == |nodes|
      && head == NodeAt(0) && tail == NodeAt(|nodes| - 1)
      && (forall i, j :: 0 <= i < j < |nodes| ==> nodes[i] != nodes[j])
      && (forall i :: 0 <= i < |nodes| ==> nodes[i].next == NodeAt(i + 1))
    }

    ghost function NodeAt(i: int): Node?<T>
      reads this
    {
      if 0 <= i < |nodes| then nodes[i] else null
    }

    ghost function Contents(): (s: seq<T>)
      reads this, nodes
      ensures |s| == |nodes| && forall i :: 0 <= i < |s| ==> s[i] == nodes[i].data
    {
      seq(|nodes|, i requires 0 <= i < |nodes| reads this, nodes => nodes[i].data)
    }

    constructor ()
      ensures Valid() && Contents() == []
    {
      head, tail, size := null, null, 0;
      nodes := [];
    }

    method PushBack(x: T) returns (ghost node: Node<T>)
      requires Valid()
      modifies this, nodes
      ensures Valid() && Contents() == old(Contents()) + [x]
      ensures fresh(node) && nodes == old(nodes) + [node]
    {
      hide Valid, NodeAt;
      var newNode := new Node(x);
      node := newNode;
      Link(newNode);
      assert forall i :: 0 <= i < |nodes| - 1 ==> Contents()[i] == old(Contents())[i];
    }

    /** Puts a node at the end of the list. */
    method Link(newNode: Node<T>)
      requires Valid() && newNode !in nodes && newNode.next == null
      modifies this, nodes
      ensures Valid() && nodes == old(nodes) + [newNode]
      ensures forall n :: n in nodes ==> n.data == old(n.data)
    {
      hide Contents;
      if tail == null {
        head := newNode;
      } else {
        tail.next := newNode;
      }
      tail := newNode;
      size := size + 1;
      nodes := nodes + [newNode];
      assert forall i :: 0 <= i < |nodes| - 1 ==> nodes[i] == old(nodes)[i];
    }

    /** Unlinks every node, from the front. */
    method Clear()
      requires Valid()
      modifies this
      ensures Valid() && Contents() == [] && nodes == []
    {
      ghost var i := 0;
      while head != null
        invariant 0 <= i <= |nodes| && head == NodeAt(i) && nodes == old(nodes)
        invariant forall k :: 0 <= k < |nodes| ==> nodes[k].next == NodeAt(k + 1)
        decreases |nodes| - i
      {
        head := head.next;
        i := i + 1;
      }
      head, tail, size := null, null, 0;
      nodes := [];
    }
  }
}
