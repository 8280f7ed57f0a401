/** The doubly linked list: pointers refine a sequence. */
module LinkedLists {
  import opened Base

  class Node<T> {
    var item: T
    var next: Node?<T>
    var prev: Node?<T>

    constructor (item: T, next: Node?<T>, prev: Node?<T>)
      ensures this.item == item && this.next == next && this.prev == prev
    {
      this.item, this.next, this.prev := item, next, prev;
    }
  }

  /** The node at place i, which is none at the end and before the start. */
  ghost function At<T>(nodes: seq<Node<T>>, i: int): Node?<T> {
    if 0 <= i < |nodes| then nodes[i] else null
  }

  /** Both directions of every link. */
  ghost predicate Linked<T>(nodes: seq<Node<T>>)
    reads nodes`next, nodes`prev
  {
    && (forall i {:trigger nodes[i].next} :: 0 <= i < |nodes| ==> nodes[i].next == At(nodes, i + 1))
    && (forall i {:trigger nodes[i].prev} :: 0 <= i < |nodes| ==> nodes[i].prev == At(nodes, i - 1))
  }

  /** Links that pass over the node at place k. */
  ghost predicate LinkedPast<T>(nodes: seq<Node<T>>, k: nat)
    requires k < |nodes|
    reads nodes`next, nodes`prev
  {
    && (forall i {:trigger nodes[i].next} :: 0 <= i < |nodes| && i != k ==>
          nodes[i].next == At(nodes, if i == k - 1 then k + 1 else i + 1))
    && (forall i {:trigger nodes[i].prev} :: 0 <= i < |nodes| && i != k ==>
          nodes[i].prev == At(nodes, if i == k + 1 then k - 1 else i - 1))
  }

  /** Without that node, they are the links. */
  lemma LinkedWithout<T>(nodes: seq<Node<T>>, k: nat, rest: seq<Node<T>>)
    requires k < |nodes| && LinkedPast(nodes, k) && rest == nodes[..k] + nodes[k + 1..]
    ensures Linked(rest)
  {
    forall i | 0 <= i < |rest| ensures rest[i].next == At(rest, i + 1) && rest[i].prev == At(rest, i - 1) {
      var j := if i < k then i else i + 1;
      assert rest[i] == nodes[j];
    }
  }

  ghost predicate Holds<T>(nodes: seq<Node<T>>, contents: seq<T>)
    reads nodes`item
  {
    |nodes| == |contents| && forall i :: 0 <= i < |nodes| ==> nodes[i].item == contents[i]
  }

  /** Leaving out one node keeps the others apart, with their elements. */
  lemma RestHolds<T>(nodes: seq<Node<T>>, contents: seq<T>, k: nat, rest: seq<Node<T>>)
    requires Distinct(nodes) && Holds(nodes, contents) && k < |nodes| && rest == nodes[..k] + nodes[k + 1..]
    ensures Distinct(rest) && Holds(rest, contents[..k] + contents[k + 1..])
    ensures At(rest, 0) == At(nodes, if k == 0 then 1 else 0)
    ensures At(rest, |rest| - 1) == At(nodes, if k == |nodes| - 1 then k - 1 else |nodes| - 1)
  {
  }

  /** So does putting one in. */
  lemma MoreHolds<T>(nodes: seq<Node<T>>, contents: seq<T>, k: nat, node: Node<T>, more: seq<Node<T>>)
    requires Distinct(nodes) && Holds(nodes, contents) && k <= |nodes| && node !in nodes
    requires more == nodes[..k] + [node] + nodes[k..]
    ensures Distinct(more) && Holds(more, contents[..k] + [node.item] + contents[k..])
  {
  }

  /** Links that go by way of a node that is not yet among the others. */
  ghost predicate LinkedVia<T>(nodes: seq<Node<T>>, k: nat, node: Node<T>)
    requires 0 < k < |nodes|
    reads nodes`next, nodes`prev, node`next, node`prev
  {
    && node.next == nodes[k] && node.prev == nodes[k - 1]
    && (forall i {:trigger nodes[i].next} :: 0 <= i < |nodes| ==>
          nodes[i].next == if i == k - 1 then node else At(nodes, i + 1))
    && (forall i {:trigger nodes[i].prev} :: 0 <= i < |nodes| ==>
          nodes[i].prev == if i == k then node else At(nodes, i - 1))
  }

  lemma LinkedWith<T>(nodes: seq<Node<T>>, k: nat, node: Node<T>, more: seq<Node<T>>)
    requires 0 < k < |nodes| && LinkedVia(nodes, k, node) && more == nodes[..k] + [node] + nodes[k..]
    ensures Linked(more)
  {
    forall i | 0 <= i < |more| ensures more[i].next == At(more, i + 1) && more[i].prev == At(more, i - 1) {
      if i != k {
        assert more[i] == nodes[if i < k then i else i - 1];
      }
    }
  }

  function Reverse<T>(s: seq<T>): (r: seq<T>)
    ensures |r| == |s| && forall i :: 0 <= i < |s| ==> r[i] == s[|s| - 1 - i]
  {
    if s == [] then [] else Reverse(s[1..]) + [s[0]]
  }

  /** The sequence without the first occurrence of an element. */
  function WithoutFirst<T(==)>(s: seq<T>, x: T): seq<T> {
    if x in s then s[..Position(s, x)] + s[Position(s, x) + 1..] else s
  }

  class List<T(==)> {
    var first: Node?<T>
    var last: Node?<T>
    ghost var nodes: seq<Node<T>>
    ghost var contents: seq<T>

    ghost predicate Valid()
      reads this, nodes
    {
      && Distinct(nodes) && Linked(nodes) && Holds(nodes, contents)
      && first == At(nodes, 0) && last == At(nodes, |nodes| - 1)
    }

    constructor ()
      ensures Valid() && contents == [] && nodes == []
    {
      first, last, nodes, contents := null, null, [], [];
    }

    method PushFront(data: T)
      requires Valid()
      modifies this, nodes`prev
      ensures Valid() && contents == [data] + old(contents)
      ensures |nodes| == |contents| && nodes[1..] == old(nodes) && fresh(nodes[0])
    {
      var newNode := new Node(data, first, null);
      if newNode.next != null {
        newNode.next.prev := newNode;
      } else {
        last := newNode;
      }
      first := newNode;
      nodes := [newNode] + nodes;
      contents := [data] + contents;
    }

    method PushBack(data: T)
      requires Valid()
      modifies this, nodes`next
      ensures Valid() && contents == old(contents) + [data]
      ensures |nodes| == |contents| && nodes[..|old(nodes)|] == old(nodes) && fresh(last)
    {
      var newNode := new Node(data, null, last);
      if newNode.prev != null {
        newNode.prev.next := newNode;
      } else {
        first := newNode;
      }
      last := newNode;
      nodes := nodes + [newNode];
      contents := contents + [data];
    }

    method PopFront()
      requires Valid() && contents != []
      modifies this, nodes`prev
      ensures Valid() && contents == old(contents)[1..] && nodes == old(nodes)[1..]
    {
      first := first.next;
      if first != null {
        first.prev := null;
      } else {
        last := null;
      }
      nodes := nodes[1..];
      contents := contents[1..];
    }

    method PopBack()
      requires Valid() && contents != []
      modifies this, nodes`next
      ensures Valid() && contents == old(contents)[..|old(contents)| - 1] && nodes == old(nodes)[..|old(nodes)| - 1]
    {
      last := last.prev;
      if last != null {
        last.next := null;
      } else {
        first := null;
      }
      nodes := nodes[..|nodes| - 1];
      contents := contents[..|contents| - 1];
    }

    /** Inserts before a position; k is the position's place. Positions of other elements stay good. */
    method Insert(pos: Node?<T>, data: T, ghost k: nat) returns (it: Node<T>)
      requires Valid() && k <= |nodes| && pos == At(nodes, k)
      modifies this, nodes`next, nodes`prev
      ensures Valid() && contents == old(contents)[..k] + [data] + old(contents)[k..]
      ensures nodes == old(nodes)[..k] + [it] + old(nodes)[k..] && fresh(it)
    {
      if pos == null {
        PushBack(data);
        return last;
      }
      if pos.prev == null {
        assert k == 0;
        PushFront(data);
        return first;
      }
      it := Link(pos, data, k);
    }

    /** Puts a new node between a node and the one before it. */
    method Link(pos: Node<T>, data: T, ghost k: nat) returns (newNode: Node<T>)
      requires Valid() && 0 < k < |nodes| && pos == nodes[k]
      modifies this`nodes, this`contents, nodes`next, nodes`prev
      ensures Valid() && contents == old(contents)[..k] + [data] + old(contents)[k..]
      ensures nodes == old(nodes)[..k] + [newNode] + old(nodes)[k..] && fresh(newNode)
    {
      newNode := new Node(data, pos, pos.prev);
      newNode.next.prev := newNode;
      newNode.prev.next := newNode;
      assert forall n :: n in nodes ==> n != newNode;
      assert LinkedVia(nodes, k, newNode);
      ghost var more := nodes[..k] + [newNode] + nodes[k..];
      LinkedWith(nodes, k, newNode, more);
      MoreHolds(nodes, contents, k, newNode, more);
      hide Linked, LinkedVia, Distinct, Holds;
      nodes := more;
      contents := contents[..k] + [data] + contents[k..];
    }

    /** Erases the element at a position and returns the position after it. */
    method Erase(pos: Node<T>, ghost k: nat) returns (it: Node?<T>)
      requires Valid() && k < |nodes| && pos == nodes[k]
      modifies this, nodes`next, nodes`prev
      ensures Valid() && contents == old(contents)[..k] + old(contents)[k + 1..]
      ensures nodes == old(nodes)[..k] + old(nodes)[k + 1..] && it == At(nodes, k)
    {
      if pos.prev == null {
        PopFront();
        return first;
      }
      if pos.next == null {
        PopBack();
        return null;
      }
      it := pos.next;
      Unlink(pos, k);
    }

    /** Joins the neighbours of a node that has two. */
    method Unlink(pos: Node<T>, ghost k: nat)
      requires Valid() && 0 < k < |nodes| - 1 && pos == nodes[k]
      modifies this`nodes, this`contents, nodes`next, nodes`prev
      ensures Valid() && contents == old(contents)[..k] + old(contents)[k + 1..]
      ensures nodes == old(nodes)[..k] + old(nodes)[k + 1..]
    {
      pos.prev.next := pos.next;
      pos.next.prev := pos.prev;
      ghost var rest := nodes[..k] + nodes[k + 1..];
      LinkedWithout(nodes, k, rest);
      RestHolds(nodes, contents, k, rest);
      hide Linked, Distinct, Holds;
      nodes := rest;
      contents := contents[..k] + contents[k + 1..];
    }

    /** Makes the links pass over a node, given the one before it if any. */
    method PassOver(node: Node<T>, lastNode: Node?<T>, ghost k: nat)
      requires Valid() && k < |nodes| && node == nodes[k] && lastNode == At(nodes, k - 1)
      modifies this`first, this`last, nodes`next, nodes`prev
      ensures LinkedPast(nodes, k)
      ensures first == At(nodes, if k == 0 then 1 else 0)
      ensures last == At(nodes, if k == |nodes| - 1 then k - 1 else |nodes| - 1)
    {
      hide Holds;
      var next := node.next;
      assert next == At(nodes, k + 1);
      if lastNode == null {
        first := next;
      } else {
        lastNode.next := next;
      }
      if next != null {
        next.prev := lastNode;
      }
      if last == node {
        last := lastNode;
      }
    }

    /** Takes out a node, given the one before it if any. */
    method Drop(node: Node<T>, lastNode: Node?<T>, ghost k: nat)
      requires Valid() && k < |nodes| && node == nodes[k] && lastNode == At(nodes, k - 1)
      modifies this, nodes`next, nodes`prev
      ensures Valid() && contents == old(contents)[..k] + old(contents)[k + 1..]
    {
      assert |nodes| == |contents|;
      hide Linked, LinkedPast, Distinct, Holds;
      ghost var rest := nodes[..k] + nodes[k + 1..];
      RestHolds(nodes, contents, k, rest);
      PassOver(node, lastNode, k);
      LinkedWithout(nodes, k, rest);
      nodes := rest;
      contents := contents[..k] + contents[k + 1..];
    }

    /** Removes the first occurrence of an element, if there is one. */
    method Remove(data: T)
      requires Valid()
      modifies this, nodes`next, nodes`prev
      ensures Valid() && contents == WithoutFirst(old(contents), data)
    {
      var lastNode, node: Node?<T> := null, first;
      ghost var k: nat := 0;
      while node != null
        invariant 0 <= k <= |nodes| && node == At(nodes, k) && lastNode == At(nodes, k - 1)
        invariant data !in contents[..k] && Valid() && nodes == old(nodes) && contents == old(contents)
        decreases |nodes| - k
      {
        if node.item == data {
          FirstOccurrence(contents, data, k);
          Drop(node, lastNode, k);
          return;
        }
        lastNode := node;
        node := node.next;
        k := k + 1;
      }
      assert contents[..k] == contents;
    }

    static lemma {:induction false} FirstOccurrence(s: seq<T>, x: T, k: nat)
      requires k < |s| && s[k] == x && x !in s[..k]
      ensures x in s && Position(s, x) == k
    {
      if k > 0 {
        assert s[0] == s[..k][0];
        assert s[1..][..k - 1] == s[..k][1..];
        FirstOccurrence(s[1..], x, k - 1);
      }
    }

    method Clear()
      requires Valid()
      modifies this
      ensures Valid() && contents == [] && nodes == []
    {
      var traverse := first;
      ghost var k: nat := 0;
      while traverse != null
        invariant k <= |nodes| && traverse == At(nodes, k) && Valid() && nodes == old(nodes)
        decreases |nodes| - k
      {
        traverse := traverse.next;
        k := k + 1;
      }
      first, last := null, null;
      nodes, contents := [], [];
    }

    method Size() returns (len: nat)
      requires Valid()
      ensures len == |contents|
    {
      len := 0;
      var it := first;
      while it != null
        invariant len <= |nodes| && it == At(nodes, len)
        decreases |nodes| - len
      {
        it := it.next;
        len := len + 1;
      }
    }

    /** Going forward from the start visits the elements in order. */
    method Forward() returns (s: seq<T>)
      requires Valid()
      ensures s == contents
    {
      s := [];
      var it := first;
      while it != null
        invariant |s| <= |nodes| && it == At(nodes, |s|) && s == contents[..|s|]
        decreases |nodes| - |s|
      {
        s := s + [it.item];
        it := it.next;
      }
    }

    /** Going backward from the end visits them in reverse. */
    method Backward() returns (s: seq<T>)
      requires Valid()
      ensures s == Reverse(contents)
    {
      s := [];
      var it := last;
      while it != null
        invariant |s| <= |nodes| && it == At(nodes, |nodes| - 1 - |s|) && s == Reverse(contents)[..|s|]
        decreases |nodes| - |s|
      {
        s := s + [it.item];
        it := it.prev;
      }
    }
  }
}
