/** lib/linked_list.c: a first-in first-out list of heap nodes. Every operation holds the list's mutex
    from its first to its last access, so each is one step to the other threads. */
module LinkedLists {
  import opened Text

  class Node<T> {
    var data: T
    var next: Node?<T>

    constructor (data: T)
      ensures this.data == data && next == null
    {
      this.data := data;
      next := null;
    }
  }

  class LinkedList<T> {
    var start: Node?<T>
    var end: Node?<T>
    ghost var nodes: seq<Node<T>>
    ghost var contents: seq<T>
    ghost var repr: set<object>

    /** The nodes are distinct and linked in order, `start` and `end` are the first and the last of
        them, and they hold the contents. */
    ghost predicate Valid()
      reads this, repr
      ensures Valid() ==> this in repr
    {
      && this in repr && (forall i | 0 <= i < |nodes| :: nodes[i] in repr)
      && (start == null <==> nodes == []) && (end == null <==> nodes == [])
      && (nodes != [] ==> start == nodes[0] && end == nodes[|nodes| - 1] && end.next == null)
      && (forall i {:trigger nodes[i].next} | 0 <= i < |nodes| - 1 :: nodes[i].next == nodes[i + 1])
      && (forall i, j | 0 <= i < j < |nodes| :: nodes[i] != nodes[j])
      && |contents| == |nodes| && (forall i | 0 <= i < |nodes| :: contents[i] == nodes[i].data)
    }

    constructor ()
      ensures Valid() && fresh(repr) && contents == []
    {
      start, end := null, null;
      nodes, contents := [], [];
      repr := {this};
    }

    method Len() returns (len: nat)
      requires Valid()
      ensures len == |contents|
    {
      len := 0;
      var node := start;
      while node != null
        invariant 0 <= len <= |nodes|
        invariant node == if len < |nodes| then nodes[len] else null
        decreases |nodes| - len
      {
        node := node.next;
        len := len + 1;
      }
    }

    method PushBack(data: T)
      requires Valid()
      modifies repr
      ensures Valid() && fresh(repr - old(repr)) && contents == old(contents) + [data]
    {
      var node := new Node(data);
      if start == null || end == null {
        start, end := node, node;
      } else {
        end.next := node;
        end := node;
      }
      nodes, contents := nodes + [node], contents + [data];
      repr := repr + {node};
      assert forall i | 0 <= i < |nodes| - 1 :: nodes[i] == old(nodes)[i];
    }

    /** The first datum, or nothing when the list is empty. */
    method PopFront() returns (data: Option<T>)
      requires Valid()
      modifies this
      ensures Valid() && repr == old(repr)
      ensures match data
              case None => old(contents) == [] && contents == []
              case Some(d) => [d] + contents == old(contents)
    {
      data := None;
      if start == null || end == null {
        return;
      }
      var node := start;
      data := Some(node.data);
      if start == end {
        end := null;
      }
      start := start.next;
      nodes, contents := nodes[1..], contents[1..];
    }

    /** Frees every datum, in order, and leaves the list empty. */
    method Destroy() returns (freed: seq<T>)
      requires Valid()
      modifies this
      ensures Valid() && repr == old(repr) && contents == [] && freed == old(contents)
    {
      freed := [];
      var node := start;
      while node != null
        invariant 0 <= |freed| <= |nodes|
        invariant node == if |freed| < |nodes| then nodes[|freed|] else null
        invariant freed == contents[..|freed|]
        decreases |nodes| - |freed|
      {
        var next := node.next;
        freed := freed + [node.data];
        node := next;
      }
      start, end := null, null;
      nodes, contents := [], [];
    }
  }
}
