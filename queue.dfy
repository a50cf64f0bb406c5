/** The BFS frontier: a FIFO of page indices kept as a singly linked chain of
    nodes with `front` and `rear` pointers. */
module PageQueue {

  class QueueNode {
    const pageIndex: int
    var next: QueueNode?

    constructor (pageIndex: int)
      ensures this.pageIndex == pageIndex && next == null
    {
      this.pageIndex := pageIndex;
      next := null;
    }
  }

  class Queue {
    var front: QueueNode?
    var rear: QueueNode?
    /** The chain from `front` to `rear`, and the indices it holds. */
    ghost var nodes: seq<QueueNode>
    ghost var contents: seq<int>
    ghost var Repr: set<QueueNode>

    ghost predicate Valid()
      reads this, Repr
    {
      (forall i :: 0 <= i < |nodes| ==> nodes[i] in Repr) &&
      |contents| == |nodes| &&
      (forall i :: 0 <= i < |nodes| ==> nodes[i].pageIndex == contents[i]) &&
      (forall i :: 0 <= i < |nodes| - 1 ==> nodes[i] != rear) &&
      (forall i :: 0 < i < |nodes| ==> nodes[i - 1].next == nodes[i]) &&
      (front == null <==> rear == null) &&
      (nodes == [] ==> front == null) &&
      (nodes != [] ==> front == nodes[0] && rear == nodes[|nodes| - 1] && rear.next == null)
    }

    /** `createQueue`. */
    constructor ()
      ensures Valid() && fresh(Repr)
      ensures contents == [] && front == null && rear == null
    {
      front, rear := null, null;
      nodes, contents := [], [];
      Repr := {};
    }

    /** `enqueue`: a new node is linked after `rear`. */
    method Enqueue(pageIndex: int)
      requires Valid()
      modifies this, Repr
      ensures Valid() && fresh(Repr - old(Repr))
      ensures contents == old(contents) + [pageIndex]
      ensures front != null && rear != null
    {
      var node := new QueueNode(pageIndex);
      if rear != null {
        rear.next := node;
      }
      rear := node;
      if front == null {
        front := node;
      }
      nodes, contents := nodes + [node], contents + [pageIndex];
      Repr := Repr + {node};
    }

    /** `dequeue`: unlinks and returns the head, or returns -1 on an empty queue. */
    method Dequeue() returns (pageIndex: int)
      requires Valid()
      modifies this
      ensures Valid() && Repr == old(Repr)
      ensures old(contents) == [] ==> pageIndex == -1 && contents == []
      ensures old(contents) != [] ==> pageIndex == old(contents)[0] && contents == old(contents)[1..]
    {
      if front == null {
        return -1;
      }
      var temp := front;
      pageIndex := temp.pageIndex;
      front := front.next;
      if front == null {
        rear := null;
      }
      nodes, contents := nodes[1..], contents[1..];
    }
  }
}
