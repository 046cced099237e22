/**
 * linkedQueue<int> of Queue/LinkedQueue/LinkedQueue.hpp: a chain of heap
 * nodes behind a front sentinel, with rear pointing at the last node (the
 * sentinel itself when the queue is empty). The ghost sequence nodes lists
 * the chain from the sentinel to rear, and elems the data after the
 * sentinel, head first.
 */
module LinkedQueue {

  class Node {
    var data: int
    var next: Node?

    constructor (d: int)
      ensures data == d && next == null
    {
      data := d;
      next := null;
    }
  }

  class LinkedQueue {
    var front: Node
    var rear: Node
    ghost var nodes: seq<Node>
    ghost var elems: seq<int>
    ghost var Repr: set<Node>

    /**
     * The chain runs from the front sentinel through nodes to rear, whose
     * next is null; each node appears once; the data after the sentinel is
     * elems.
     */
    ghost predicate Valid()
      reads this, Repr
    {
      |nodes| == |elems| + 1 && nodes[0] == front && nodes[|elems|] == rear &&
      (forall i | 0 <= i < |nodes| :: nodes[i] in Repr) &&
      (forall i | 0 <= i < |elems| :: nodes[i].next == nodes[i + 1]) &&
      rear.next == null &&
      (forall i | 0 <= i < |elems| :: nodes[i + 1].data == elems[i]) &&
      (forall i, j | 0 <= i < j < |nodes| :: nodes[i] != nodes[j])
    }

    /** linkedQueue(): a sentinel with no successor, which is also rear. */
    constructor ()
      ensures Valid() && fresh(Repr) && elems == []
      ensures front == rear
    {
      front := new Node(0);
      rear := front;
      nodes := [front];
      elems := [];
      Repr := {front};
    }

    /** isEmpty(): front == rear, which holds exactly when no element is queued. */
    method IsEmpty() returns (b: bool)
      requires Valid()
      ensures b <==> elems == []
      ensures b <==> front == rear
    {
      return front == rear;
    }

    /** enQueue(e): a fresh node holding e is linked after rear and becomes rear. */
    method EnQueue(e: int)
      requires Valid()
      modifies this, rear
      ensures Valid() && elems == old(elems) + [e]
      ensures front == old(front) && fresh(rear)
      ensures Repr == old(Repr) + {rear}
    {
      var q := new Node(e);
      rear.next := q;
      rear := q;
      nodes := nodes + [q];
      elems := elems + [e];
      Repr := Repr + {q};
    }

    /**
     * deQueue(e): false when empty; otherwise the head's data, with its node
     * unlinked from the sentinel, and rear reset to the sentinel when that
     * node was the last.
     */
    method DeQueue(e: int) returns (ok: bool, value: int)
      requires Valid()
      modifies this, front
      ensures Valid() && front == old(front)
      ensures ok <==> old(elems) != []
      ensures ok ==> value == old(elems)[0] && elems == old(elems)[1..]
      ensures !ok ==> value == e && elems == old(elems)
      ensures Repr <= old(Repr)
      ensures elems == [] <==> rear == front
    {
      var isEmpty := IsEmpty();
      if isEmpty {
        return false, e;
      }
      assert front.next == nodes[1];
      var work := front.next;
      value := work.data;
      ghost var ns := nodes;
      assert work.next == if |elems| == 1 then null else ns[2];
      front.next := work.next;
      if work == rear {
        rear := front;
      }
      nodes := [front] + ns[2..];
      assert forall i | 1 <= i < |nodes| :: nodes[i] == ns[i + 1];
      elems := elems[1..];
      Repr := Repr - {work};
      return true, value;
    }
  }

  /**
   * The unit test's integer run: a new queue is empty; after enqueuing 1..5
   * it is not; five dequeues give 1..5 in order and leave it empty; a sixth
   * dequeue fails.
   */
  method FifoExample() returns (startsEmpty: bool, emptyWhenFilled: bool, out: seq<int>, endsEmpty: bool, sixth: bool)
    ensures startsEmpty && !emptyWhenFilled && out == [1, 2, 3, 4, 5] && endsEmpty && !sixth
  {
    var q := new LinkedQueue();
    startsEmpty := q.IsEmpty();
    var i := 1;
    while i <= 5
      invariant 1 <= i <= 6 && q.Valid() && fresh(q.Repr)
      invariant q.elems == seq(i - 1, k => k + 1)
    {
      q.EnQueue(i);
      i := i + 1;
    }
    emptyWhenFilled := q.IsEmpty();
    out := [];
    while i > 1
      invariant 1 <= i <= 6 && q.Valid() && fresh(q.Repr)
      invariant q.elems == seq(i - 1, k => 7 - i + k)
      invariant out == seq(6 - i, k => k + 1)
    {
      var ok, v := q.DeQueue(0);
      out := out + [v];
      i := i - 1;
    }
    endsEmpty := q.IsEmpty();
    var v;
    sixth, v := q.DeQueue(0);
  }
}
