/**
 * SeqQueue<int> of Queue/SeqQueue/SeqQueue.hpp: a circular queue in an
 * array of maxLen slots. front is the slot of the head, rear the slot the
 * next element goes into, both advanced modulo maxLen; one slot always
 * stays free, so the queue holds at most maxLen-1 elements and is empty
 * exactly when front == rear. The ghost sequence elems is the queue, head
 * first; Valid() ties it to the slots from front on.
 */
module SeqQueue {
  import opened Errors

  /** The message of the invalid_argument thrown by the constructor. */
  const SizeNotPositive := "Queue size must be positive"

  /** The slot i places after slot f on a ring of m slots. */
  function Slot(f: int, i: int, m: int): (s: int)
    requires 0 <= f < m && 0 <= i < m
    ensures 0 <= s < m
    ensures s == (f + i) % m
  {
    ModStep(f + i, m);
    if f + i < m then f + i else f + i - m
  }

  /** The number of slots from f on up to r on a ring of m slots: what len() computes. */
  function RingDistance(f: int, r: int, m: int): (d: int)
    requires 0 <= f < m && 0 <= r < m
    ensures 0 <= d < m
    ensures d == 0 <==> f == r
    ensures Slot(f, d, m) == r
    ensures d == (r - f + m) % m
  {
    ModStep(r - f + m, m);
    if r >= f then r - f else r - f + m
  }

  /** Reducing a value below 2m modulo m takes off at most one m. */
  lemma ModStep(x: int, m: int)
    requires 0 <= x < 2 * m
    ensures x % m == if x < m then x else x - m
  {
    if x < m {
      ModBelow(x, m);
    } else {
      ModWrap(x, m);
    }
  }

  lemma ModBelow(x: int, m: int)
    requires 0 <= x < m
    ensures x % m == x
  {
  }

  lemma ModWrap(x: int, m: int)
    requires 0 < m <= x < 2 * m
    ensures x % m == x - m
  {
  }

  /** The ring is full exactly when the slot after rear is front, i.e. when the distance is m-1. */
  lemma FullIffDistance(f: int, r: int, m: int)
    requires 0 <= f < m && 0 <= r < m
    ensures (r + 1) % m == f <==> RingDistance(f, r, m) == m - 1
  {
    ModStep(r + 1, m);
  }

  class SeqQueue {
    var data: array<int>
    var maxLen: int
    var front: int
    var rear: int
    ghost var elems: seq<int>

    /** front and rear lie in [0, maxLen), and elems is what the slots from front up to rear hold. */
    ghost predicate Valid()
      reads this, data
    {
      0 < maxLen == data.Length && 0 <= front < maxLen && 0 <= rear < maxLen &&
      |elems| == RingDistance(front, rear, maxLen) &&
      forall i | 0 <= i < |elems| :: elems[i] == data[Slot(front, i, maxLen)]
    }

    /** SeqQueue(len) for len > 0: an empty queue over len slots. */
    constructor (len: int)
      requires len > 0
      ensures Valid() && fresh(data) && maxLen == len && elems == []
    {
      maxLen := len;
      front, rear := 0, 0;
      data := new int[len];
      elems := [];
    }

    /** SeqQueue(len): invalid_argument for len <= 0, otherwise the empty queue above. */
    static method Create(len: int) returns (r: Result<SeqQueue>)
      ensures len <= 0 <==> r.Err?
      ensures r.Err? ==> r.error == InvalidArgument(SizeNotPositive)
      ensures r.Ok? ==> fresh(r.value) && fresh(r.value.data) && r.value.Valid()
      ensures r.Ok? ==> r.value.maxLen == len && r.value.elems == []
    {
      if len <= 0 {
        return Err(InvalidArgument(SizeNotPositive));
      }
      var q := new SeqQueue(len);
      return Ok(q);
    }

    /** The copy constructor: the same front, rear and capacity, with the live slots copied into a fresh array. */
    constructor Copy(other: SeqQueue)
      requires other.Valid()
      ensures Valid() && fresh(data) && maxLen == other.maxLen && elems == other.elems
      ensures front == other.front && rear == other.rear
    {
      maxLen, front, rear := other.maxLen, other.front, other.rear;
      var a := new int[other.maxLen];
      var count := RingDistance(other.front, other.rear, other.maxLen);
      for i := 0 to count
        invariant forall k | 0 <= k < i :: a[Slot(other.front, k, other.maxLen)] == other.elems[k]
      {
        var pos := (other.front + i) % other.maxLen;
        assert pos == Slot(other.front, i, other.maxLen);
        a[pos] := other.data[pos];
        SlotsDiffer(other.front, i, other.maxLen, count);
      }
      data := a;
      elems := other.elems;
    }

    /** operator=: the other queue's front, rear and capacity, and its live slots in a fresh array (nothing changes on self-assignment). */
    method Assign(other: SeqQueue)
      requires Valid() && other.Valid()
      modifies this
      ensures Valid() && maxLen == old(other.maxLen) && elems == old(other.elems)
      ensures front == old(other.front) && rear == old(other.rear)
      ensures this != other ==> fresh(data)
    {
      if this != other {
        var a := new int[other.maxLen];
        var count := RingDistance(other.front, other.rear, other.maxLen);
        for i := 0 to count
          invariant forall k | 0 <= k < i :: a[Slot(other.front, k, other.maxLen)] == other.elems[k]
        {
          var pos := (other.front + i) % other.maxLen;
          assert pos == Slot(other.front, i, other.maxLen);
          a[pos] := other.data[pos];
          SlotsDiffer(other.front, i, other.maxLen, count);
        }
        data := a;
        maxLen, front, rear := other.maxLen, other.front, other.rear;
        elems := other.elems;
      }
    }

    /** empty(): front == rear. */
    method Empty() returns (b: bool)
      requires Valid()
      ensures b <==> elems == []
    {
      return front == rear;
    }

    /** len(): (rear - front + maxLen) % maxLen, which never exceeds maxLen-1. */
    method Len() returns (n: int)
      requires Valid()
      ensures n == |elems| && 0 <= n <= maxLen - 1
    {
      return (rear - front + maxLen) % maxLen;
    }

    /** enQueue(e): false when the slot after rear is front (maxLen-1 elements); otherwise e joins at the back. */
    method EnQueue(e: int) returns (ok: bool)
      requires Valid()
      modifies this`rear, this`elems, data
      ensures Valid() && data == old(data)
      ensures ok <==> |old(elems)| < maxLen - 1
      ensures elems == if ok then old(elems) + [e] else old(elems)
    {
      FullIffDistance(front, rear, maxLen);
      if (rear + 1) % maxLen == front {
        return false;
      }
      ghost var n := |elems|;
      SlotsDiffer(front, n, maxLen, n + 1);
      data[rear] := e;
      ghost var r := rear;
      rear := (rear + 1) % maxLen;
      elems := elems + [e];
      AdvanceDistance(front, r, maxLen);
      return true;
    }

    /** deQueue(e): false when empty; otherwise the head, which leaves the queue. */
    method DeQueue(e: int) returns (ok: bool, value: int)
      requires Valid()
      modifies this`front, this`elems
      ensures Valid()
      ensures ok <==> old(elems) != []
      ensures ok ==> value == old(elems)[0] && elems == old(elems)[1..]
      ensures !ok ==> value == e && elems == old(elems)
    {
      var isEmpty := Empty();
      if isEmpty {
        return false, e;
      }
      assert Slot(front, 0, maxLen) == front;
      value := data[front];
      ghost var f := front;
      front := (front + 1) % maxLen;
      elems := elems[1..];
      DropDistance(f, rear, maxLen);
      forall i | 0 <= i < |elems|
        ensures elems[i] == data[Slot(front, i, maxLen)]
      {
        SlotShift(f, i, maxLen);
      }
      return true, value;
    }

    /** getFront(e): false when empty; otherwise the head, which stays. */
    method GetFront(e: int) returns (ok: bool, value: int)
      requires Valid()
      ensures ok <==> elems != []
      ensures value == if ok then elems[0] else e
    {
      var isEmpty := Empty();
      if isEmpty {
        return false, e;
      }
      assert Slot(front, 0, maxLen) == front;
      return true, data[front];
    }

    /** capacity(): maxLen - 1, as one slot always stays free. */
    method Capacity() returns (n: int)
      requires Valid()
      ensures n == maxLen - 1
      ensures |elems| <= n
    {
      return maxLen - 1;
    }
  }

  /** The first d slots from f on a ring of m >= d slots are pairwise different. */
  lemma SlotsDiffer(f: int, i: int, m: int, d: int)
    requires 0 <= f < m && 0 <= i < d <= m
    ensures forall k | 0 <= k < d && k != i :: Slot(f, k, m) != Slot(f, i, m)
  {
  }

  /** Slot i+1 from f is slot i from the slot after f. */
  lemma SlotShift(f: int, i: int, m: int)
    requires 0 <= f < m && 0 <= i < m - 1
    ensures Slot(f, i + 1, m) == Slot((f + 1) % m, i, m)
  {
    ModStep(f + 1, m);
  }

  /** Advancing rear by one slot adds one to the distance from front. */
  lemma AdvanceDistance(f: int, r: int, m: int)
    requires 0 <= f < m && 0 <= r < m && RingDistance(f, r, m) < m - 1
    ensures RingDistance(f, (r + 1) % m, m) == RingDistance(f, r, m) + 1
  {
    ModStep(r + 1, m);
  }

  /** Advancing front by one slot takes one off a non-zero distance to rear. */
  lemma DropDistance(f: int, r: int, m: int)
    requires 0 <= f < m && 0 <= r < m && f != r
    ensures RingDistance((f + 1) % m, r, m) == RingDistance(f, r, m) - 1
  {
    ModStep(f + 1, m);
  }

  /**
   * The unit test's integer run on 5 slots: four enqueues succeed and a
   * fifth fails; the first two dequeues give 1 and 2; after them, two more
   * enqueues succeed in the freed slots and a third fails; the queue then
   * drains as 3, 4, 5, 6 and is empty.
   */
  method WrapAroundExample() returns (fifth: bool, first: seq<int>, refill: seq<bool>, rest: seq<int>)
    ensures !fifth && first == [1, 2] && refill == [true, true, false] && rest == [3, 4, 5, 6]
  {
    var q := new SeqQueue(5);
    fifth := FillFour(q);
    first := TakeTwo(q);
    refill := Refill(q);
    rest := Drain(q);
  }

  /** Four enqueues on an empty 5-slot queue fill it, and a fifth fails. */
  method FillFour(q: SeqQueue) returns (fifth: bool)
    requires q.Valid() && q.maxLen == 5 && q.elems == []
    modifies q, q.data
    ensures q.Valid() && q.maxLen == 5 && q.data == old(q.data) && q.elems == [1, 2, 3, 4] && !fifth
  {
    var ok1 := q.EnQueue(1);
    var ok2 := q.EnQueue(2);
    var ok3 := q.EnQueue(3);
    var ok4 := q.EnQueue(4);
    fifth := q.EnQueue(5);
  }

  /** Two dequeues give the two oldest values. */
  method TakeTwo(q: SeqQueue) returns (first: seq<int>)
    requires q.Valid() && q.maxLen == 5 && q.elems == [1, 2, 3, 4]
    modifies q
    ensures q.Valid() && q.maxLen == 5 && q.data == old(q.data) && q.elems == [3, 4] && first == [1, 2]
  {
    var d1, v1 := q.DeQueue(0);
    var d2, v2 := q.DeQueue(0);
    first := [v1, v2];
  }

  /** Two enqueues reuse the freed slots, and a third fails. */
  method Refill(q: SeqQueue) returns (refill: seq<bool>)
    requires q.Valid() && q.maxLen == 5 && q.elems == [3, 4]
    modifies q, q.data
    ensures q.Valid() && q.maxLen == 5 && q.data == old(q.data) && q.elems == [3, 4, 5, 6] && refill == [true, true, false]
  {
    var e5 := q.EnQueue(5);
    var e6 := q.EnQueue(6);
    var e7 := q.EnQueue(7);
    refill := [e5, e6, e7];
  }

  /** The queue drains oldest first. */
  method Drain(q: SeqQueue) returns (rest: seq<int>)
    requires q.Valid() && q.elems == [3, 4, 5, 6]
    modifies q
    ensures rest == [3, 4, 5, 6]
  {
    var r1, w1 := q.DeQueue(0);
    var r2, w2 := q.DeQueue(0);
    var r3, w3 := q.DeQueue(0);
    var r4, w4 := q.DeQueue(0);
    rest := [w1, w2, w3, w4];
  }
}
