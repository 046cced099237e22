/**
 * SingleLinkedList<int> of LinearList/SingleLinkedList/SingleLinkedList.hpp:
 * a chain of heap nodes behind a head sentinel, with a length field.
 * Positions are 1-based. The ghost sequence nodes lists the chain from the
 * sentinel on, and elems the data after the sentinel; Valid() ties both to
 * the next links and to length.
 */
module SingleLinkedList {
  import opened Sequences

  class Node {
    var data: int
    var next: Node?

    constructor (d: int, n: Node?)
      ensures data == d && next == n
    {
      data := d;
      next := n;
    }
  }

  class SingleLinkedList {
    var head: Node
    var length: int
    ghost var nodes: seq<Node>
    ghost var elems: seq<int>
    ghost var Repr: set<Node>

    /**
     * The chain from the sentinel follows next through nodes, ends in null,
     * holds each node once, and its data after the sentinel is elems; length
     * counts the nodes after the sentinel.
     */
    ghost predicate Valid()
      reads this, Repr
    {
      |nodes| == length + 1 && |elems| == length && nodes[0] == head &&
      (forall i | 0 <= i < |nodes| :: nodes[i] in Repr) &&
      (forall i | 0 <= i < length :: nodes[i].next == nodes[i + 1]) &&
      nodes[length].next == null &&
      (forall i | 0 <= i < length :: nodes[i + 1].data == elems[i]) &&
      (forall i, j | 0 <= i < j < |nodes| :: nodes[i] != nodes[j])
    }

    /** The default constructor: a sentinel with no successor. */
    constructor ()
      ensures Valid() && fresh(Repr) && elems == []
    {
      head := new Node(0, null);
      length := 0;
      nodes := [head];
      elems := [];
      Repr := {head};
    }

    /** insertHead(x): a new node right after the sentinel. */
    method InsertHead(x: int)
      requires Valid()
      modifies this, Repr
      ensures Valid() && fresh(Repr - old(Repr))
      ensures elems == [x] + old(elems)
    {
      var n := new Node(x, head.next);
      head.next := n;
      length := length + 1;
      nodes := [head, n] + nodes[1..];
      elems := [x] + elems;
      Repr := Repr + {n};
    }

    /** append(x): walk to the last node and link a new node after it. */
    method Append(x: int)
      requires Valid()
      modifies this, Repr
      ensures Valid() && fresh(Repr - old(Repr))
      ensures elems == old(elems) + [x]
    {
      var n := new Node(x, null);
      var p := head;
      ghost var j := 0;
      while p.next != null
        invariant 0 <= j <= length && p == nodes[j]
        invariant p.next == if j < length then nodes[j + 1] else null
        decreases length - j
      {
        p := p.next;
        j := j + 1;
      }
      p.next := n;
      length := length + 1;
      nodes := nodes + [n];
      elems := elems + [x];
      Repr := Repr + {n};
    }

    /** The vector constructor: head insertion of each item when reverse holds, tail insertion otherwise. */
    constructor FromSeq(v: seq<int>, reverse: bool)
      ensures Valid() && fresh(Repr)
      ensures elems == if reverse then Sequences.Reverse(v) else v
    {
      head := new Node(0, null);
      length := 0;
      nodes := [head];
      elems := [];
      Repr := {head};
      new;
      if reverse {
        for i := 0 to |v|
          invariant Valid() && fresh(Repr) && elems == Sequences.Reverse(v[..i])
        {
          InsertHead(v[i]);
          assert v[..i + 1] == v[..i] + [v[i]];
          ReverseAppend(v[..i], [v[i]]);
          ReverseSingle(v[i]);
        }
      } else {
        for i := 0 to |v|
          invariant Valid() && fresh(Repr) && elems == v[..i]
        {
          Append(v[i]);
          assert v[..i + 1] == v[..i] + [v[i]];
        }
      }
      assert v[..|v|] == v;
    }

    /** The copy constructor: append each element of the other list in order. */
    constructor Copy(other: SingleLinkedList)
      requires other.Valid()
      ensures Valid() && fresh(Repr) && elems == other.elems
    {
      head := new Node(0, null);
      length := 0;
      nodes := [head];
      elems := [];
      Repr := {head};
      new;
      var p := other.head.next;
      ghost var i := 0;
      while p != null
        invariant Valid() && fresh(Repr)
        invariant 0 <= i <= other.length && elems == other.elems[..i]
        invariant p == if i < other.length then other.nodes[i + 1] else null
        decreases other.length - i
      {
        Append(p.data);
        assert other.elems[..i + 1] == other.elems[..i] + [other.elems[i]];
        p := p.next;
        i := i + 1;
      }
      assert other.elems[..other.length] == other.elems;
    }

    /** operator=: build a copy of the other list and take over its chain (nothing changes on self-assignment). */
    method Assign(other: SingleLinkedList)
      requires Valid() && other.Valid()
      modifies this
      ensures Valid() && elems == old(other.elems)
    {
      if this != other {
        var temp := new SingleLinkedList.Copy(other);
        head, length := temp.head, temp.length;
        nodes, elems, Repr := temp.nodes, temp.elems, temp.Repr;
      }
    }

    /** clear(): the sentinel loses its successors and length becomes 0. */
    method Clear()
      requires Valid()
      modifies this, head
      ensures Valid() && elems == [] && Repr == old(Repr)
    {
      head.next := null;
      length := 0;
      nodes := [head];
      elems := [];
    }

    /** The walk shared by insert, remove, get and set: k steps along next from the sentinel. */
    method NodeAt(k: int) returns (p: Node)
      requires Valid() && 0 <= k <= length
      ensures p == nodes[k]
    {
      var q: Node? := head;
      for i := 0 to k
        invariant q == nodes[i]
      {
        q := q.next;
      }
      p := q;
    }

    /** insert(index, x): false unless 1 <= index <= length+1; otherwise x becomes element index. */
    method Insert(index: int, x: int) returns (ok: bool)
      requires Valid()
      modifies this, Repr
      ensures Valid() && fresh(Repr - old(Repr))
      ensures ok <==> 1 <= index <= old(length) + 1
      ensures elems == if ok then old(elems)[..index - 1] + [x] + old(elems)[index - 1..] else old(elems)
    {
      if index < 1 || index > length + 1 {
        return false;
      }
      var p := NodeAt(index - 1);
      var n := new Node(x, p.next);
      p.next := n;
      length := length + 1;
      ghost var m := nodes;
      nodes := m[..index] + [n] + m[index..];
      elems := elems[..index - 1] + [x] + elems[index - 1..];
      Repr := Repr + {n};
      assert forall i | 0 <= i < index :: nodes[i] == m[i];
      assert forall i | index < i < |nodes| :: nodes[i] == m[i - 1];
      return true;
    }

    /**
     * remove(index, data): false unless 1 <= index <= length; otherwise
     * data gets element index, whose node is unlinked.
     */
    method Remove(index: int, data: int) returns (ok: bool, removed: int)
      requires Valid()
      modifies this, Repr
      ensures Valid() && Repr == old(Repr)
      ensures ok <==> 1 <= index <= old(length)
      ensures ok ==> removed == old(elems)[index - 1] && elems == old(elems)[..index - 1] + old(elems)[index..]
      ensures !ok ==> removed == data && elems == old(elems)
    {
      if index < 1 || index > length {
        return false, data;
      }
      var p := NodeAt(index - 1);
      assert p.next == nodes[index];
      var toDelete := p.next;
      removed := toDelete.data;
      p.next := toDelete.next;
      length := length - 1;
      nodes := nodes[..index] + nodes[index + 1..];
      elems := elems[..index - 1] + elems[index..];
      return true, removed;
    }

    /** get(index, data): false unless 1 <= index <= length; otherwise element index. */
    method Get(index: int, data: int) returns (ok: bool, value: int)
      requires Valid()
      ensures ok <==> 1 <= index <= length
      ensures value == if ok then elems[index - 1] else data
    {
      if index < 1 || index > length {
        return false, data;
      }
      var p := NodeAt(index);
      return true, p.data;
    }

    /** set(index, data): false unless 1 <= index <= length; otherwise element index becomes data. */
    method Set(index: int, data: int) returns (ok: bool)
      requires Valid()
      modifies this, Repr
      ensures Valid() && Repr == old(Repr) && length == old(length)
      ensures ok <==> 1 <= index <= length
      ensures elems == if ok then old(elems)[index - 1 := data] else old(elems)
    {
      if index < 1 || index > length {
        return false;
      }
      var p := NodeAt(index);
      p.data := data;
      elems := elems[index - 1 := data];
      return true;
    }

    /** locate(data): the 1-based position of the first element equal to data, or 0. */
    method Locate(data: int) returns (r: int)
      requires Valid()
      ensures r == Position(elems, data)
    {
      var p := head.next;
      var index := 1;
      while p != null && p.data != data
        invariant 1 <= index <= length + 1
        invariant p == if index <= length then nodes[index] else null
        invariant data !in elems[..index - 1]
        decreases length + 1 - index
      {
        assert elems[..index] == elems[..index - 1] + [elems[index - 1]];
        p := p.next;
        index := index + 1;
      }
      if p == null {
        assert elems[..index - 1] == elems;
        return 0;
      }
      PositionFirst(elems, data, index);
      return index;
    }

    /** reverse(): lists of length 0 or 1 stay; otherwise every next link is turned around. */
    method Reverse()
      requires Valid()
      modifies this, Repr
      ensures Valid() && Repr == old(Repr)
      ensures elems == Sequences.Reverse(old(elems))
    {
      if length <= 1 {
        if length == 1 {
          ReverseSingle(elems[0]);
          assert elems == [elems[0]];
        }
        return;
      }
      var prev := TurnLinks();
      head.next := prev;
      ghost var m, e := nodes, elems;
      nodes := [head] + Sequences.Reverse(m[1..]);
      elems := Sequences.Reverse(e);
      forall j | 1 <= j <= length
        ensures nodes[j] == m[length + 1 - j]
      {
        ReverseAt(m[1..], j - 1);
      }
      forall j | 0 <= j < length
        ensures elems[j] == e[length - 1 - j]
      {
        ReverseAt(e, j);
      }
    }

    /**
     * The loop of reverse(): walking prev and curr down the chain after the
     * sentinel, each node's next is turned to point at the node before it,
     * the first one's to null. It ends with prev at the last node.
     */
    method TurnLinks() returns (prev: Node?)
      requires Valid() && length > 1
      modifies Repr
      ensures unchanged(this) && prev == nodes[length]
      ensures forall k | 1 < k <= length :: nodes[k].next == nodes[k - 1]
      ensures nodes[1].next == null
      ensures forall k | 1 <= k <= length :: nodes[k].data == elems[k - 1]
    {
      prev := null;
      var curr := head.next;
      ghost var i := 0;
      while curr != null
        invariant unchanged(this) && 0 <= i <= length
        invariant prev == if i == 0 then null else nodes[i]
        invariant curr == if i < length then nodes[i + 1] else null
        invariant forall k | 1 < k <= i :: nodes[k].next == nodes[k - 1]
        invariant i >= 1 ==> nodes[1].next == null
        invariant forall k | i < k < length :: nodes[k].next == nodes[k + 1]
        invariant i < length ==> nodes[length].next == null
        invariant forall k | 1 <= k <= length :: nodes[k].data == elems[k - 1]
        decreases length - i
      {
        var next := curr.next;
        curr.next := prev;
        prev := curr;
        curr := next;
        i := i + 1;
      }
    }

    /** size() */
    method Size() returns (n: int)
      requires Valid()
      ensures n == |elems|
    {
      return length;
    }

    /** empty() */
    method Empty() returns (b: bool)
      requires Valid()
      ensures b <==> elems == []
    {
      return length == 0;
    }
  }
}
