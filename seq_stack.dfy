/**
 * SeqStack<int> of Stack/SeqStack/SeqStack.hpp: a stack in a fixed array of
 * maxSize slots, with top the index of the top element and -1 for the empty
 * stack. Operations that fail return false and change nothing; an
 * out-parameter the source leaves untouched on failure is modelled as an
 * input that comes back unchanged.
 */
module SeqStack {
  import opened Errors

  class SeqStack {
    var data: array<int>
    var maxSize: int
    var top: int

    /** -1 <= top <= maxSize-1, and maxSize is the array's size. */
    ghost predicate Valid()
      reads this
    {
      maxSize == data.Length && -1 <= top <= maxSize - 1
    }

    /** The stack, bottom first: slots 0..top. */
    ghost function Elems(): seq<int>
      reads this, data
      requires Valid()
    {
      data[..top + 1]
    }

    /** SeqStack(size): an empty stack (top -1) with room for size elements; the default size is 10. */
    constructor (size: int)
      requires size >= 0
      ensures Valid() && fresh(data) && maxSize == size && Elems() == []
    {
      maxSize := size;
      top := -1;
      data := new int[size];
    }

    /**
     * The constructor for any int size: `new T[size]` throws
     * std::bad_array_new_length for a negative size, and otherwise the
     * stack is empty with room for size elements.
     */
    static method Create(size: int) returns (r: Result<SeqStack>)
      ensures size < 0 <==> r.Err?
      ensures r.Err? ==> r.error == BadArrayNewLength
      ensures r.Ok? ==> fresh(r.value) && fresh(r.value.data) && r.value.Valid()
      ensures r.Ok? ==> r.value.maxSize == size && r.value.Elems() == []
    {
      if size < 0 {
        return Err(BadArrayNewLength);
      }
      var s := new SeqStack(size);
      return Ok(s);
    }

    /** The copy constructor: a fresh array of the same capacity holding slots 0..top. */
    constructor Copy(other: SeqStack)
      requires other.Valid()
      ensures Valid() && fresh(data) && maxSize == other.maxSize && top == other.top && Elems() == other.Elems()
    {
      maxSize := other.maxSize;
      top := other.top;
      var a := new int[other.maxSize];
      for i := 0 to other.top + 1
        invariant a[..i] == other.data[..i]
      {
        a[i] := other.data[i];
      }
      data := a;
    }

    /** operator=: a fresh copy of the other stack's slots 0..top and its capacity (nothing changes on self-assignment). */
    method Assign(other: SeqStack)
      requires Valid() && other.Valid()
      modifies this
      ensures Valid() && maxSize == old(other.maxSize) && top == old(other.top) && Elems() == old(other.Elems())
      ensures this != other ==> fresh(data)
    {
      if this != other {
        var a := new int[other.maxSize];
        for i := 0 to other.top + 1
          invariant a[..i] == other.data[..i]
        {
          a[i] := other.data[i];
        }
        data := a;
        maxSize := other.maxSize;
        top := other.top;
      }
    }

    /** empty(): top == -1. */
    method Empty() returns (b: bool)
      requires Valid()
      ensures b <==> Elems() == []
    {
      return top == -1;
    }

    /** full(): top == maxSize-1. */
    method Full() returns (b: bool)
      requires Valid()
      ensures b <==> |Elems()| == data.Length
    {
      return top == maxSize - 1;
    }

    /** push(x): false when full; otherwise x goes into slot top+1 and becomes the top. */
    method Push(x: int) returns (ok: bool)
      requires Valid()
      modifies this`top, data
      ensures Valid() && data == old(data)
      ensures ok <==> |old(Elems())| < data.Length
      ensures Elems() == if ok then old(Elems()) + [x] else old(Elems())
    {
      var isFull := Full();
      if isFull {
        return false;
      }
      top := top + 1;
      data[top] := x;
      return true;
    }

    /** pop(e): false when empty; otherwise the top element, which leaves the stack. */
    method Pop(e: int) returns (ok: bool, value: int)
      requires Valid()
      modifies this`top
      ensures Valid()
      ensures ok <==> old(Elems()) != []
      ensures ok ==> value == old(Elems())[|old(Elems())| - 1] && Elems() == old(Elems())[..|old(Elems())| - 1]
      ensures !ok ==> value == e && Elems() == old(Elems())
    {
      var isEmpty := Empty();
      if isEmpty {
        return false, e;
      }
      value := data[top];
      top := top - 1;
      return true, value;
    }

    /** getTop(e): false when empty; otherwise the top element, which stays. */
    method GetTop(e: int) returns (ok: bool, value: int)
      requires Valid()
      ensures ok <==> Elems() != []
      ensures value == if ok then Elems()[|Elems()| - 1] else e
    {
      var isEmpty := Empty();
      if isEmpty {
        return false, e;
      }
      return true, data[top];
    }

    /** size(): top + 1. */
    method Size() returns (n: int)
      requires Valid()
      ensures n == |Elems()|
    {
      return top + 1;
    }

    /** capacity(): maxSize. */
    method Capacity() returns (n: int)
      requires Valid()
      ensures n == data.Length
    {
      return maxSize;
    }
  }

  /**
   * The unit test's push-and-pop run: into a stack of size 5, pushes of 1..5
   * succeed and a sixth fails; five pops then give 5, 4, 3, 2, 1 and a sixth
   * pop fails.
   */
  method PushPopExample() returns (sixthPush: bool, popped: seq<int>, sixthPop: bool)
    ensures !sixthPush && popped == [5, 4, 3, 2, 1] && !sixthPop
  {
    var s := new SeqStack(5);
    var i := 1;
    while i <= 5
      invariant 1 <= i <= 6 && s.Valid() && s.maxSize == 5 && fresh(s.data)
      invariant s.Elems() == seq(i - 1, k => k + 1)
    {
      var ok := s.Push(i);
      i := i + 1;
    }
    sixthPush := s.Push(6);
    popped := [];
    while i > 1
      invariant 1 <= i <= 6 && s.Valid() && s.maxSize == 5
      invariant s.Elems() == seq(i - 1, k => k + 1)
      invariant popped == seq(6 - i, k => 5 - k)
    {
      var ok, v := s.Pop(0);
      popped := popped + [v];
      i := i - 1;
    }
    var v;
    sixthPop, v := s.Pop(0);
  }
}
