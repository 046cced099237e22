/**
 * SeqList<int> of LinearList/SeqList/SeqList.hpp: a bounded list in a
 * fixed array of maxSize slots, of which the first length are in use.
 * Positions are 1-based. Operations that fail return false and change
 * nothing; an out-parameter the source leaves untouched on failure is
 * modelled as an input that comes back unchanged.
 */
module SeqList {
  import opened Errors
  import opened Sequences

  /** The message of the invalid_argument thrown by the constructor. */
  const SizeNotPositive := "Size must be positive"

  /** The 0-based index of the first least element, the slot deleteMin empties. */
  function MinIndex(s: seq<int>): (r: nat)
    requires |s| > 0
    ensures r < |s|
    ensures forall j | 0 <= j < |s| :: s[r] <= s[j]
    ensures forall j | 0 <= j < r :: s[r] < s[j]
  {
    if |s| == 1 then 0
    else
      var r := MinIndex(s[..|s| - 1]);
      if s[|s| - 1] < s[r] then |s| - 1 else r
  }

  /** What deleteMin leaves: the last element moved into the minimum's slot, one element shorter. */
  function DeleteMinF(s: seq<int>): seq<int>
    requires |s| > 0
  {
    s[MinIndex(s) := s[|s| - 1]][..|s| - 1]
  }

  /** deleteMin takes out exactly one copy of the minimum and keeps everything else. */
  lemma DeleteMinKeeps(s: seq<int>)
    requires |s| > 0
    ensures |DeleteMinF(s)| == |s| - 1
    ensures multiset(DeleteMinF(s)) + multiset{s[MinIndex(s)]} == multiset(s)
  {
    var k, n := MinIndex(s), |s|;
    var t := s[k := s[n - 1]];
    if k == n - 1 {
      assert s == DeleteMinF(s) + [s[k]];
    } else {
      assert t == DeleteMinF(s) + [s[n - 1]];
      assert s == s[..k] + [s[k]] + s[k + 1..];
      assert t == s[..k] + [s[n - 1]] + s[k + 1..];
      calc {
        multiset(DeleteMinF(s)) + multiset{s[k]};
        multiset(t) - multiset{s[n - 1]} + multiset{s[k]};
        multiset(s[..k]) + multiset(s[k + 1..]) + multiset{s[k]};
        multiset(s);
      }
    }
  }

  /** A sequence that agrees with s before i, holds e at i and s shifted by one after it is s with e inserted at i. */
  lemma InsertShape(s: seq<int>, t: seq<int>, i: int, e: int)
    requires 0 <= i <= |s| && |t| == |s| + 1 && t[i] == e
    requires forall k | 0 <= k < i :: t[k] == s[k]
    requires forall k | i < k < |t| :: t[k] == s[k - 1]
    ensures t == s[..i] + [e] + s[i..]
  {
  }

  /** A sequence that agrees with s before i and with s shifted by one from i on is s without element i. */
  lemma RemoveShape(s: seq<int>, t: seq<int>, i: int)
    requires 0 <= i < |s| && |t| == |s| - 1
    requires forall k | 0 <= k < i :: t[k] == s[k]
    requires forall k | i <= k < |t| :: t[k] == s[k + 1]
    ensures t == s[..i] + s[i + 1..]
  {
  }

  /** A sequence holding s's elements back to front is the reversal of s. */
  lemma ReverseShape(s: seq<int>, t: seq<int>)
    requires |t| == |s|
    requires forall k | 0 <= k < |s| :: t[k] == s[|s| - 1 - k]
    ensures t == Reverse(s)
  {
    forall k | 0 <= k < |s|
      ensures t[k] == Reverse(s)[k]
    {
      ReverseAt(s, k);
    }
  }

  class SeqList {
    var data: array<int>
    var maxSize: int
    var length: int

    /** 0 <= length <= maxSize, and maxSize is the array's size. */
    ghost predicate Valid()
      reads this
    {
      0 < maxSize == data.Length && 0 <= length <= maxSize
    }

    /** The list: the first length slots. */
    ghost function Elems(): seq<int>
      reads this, data
      requires Valid()
    {
      data[..length]
    }

    /** SeqList(size) for size > 0: an empty list with room for size elements. */
    constructor (size: int)
      requires size > 0
      ensures Valid() && fresh(data) && maxSize == size && Elems() == []
    {
      maxSize := size;
      length := 0;
      data := new int[size];
    }

    /** SeqList(size): invalid_argument for size <= 0, otherwise the empty list above. */
    static method Create(size: int) returns (r: Result<SeqList>)
      ensures size <= 0 <==> r.Err?
      ensures r.Err? ==> r.error == InvalidArgument(SizeNotPositive)
      ensures r.Ok? ==> fresh(r.value) && fresh(r.value.data) && r.value.Valid()
      ensures r.Ok? ==> r.value.maxSize == size && r.value.Elems() == []
    {
      if size <= 0 {
        return Err(InvalidArgument(SizeNotPositive));
      }
      var l := new SeqList(size);
      return Ok(l);
    }

    /** The copy constructor: a fresh array of the same capacity holding the same elements. */
    constructor Copy(other: SeqList)
      requires other.Valid()
      ensures Valid() && fresh(data) && maxSize == other.maxSize && Elems() == other.Elems()
    {
      maxSize := other.maxSize;
      length := other.length;
      var a := new int[other.maxSize];
      for i := 0 to other.length
        invariant a[..i] == other.data[..i]
      {
        a[i] := other.data[i];
      }
      data := a;
    }

    /** operator=: a fresh copy of the other list's elements and capacity (nothing changes on self-assignment). */
    method Assign(other: SeqList)
      requires Valid() && other.Valid()
      modifies this
      ensures Valid() && maxSize == old(other.maxSize) && Elems() == old(other.Elems())
      ensures this != other ==> fresh(data)
    {
      if this != other {
        var a := new int[other.maxSize];
        for i := 0 to other.length
          invariant a[..i] == other.data[..i]
        {
          a[i] := other.data[i];
        }
        data := a;
        maxSize := other.maxSize;
        length := other.length;
      }
    }

    /** append(e): false iff the list is full; otherwise e becomes the last element. */
    method Append(e: int) returns (ok: bool)
      requires Valid()
      modifies this`length, data
      ensures Valid() && data == old(data) && maxSize == old(maxSize)
      ensures ok <==> old(length) < maxSize
      ensures Elems() == if ok then old(Elems()) + [e] else old(Elems())
    {
      if length >= maxSize {
        return false;
      }
      data[length] := e;
      length := length + 1;
      return true;
    }

    /**
     * insert(index, e): false unless 1 <= index <= length+1 and the list is
     * not full; otherwise the elements from position index on move one slot
     * right and e takes position index.
     */
    method Insert(index: int, e: int) returns (ok: bool)
      requires Valid()
      modifies this`length, data
      ensures Valid() && data == old(data) && maxSize == old(maxSize)
      ensures ok <==> 1 <= index <= old(length) + 1 && old(length) < maxSize
      ensures ok ==> Elems() == old(Elems())[..index - 1] + [e] + old(Elems())[index - 1..]
      ensures !ok ==> Elems() == old(Elems())
    {
      if index < 1 || index > length + 1 {
        return false;
      }
      if length >= maxSize {
        return false;
      }
      ghost var s := Elems();
      var i := length;
      while i >= index
        invariant index - 1 <= i <= length == |s|
        invariant forall k | 0 <= k < i :: data[k] == s[k]
        invariant forall k | i < k <= length :: data[k] == s[k - 1]
      {
        data[i] := data[i - 1];
        i := i - 1;
      }
      data[index - 1] := e;
      length := length + 1;
      InsertShape(s, data[..length], index - 1, e);
      return true;
    }

    /**
     * remove(index, element): false unless 1 <= index <= length; otherwise
     * element gets position index's value and the elements after it move
     * one slot left.
     */
    method Remove(index: int, element: int) returns (ok: bool, removed: int)
      requires Valid()
      modifies this`length, data
      ensures Valid() && data == old(data) && maxSize == old(maxSize)
      ensures ok <==> 1 <= index <= old(length)
      ensures ok ==> removed == old(Elems())[index - 1] && Elems() == old(Elems())[..index - 1] + old(Elems())[index..]
      ensures !ok ==> removed == element && Elems() == old(Elems())
    {
      if index < 1 || index > length {
        return false, element;
      }
      ghost var s := Elems();
      removed := data[index - 1];
      for i := index - 1 to length - 1
        invariant length == |s|
        invariant forall k | 0 <= k < index - 1 :: data[k] == s[k]
        invariant forall k | index - 1 <= k < i :: data[k] == s[k + 1]
        invariant forall k | i <= k < length :: data[k] == s[k]
      {
        data[i] := data[i + 1];
      }
      length := length - 1;
      RemoveShape(s, data[..length], index - 1);
      return true, removed;
    }

    /** locate(e): the 1-based position of the first element equal to e, or 0. */
    method Locate(e: int) returns (p: int)
      requires Valid()
      ensures p == Position(Elems(), e)
    {
      for i := 0 to length
        invariant e !in data[..i]
      {
        if data[i] == e {
          assert data[..i + 1][..i] == data[..i];
          return i + 1;
        }
      }
      assert data[..length] == Elems();
      return 0;
    }

    /**
     * deleteMin(minElement): false on an empty list; otherwise minElement
     * gets the first least element, the last element moves into its slot,
     * and the list is one shorter.
     */
    method DeleteMin(minElement: int) returns (ok: bool, m: int)
      requires Valid()
      modifies this`length, data
      ensures Valid() && data == old(data) && maxSize == old(maxSize)
      ensures ok <==> old(length) > 0
      ensures ok ==> m == old(Elems())[MinIndex(old(Elems()))] && Elems() == DeleteMinF(old(Elems()))
      ensures !ok ==> m == minElement && Elems() == old(Elems())
    {
      if length == 0 {
        return false, minElement;
      }
      ghost var s := Elems();
      var minIndex := 0;
      for i := 1 to length
        invariant minIndex == MinIndex(s[..i])
      {
        assert s[..i + 1][..i] == s[..i];
        if data[i] < data[minIndex] {
          minIndex := i;
        }
      }
      assert s[..length] == s;
      m := data[minIndex];
      data[minIndex] := data[length - 1];
      length := length - 1;
      assert Elems() == DeleteMinF(s);
      return true, m;
    }

    /** reverse(): the first length elements in the opposite order. */
    method Reverse()
      requires Valid()
      modifies data
      ensures Valid() && Elems() == Sequences.Reverse(old(Elems()))
    {
      ghost var s := Elems();
      var left, right := 0, length - 1;
      while left < right
        invariant 0 <= left <= length && left + right == length - 1
        invariant forall k | 0 <= k < left :: data[k] == s[length - 1 - k]
        invariant forall k | right < k < length :: data[k] == s[length - 1 - k]
        invariant forall k | left <= k <= right :: data[k] == s[k]
      {
        data[left], data[right] := data[right], data[left];
        left := left + 1;
        right := right - 1;
      }
      ReverseShape(s, data[..length]);
    }

    /** get(index, element): false unless 1 <= index <= length; otherwise position index's value. */
    method Get(index: int, element: int) returns (ok: bool, value: int)
      requires Valid()
      ensures ok <==> 1 <= index <= length
      ensures value == if ok then Elems()[index - 1] else element
    {
      if index < 1 || index > length {
        return false, element;
      }
      return true, data[index - 1];
    }

    /** set(index, e): false unless 1 <= index <= length; otherwise position index holds e. */
    method Set(index: int, e: int) returns (ok: bool)
      requires Valid()
      modifies data
      ensures Valid()
      ensures ok <==> 1 <= index <= length
      ensures Elems() == if ok then old(Elems())[index - 1 := e] else old(Elems())
    {
      if index < 1 || index > length {
        return false;
      }
      data[index - 1] := e;
      return true;
    }

    /** size() */
    method Size() returns (n: int)
      requires Valid()
      ensures n == |Elems()|
    {
      return length;
    }

    /** capacity() */
    method Capacity() returns (n: int)
      requires Valid()
      ensures n == data.Length
    {
      return maxSize;
    }

    /** empty() */
    method Empty() returns (b: bool)
      requires Valid()
      ensures b <==> Elems() == []
    {
      return length == 0;
    }

    /** full() */
    method Full() returns (b: bool)
      requires Valid()
      ensures b <==> |Elems()| == data.Length
    {
      return length == maxSize;
    }

    /** clear(): the list becomes empty; the capacity stays. */
    method Clear()
      requires Valid()
      modifies this`length
      ensures Valid() && Elems() == []
    {
      length := 0;
    }
  }

  /** The list of the unit tests' opening: capacity 10, then 1..5 appended one by one, each append succeeding. */
  method OneToFive() returns (l: SeqList)
    ensures fresh(l) && fresh(l.data) && l.Valid() && l.maxSize == 10 && l.Elems() == [1, 2, 3, 4, 5]
  {
    l := new SeqList(10);
    var i := 1;
    while i <= 5
      invariant 1 <= i <= 6 && l.Valid() && fresh(l.data) && l.maxSize == 10
      invariant l.Elems() == seq(i - 1, k => k + 1)
    {
      var ok := l.Append(i);
      assert ok;
      i := i + 1;
    }
  }

  /**
   * The opening of the unit tests: inserting 0 at position 3 of 1..5 and
   * reading it back, then removing it, gives back 1..5, where 4 sits at
   * position 4.
   */
  method BasicExample() returns (located: int)
    ensures located == 4
  {
    var l := OneToFive();
    var ok := l.Insert(3, 0);
    assert ok && l.Elems() == [1, 2] + [0] + [3, 4, 5];
    var got, value := l.Get(3, 0);
    assert got && value == 0;
    var removed, v := l.Remove(3, value);
    assert removed && v == 0 && l.Elems() == [1, 2] + [3, 4, 5];
    located := l.Locate(4);
    assert l.Elems()[3] == 4 && 4 !in l.Elems()[..3];
  }
}
