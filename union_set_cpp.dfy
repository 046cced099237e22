/**
 * UnionSet<int> of Set/UnionSet/UnionSet.cpp, the variant the unit tests
 * include: the same forest as Set/UnionSet/UnionSet.hpp, with find written
 * as one conditional expression, merge deciding the tie inside the
 * "rank[rootX] <= rank[rootY]" branch, and an isConnected that goes through
 * the compressing find. Exceptions are returned as values.
 */
module UnionSetCpp {
  import opened Errors
  import opened DisjointSets

  class UnionSet {
    var parent: seq<int>
    var rank: seq<int>
    var data: seq<int>
    var size: int

    /** The parent and rank vectors as a value. */
    function Links(): Sets
      reads this
    {
      Sets(parent, rank)
    }

    /** All three vectors have size elements and parent/rank form a forest. */
    ghost predicate Valid()
      reads this
    {
      0 < size && size == |parent| == |data| && Forest(Sets(parent, rank))
    }

    /** UnionSet(n) for n > 0: every element its own root with rank 1, data default-initialised. */
    constructor (n: int)
      requires n > 0
      ensures Valid() && Links() == Init(n) && data == seq(n, _ => 0) && size == n
    {
      size := n;
      rank := seq(n, _ => 1);
      data := seq(n, _ => 0);
      var p := seq(n, _ => 0);
      for i := 0 to n
        invariant |p| == n && forall j | 0 <= j < i :: p[j] == j
      {
        p := p[i := i];
      }
      parent := p;
      new;
      assert parent == Init(n).parent;
      InitSingletons(n);
    }

    /** UnionSet(n): invalid_argument for n <= 0, otherwise the structure above. */
    static method Create(n: int) returns (r: Result<UnionSet>)
      ensures n <= 0 <==> r.Err?
      ensures r.Err? ==> r.error == InvalidArgument(SizeNotPositive)
      ensures r.Ok? ==> fresh(r.value) && r.value.Valid() && r.value.Links() == Init(n)
    {
      if n <= 0 {
        return Err(InvalidArgument(SizeNotPositive));
      }
      var u := new UnionSet(n);
      return Ok(u);
    }

    /** setData(index, value): out_of_range outside [0, size), otherwise data[index] becomes value. */
    method SetData(index: int, value: int) returns (r: Outcome)
      requires Valid()
      modifies this
      ensures Valid() && parent == old(parent) && rank == old(rank) && size == old(size)
      ensures r.Fail? <==> !(0 <= index < size)
      ensures r.Fail? ==> r.error == OutOfRange(IndexOutOfRange) && data == old(data)
      ensures r.Done? ==> data == old(data)[index := value]
    {
      if index < 0 || index >= size {
        return Fail(OutOfRange(IndexOutOfRange));
      }
      data := data[index := value];
      return Done;
    }

    /** getData(index): out_of_range outside [0, size), otherwise the element's data. */
    method GetData(index: int) returns (r: Result<int>)
      requires Valid()
      ensures r.Err? <==> !(0 <= index < size)
      ensures r.Err? ==> r.error == OutOfRange(IndexOutOfRange)
      ensures r.Ok? ==> r.value == data[index]
    {
      if index < 0 || index >= size {
        return Err(OutOfRange(IndexOutOfRange));
      }
      return Ok(data[index]);
    }

    /** find(x): x if it is a root, otherwise parent[x] becomes find(parent[x]) and is returned. */
    method Find(x: int) returns (r: Result<int>)
      requires Valid()
      modifies this
      ensures Valid() && rank == old(rank) && data == old(data) && size == old(size)
      ensures r.Err? <==> !(0 <= x < size)
      ensures r.Err? ==> r.error == OutOfRange(IndexOutOfRange) && parent == old(parent)
      ensures r.Ok? ==> r.value == Root(old(Links()), x) && Links() == Compress(old(Links()), x)
      decreases if 0 <= x < |rank| then MaxOf(rank) - rank[x] else 0
    {
      if x < 0 || x >= size {
        return Err(OutOfRange(IndexOutOfRange));
      }
      ghost var s := Links();
      CompressKeeps(s, x);
      if x == parent[x] {
        return Ok(x);
      }
      var up := Find(parent[x]);
      parent := parent[x := up.value];
      return Ok(up.value);
    }

    /**
     * The tail of merge: if rank[rootX] <= rank[rootY], rootX goes under
     * rootY, whose rank grows on a tie; otherwise rootY goes under rootX.
     */
    method LinkRoots(rootX: int, rootY: int)
      requires Valid() && 0 <= rootX < size && 0 <= rootY < size && rootX != rootY
      requires parent[rootX] == rootX && parent[rootY] == rootY
      modifies this
      ensures Valid() && data == old(data) && size == old(size)
      ensures Links() == Link(old(Links()), rootX, rootY)
    {
      ghost var s := Links();
      LinkForest(s, rootX, rootY);
      if rank[rootX] <= rank[rootY] {
        parent := parent[rootX := rootY];
        if rank[rootX] == rank[rootY] {
          rank := rank[rootY := rank[rootY] + 1];
        }
      } else {
        parent := parent[rootY := rootX];
      }
      assert Links() == Link(s, rootX, rootY);
    }

    /**
     * merge(x, y): out_of_range if either is outside [0, size); otherwise
     * find both roots and, if they differ, link them by rank.
     */
    method Merge(x: int, y: int) returns (r: Outcome)
      requires Valid()
      modifies this
      ensures Valid() && data == old(data) && size == old(size)
      ensures r.Fail? <==> !(0 <= x < size && 0 <= y < size)
      ensures r.Fail? ==> r.error == OutOfRange(IndexOutOfRange) && Links() == old(Links())
      ensures r.Done? ==> Links() == MergeF(old(Links()), x, y)
    {
      if x < 0 || x >= size || y < 0 || y >= size {
        return Fail(OutOfRange(IndexOutOfRange));
      }
      ghost var s := Sets(parent, rank);
      var fx := Find(x);
      var rootX := fx.value;
      ghost var s1 := Sets(parent, rank);
      var fy := Find(y);
      var rootY := fy.value;
      ghost var s2 := Sets(parent, rank);
      MergeSteps(s, s1, s2, x, y);
      if rootX == rootY {
        return Done;
      }
      LinkRoots(rootX, rootY);
      return Done;
    }

    /**
     * isConnected(x, y): out_of_range if either is outside [0, size);
     * otherwise whether the two share a root, answered by two compressing
     * finds, which change no element's set.
     */
    method IsConnected(x: int, y: int) returns (r: Result<bool>)
      requires Valid()
      modifies this
      ensures Valid() && rank == old(rank) && data == old(data) && size == old(size)
      ensures r.Err? <==> !(0 <= x < size && 0 <= y < size)
      ensures r.Err? ==> r.error == OutOfRange(IndexOutOfRange) && Links() == old(Links())
      ensures r.Ok? ==> (r.value <==> Connected(old(Links()), x, y))
      ensures r.Ok? ==> Links() == CompressBoth(old(Links()), x, y)
      ensures r.Ok? ==> forall a | 0 <= a < size :: Root(Links(), a) == Root(old(Links()), a)
    {
      if x < 0 || x >= size || y < 0 || y >= size {
        return Err(OutOfRange(IndexOutOfRange));
      }
      ghost var s := Links();
      CompressBothKeeps(s, x, y);
      var fx := Find(x);
      var fy := Find(y);
      return Ok(fx.value == fy.value);
    }

    /** getSize() */
    method GetSize() returns (n: int)
      requires Valid()
      ensures n == |parent|
    {
      return size;
    }

    /** getSetCount(): the number of elements that are their own parent, one per set. */
    method GetSetCount() returns (count: int)
      requires Valid()
      ensures count == |Roots(Links())|
    {
      count := 0;
      for i := 0 to size
        invariant count == |RootsBelow(Links(), i)|
      {
        RootsBelowStep(Links(), i);
        if parent[i] == i {
          count := count + 1;
        }
      }
    }
  }
}
