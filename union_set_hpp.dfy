/**
 * UnionSet<int> of Set/UnionSet/UnionSet.hpp: union-find with path
 * compression and union by rank, with a data value per element. The vectors
 * are sequence fields the methods reassign; what they become is given by
 * the functions of DisjointSets. Exceptions are returned as values.
 */
module UnionSetHpp {
  import opened Errors
  import opened DisjointSets

  class UnionSet {
    var parent: seq<int>
    var rank: seq<int>
    var data: seq<int>
    var size: int

    /** The parent and rank vectors as a value. */
    function Links(): Sets
      reads this
    {
      Sets(parent, rank)
    }

    /** All three vectors have size elements and parent/rank form a forest. */
    ghost predicate Valid()
      reads this
    {
      0 < size && size == |parent| == |data| && Forest(Sets(parent, rank))
    }

    /** UnionSet(n) for n > 0: every element its own root with rank 1, data default-initialised. */
    constructor (n: int)
      requires n > 0
      ensures Valid() && Links() == Init(n) && data == seq(n, _ => 0) && size == n
    {
      size := n;
      rank := seq(n, _ => 1);
      data := seq(n, _ => 0);
      var p := seq(n, _ => 0);
      for i := 0 to n
        invariant |p| == n && forall j | 0 <= j < i :: p[j] == j
      {
        p := p[i := i];
      }
      parent := p;
      new;
      assert parent == Init(n).parent;
      InitSingletons(n);
    }

    /** UnionSet(n): invalid_argument for n <= 0, otherwise the structure above. */
    static method Create(n: int) returns (r: Result<UnionSet>)
      ensures n <= 0 <==> r.Err?
      ensures r.Err? ==> r.error == InvalidArgument(SizeNotPositive)
      ensures r.Ok? ==> fresh(r.value) && r.value.Valid() && r.value.Links() == Init(n)
    {
      if n <= 0 {
        return Err(InvalidArgument(SizeNotPositive));
      }
      var u := new UnionSet(n);
      return Ok(u);
    }

    /** The copy constructor: the same vectors and size. */
    constructor Copy(other: UnionSet)
      requires other.Valid()
      ensures Valid() && parent == other.parent && rank == other.rank && data == other.data && size == other.size
    {
      parent := other.parent;
      rank := other.rank;
      data := other.data;
      size := other.size;
    }

    /** operator=: take the other structure's vectors and size (nothing changes on self-assignment). */
    method Assign(other: UnionSet)
      requires Valid() && other.Valid()
      modifies this
      ensures Valid()
      ensures parent == old(other.parent) && rank == old(other.rank) && data == old(other.data) && size == old(other.size)
    {
      if this != other {
        parent := other.parent;
        rank := other.rank;
        data := other.data;
        size := other.size;
      }
    }

    /** setData(index, value): out_of_range outside [0, size), otherwise data[index] becomes value. */
    method SetData(index: int, value: int) returns (r: Outcome)
      requires Valid()
      modifies this
      ensures Valid() && parent == old(parent) && rank == old(rank) && size == old(size)
      ensures r.Fail? <==> !(0 <= index < size)
      ensures r.Fail? ==> r.error == OutOfRange(IndexOutOfRange) && data == old(data)
      ensures r.Done? ==> data == old(data)[index := value]
    {
      if index < 0 || index >= size {
        return Fail(OutOfRange(IndexOutOfRange));
      }
      data := data[index := value];
      return Done;
    }

    /** getData(index): out_of_range outside [0, size), otherwise the element's data. */
    method GetData(index: int) returns (r: Result<int>)
      requires Valid()
      ensures r.Err? <==> !(0 <= index < size)
      ensures r.Err? ==> r.error == OutOfRange(IndexOutOfRange)
      ensures r.Ok? ==> r.value == data[index]
    {
      if index < 0 || index >= size {
        return Err(OutOfRange(IndexOutOfRange));
      }
      return Ok(data[index]);
    }

    /** The const find: walk up the parents without changing them. */
    method FindConst(x: int) returns (r: Result<int>)
      requires Valid()
      ensures r.Err? <==> !(0 <= x < size)
      ensures r.Err? ==> r.error == OutOfRange(IndexOutOfRange)
      ensures r.Ok? ==> r.value == Root(Links(), x)
    {
      if x < 0 || x >= size {
        return Err(OutOfRange(IndexOutOfRange));
      }
      var current := x;
      while current != parent[current]
        invariant 0 <= current < size && Root(Links(), current) == Root(Links(), x)
        decreases MaxOf(rank) - rank[current]
      {
        current := parent[current];
      }
      return Ok(current);
    }

    /** The mutable find: the root of x, after pointing x and everything above it at the root. */
    method Find(x: int) returns (r: Result<int>)
      requires Valid()
      modifies this
      ensures Valid() && rank == old(rank) && data == old(data) && size == old(size)
      ensures r.Err? <==> !(0 <= x < size)
      ensures r.Err? ==> r.error == OutOfRange(IndexOutOfRange) && parent == old(parent)
      ensures r.Ok? ==> r.value == Root(old(Links()), x) && Links() == Compress(old(Links()), x)
      decreases if 0 <= x < |rank| then MaxOf(rank) - rank[x] else 0
    {
      if x < 0 || x >= size {
        return Err(OutOfRange(IndexOutOfRange));
      }
      ghost var s := Links();
      CompressKeeps(s, x);
      if x != parent[x] {
        var up := Find(parent[x]);
        parent := parent[x := up.value];
      }
      return Ok(parent[x]);
    }

    /** The tail of merge: hang the root of lower rank under the other; on a tie rootX goes under rootY, whose rank grows. */
    method LinkRoots(rootX: int, rootY: int)
      requires Valid() && 0 <= rootX < size && 0 <= rootY < size && rootX != rootY
      requires parent[rootX] == rootX && parent[rootY] == rootY
      modifies this
      ensures Valid() && data == old(data) && size == old(size)
      ensures Links() == Link(old(Links()), rootX, rootY)
    {
      ghost var s := Links();
      LinkForest(s, rootX, rootY);
      if rank[rootX] < rank[rootY] {
        parent := parent[rootX := rootY];
      } else if rank[rootX] > rank[rootY] {
        parent := parent[rootY := rootX];
      } else {
        parent := parent[rootX := rootY];
        rank := rank[rootY := rank[rootY] + 1];
      }
      assert Links() == Link(s, rootX, rootY);
    }

    /**
     * merge(x, y): out_of_range if either is outside [0, size); otherwise
     * find both roots and, if they differ, link them by rank.
     */
    method Merge(x: int, y: int) returns (r: Outcome)
      requires Valid()
      modifies this
      ensures Valid() && data == old(data) && size == old(size)
      ensures r.Fail? <==> !(0 <= x < size && 0 <= y < size)
      ensures r.Fail? ==> r.error == OutOfRange(IndexOutOfRange) && Links() == old(Links())
      ensures r.Done? ==> Links() == MergeF(old(Links()), x, y)
    {
      if x < 0 || x >= size || y < 0 || y >= size {
        return Fail(OutOfRange(IndexOutOfRange));
      }
      ghost var s := Sets(parent, rank);
      var fx := Find(x);
      var rootX := fx.value;
      ghost var s1 := Sets(parent, rank);
      var fy := Find(y);
      var rootY := fy.value;
      ghost var s2 := Sets(parent, rank);
      MergeSteps(s, s1, s2, x, y);
      if rootX == rootY {
        return Done;
      }
      LinkRoots(rootX, rootY);
      return Done;
    }

    /** isConnected(x, y): out_of_range if either is outside [0, size); otherwise whether they share a root. */
    method IsConnected(x: int, y: int) returns (r: Result<bool>)
      requires Valid()
      ensures r.Err? <==> !(0 <= x < size && 0 <= y < size)
      ensures r.Err? ==> r.error == OutOfRange(IndexOutOfRange)
      ensures r.Ok? ==> (r.value <==> Connected(Links(), x, y))
    {
      if x < 0 || x >= size || y < 0 || y >= size {
        return Err(OutOfRange(IndexOutOfRange));
      }
      var fx := FindConst(x);
      var fy := FindConst(y);
      return Ok(fx.value == fy.value);
    }

    /** getSize() */
    method GetSize() returns (n: int)
      requires Valid()
      ensures n == |parent|
    {
      return size;
    }

    /** getSetCount(): the number of elements that are their own parent, one per set. */
    method GetSetCount() returns (count: int)
      requires Valid()
      ensures count == |Roots(Links())|
    {
      count := 0;
      for i := 0 to size
        invariant count == |RootsBelow(Links(), i)|
      {
        RootsBelowStep(Links(), i);
        if parent[i] == i {
          count := count + 1;
        }
      }
    }

    /** getRank(x): out_of_range outside [0, size), otherwise x's rank, which exceeds the rank of each of x's children. */
    method GetRank(x: int) returns (r: Result<int>)
      requires Valid()
      ensures r.Err? <==> !(0 <= x < size)
      ensures r.Err? ==> r.error == OutOfRange(IndexOutOfRange)
      ensures r.Ok? ==> r.value == rank[x] && forall c | 0 <= c < size && c != x && parent[c] == x :: rank[c] < r.value
    {
      if x < 0 || x >= size {
        return Err(OutOfRange(IndexOutOfRange));
      }
      return Ok(rank[x]);
    }
  }
}
