/**
 * Graphic/MatrixDG: a directed graph over at most MAX_SIZE vertex values,
 * stored as an adjacency matrix. Entry (i, j) is non-zero when an edge
 * runs from the vertex at index i to the one at index j. The graph is
 * never changed after it is built, so its state is held in constants.
 */
module MatrixDG {
  import opened Errors
  import opened VertexTable
  import opened AdjMatrix
  import opened GraphCore

  class MatrixDG {
    const vertices: seq<int>
    const vertexNum: int
    const edgeNum: int
    const matrix: seq<seq<int>>

    ghost predicate Valid()
    {
      vertexNum == |vertices| <= MaxSize && Square(matrix, vertexNum)
    }

    /** Out-neighbour indices of every vertex, ascending: the order every loop over a row uses. */
    ghost function Adj(): (adj: seq<seq<int>>)
      requires Valid()
      ensures |adj| == vertexNum && WellFormed(adj)
    {
      MatrixAdj(matrix, vertexNum)
    }

    constructor (verts: seq<int>, eNum: int, m: seq<seq<int>>)
      requires |verts| <= MaxSize && Square(m, |verts|)
      ensures vertices == verts && vertexNum == |verts| && edgeNum == eNum && matrix == m
      ensures Valid()
    {
      vertices := verts;
      vertexNum := |verts|;
      edgeNum := eNum;
      matrix := m;
    }

    /**
     * The edge-list constructor: too many vertices is a runtime error; an
     * edge whose end is not a vertex value is an invalid argument;
     * otherwise entry (i, j) is 1 exactly when some edge joins i to j, and
     * the edge count is the number of edges given, repeats included.
     */
    static method FromEdges(verts: seq<int>, edges: seq<EdgePair>) returns (r: Result<MatrixDG>)
      ensures r.Err? <==> |verts| > MaxSize || !Known(verts, edges)
      ensures |verts| > MaxSize ==> r.Err? && r.error == RuntimeError(TooManyVertices)
      ensures |verts| <= MaxSize && r.Err? ==> r.error == InvalidArgument(InvalidEdge)
      ensures r.Ok? ==> r.value.Valid() && r.value.vertices == verts && r.value.edgeNum == |edges|
      ensures r.Ok? ==> Filled(verts, edges, false, r.value.matrix)
    {
      if |verts| > MaxSize {
        return Err(RuntimeError(TooManyVertices));
      }
      var filled := FillMatrix(verts, edges, false);
      if filled.Err? {
        return Err(filled.error);
      }
      var g := new MatrixDG(verts, |edges|, filled.value);
      return Ok(g);
    }

    /**
     * The matrix constructor: copies the leading vertexNum-square of the
     * given matrix and counts every non-zero entry as one edge.
     */
    static method FromMatrix(verts: seq<int>, mat: seq<seq<int>>) returns (r: Result<MatrixDG>)
      requires |verts| <= MaxSize ==> |verts| <= |mat| && forall i | 0 <= i < |verts| :: |verts| <= |mat[i]|
      ensures r.Err? <==> |verts| > MaxSize
      ensures r.Err? ==> r.error == RuntimeError(TooManyVertices)
      ensures r.Ok? ==> r.value.Valid() && r.value.vertices == verts
      ensures r.Ok? ==> forall i, j | 0 <= i < |verts| && 0 <= j < |verts| :: r.value.matrix[i][j] == mat[i][j]
      ensures r.Ok? ==> r.value.edgeNum == DegreeSum(r.value.Adj())
    {
      if |verts| > MaxSize {
        return Err(RuntimeError(TooManyVertices));
      }
      var m, count := CopyMatrix(mat, |verts|, false);
      var g := new MatrixDG(verts, count, m);
      return Ok(g);
    }

    /** getPosition: the first index holding the value, or -1. */
    method GetPosition(vertex: int) returns (p: int)
      requires Valid()
      ensures p == Index(vertices, vertex)
      ensures p == -1 <==> vertex !in vertices
    {
      p := VertexTable.GetPosition(vertices, vertex);
    }

    /** hasEdge: both values are vertices and the entry from the first to the second is non-zero; direction matters. */
    method HasEdge(v1: int, v2: int) returns (b: bool)
      requires Valid()
      ensures b <==> v1 in vertices && v2 in vertices && matrix[Index(vertices, v1)][Index(vertices, v2)] != 0
      ensures b <==> v1 in vertices && v2 in vertices && Index(vertices, v2) in Adj()[Index(vertices, v1)]
    {
      var p1 := GetPosition(v1);
      var p2 := GetPosition(v2);
      if p1 == -1 || p2 == -1 {
        return false;
      }
      ColsIn(matrix[p1], vertexNum, p2);
      return matrix[p1][p2] != 0;
    }

    /** getOutNeighbors: the values at the non-zero entries of the vertex's row, by index; empty for an unknown value. */
    method GetOutNeighbors(vertex: int) returns (vals: seq<int>)
      requires Valid()
      ensures vertex !in vertices ==> vals == []
      ensures vertex in vertices ==> vals == Values(vertices, Adj()[Index(vertices, vertex)])
    {
      var p := GetPosition(vertex);
      if p == -1 {
        return [];
      }
      vals := OutValues(vertices, matrix, p);
    }

    /** getInNeighbors: the values at the non-zero entries of the vertex's column, by index; empty for an unknown value. */
    method GetInNeighbors(vertex: int) returns (vals: seq<int>)
      requires Valid()
      ensures vertex !in vertices ==> vals == []
      ensures vertex in vertices ==> vals == Values(vertices, Rows(matrix, Index(vertices, vertex), vertexNum))
    {
      var p := GetPosition(vertex);
      if p == -1 {
        return [];
      }
      vals := InValues(vertices, matrix, p);
    }

    /** getOutDegree: the number of out-neighbours, or -1 for an unknown value. */
    method GetOutDegree(vertex: int) returns (d: int)
      requires Valid()
      ensures vertex !in vertices ==> d == -1
      ensures vertex in vertices ==> d == |Adj()[Index(vertices, vertex)]|
    {
      var p := GetPosition(vertex);
      if p == -1 {
        return -1;
      }
      d := RowDegree(matrix, vertexNum, p);
    }

    /** getInDegree: the number of edges into the vertex, or -1 for an unknown value. */
    method GetInDegree(vertex: int) returns (d: int)
      requires Valid()
      ensures vertex !in vertices ==> d == -1
      ensures vertex in vertices ==> d == InCount(Adj(), {}, Index(vertices, vertex), vertexNum)
      ensures vertex in vertices ==> d == |Rows(matrix, Index(vertices, vertex), vertexNum)|
    {
      var p := GetPosition(vertex);
      if p == -1 {
        return -1;
      }
      d := ColumnDegree(matrix, vertexNum, p);
    }

    method GetVertexNum() returns (n: int)
      requires Valid()
      ensures n == |vertices|
    {
      return vertexNum;
    }

    method GetEdgeNum() returns (n: int)
      ensures n == edgeNum
    {
      return edgeNum;
    }

    /** DFS(): depth-first from every unvisited vertex in index order; it prints every vertex once. */
    method Dfs() returns (order: seq<int>, out: seq<int>)
      requires Valid()
      ensures EachOnce(order, vertexNum) && out == Values(vertices, order)
    {
      var adj := AdjOf(matrix, vertexNum);
      order := GraphCore.Dfs(adj);
      out := Values(vertices, order);
    }

    /** DFS_NoRecursive(): the stack search; a row is pushed from its last column down, so it pops in index order. */
    method DfsNoRecursive() returns (order: seq<int>, out: seq<int>)
      requires Valid()
      ensures EachOnce(order, vertexNum) && out == Values(vertices, order)
    {
      var adj := AdjOf(matrix, vertexNum);
      order := GraphCore.DfsNoRecursive(adj);
      out := Values(vertices, order);
    }

    /** BFS(): the queue search from every unvisited vertex in index order. */
    method Bfs() returns (order: seq<int>, out: seq<int>)
      requires Valid()
      ensures EachOnce(order, vertexNum) && out == Values(vertices, order)
    {
      var adj := AdjOf(matrix, vertexNum);
      order := GraphCore.Bfs(adj);
      out := Values(vertices, order);
    }

    /** getInDegrees: for every vertex, the number of non-zero entries in its column. */
    method InDegrees() returns (inDegree: seq<int>)
      requires Valid()
      ensures |inDegree| == vertexNum
      ensures forall w | 0 <= w < vertexNum :: inDegree[w] == InCount(Adj(), {}, w, vertexNum)
    {
      inDegree := ColumnDegrees(matrix, vertexNum);
    }

    /**
     * topologicalSort(): Kahn's algorithm. It succeeds exactly when the
     * graph has no cycle, and then lists every vertex once with every edge
     * pointing forward; on a cycle it stops short, still never listing an
     * edge backwards.
     */
    method TopologicalSort() returns (ok: bool, order: seq<int>, out: seq<int>)
      requires Valid()
      ensures ok <==> Acyclic(Adj())
      ensures ok <==> |order| == vertexNum
      ensures ok ==> EachOnce(order, vertexNum)
      ensures Distinct(order) && InRange(order, vertexNum) && EdgesForward(Adj(), order)
      ensures out == Values(vertices, order)
    {
      var inDegree := InDegrees();
      var adj := AdjOf(matrix, vertexNum);
      ok, order := GraphCore.TopologicalSort(adj, inDegree);
      out := Values(vertices, order);
    }
  }

  /** Edges have a direction: with the single edge A -> B, hasEdge(A, B) holds and hasEdge(B, A) does not. */
  method DirectedExample() returns (forward: bool, backward: bool, count: int)
    ensures forward && !backward && count == 1
  {
    var verts := [65, 66];
    var edges := [(65, 66)];
    assert Index(verts, 65) == 0 && Index(verts, 66) == 1;
    var r := MatrixDG.FromEdges(verts, edges);
    var g := r.value;
    assert Joins(verts, edges, 0, 1) by {
      assert Index(verts, edges[0].0) == 0 && Index(verts, edges[0].1) == 1;
    }
    forward := g.HasEdge(65, 66);
    backward := g.HasEdge(66, 65);
    count := g.GetEdgeNum();
  }
}
