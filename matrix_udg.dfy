/**
 * Graphic/MatrixUDG: an undirected weighted graph over at most MAX_SIZE
 * vertex values, stored as an adjacency matrix whose non-zero entries are
 * edge weights. The graph is never changed after it is built, so its state
 * is held in constants.
 */
module MatrixUDG {
  import opened Errors
  import opened VertexTable
  import opened AdjMatrix
  import opened GraphCore

  /** The arcs of a row: one per non-zero entry among the first k, in index order, weighted by the entry. */
  function RowArcs(row: seq<int>, k: nat): (a: seq<Arc>)
    requires k <= |row|
    ensures |a| == |Cols(row, k)|
    ensures forall i | 0 <= i < |a| :: a[i] == Arc(Cols(row, k)[i], row[Cols(row, k)[i]])
  {
    if k == 0 then []
    else RowArcs(row, k - 1) + (if row[k - 1] != 0 then [Arc(k - 1, row[k - 1])] else [])
  }

  /** The weighted neighbour sequences Prim scans: each row's non-zero entries, by column. */
  function ArcMatrix(m: seq<seq<int>>, n: nat): (g: seq<seq<Arc>>)
    requires |m| == n && forall i | 0 <= i < n :: |m[i]| == n
    ensures |g| == n && WellFormedArcs(g)
  {
    seq(n, i requires 0 <= i < n => RowArcs(m[i], n))
  }

  /** An arc of weight w from u to v is exactly a non-zero entry w at (u, v): 0 means no edge. */
  lemma ArcMatrixHasArc(m: seq<seq<int>>, n: nat, u: int, v: int, w: int)
    requires |m| == n && forall i | 0 <= i < n :: |m[i]| == n
    ensures HasArc(ArcMatrix(m, n), u, v, w) <==> 0 <= u < n && 0 <= v < n && m[u][v] == w && w != 0
  {
    if 0 <= u < n && 0 <= v < n && m[u][v] == w && w != 0 {
      var g := ArcMatrix(m, n);
      ColsIn(m[u], n, v);
      var j :| 0 <= j < |Cols(m[u], n)| && Cols(m[u], n)[j] == v;
      assert g[u][j] == Arc(v, w);
    }
  }

  /** Every entry agrees with its mirror image. */
  ghost predicate Symmetric(m: seq<seq<int>>, n: int)
    requires Square(m, n)
  {
    forall i, j | 0 <= i < n && 0 <= j < n :: m[i][j] == m[j][i]
  }

  class MatrixUDG {
    const vertices: seq<int>
    const vertexNum: int
    const edgeNum: int
    const matrix: seq<seq<int>>

    ghost predicate Valid()
    {
      vertexNum == |vertices| <= MaxSize && Square(matrix, vertexNum)
    }

    /** Neighbour indices of every vertex, ascending. */
    ghost function Adj(): (adj: seq<seq<int>>)
      requires Valid()
      ensures |adj| == vertexNum && WellFormed(adj)
    {
      MatrixAdj(matrix, vertexNum)
    }

    /** Weighted neighbours of every vertex, ascending. */
    function Arcs(): (g: seq<seq<Arc>>)
      requires Valid()
      ensures |g| == vertexNum && WellFormedArcs(g)
    {
      ArcMatrix(matrix, vertexNum)
    }

    constructor (verts: seq<int>, eNum: int, m: seq<seq<int>>)
      requires |verts| <= MaxSize && Square(m, |verts|)
      ensures vertices == verts && vertexNum == |verts| && edgeNum == eNum && matrix == m
      ensures Valid()
    {
      vertices := verts;
      vertexNum := |verts|;
      edgeNum := eNum;
      matrix := m;
    }

    /**
     * The edge-list constructor: too many vertices is a runtime error; an
     * edge whose end is not a vertex value is an invalid argument;
     * otherwise entry (i, j) is 1 exactly when some edge joins i and j in
     * either direction, so the matrix is symmetric, and the edge count is
     * the number of edges given.
     */
    static method FromEdges(verts: seq<int>, edges: seq<EdgePair>) returns (r: Result<MatrixUDG>)
      ensures r.Err? <==> |verts| > MaxSize || !Known(verts, edges)
      ensures |verts| > MaxSize ==> r.Err? && r.error == RuntimeError(TooManyVertices)
      ensures |verts| <= MaxSize && r.Err? ==> r.error == InvalidArgument(InvalidEdge)
      ensures r.Ok? ==> r.value.Valid() && r.value.vertices == verts && r.value.edgeNum == |edges|
      ensures r.Ok? ==> Filled(verts, edges, true, r.value.matrix) && Symmetric(r.value.matrix, |verts|)
    {
      if |verts| > MaxSize {
        return Err(RuntimeError(TooManyVertices));
      }
      var filled := FillMatrix(verts, edges, true);
      if filled.Err? {
        return Err(filled.error);
      }
      var g := new MatrixUDG(verts, |edges|, filled.value);
      return Ok(g);
    }

    /**
     * The matrix constructor: copies the leading vertexNum-square of the
     * given matrix and counts the non-zero entries strictly above the
     * diagonal as the edges.
     */
    static method FromMatrix(verts: seq<int>, mat: seq<seq<int>>) returns (r: Result<MatrixUDG>)
      requires |verts| <= MaxSize ==> |verts| <= |mat| && forall i | 0 <= i < |verts| :: |verts| <= |mat[i]|
      ensures r.Err? <==> |verts| > MaxSize
      ensures r.Err? ==> r.error == RuntimeError(TooManyVertices)
      ensures r.Ok? ==> r.value.Valid() && r.value.vertices == verts
      ensures r.Ok? ==> forall i, j | 0 <= i < |verts| && 0 <= j < |verts| :: r.value.matrix[i][j] == mat[i][j]
      ensures r.Ok? ==> r.value.edgeNum == Upper(r.value.matrix, |verts|, |verts|)
    {
      if |verts| > MaxSize {
        return Err(RuntimeError(TooManyVertices));
      }
      var m, count := CopyMatrix(mat, |verts|, true);
      var g := new MatrixUDG(verts, count, m);
      return Ok(g);
    }

    /** getPosition: the first index holding the value, or -1. */
    method GetPosition(vertex: int) returns (p: int)
      requires Valid()
      ensures p == Index(vertices, vertex)
      ensures p == -1 <==> vertex !in vertices
    {
      p := VertexTable.GetPosition(vertices, vertex);
    }

    /** hasEdge: both values are vertices and their entry is non-zero. */
    method HasEdge(v1: int, v2: int) returns (b: bool)
      requires Valid()
      ensures b <==> v1 in vertices && v2 in vertices && matrix[Index(vertices, v1)][Index(vertices, v2)] != 0
      ensures b <==> v1 in vertices && v2 in vertices && Index(vertices, v2) in Adj()[Index(vertices, v1)]
    {
      var p1 := GetPosition(v1);
      var p2 := GetPosition(v2);
      if p1 == -1 || p2 == -1 {
        return false;
      }
      ColsIn(matrix[p1], vertexNum, p2);
      return matrix[p1][p2] != 0;
    }

    /** getNeighbors: the values at the non-zero entries of the vertex's row, by index; empty for an unknown value. */
    method GetNeighbors(vertex: int) returns (vals: seq<int>)
      requires Valid()
      ensures vertex !in vertices ==> vals == []
      ensures vertex in vertices ==> vals == Values(vertices, Adj()[Index(vertices, vertex)])
    {
      var p := GetPosition(vertex);
      if p == -1 {
        return [];
      }
      vals := OutValues(vertices, matrix, p);
    }

    method GetVertexNum() returns (n: int)
      requires Valid()
      ensures n == |vertices|
    {
      return vertexNum;
    }

    method GetEdgeNum() returns (n: int)
      ensures n == edgeNum
    {
      return edgeNum;
    }

    /** DFS(): depth-first from every unvisited vertex in index order; it prints every vertex once. */
    method Dfs() returns (order: seq<int>, out: seq<int>)
      requires Valid()
      ensures EachOnce(order, vertexNum) && out == Values(vertices, order)
    {
      var adj := AdjOf(matrix, vertexNum);
      order := GraphCore.Dfs(adj);
      out := Values(vertices, order);
    }

    /** DFS_NoRecursive(): the stack search; a row is pushed from its last column down, so it pops in index order. */
    method DfsNoRecursive() returns (order: seq<int>, out: seq<int>)
      requires Valid()
      ensures EachOnce(order, vertexNum) && out == Values(vertices, order)
    {
      var adj := AdjOf(matrix, vertexNum);
      order := GraphCore.DfsNoRecursive(adj);
      out := Values(vertices, order);
    }

    /** BFS(): the queue search from every unvisited vertex in index order. */
    method Bfs() returns (order: seq<int>, out: seq<int>)
      requires Valid()
      ensures EachOnce(order, vertexNum) && out == Values(vertices, order)
    {
      var adj := AdjOf(matrix, vertexNum);
      order := GraphCore.Bfs(adj);
      out := Values(vertices, order);
    }

    /**
     * Prim(start): invalid_argument for a start outside the vertices;
     * otherwise the tree grown over the non-zero entries from start, each
     * vertex reachable from start included once, hung from an earlier
     * vertex by an entry equal to its weight, and the total the sum of
     * those weights.
     */
    method Prim(start: int) returns (r: Result<Span>)
      requires Valid()
      ensures r.Err? <==> !(0 <= start < vertexNum)
      ensures r.Err? ==> r.error == InvalidArgument(InvalidStart)
      ensures r.Ok? ==> SpanningTree(Arcs(), start, r.value)
      ensures r.Ok? ==> forall i | 1 <= i < |r.value.order| ::
        var v := r.value.order[i];
        matrix[r.value.parent[v]][v] == r.value.weights[v] != 0
    {
      r := GraphCore.Prim(Arcs(), start);
      if r.Ok? {
        forall i | 1 <= i < |r.value.order|
          ensures matrix[r.value.parent[r.value.order[i]]][r.value.order[i]] == r.value.weights[r.value.order[i]] != 0
        {
          var v := r.value.order[i];
          ArcMatrixHasArc(matrix, vertexNum, r.value.parent[v], v, r.value.weights[v]);
        }
      }
    }
  }

  /** An edge list gives a symmetric matrix, so hasEdge answers the same both ways round. */
  method UndirectedExample() returns (forward: bool, backward: bool, count: int)
    ensures forward && backward && count == 1
  {
    var verts := [65, 66];
    var edges := [(65, 66)];
    assert Index(verts, 65) == 0 && Index(verts, 66) == 1;
    var r := MatrixUDG.FromEdges(verts, edges);
    var g := r.value;
    assert Joins(verts, edges, 0, 1) by {
      assert Index(verts, edges[0].0) == 0 && Index(verts, edges[0].1) == 1;
    }
    forward := g.HasEdge(65, 66);
    backward := g.HasEdge(66, 65);
    count := g.GetEdgeNum();
  }
}
