/**
 * Graphic/ListDG: a directed graph over at most MAX_SIZE vertex values,
 * stored as one chain of edge nodes per vertex. The graph is never
 * changed after it is built, so its state is held in constants.
 */
module ListDG {
  import opened Errors
  import opened VertexTable
  import opened GraphCore
  import opened AdjLists

  class ListDG {
    const vertices: seq<int>
    const vertexNum: int
    const edgeNum: int
    /** Each vertex's chain: the indices of its out-neighbours, newest edge first. */
    const lists: seq<seq<int>>

    ghost predicate Valid()
    {
      vertexNum == |vertices| <= MaxSize && |lists| == vertexNum && WellFormed(lists)
    }

    constructor (verts: seq<int>, eNum: int, l: seq<seq<int>>)
      requires |verts| <= MaxSize && |l| == |verts| && WellFormed(l)
      ensures vertices == verts && vertexNum == |verts| && edgeNum == eNum && lists == l
      ensures Valid()
    {
      vertices := verts;
      vertexNum := |verts|;
      edgeNum := eNum;
      lists := l;
    }

    /**
     * The constructor: too many vertices is a runtime error; an edge whose
     * end is not a vertex value is an invalid argument; otherwise every
     * edge (a, b) puts b at the front of a's chain, so v is in u's chain
     * exactly when some edge runs from u to v; the edge count is the
     * number of edges given, and the chains hold one node per edge.
     */
    static method FromEdges(verts: seq<int>, edges: seq<EdgePair>) returns (r: Result<ListDG>)
      ensures r.Err? <==> |verts| > MaxSize || !Known(verts, edges)
      ensures |verts| > MaxSize ==> r.Err? && r.error == RuntimeError(TooManyVertices)
      ensures |verts| <= MaxSize && r.Err? ==> r.error == InvalidArgument(InvalidEdge)
      ensures r.Ok? ==> r.value.Valid() && r.value.vertices == verts && r.value.edgeNum == |edges|
      ensures r.Ok? ==> Built(verts, edges, false, r.value.lists)
      ensures r.Ok? ==> Nodes(r.value.lists) == |edges|
      ensures r.Ok? ==> forall u, v | 0 <= u < |verts| && 0 <= v < |verts| :: v in r.value.lists[u] <==> Joins(verts, edges, u, v)
    {
      if |verts| > MaxSize {
        return Err(RuntimeError(TooManyVertices));
      }
      var built := BuildLists(verts, edges, false);
      if built.Err? {
        return Err(built.error);
      }
      forall u, v | 0 <= u < |verts| && 0 <= v < |verts|
        ensures v in built.value[u] <==> Joins(verts, edges, u, v)
      {
        OutsIn(verts, edges, false, u, v);
      }
      var g := new ListDG(verts, |edges|, built.value);
      return Ok(g);
    }

    /** getPosition: the first index holding the value, or -1. */
    method GetPosition(vertex: int) returns (p: int)
      requires Valid()
      ensures p == Index(vertices, vertex)
      ensures p == -1 <==> vertex !in vertices
    {
      p := VertexTable.GetPosition(vertices, vertex);
    }

    /** hasEdge: both values are vertices and the first one's chain names the second. */
    method HasEdge(v1: int, v2: int) returns (b: bool)
      requires Valid()
      ensures b <==> v1 in vertices && v2 in vertices && Index(vertices, v2) in lists[Index(vertices, v1)]
    {
      var p1 := GetPosition(v1);
      var p2 := GetPosition(v2);
      if p1 == -1 || p2 == -1 {
        return false;
      }
      b := Contains(lists[p1], p2);
    }

    /** getOutNeighbors: the values along the vertex's chain, newest edge first, repeats kept; empty for an unknown value. */
    method GetOutNeighbors(vertex: int) returns (vals: seq<int>)
      requires Valid()
      ensures vertex !in vertices ==> vals == []
      ensures vertex in vertices ==> vals == Values(vertices, lists[Index(vertices, vertex)])
    {
      var p := GetPosition(vertex);
      if p == -1 {
        return [];
      }
      vals := ListValues(vertices, lists[p]);
    }

    /** getInNeighbors: every vertex whose chain names this one, once each, in index order; empty for an unknown value. */
    method GetInNeighbors(vertex: int) returns (vals: seq<int>)
      requires Valid()
      ensures vertex !in vertices ==> vals == []
      ensures vertex in vertices ==> vals == Values(vertices, Sources(lists, Index(vertices, vertex), vertexNum))
    {
      var p := GetPosition(vertex);
      if p == -1 {
        return [];
      }
      vals := InValues(vertices, lists, p);
    }

    /** getOutDegree: the length of the vertex's chain, parallel edges included, or -1 for an unknown value. */
    method GetOutDegree(vertex: int) returns (d: int)
      requires Valid()
      ensures vertex !in vertices ==> d == -1
      ensures vertex in vertices ==> d == |lists[Index(vertices, vertex)]|
    {
      var p := GetPosition(vertex);
      if p == -1 {
        return -1;
      }
      d := Length(lists[p]);
    }

    /**
     * getInDegree: the number of vertices whose chain names this one (the
     * walk breaks at the first match), or -1 for an unknown value; never
     * more than the edges into it that getInDegrees counts.
     */
    method GetInDegree(vertex: int) returns (d: int)
      requires Valid()
      ensures vertex !in vertices ==> d == -1
      ensures vertex in vertices ==> d == |Sources(lists, Index(vertices, vertex), vertexNum)|
      ensures vertex in vertices ==> d <= InCount(lists, {}, Index(vertices, vertex), vertexNum)
    {
      var p := GetPosition(vertex);
      if p == -1 {
        return -1;
      }
      d := SourceCount(lists, p);
      SourcesAtMostEdges(lists, p, vertexNum);
    }

    method GetVertexNum() returns (n: int)
      requires Valid()
      ensures n == |vertices|
    {
      return vertexNum;
    }

    method GetEdgeNum() returns (n: int)
      ensures n == edgeNum
    {
      return edgeNum;
    }

    /** getInDegrees: for every vertex, the number of chain nodes naming it, parallel edges included. */
    method InDegrees() returns (inDegree: seq<int>)
      requires Valid()
      ensures |inDegree| == vertexNum
      ensures forall w | 0 <= w < vertexNum :: inDegree[w] == InCount(lists, {}, w, vertexNum)
    {
      inDegree := EdgeCounts(lists);
    }

    /** DFS(): depth-first from every unvisited vertex in index order, along each chain front first. */
    method Dfs() returns (order: seq<int>, out: seq<int>)
      requires Valid()
      ensures EachOnce(order, vertexNum) && out == Values(vertices, order)
    {
      order := GraphCore.Dfs(lists);
      out := Values(vertices, order);
    }

    /**
     * DFS_NoRecursive(): the stack search. The unvisited neighbours are
     * gathered on a second stack and moved over, which pushes the chain
     * from its back, so they pop front first.
     */
    method DfsNoRecursive() returns (order: seq<int>, out: seq<int>)
      requires Valid()
      ensures EachOnce(order, vertexNum) && out == Values(vertices, order)
    {
      order := GraphCore.DfsNoRecursive(lists);
      out := Values(vertices, order);
    }

    /** BFS(): the queue search from every unvisited vertex in index order. */
    method Bfs() returns (order: seq<int>, out: seq<int>)
      requires Valid()
      ensures EachOnce(order, vertexNum) && out == Values(vertices, order)
    {
      order := GraphCore.Bfs(lists);
      out := Values(vertices, order);
    }

    /**
     * topologicalSort(): Kahn's algorithm on the edge counts. It succeeds
     * exactly when the graph has no cycle, and then lists every vertex once
     * with every edge pointing forward.
     */
    method TopologicalSort() returns (ok: bool, order: seq<int>, out: seq<int>)
      requires Valid()
      ensures ok <==> Acyclic(lists)
      ensures ok <==> |order| == vertexNum
      ensures ok ==> EachOnce(order, vertexNum)
      ensures Distinct(order) && InRange(order, vertexNum) && EdgesForward(lists, order)
      ensures out == Values(vertices, order)
    {
      var inDegree := InDegrees();
      ok, order := GraphCore.TopologicalSort(lists, inDegree);
      out := Values(vertices, order);
    }
  }

  /**
   * Parallel edges: with A -> B given twice, A's out-degree is 2 and
   * getInDegrees counts 2 edges into B, but getInDegree(B) is 1.
   */
  method ParallelExample() returns (outA: int, inB: int, edgesIntoB: int)
    ensures outA == 2 && inB == 1 && edgesIntoB == 2
  {
    var verts := [65, 66];
    var edges := [(65, 66), (65, 66)];
    assert Index(verts, 65) == 0 && Index(verts, 66) == 1;
    var r := ListDG.FromEdges(verts, edges);
    var g := r.value;
    assert g.lists[0] == Outs(verts, edges, false, 0, 2) == [1, 1];
    assert g.lists[1] == Outs(verts, edges, false, 1, 2) == [];
    outA := g.GetOutDegree(65);
    inB := g.GetInDegree(66);
    var inDegree := g.InDegrees();
    edgesIntoB := inDegree[1];
    assert multiset(g.lists[0])[1] == 2 && multiset(g.lists[1])[1] == 0;
    assert InCount(g.lists, {}, 1, 1) == 2;
  }
}
