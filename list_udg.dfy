/**
 * Graphic/ListUDG: an undirected graph over at most MAX_SIZE vertex
 * values, stored as one chain of edge nodes per vertex; every edge node
 * carries the default weight 1. The graph is never changed after it is
 * built, so its state is held in constants.
 */
module ListUDG {
  import opened Errors
  import opened VertexTable
  import opened GraphCore
  import opened AdjLists

  /** The weighted chains Prim walks: every node an arc of weight 1 to its vertex. */
  function UnitArcs(lists: seq<seq<int>>): (g: seq<seq<Arc>>)
    requires WellFormed(lists)
    ensures |g| == |lists| && WellFormedArcs(g)
    ensures forall u | 0 <= u < |lists| :: |g[u]| == |lists[u]|
    ensures forall u, j | 0 <= u < |lists| && 0 <= j < |lists[u]| :: g[u][j] == Arc(lists[u][j], 1)
  {
    seq(|lists|, u requires 0 <= u < |lists| => seq(|lists[u]|, j requires 0 <= j < |lists[u]| => Arc(lists[u][j], 1)))
  }

  /** With the start weighing 0 and every later vertex 1, the weights along order add up to one less than its length. */
  lemma {:induction false} WeightSumUnit(weights: seq<int>, order: seq<int>)
    requires InRange(order, |weights|) && order != [] && weights[order[0]] == 0
    requires forall i | 1 <= i < |order| :: weights[order[i]] == 1
    ensures WeightSum(weights, order) == |order| - 1
    decreases |order|
  {
    if |order| > 1 {
      var o := order[..|order| - 1];
      assert o[0] == order[0];
      forall i | 1 <= i < |o|
        ensures weights[o[i]] == 1
      {
        assert o[i] == order[i];
      }
      WeightSumUnit(weights, o);
    }
  }

  class ListUDG {
    const vertices: seq<int>
    const vertexNum: int
    const edgeNum: int
    /** Each vertex's chain: the indices of its neighbours, newest edge first. */
    const lists: seq<seq<int>>

    ghost predicate Valid()
    {
      vertexNum == |vertices| <= MaxSize && |lists| == vertexNum && WellFormed(lists)
    }

    /** The chains as Prim reads them, every edge weighing 1. */
    function Arcs(): (g: seq<seq<Arc>>)
      requires Valid()
      ensures |g| == vertexNum && WellFormedArcs(g)
    {
      UnitArcs(lists)
    }

    constructor (verts: seq<int>, eNum: int, l: seq<seq<int>>)
      requires |verts| <= MaxSize && |l| == |verts| && WellFormed(l)
      ensures vertices == verts && vertexNum == |verts| && edgeNum == eNum && lists == l
      ensures Valid()
    {
      vertices := verts;
      vertexNum := |verts|;
      edgeNum := eNum;
      lists := l;
    }

    /**
     * The constructor: too many vertices is a runtime error; an edge whose
     * end is not a vertex value is an invalid argument; otherwise every
     * edge (a, b) puts b at the front of a's chain and then a at the front
     * of b's, so v is in u's chain exactly when some edge joins them in
     * either direction, which makes hasEdge symmetric. The edge count is
     * the number of edges given, and the chains hold two nodes per edge, so
     * the degrees add up to twice the edge count.
     */
    static method FromEdges(verts: seq<int>, edges: seq<EdgePair>) returns (r: Result<ListUDG>)
      ensures r.Err? <==> |verts| > MaxSize || !Known(verts, edges)
      ensures |verts| > MaxSize ==> r.Err? && r.error == RuntimeError(TooManyVertices)
      ensures |verts| <= MaxSize && r.Err? ==> r.error == InvalidArgument(InvalidEdge)
      ensures r.Ok? ==> r.value.Valid() && r.value.vertices == verts && r.value.edgeNum == |edges|
      ensures r.Ok? ==> Built(verts, edges, true, r.value.lists)
      ensures r.Ok? ==> Nodes(r.value.lists) == 2 * |edges|
      ensures r.Ok? ==> forall u, v | 0 <= u < |verts| && 0 <= v < |verts| ::
        v in r.value.lists[u] <==> Joins(verts, edges, u, v) || Joins(verts, edges, v, u)
      ensures r.Ok? ==> forall u, v | 0 <= u < |verts| && 0 <= v < |verts| :: v in r.value.lists[u] <==> u in r.value.lists[v]
    {
      if |verts| > MaxSize {
        return Err(RuntimeError(TooManyVertices));
      }
      var built := BuildLists(verts, edges, true);
      if built.Err? {
        return Err(built.error);
      }
      forall u, v | 0 <= u < |verts| && 0 <= v < |verts|
        ensures v in built.value[u] <==> Joins(verts, edges, u, v) || Joins(verts, edges, v, u)
      {
        OutsIn(verts, edges, true, u, v);
      }
      var g := new ListUDG(verts, |edges|, built.value);
      return Ok(g);
    }

    /** getPosition: the first index holding the value, or -1. */
    method GetPosition(vertex: int) returns (p: int)
      requires Valid()
      ensures p == Index(vertices, vertex)
      ensures p == -1 <==> vertex !in vertices
    {
      p := VertexTable.GetPosition(vertices, vertex);
    }

    /** hasEdge: both values are vertices and the first one's chain names the second. */
    method HasEdge(v1: int, v2: int) returns (b: bool)
      requires Valid()
      ensures b <==> v1 in vertices && v2 in vertices && Index(vertices, v2) in lists[Index(vertices, v1)]
    {
      var p1 := GetPosition(v1);
      var p2 := GetPosition(v2);
      if p1 == -1 || p2 == -1 {
        return false;
      }
      b := Contains(lists[p1], p2);
    }

    /** getNeighbors: the values along the vertex's chain, newest edge first, repeats kept; empty for an unknown value. */
    method GetNeighbors(vertex: int) returns (vals: seq<int>)
      requires Valid()
      ensures vertex !in vertices ==> vals == []
      ensures vertex in vertices ==> vals == Values(vertices, lists[Index(vertices, vertex)])
    {
      var p := GetPosition(vertex);
      if p == -1 {
        return [];
      }
      vals := ListValues(vertices, lists[p]);
    }

    /** getDegree: the length of the vertex's chain, or -1 for an unknown value; getNeighbors has that many entries. */
    method GetDegree(vertex: int) returns (d: int)
      requires Valid()
      ensures vertex !in vertices ==> d == -1
      ensures vertex in vertices ==> d == |lists[Index(vertices, vertex)]|
    {
      var p := GetPosition(vertex);
      if p == -1 {
        return -1;
      }
      d := Length(lists[p]);
    }

    method GetVertexNum() returns (n: int)
      requires Valid()
      ensures n == |vertices|
    {
      return vertexNum;
    }

    method GetEdgeNum() returns (n: int)
      ensures n == edgeNum
    {
      return edgeNum;
    }

    /** DFS(): depth-first from every unvisited vertex in index order, along each chain front first. */
    method Dfs() returns (order: seq<int>, out: seq<int>)
      requires Valid()
      ensures EachOnce(order, vertexNum) && out == Values(vertices, order)
    {
      order := GraphCore.Dfs(lists);
      out := Values(vertices, order);
    }

    /**
     * DFS_NoRecursive(): the stack search. The unvisited neighbours are
     * gathered on a second stack and moved over, which pushes the chain
     * from its back, so they pop front first.
     */
    method DfsNoRecursive() returns (order: seq<int>, out: seq<int>)
      requires Valid()
      ensures EachOnce(order, vertexNum) && out == Values(vertices, order)
    {
      order := GraphCore.DfsNoRecursive(lists);
      out := Values(vertices, order);
    }

    /** BFS(): the queue search from every unvisited vertex in index order. */
    method Bfs() returns (order: seq<int>, out: seq<int>)
      requires Valid()
      ensures EachOnce(order, vertexNum) && out == Values(vertices, order)
    {
      order := GraphCore.Bfs(lists);
      out := Values(vertices, order);
    }

    /**
     * Prim(start): invalid_argument for a start outside the vertices;
     * otherwise the tree grown along the chains from start, each vertex
     * reachable from start included once and hung from an earlier one.
     * Every edge weighs 1, so the total is one less than the number of
     * vertices included.
     */
    method Prim(start: int) returns (r: Result<Span>)
      requires Valid()
      ensures r.Err? <==> !(0 <= start < vertexNum)
      ensures r.Err? ==> r.error == InvalidArgument(InvalidStart)
      ensures r.Ok? ==> SpanningTree(Arcs(), start, r.value)
      ensures r.Ok? ==> r.value.total == |r.value.order| - 1
    {
      var g := Arcs();
      r := GraphCore.Prim(g, start);
      if r.Ok? {
        var sp := r.value;
        forall i | 1 <= i < |sp.order|
          ensures sp.weights[sp.order[i]] == 1
        {
          var u, v := sp.parent[sp.order[i]], sp.order[i];
          var j :| 0 <= j < |g[u]| && g[u][j] == Arc(v, sp.weights[v]);
        }
        WeightSumUnit(sp.weights, sp.order);
      }
    }
  }

  /** Every edge is stored at both ends, so hasEdge answers the same both ways round. */
  method UndirectedExample() returns (forward: bool, backward: bool, count: int)
    ensures forward && backward && count == 1
  {
    var verts := [65, 66];
    var edges := [(65, 66)];
    assert Index(verts, 65) == 0 && Index(verts, 66) == 1;
    var r := ListUDG.FromEdges(verts, edges);
    var g := r.value;
    assert Joins(verts, edges, 0, 1) by {
      assert Index(verts, edges[0].0) == 0 && Index(verts, edges[0].1) == 1;
    }
    forward := g.HasEdge(65, 66);
    backward := g.HasEdge(66, 65);
    count := g.GetEdgeNum();
  }
}
