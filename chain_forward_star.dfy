/**
 * ChainForwardStar<int> of Graphic/ChainForwardStar/ChainForwardStar.hpp:
 * edges live in one growing array; each edge records its target, its weight
 * and the index of the next edge with the same source, and head[v] is the
 * index of v's newest edge (-1 for none), so that v's edges form a chain
 * from head[v], newest first. An undirected graph stores every edge twice,
 * once per direction. The ghost sequence arcs gives, per vertex, the arcs
 * of its chain in chain order.
 */
module ChainForwardStar {
  import opened Errors
  import opened GraphCore

  /** MAX_EDGES, the template parameter's default. */
  const MaxEdges := 1000

  const IndexOutOfRange := "Vertex index out of range"
  const TooManyEdges := "Maximum number of edges exceeded"
  const NotDirected := "Topological sort is only applicable to directed graphs"

  /** A stored edge: its target, its weight, and the next edge of the same source (-1 ends the chain). */
  datatype Edge = Edge(to: int, weight: int, next: int)

  /** Every edge's successor index is -1 or an older edge, so every chain ends. */
  ghost predicate Linked(edges: seq<Edge>)
  {
    forall e | 0 <= e < |edges| :: -1 <= edges[e].next < e
  }

  /** The arcs of the chain that starts at edge i. */
  ghost function ArcsFrom(edges: seq<Edge>, i: int): seq<Arc>
    requires Linked(edges) && -1 <= i < |edges|
    decreases i + 1
  {
    if i == -1 then [] else [Arc(edges[i].to, edges[i].weight)] + ArcsFrom(edges, edges[i].next)
  }

  /** The far ends of a sequence of arcs, in order. */
  function Targets(s: seq<Arc>): (r: seq<int>)
    ensures |r| == |s| && forall k | 0 <= k < |s| :: r[k] == s[k].to
  {
    if s == [] then [] else [s[0].to] + Targets(s[1..])
  }

  /** Every chain from head[v] spells arcs[v]. */
  ghost predicate Chains(edges: seq<Edge>, head: seq<int>, arcs: seq<seq<Arc>>)
  {
    Linked(edges) && |head| == |arcs| &&
    (forall v | 0 <= v < |head| :: -1 <= head[v] < |edges|) &&
    forall v {:trigger ArcsFrom(edges, head[v])} | 0 <= v < |head| :: ArcsFrom(edges, head[v]) == arcs[v]
  }

  /** Appending edges leaves every chain that starts at an old edge as it was. */
  lemma {:induction false} ArcsFromPrefix(edges: seq<Edge>, edges': seq<Edge>, i: int)
    requires Linked(edges) && Linked(edges') && |edges| <= |edges'| && edges'[..|edges|] == edges
    requires -1 <= i < |edges|
    ensures ArcsFrom(edges', i) == ArcsFrom(edges, i)
    decreases i + 1
  {
    if i != -1 {
      assert edges'[i] == edges[i];
      ArcsFromPrefix(edges, edges', edges[i].next);
    }
  }

  /** Appending an edge from v whose successor is v's old head, and making it v's head, prepends its arc to v's arcs. */
  lemma Prepend(edges: seq<Edge>, head: seq<int>, arcs: seq<seq<Arc>>, v: int, to: int, w: int,
                edges': seq<Edge>, head': seq<int>, arcs': seq<seq<Arc>>)
    requires Chains(edges, head, arcs) && 0 <= v < |head|
    requires edges' == edges + [Edge(to, w, head[v])] && head' == head[v := |edges|]
    requires arcs' == arcs[v := [Arc(to, w)] + arcs[v]]
    ensures Chains(edges', head', arcs')
  {
    assert edges'[..|edges|] == edges;
    forall u | 0 <= u < |head|
      ensures ArcsFrom(edges', head'[u]) == arcs'[u]
    {
      ArcsFromPrefix(edges, edges', head[u]);
    }
  }

  /** The number of arcs over all vertices. */
  function ArcCount(arcs: seq<seq<Arc>>): nat
  {
    if arcs == [] then 0 else ArcCount(arcs[..|arcs| - 1]) + |arcs[|arcs| - 1]|
  }

  lemma {:induction false} ArcCountPrepend(arcs: seq<seq<Arc>>, v: int, a: Arc)
    requires 0 <= v < |arcs|
    ensures ArcCount(arcs[v := [a] + arcs[v]]) == ArcCount(arcs) + 1
    decreases |arcs|
  {
    var k := |arcs| - 1;
    if v < k {
      ArcCountPrepend(arcs[..k], v, a);
      assert arcs[v := [a] + arcs[v]][..k] == arcs[..k][v := [a] + arcs[v]];
    } else {
      assert arcs[v := [a] + arcs[v]][..k] == arcs[..k];
    }
  }

  /**
   * The arcs run both ways: u has as many arcs of weight w to v as v has to
   * u, which is what storing every undirected edge once per direction
   * gives.
   */
  ghost predicate Symmetric(arcs: seq<seq<Arc>>)
  {
    forall u, v, w | 0 <= u < |arcs| && 0 <= v < |arcs| :: Count(arcs[u], Arc(v, w)) == Count(arcs[v], Arc(u, w))
  }

  /** addEdge's effect on the arcs: the new arc heads from's chain, and in an undirected graph its reverse then heads to's. */
  function AddArcs(arcs: seq<seq<Arc>>, from: int, to: int, w: int, directed: bool): seq<seq<Arc>>
    requires 0 <= from < |arcs| && 0 <= to < |arcs|
  {
    var a := arcs[from := [Arc(to, w)] + arcs[from]];
    if directed then a else a[to := [Arc(from, w)] + a[to]]
  }

  /** Adding an edge both ways keeps the arcs symmetric. */
  lemma SymmetricAdd(arcs: seq<seq<Arc>>, from: int, to: int, w: int)
    requires Symmetric(arcs) && 0 <= from < |arcs| && 0 <= to < |arcs|
    ensures Symmetric(AddArcs(arcs, from, to, w, false))
  {
    var a := AddArcs(arcs, from, to, w, false);
    forall u, v, x | 0 <= u < |a| && 0 <= v < |a|
      ensures Count(a[u], Arc(v, x)) == Count(arcs[u], Arc(v, x)) + Added(from, to, w, u, v, x)
    {
      AddedCount(arcs, from, to, w, u, v, x);
    }
  }

  /** How many arcs of weight x from u to v adding the edge from--to of weight w both ways stores. */
  function Added(from: int, to: int, w: int, u: int, v: int, x: int): nat
  {
    (if u == from && v == to && x == w then 1 else 0) + (if u == to && v == from && x == w then 1 else 0)
  }

  lemma AddedCount(arcs: seq<seq<Arc>>, from: int, to: int, w: int, u: int, v: int, x: int)
    requires 0 <= from < |arcs| && 0 <= to < |arcs| && 0 <= u < |arcs|
    ensures Count(AddArcs(arcs, from, to, w, false)[u], Arc(v, x)) == Count(arcs[u], Arc(v, x)) + Added(from, to, w, u, v, x)
  {
    var a := arcs[from := [Arc(to, w)] + arcs[from]];
    CountCons(Arc(to, w), arcs[from], Arc(v, x));
    CountCons(Arc(from, w), a[to], Arc(v, x));
  }

  /** How many times a occurs in s. */
  function Count(s: seq<Arc>, a: Arc): nat
  {
    if s == [] then 0 else (if s[0] == a then 1 else 0) + Count(s[1..], a)
  }

  lemma CountCons(b: Arc, s: seq<Arc>, a: Arc)
    ensures Count([b] + s, a) == (if b == a then 1 else 0) + Count(s, a)
  {
    assert ([b] + s)[1..] == s;
  }

  /**
   * The stored form of n vertices' edges: head has one entry per vertex,
   * edgeCount counts the stored edges, the chains spell arcs and every
   * edge's target is a vertex.
   */
  ghost predicate Shape(n: int, edges: seq<Edge>, head: seq<int>, arcs: seq<seq<Arc>>, edgeCount: int)
  {
    |head| == n && Chains(edges, head, arcs) && edgeCount == |edges| == ArcCount(arcs) &&
    forall e | 0 <= e < |edges| :: 0 <= edges[e].to < n
  }

  /**
   * The stored form of a graph: at most MAX_EDGES stored edges, and an
   * undirected graph stores an even number of them and its arcs run both
   * ways.
   */
  ghost predicate Stored(n: int, edges: seq<Edge>, head: seq<int>, arcs: seq<seq<Arc>>, edgeCount: int, directed: bool)
  {
    Shape(n, edges, head, arcs, edgeCount) && edgeCount <= MaxEdges &&
    (!directed ==> edgeCount % 2 == 0 && Symmetric(arcs))
  }

  /** An even count below MAX_EDGES leaves room for two more, because MAX_EDGES is even. */
  lemma EvenRoom(c: int)
    requires c % 2 == 0 && c < MaxEdges
    ensures c + 2 <= MaxEdges && (c + 2) % 2 == 0
  {
    var k := c / 2;
    assert c == 2 * k;
  }

  /** One store of addEdge keeps the stored form, with the new arc heading v's arcs. */
  lemma Push(n: int, edges: seq<Edge>, head: seq<int>, arcs: seq<seq<Arc>>, v: int, to: int, w: int,
             edges': seq<Edge>, head': seq<int>, arcs': seq<seq<Arc>>)
    requires Shape(n, edges, head, arcs, |edges|) && 0 <= v < n && 0 <= to < n
    requires edges' == edges + [Edge(to, w, head[v])] && head' == head[v := |edges|]
    requires arcs' == arcs[v := [Arc(to, w)] + arcs[v]]
    ensures Shape(n, edges', head', arcs', |edges'|)
  {
    Prepend(edges, head, arcs, v, to, w, edges', head', arcs');
    ArcCountPrepend(arcs, v, Arc(to, w));
  }

  class ChainForwardStar {
    var vertices: seq<int>
    var edges: seq<Edge>
    var head: seq<int>
    var edgeCount: int
    var isDirected: bool
    ghost var arcs: seq<seq<Arc>>

    /**
     * head has one entry per vertex and edgeCount counts the stored edges,
     * at most MAX_EDGES; every edge's target is a vertex; the chains spell
     * arcs; an undirected graph stores an even number of edges and its arcs
     * run both ways.
     */
    ghost predicate Valid()
      reads this
    {
      Stored(|vertices|, edges, head, arcs, edgeCount, isDirected)
    }

    /** The neighbour sequences the traversals walk: the targets of each chain. */
    ghost function Adj(): seq<seq<int>>
      reads this
    {
      var a := arcs;
      seq(|a|, v requires 0 <= v < |a| => Targets(a[v]))
    }

    /** Every target in the chains is a vertex. */
    lemma AdjWellFormed()
      requires Valid()
      ensures |Adj()| == |vertices| && WellFormed(Adj())
    {
      forall u, j | 0 <= u < |arcs| && 0 <= j < |arcs[u]|
        ensures 0 <= arcs[u][j].to < |vertices|
      {
        ChainTargets(edges, head[u], |vertices|, j);
      }
    }

    /** ChainForwardStar(vertexNum, directed): vertexNum vertices holding 0, no edges, every head -1. */
    constructor (vertexNum: int, directed: bool)
      requires vertexNum >= 0
      ensures Valid() && isDirected == directed
      ensures vertices == seq(vertexNum, _ => 0) && arcs == seq(vertexNum, _ => []) && edgeCount == 0
    {
      vertices := seq(vertexNum, _ => 0);
      head := seq(vertexNum, _ => -1);
      edges := [];
      edgeCount := 0;
      isDirected := directed;
      arcs := seq(vertexNum, _ => []);
      new;
      assert arcs == seq(|arcs|, _ => []);
      ArcCountEmpty(arcs);
    }

    /**
     * addEdge(from, to, weight): out_of_range when an end is not a vertex;
     * runtime_error once MAX_EDGES edges are stored; otherwise the edge
     * heads from's chain and, in an undirected graph, its reverse then
     * heads to's chain.
     */
    method AddEdge(from: int, to: int, weight: int) returns (r: Outcome)
      requires Valid()
      modifies this
      ensures Valid() && vertices == old(vertices) && isDirected == old(isDirected)
      ensures !(0 <= from < |vertices| && 0 <= to < |vertices|) ==> r == Fail(OutOfRange(IndexOutOfRange))
      ensures 0 <= from < |vertices| && 0 <= to < |vertices| && old(edgeCount) >= MaxEdges ==> r == Fail(RuntimeError(TooManyEdges))
      ensures r.Done? <==> 0 <= from < |vertices| && 0 <= to < |vertices| && old(edgeCount) < MaxEdges
      ensures r.Done? ==> arcs == AddArcs(old(arcs), from, to, weight, isDirected)
      ensures r.Fail? ==> arcs == old(arcs) && edgeCount == old(edgeCount)
    {
      if from < 0 || from >= |vertices| || to < 0 || to >= |vertices| {
        return Fail(OutOfRange(IndexOutOfRange));
      }
      if edgeCount >= MaxEdges {
        return Fail(RuntimeError(TooManyEdges));
      }
      Link(from, to, weight);
      return Done;
    }

    /** The successful addEdge: the edge, and in an undirected graph its reverse, head their chains. */
    method Link(from: int, to: int, weight: int)
      requires Valid() && 0 <= from < |vertices| && 0 <= to < |vertices| && edgeCount < MaxEdges
      modifies this
      ensures Valid() && vertices == old(vertices) && isDirected == old(isDirected)
      ensures arcs == AddArcs(old(arcs), from, to, weight, isDirected)
      ensures edgeCount == old(edgeCount) + (if isDirected then 1 else 2)
    {
      Store(from, to, weight);
      if !isDirected {
        Store(to, from, weight);
        SymmetricAdd(old(arcs), from, to, weight);
        EvenRoom(old(edgeCount));
      }
    }

    /** One edge of addEdge: it is appended with from's old head as its successor and becomes from's head. */
    method Store(from: int, to: int, weight: int)
      requires Shape(|vertices|, edges, head, arcs, edgeCount) && 0 <= from < |vertices| && 0 <= to < |vertices|
      modifies this`edges, this`head, this`edgeCount, this`arcs
      ensures Shape(|vertices|, edges, head, arcs, edgeCount) && edgeCount == old(edgeCount) + 1
      ensures arcs == old(arcs)[from := [Arc(to, weight)] + old(arcs)[from]]
    {
      ghost var (e0, h0) := (edges, head);
      edges := edges + [Edge(to, weight, head[from])];
      head := head[from := edgeCount];
      edgeCount := edgeCount + 1;
      arcs := arcs[from := [Arc(to, weight)] + arcs[from]];
      Push(|vertices|, e0, h0, old(arcs), from, to, weight, edges, head, arcs);
    }

    /** setVertex(index, value): out_of_range for an index that is not a vertex. */
    method SetVertex(index: int, value: int) returns (r: Outcome)
      requires Valid()
      modifies this`vertices
      ensures Valid()
      ensures r.Fail? <==> !(0 <= index < |old(vertices)|)
      ensures r.Fail? ==> r.error == OutOfRange(IndexOutOfRange) && vertices == old(vertices)
      ensures r.Done? ==> vertices == old(vertices)[index := value]
    {
      if index < 0 || index >= |vertices| {
        return Fail(OutOfRange(IndexOutOfRange));
      }
      vertices := vertices[index := value];
      return Done;
    }

    /** getVertex(index): the vertex's value, or out_of_range. */
    method GetVertex(index: int) returns (r: Result<int>)
      requires Valid()
      ensures r.Err? <==> !(0 <= index < |vertices|)
      ensures r.Err? ==> r.error == OutOfRange(IndexOutOfRange)
      ensures r.Ok? ==> r.value == vertices[index]
    {
      if index < 0 || index >= |vertices| {
        return Err(OutOfRange(IndexOutOfRange));
      }
      return Ok(vertices[index]);
    }

    /** getVertexCount(): the number of vertices. */
    method GetVertexCount() returns (n: int)
      requires Valid()
      ensures n == |vertices| == |Adj()|
    {
      return |vertices|;
    }

    /**
     * getEdgeCount(): the stored edges, halved for an undirected graph,
     * whose edges are stored once per direction: the number of arcs, or
     * half of it.
     */
    method GetEdgeCount() returns (n: int)
      requires Valid()
      ensures n == if isDirected then ArcCount(arcs) else ArcCount(arcs) / 2
      ensures !isDirected ==> 2 * n == ArcCount(arcs)
    {
      return if isDirected then edgeCount else edgeCount / 2;
    }

    /** hasEdge(from, to): false for an end that is not a vertex; otherwise whether from's chain reaches to. */
    method HasEdge(from: int, to: int) returns (b: bool)
      requires Valid()
      ensures b <==> 0 <= from < |vertices| && 0 <= to < |vertices| && to in Targets(arcs[from])
    {
      if from < 0 || from >= |vertices| || to < 0 || to >= |vertices| {
        return false;
      }
      var i := head[from];
      while i != -1
        invariant -1 <= i < |edges|
        invariant to in Targets(arcs[from]) <==> to in Targets(ArcsFrom(edges, i))
        decreases i + 1
      {
        TargetsCons(Arc(edges[i].to, edges[i].weight), ArcsFrom(edges, edges[i].next));
        if edges[i].to == to {
          return true;
        }
        i := edges[i].next;
      }
      return false;
    }

    /**
     * getWeight(from, to): INT_MAX for an end that is not a vertex or when
     * no edge leads from from to to; otherwise the weight of the first such
     * edge on from's chain, i.e. the newest one.
     */
    method GetWeight(from: int, to: int) returns (w: int)
      requires Valid()
      ensures w == if 0 <= from < |vertices| && 0 <= to < |vertices| then FirstWeight(arcs[from], to) else IntMax
    {
      if from < 0 || from >= |vertices| || to < 0 || to >= |vertices| {
        return IntMax;
      }
      var i := head[from];
      while i != -1
        invariant -1 <= i < |edges|
        invariant FirstWeight(arcs[from], to) == FirstWeight(ArcsFrom(edges, i), to)
        decreases i + 1
      {
        if edges[i].to == to {
          return edges[i].weight;
        }
        i := edges[i].next;
      }
      return IntMax;
    }

    /** getOutDegree(vertex): -1 for a non-vertex; otherwise the length of its chain. */
    method GetOutDegree(vertex: int) returns (d: int)
      requires Valid()
      ensures d == if 0 <= vertex < |vertices| then |arcs[vertex]| else -1
    {
      if vertex < 0 || vertex >= |vertices| {
        return -1;
      }
      d := 0;
      var i := head[vertex];
      while i != -1
        invariant -1 <= i < |edges|
        invariant d + |ArcsFrom(edges, i)| == |arcs[vertex]|
        decreases i + 1
      {
        d := d + 1;
        i := edges[i].next;
      }
    }

    /**
     * getInDegree(vertex): -1 for a non-vertex; otherwise the number of
     * edges, over every chain, whose target is vertex.
     */
    method GetInDegree(vertex: int) returns (d: int)
      requires Valid()
      ensures d == if 0 <= vertex < |vertices| then InCount(Adj(), {}, vertex, |vertices|) else -1
    {
      if vertex < 0 || vertex >= |vertices| {
        return -1;
      }
      d := 0;
      for i := 0 to |vertices|
        invariant d == InCount(Adj(), {}, vertex, i)
      {
        var c := CountInChain(i, vertex);
        d := d + c;
      }
    }

    /** The inner loop of getInDegree(): the edges on i's chain whose target is vertex. */
    method CountInChain(i: int, vertex: int) returns (c: int)
      requires Valid() && 0 <= i < |vertices|
      ensures c == multiset(Adj()[i])[vertex]
    {
      c := 0;
      var j := head[i];
      while j != -1
        invariant -1 <= j < |edges|
        invariant c + multiset(Targets(ArcsFrom(edges, j)))[vertex] == multiset(Targets(arcs[i]))[vertex]
        decreases j + 1
      {
        TargetsCons(Arc(edges[j].to, edges[j].weight), ArcsFrom(edges, edges[j].next));
        if edges[j].to == vertex {
          c := c + 1;
        }
        j := edges[j].next;
      }
    }

    /** The targets of v's chain, walked from head[v]: what the traversals' inner loops visit. */
    method Neighbours(v: int) returns (nbrs: seq<int>)
      requires Valid() && 0 <= v < |vertices|
      ensures nbrs == Targets(arcs[v])
    {
      nbrs := [];
      var i := head[v];
      while i != -1
        invariant -1 <= i < |edges|
        invariant nbrs + Targets(ArcsFrom(edges, i)) == Targets(arcs[v])
        decreases i + 1
      {
        TargetsCons(Arc(edges[i].to, edges[i].weight), ArcsFrom(edges, edges[i].next));
        nbrs := nbrs + [edges[i].to];
        i := edges[i].next;
      }
    }

    /** Every vertex's chain targets, in vertex order. */
    method AdjList() returns (adj: seq<seq<int>>)
      requires Valid()
      ensures adj == Adj() && WellFormed(adj)
    {
      ghost var all := Adj();
      adj := [];
      for v := 0 to |vertices|
        invariant adj == all[..v]
      {
        var nbrs := Neighbours(v);
        assert all[v] == nbrs;
        PrefixNext(all, v);
        adj := adj + [nbrs];
      }
      AdjWellFormed();
    }

    /** The values of the vertices in order: what a traversal prints. */
    ghost function Values(order: seq<int>): seq<int>
      reads this
      requires InRange(order, |vertices|)
    {
      var vs := vertices;
      seq(|order|, i requires 0 <= i < |order| => vs[order[i]])
    }

    /** The vertices' values in the given order. */
    method ValuesOf(order: seq<int>) returns (out: seq<int>)
      requires Valid() && InRange(order, |vertices|)
      ensures out == Values(order)
    {
      var vs := vertices;
      out := seq(|order|, i requires 0 <= i < |order| => vs[order[i]]);
    }

    /** DFS(): the recursive search from every unvisited vertex in index order, along the chains; it prints every vertex once. */
    method Dfs() returns (order: seq<int>, out: seq<int>)
      requires Valid()
      ensures EachOnce(order, |vertices|) && out == Values(order)
    {
      var adj := AdjList();
      order := GraphCore.Dfs(adj);
      out := ValuesOf(order);
    }

    /** BFS(): the queue search from every unvisited vertex in index order, along the chains; it prints every vertex once. */
    method Bfs() returns (order: seq<int>, out: seq<int>)
      requires Valid()
      ensures EachOnce(order, |vertices|) && out == Values(order)
    {
      var adj := AdjList();
      order := GraphCore.Bfs(adj);
      out := ValuesOf(order);
    }

    /**
     * The in-degree loop of topologicalSort(): every chain is walked and
     * each edge adds one to its target's count.
     */
    method InDegrees() returns (inDegree: seq<int>)
      requires Valid()
      ensures |inDegree| == |vertices|
      ensures forall w | 0 <= w < |vertices| :: inDegree[w] == InCount(Adj(), {}, w, |vertices|)
    {
      var n := |vertices|;
      inDegree := seq(n, _ => 0);
      for i := 0 to n
        invariant |inDegree| == n
        invariant forall w | 0 <= w < n :: inDegree[w] == InCount(Adj(), {}, w, i)
      {
        inDegree := CountChain(i, inDegree);
      }
    }

    /** The inner loop of the in-degree count: one more for the target of every edge on i's chain. */
    method CountChain(i: int, inDegree: seq<int>) returns (inDegree': seq<int>)
      requires Valid() && 0 <= i < |vertices| && |inDegree| == |vertices|
      ensures |inDegree'| == |inDegree|
      ensures forall w | 0 <= w < |inDegree| :: inDegree'[w] == inDegree[w] + multiset(Adj()[i])[w]
    {
      inDegree' := inDegree;
      var j := head[i];
      while j != -1
        invariant -1 <= j < |edges| && |inDegree'| == |inDegree|
        invariant forall w | 0 <= w < |inDegree| :: inDegree'[w] + multiset(Targets(ArcsFrom(edges, j)))[w] == inDegree[w] + multiset(Targets(arcs[i]))[w]
        decreases j + 1
      {
        TargetsCons(Arc(edges[j].to, edges[j].weight), ArcsFrom(edges, edges[j].next));
        var u := edges[j].to;
        inDegree' := inDegree'[u := inDegree'[u] + 1];
        j := edges[j].next;
      }
    }

    /**
     * topologicalSort(): runtime_error for an undirected graph; otherwise
     * Kahn's algorithm over the chains. The result is true exactly when the
     * graph is acyclic, and the printed order puts every edge's source
     * before its target.
     */
    method TopologicalSort() returns (r: Result<bool>, order: seq<int>)
      requires Valid()
      ensures r.Err? <==> !isDirected
      ensures r.Err? ==> r.error == RuntimeError(NotDirected) && order == []
      ensures r.Ok? ==> (r.value <==> Acyclic(Adj())) && (r.value <==> |order| == |vertices|)
      ensures r.Ok? && r.value ==> EachOnce(order, |vertices|)
      ensures Distinct(order) && InRange(order, |vertices|) && EdgesForward(Adj(), order)
    {
      if !isDirected {
        return Err(RuntimeError(NotDirected)), [];
      }
      var inDegree := InDegrees();
      var adj := AdjList();
      var ok;
      ok, order := GraphCore.TopologicalSort(adj, inDegree);
      return Ok(ok), order;
    }
  }

  /** The first weight of an arc to v, or INT_MAX when there is none. */
  function FirstWeight(s: seq<Arc>, v: int): (w: int)
  {
    if s == [] then IntMax else if s[0].to == v then s[0].weight else FirstWeight(s[1..], v)
  }

  lemma PrefixNext<T>(s: seq<T>, k: int)
    requires 0 <= k < |s|
    ensures s[..k + 1] == s[..k] + [s[k]]
  {
  }

  lemma TargetsCons(a: Arc, s: seq<Arc>)
    ensures Targets([a] + s) == [a.to] + Targets(s)
  {
    assert ([a] + s)[1..] == s;
  }

  lemma {:induction false} ArcCountEmpty(arcs: seq<seq<Arc>>)
    requires forall v | 0 <= v < |arcs| :: arcs[v] == []
    ensures ArcCount(arcs) == 0
    decreases |arcs|
  {
    if arcs != [] {
      ArcCountEmpty(arcs[..|arcs| - 1]);
    }
  }

  /** Every arc of a chain comes from an edge of the chain, so its target is a vertex. */
  lemma {:induction false} ChainTargets(edges: seq<Edge>, i: int, n: int, j: int)
    requires Linked(edges) && -1 <= i < |edges| && forall e | 0 <= e < |edges| :: 0 <= edges[e].to < n
    requires 0 <= j < |ArcsFrom(edges, i)|
    ensures 0 <= ArcsFrom(edges, i)[j].to < n
    decreases i + 1
  {
    if j > 0 {
      ChainTargets(edges, edges[i].next, n, j - 1);
    }
  }

  /** After addEdge(from, to, w), hasEdge(from, to) holds and getWeight(from, to) is w: the newest edge heads from's chain. */
  lemma NewestFirst(arcs: seq<seq<Arc>>, from: int, to: int, w: int, directed: bool)
    requires 0 <= from < |arcs| && 0 <= to < |arcs|
    ensures to in Targets(AddArcs(arcs, from, to, w, directed)[from])
    ensures FirstWeight(AddArcs(arcs, from, to, w, directed)[from], to) == w
  {
    var a := AddArcs(arcs, from, to, w, directed);
    assert a[from][0] == Arc(to, w);
  }

  /** addEdge stores one edge in a directed graph and two in an undirected one, so getEdgeCount grows by one either way. */
  lemma EdgeCountAdd(arcs: seq<seq<Arc>>, from: int, to: int, w: int, directed: bool)
    requires 0 <= from < |arcs| && 0 <= to < |arcs|
    ensures ArcCount(AddArcs(arcs, from, to, w, directed)) == ArcCount(arcs) + (if directed then 1 else 2)
  {
    var a := arcs[from := [Arc(to, w)] + arcs[from]];
    ArcCountPrepend(arcs, from, Arc(to, w));
    if !directed {
      ArcCountPrepend(a, to, Arc(from, w));
    }
  }

  /** An arc's presence shows in its count. */
  lemma {:induction false} CountIn(s: seq<Arc>, a: Arc)
    ensures Count(s, a) > 0 <==> a in s
  {
    if s != [] {
      CountIn(s[1..], a);
      assert s == [s[0]] + s[1..];
    }
  }

  /** In an undirected graph an edge u--v shows from both ends. */
  lemma UndirectedSymmetry(arcs: seq<seq<Arc>>, u: int, v: int)
    requires Symmetric(arcs) && 0 <= u < |arcs| && 0 <= v < |arcs|
    ensures v in Targets(arcs[u]) <==> u in Targets(arcs[v])
  {
    Mirror(arcs, u, v);
    Mirror(arcs, v, u);
  }

  lemma Mirror(arcs: seq<seq<Arc>>, u: int, v: int)
    requires Symmetric(arcs) && 0 <= u < |arcs| && 0 <= v < |arcs|
    ensures v in Targets(arcs[u]) ==> u in Targets(arcs[v])
  {
    if v in Targets(arcs[u]) {
      var k :| 0 <= k < |arcs[u]| && arcs[u][k].to == v;
      var w := arcs[u][k].weight;
      CountIn(arcs[u], Arc(v, w));
      CountIn(arcs[v], Arc(u, w));
      var m :| 0 <= m < |arcs[v]| && arcs[v][m] == Arc(u, w);
      assert Targets(arcs[v])[m] == u;
    }
  }

  /**
   * The unit test's undirected run: on four vertices, after addEdge(0, 1)
   * and addEdge(1, 2) the edge 0--1 shows from both ends and getEdgeCount
   * is 2.
   */
  method UndirectedExample() returns (forward: bool, backward: bool, count: int)
    ensures forward && backward && count == 2
  {
    var g := new ChainForwardStar(4, false);
    var r := g.AddEdge(0, 1, 1);
    EdgeCountAdd(seq(4, _ => []), 0, 1, 1, false);
    ghost var a1 := g.arcs;
    r := g.AddEdge(1, 2, 1);
    EdgeCountAdd(a1, 1, 2, 1, false);
    forward := g.HasEdge(0, 1);
    backward := g.HasEdge(1, 0);
    NewestFirst(seq(4, _ => []), 0, 1, 1, false);
    UndirectedSymmetry(g.arcs, 0, 1);
    count := g.GetEdgeCount();
  }
}
