/**
 * The adjacency lists shared by Graphic/ListDG/ListDG.hpp and
 * Graphic/ListUDG/ListUDG.hpp. Every vertex holds a chain of edge nodes,
 * each naming the index of a far end, and a new edge node is always put at
 * the front of its chain. The model keeps each chain as the sequence of
 * indices it holds, front first.
 */
module AdjLists {
  import opened Errors
  import opened VertexTable
  import opened GraphCore

  /**
   * The chain of vertex u after the first k edges, front first. Each edge
   * (a, b) puts b at the front of a's chain; in an undirected graph
   * (both) it then puts a at the front of b's chain.
   */
  ghost function Outs(vertices: seq<int>, edges: seq<EdgePair>, both: bool, u: int, k: nat): seq<int>
    requires k <= |edges|
  {
    if k == 0 then []
    else
      var p1, p2 := Index(vertices, edges[k - 1].0), Index(vertices, edges[k - 1].1);
      (if both && p2 == u then [p1] else []) + (if p1 == u then [p2] else []) + Outs(vertices, edges, both, u, k - 1)
  }

  /** What the edge between the vertices at p1 and p2 puts at the front of u's chain. */
  function Front(both: bool, p1: int, p2: int, u: int): seq<int>
  {
    (if both && p2 == u then [p1] else []) + (if p1 == u then [p2] else [])
  }

  /** v is in the front part of a chain exactly when that edge joins u and v in a direction that counts. */
  lemma FrontIn(both: bool, p1: int, p2: int, u: int, v: int, rest: seq<int>)
    ensures v in Front(both, p1, p2, u) + rest <==>
            (p1 == u && p2 == v) || (both && p2 == u && p1 == v) || v in rest
  {
  }

  /** lists holds, for every vertex, the chain the edge-list constructor builds for it. */
  ghost predicate Built(vertices: seq<int>, edges: seq<EdgePair>, both: bool, lists: seq<seq<int>>)
  {
    |lists| == |vertices| && forall u | 0 <= u < |vertices| :: lists[u] == Outs(vertices, edges, both, u, |edges|)
  }

  /** Some edge among the first k runs from the vertex at i to the one at j, checked one edge at a time. */
  ghost predicate Linked(vertices: seq<int>, edges: seq<EdgePair>, i: int, j: int, k: nat)
    requires k <= |edges|
  {
    k > 0 &&
    (Linked(vertices, edges, i, j, k - 1) || (Index(vertices, edges[k - 1].0) == i && Index(vertices, edges[k - 1].1) == j))
  }

  lemma {:induction false} LinkedJoins(vertices: seq<int>, edges: seq<EdgePair>, i: int, j: int, k: nat)
    requires k <= |edges|
    ensures Linked(vertices, edges, i, j, k) <==> Joins(vertices, edges[..k], i, j)
  {
    if k > 0 {
      LinkedJoins(vertices, edges, i, j, k - 1);
      JoinsNext(vertices, edges, k - 1, i, j);
    }
  }

  /** v is in u's chain after k edges exactly when one of them runs from u to v or, undirected, from v to u. */
  lemma {:induction false} OutsLinked(vertices: seq<int>, edges: seq<EdgePair>, both: bool, u: int, v: int, k: nat)
    requires k <= |edges|
    ensures v in Outs(vertices, edges, both, u, k) <==>
            Linked(vertices, edges, u, v, k) || (both && Linked(vertices, edges, v, u, k))
  {
    if k > 0 {
      var p1, p2 := Index(vertices, edges[k - 1].0), Index(vertices, edges[k - 1].1);
      var prev := Outs(vertices, edges, both, u, k - 1);
      assert Outs(vertices, edges, both, u, k) == Front(both, p1, p2, u) + prev;
      FrontIn(both, p1, p2, u, v, prev);
      OutsLinked(vertices, edges, both, u, v, k - 1);
    }
  }

  /**
   * v is in u's chain exactly when some edge runs from u to v or, in an
   * undirected graph, from v to u.
   */
  lemma OutsIn(vertices: seq<int>, edges: seq<EdgePair>, both: bool, u: int, v: int)
    ensures v in Outs(vertices, edges, both, u, |edges|) <==>
            Joins(vertices, edges, u, v) || (both && Joins(vertices, edges, v, u))
  {
    OutsLinked(vertices, edges, both, u, v, |edges|);
    LinkedJoins(vertices, edges, u, v, |edges|);
    LinkedJoins(vertices, edges, v, u, |edges|);
    assert edges[..|edges|] == edges;
  }

  /** When every edge end is a vertex value, every chain entry is a vertex index. */
  lemma {:induction false} OutsInRange(vertices: seq<int>, edges: seq<EdgePair>, both: bool, u: int, k: nat)
    requires k <= |edges| && Known(vertices, edges)
    ensures forall j | 0 <= j < |Outs(vertices, edges, both, u, k)| :: 0 <= Outs(vertices, edges, both, u, k)[j] < |vertices|
  {
    if k > 0 {
      OutsInRange(vertices, edges, both, u, k - 1);
    }
  }

  /**
   * The edge loop of the edge-list constructors: every edge's ends are
   * looked up by value, an unknown end throws invalid_argument, and
   * otherwise the far end's index is put at the front of the near end's
   * chain (and, undirected, the near end's at the front of the far end's).
   */
  method BuildLists(vertices: seq<int>, edges: seq<EdgePair>, both: bool) returns (r: Result<seq<seq<int>>>)
    ensures r.Err? <==> !Known(vertices, edges)
    ensures r.Err? ==> r.error == InvalidArgument(InvalidEdge)
    ensures r.Ok? ==> Built(vertices, edges, both, r.value) && WellFormed(r.value)
    ensures r.Ok? ==> Nodes(r.value) == if both then 2 * |edges| else |edges|
  {
    var n := |vertices|;
    var lists: seq<seq<int>> := seq(n, _ => []);
    NodesZero(lists, n);
    assert lists[..n] == lists;
    for k := 0 to |edges|
      invariant |lists| == n
      invariant Known(vertices, edges[..k])
      invariant forall u | 0 <= u < n :: lists[u] == Outs(vertices, edges, both, u, k)
      invariant Nodes(lists) == if both then 2 * k else k
    {
      var p1 := GetPosition(vertices, edges[k].0);
      var p2 := GetPosition(vertices, edges[k].1);
      if p1 == -1 || p2 == -1 {
        return Err(InvalidArgument(InvalidEdge));
      }
      ghost var before := lists;
      lists := Prepend(lists, p1, p2, both);
      BuildStep(vertices, edges, both, k, before, lists);
      KnownNext(vertices, edges, k);
    }
    assert edges[..|edges|] == edges;
    forall u | 0 <= u < n
      ensures forall j | 0 <= j < |lists[u]| :: 0 <= lists[u][j] < n
    {
      OutsInRange(vertices, edges, both, u, |edges|);
    }
    return Ok(lists);
  }

  /**
   * One edge's update of the chains: p2 goes to the front of p1's chain
   * and, undirected, then p1 to the front of p2's, one new node each.
   */
  method Prepend(lists: seq<seq<int>>, p1: int, p2: int, both: bool) returns (lists': seq<seq<int>>)
    requires 0 <= p1 < |lists| && 0 <= p2 < |lists|
    ensures |lists'| == |lists|
    ensures forall u | 0 <= u < |lists| :: lists'[u] == Front(both, p1, p2, u) + lists[u]
    ensures Nodes(lists') == Nodes(lists) + if both then 2 else 1
  {
    NodesUpdate(lists, p1, [p2] + lists[p1]);
    lists' := lists[p1 := [p2] + lists[p1]];
    if both {
      NodesUpdate(lists', p2, [p1] + lists'[p2]);
      ghost var mid := lists';
      lists' := lists'[p2 := [p1] + lists'[p2]];
      forall u | 0 <= u < |lists|
        ensures lists'[u] == Front(both, p1, p2, u) + lists[u]
      {
        if u == p1 && u == p2 {
          assert lists'[u] == [p1] + ([p2] + lists[u]);
        }
      }
    }
  }

  /** One edge's prepends turn every vertex's chain after k edges into its chain after k + 1. */
  lemma BuildStep(vertices: seq<int>, edges: seq<EdgePair>, both: bool, k: int, lists: seq<seq<int>>, lists': seq<seq<int>>)
    requires 0 <= k < |edges|
    requires forall u | 0 <= u < |lists| :: lists[u] == Outs(vertices, edges, both, u, k)
    requires |lists'| == |lists|
    requires forall u | 0 <= u < |lists| ::
      lists'[u] == Front(both, Index(vertices, edges[k].0), Index(vertices, edges[k].1), u) + lists[u]
    ensures forall u | 0 <= u < |lists| :: lists'[u] == Outs(vertices, edges, both, u, k + 1)
  {
  }

  /** The number of edge nodes over all chains. */
  function Nodes(lists: seq<seq<int>>): nat
  {
    if lists == [] then 0 else Nodes(lists[..|lists| - 1]) + |lists[|lists| - 1]|
  }

  /** Replacing one chain changes the node count by the difference in length. */
  lemma {:induction false} NodesUpdate(lists: seq<seq<int>>, i: int, x: seq<int>)
    requires 0 <= i < |lists|
    ensures Nodes(lists[i := x]) + |lists[i]| == Nodes(lists) + |x|
    decreases |lists|
  {
    var last := |lists| - 1;
    assert lists[i := x][..last] == if i == last then lists[..last] else lists[..last][i := x];
    if i < last {
      NodesUpdate(lists[..last], i, x);
    }
  }

  lemma {:induction false} NodesZero(l: seq<seq<int>>, m: nat)
    requires m <= |l| && forall u | 0 <= u < |l| :: l[u] == []
    ensures Nodes(l[..m]) == 0
  {
    if m > 0 {
      assert l[..m][..m - 1] == l[..m - 1];
      NodesZero(l, m - 1);
    }
  }

  /** The walk of hasEdge along a chain: it stops at the first node naming p. */
  method Contains(list: seq<int>, p: int) returns (b: bool)
    ensures b <==> p in list
  {
    var i := 0;
    while i < |list|
      invariant 0 <= i <= |list| && p !in list[..i]
    {
      if list[i] == p {
        return true;
      }
      assert list[..i + 1] == list[..i] + [list[i]];
      i := i + 1;
    }
    assert list[..i] == list;
    return false;
  }

  /** The walk of getOutNeighbors and getNeighbors: the value of every node's vertex, front first. */
  method ListValues(vertices: seq<int>, list: seq<int>) returns (vals: seq<int>)
    requires forall j | 0 <= j < |list| :: 0 <= list[j] < |vertices|
    ensures vals == Values(vertices, list)
  {
    vals := [];
    for j := 0 to |list|
      invariant vals == Values(vertices, list[..j])
    {
      ValuesSnoc(vertices, list[..j], list[j]);
      assert list[..j + 1] == list[..j] + [list[j]];
      vals := vals + [vertices[list[j]]];
    }
    assert list[..|list|] == list;
  }

  /** The walk of getOutDegree and getDegree: one count per node of the chain. */
  method Length(list: seq<int>) returns (d: int)
    ensures d == |list|
  {
    d := 0;
    var rest := list;
    while rest != []
      invariant d + |rest| == |list|
    {
      d := d + 1;
      rest := rest[1..];
    }
  }

  /** The vertices below k whose chain names p, ascending: every source of p once, however many edges it sends. */
  function Sources(lists: seq<seq<int>>, p: int, k: nat): (s: seq<int>)
    requires k <= |lists|
    ensures forall a | 0 <= a < |s| :: 0 <= s[a] < k && p in lists[s[a]]
    ensures forall a, b | 0 <= a < b < |s| :: s[a] < s[b]
  {
    if k == 0 then [] else Sources(lists, p, k - 1) + (if p in lists[k - 1] then [k - 1] else [])
  }

  /** Sources lists exactly the vertices whose chain names p. */
  lemma {:induction false} SourcesIn(lists: seq<seq<int>>, p: int, k: nat, i: int)
    requires k <= |lists|
    ensures i in Sources(lists, p, k) <==> 0 <= i < k && p in lists[i]
  {
    if k > 0 {
      SourcesIn(lists, p, k - 1, i);
    }
  }

  /**
   * Counting sources (getInDegree, with its break) never exceeds counting
   * edges (getInDegrees): a source with parallel edges counts once.
   */
  lemma {:induction false} SourcesAtMostEdges(lists: seq<seq<int>>, p: int, k: nat)
    requires k <= |lists|
    ensures |Sources(lists, p, k)| <= InCount(lists, {}, p, k)
  {
    if k > 0 {
      SourcesAtMostEdges(lists, p, k - 1);
      if p in lists[k - 1] {
        assert multiset(lists[k - 1])[p] >= 1;
      }
    }
  }

  /**
   * The loop of getInNeighbors: every vertex in index order whose chain
   * names p contributes its value once, the walk stopping at the first
   * match.
   */
  method InValues(vertices: seq<int>, lists: seq<seq<int>>, p: int) returns (vals: seq<int>)
    requires |lists| == |vertices|
    ensures vals == Values(vertices, Sources(lists, p, |lists|))
  {
    vals := [];
    for i := 0 to |lists|
      invariant vals == Values(vertices, Sources(lists, p, i))
    {
      var found := Contains(lists[i], p);
      if found {
        ValuesSnoc(vertices, Sources(lists, p, i), i);
        vals := vals + [vertices[i]];
      }
    }
  }

  /** The loop of getInDegree: the number of vertices whose chain names p. */
  method SourceCount(lists: seq<seq<int>>, p: int) returns (d: int)
    ensures d == |Sources(lists, p, |lists|)|
  {
    d := 0;
    for i := 0 to |lists|
      invariant d == |Sources(lists, p, i)|
    {
      var found := Contains(lists[i], p);
      if found {
        d := d + 1;
      }
    }
  }

  /** One chain's walk in getInDegrees: every node adds one to its vertex's count. */
  method AddChain(inDegree: seq<int>, list: seq<int>) returns (inDegree': seq<int>)
    requires forall j | 0 <= j < |list| :: 0 <= list[j] < |inDegree|
    ensures |inDegree'| == |inDegree|
    ensures forall w | 0 <= w < |inDegree| :: inDegree'[w] == inDegree[w] + multiset(list)[w]
  {
    inDegree' := inDegree;
    for j := 0 to |list|
      invariant |inDegree'| == |inDegree|
      invariant forall w | 0 <= w < |inDegree| :: inDegree'[w] == inDegree[w] + multiset(list[..j])[w]
    {
      assert list[..j + 1] == list[..j] + [list[j]];
      inDegree' := inDegree'[list[j] := inDegree'[list[j]] + 1];
    }
    assert list[..|list|] == list;
  }

  /** getInDegrees: for every vertex, the number of chain nodes naming it, parallel edges included. */
  method EdgeCounts(lists: seq<seq<int>>) returns (inDegree: seq<int>)
    requires WellFormed(lists)
    ensures |inDegree| == |lists|
    ensures forall w | 0 <= w < |lists| :: inDegree[w] == InCount(lists, {}, w, |lists|)
  {
    var n := |lists|;
    inDegree := seq(n, _ => 0);
    for i := 0 to n
      invariant |inDegree| == n
      invariant forall w | 0 <= w < n :: inDegree[w] == InCount(lists, {}, w, i)
    {
      inDegree := AddChain(inDegree, lists[i]);
    }
  }
}
