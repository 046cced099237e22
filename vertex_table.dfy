/**
 * What the four graphs of Graphic/MatrixDG, MatrixUDG, ListDG and ListUDG
 * share: the vertex values are stored in index order, getPosition finds a
 * value's first index, and edges are given as pairs of vertex values.
 */
module VertexTable {
  import opened Errors

  /** MAX_SIZE, the template parameter's default. */
  const MaxSize := 100

  const TooManyVertices := "Vertex number exceeds maximum size"
  const InvalidEdge := "Invalid vertex in edge"

  /** An edge as the constructors take it: the values of its two ends. */
  type EdgePair = (int, int)

  /** The first index holding x, or -1 when x is not a vertex value. */
  function Index(s: seq<int>, x: int): (p: int)
    ensures -1 <= p < |s|
    ensures p == -1 <==> x !in s
    ensures p != -1 ==> s[p] == x && x !in s[..p]
  {
    if s == [] then -1
    else if s[0] == x then 0
    else
      var q := Index(s[1..], x);
      assert s == [s[0]] + s[1..];
      if q == -1 then -1 else (assert s[..q + 1] == [s[0]] + s[1..][..q]; q + 1)
  }

  /** getPosition(vertex): the loop that returns the first index holding vertex, or -1. */
  method GetPosition(vertices: seq<int>, vertex: int) returns (p: int)
    ensures p == Index(vertices, vertex)
  {
    for i := 0 to |vertices|
      invariant vertex !in vertices[..i]
    {
      if vertices[i] == vertex {
        IndexUnique(vertices, vertex, i);
        return i;
      }
      assert vertices[..i + 1] == vertices[..i] + [vertices[i]];
    }
    assert vertices[..|vertices|] == vertices;
    return -1;
  }

  /** The first occurrence is unique. */
  lemma IndexUnique(s: seq<int>, x: int, i: int)
    requires 0 <= i < |s| && s[i] == x && x !in s[..i]
    ensures Index(s, x) == i
  {
    var p := Index(s, x);
    assert forall q | 0 <= q < i :: s[..i][q] == s[q];
    assert forall q | 0 <= q < p :: s[..p][q] == s[q];
  }

  /** Both ends of every edge are vertex values: the constructors' condition for not throwing. */
  ghost predicate Known(vertices: seq<int>, edges: seq<EdgePair>)
  {
    forall k | 0 <= k < |edges| :: edges[k].0 in vertices && edges[k].1 in vertices
  }

  /** The first k + 1 edges are known when the first k are and the next one's ends are vertex values. */
  lemma KnownNext(vertices: seq<int>, edges: seq<EdgePair>, k: int)
    requires 0 <= k < |edges| && Known(vertices, edges[..k])
    requires edges[k].0 in vertices && edges[k].1 in vertices
    ensures Known(vertices, edges[..k + 1])
  {
    var e := edges[..k + 1];
    forall i | 0 <= i < k + 1
      ensures e[i].0 in vertices && e[i].1 in vertices
    {
      if i < k {
        assert e[i] == edges[..k][i];
      }
    }
  }

  /** Some edge runs from the vertex at index i to the one at index j. */
  ghost predicate Joins(vertices: seq<int>, edges: seq<EdgePair>, i: int, j: int)
  {
    exists k | 0 <= k < |edges| :: Index(vertices, edges[k].0) == i && Index(vertices, edges[k].1) == j
  }

  /** One more edge joins one more pair. */
  lemma JoinsNext(vertices: seq<int>, edges: seq<EdgePair>, k: int, i: int, j: int)
    requires 0 <= k < |edges|
    ensures Joins(vertices, edges[..k + 1], i, j) <==>
            Joins(vertices, edges[..k], i, j) || (Index(vertices, edges[k].0) == i && Index(vertices, edges[k].1) == j)
  {
    var e := edges[..k + 1];
    if Joins(vertices, e, i, j) && !(Index(vertices, edges[k].0) == i && Index(vertices, edges[k].1) == j) {
      var x :| 0 <= x < |e| && Index(vertices, e[x].0) == i && Index(vertices, e[x].1) == j;
      assert edges[..k][x] == e[x];
    }
    if Joins(vertices, edges[..k], i, j) {
      var x :| 0 <= x < k && Index(vertices, edges[..k][x].0) == i && Index(vertices, edges[..k][x].1) == j;
      assert e[x] == edges[..k][x];
    }
    if Index(vertices, edges[k].0) == i && Index(vertices, edges[k].1) == j {
      assert e[k] == edges[k];
    }
  }

  /** The values at the given indices, in order: what a traversal or neighbour list yields. */
  function Values(vertices: seq<int>, idx: seq<int>): (r: seq<int>)
    requires forall i | 0 <= i < |idx| :: 0 <= idx[i] < |vertices|
    ensures |r| == |idx| && forall i | 0 <= i < |idx| :: r[i] == vertices[idx[i]]
  {
    seq(|idx|, i requires 0 <= i < |idx| => vertices[idx[i]])
  }

  lemma ValuesSnoc(vertices: seq<int>, idx: seq<int>, x: int)
    requires forall i | 0 <= i < |idx| :: 0 <= idx[i] < |vertices|
    requires 0 <= x < |vertices|
    ensures Values(vertices, idx + [x]) == Values(vertices, idx) + [vertices[x]]
  {
  }
}
