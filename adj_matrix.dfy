/**
 * The adjacency matrix shared by Graphic/MatrixDG/MatrixDG.hpp and
 * Graphic/MatrixUDG/MatrixUDG.hpp: an n-by-n table of ints, where a
 * non-zero entry m[i][j] is an edge from vertex i to vertex j (its value
 * being the weight, for Prim). Only the first n rows and columns of the
 * MAX_SIZE-square array are ever read, so the model keeps just those.
 */
module AdjMatrix {
  import opened Errors
  import opened VertexTable
  import opened GraphCore

  ghost predicate Square(m: seq<seq<int>>, n: int)
  {
    |m| == n && forall i | 0 <= i < n :: |m[i]| == n
  }

  /** The columns below k whose entry in row is non-zero, ascending: the order every row loop meets them. */
  function Cols(row: seq<int>, k: nat): (c: seq<int>)
    requires k <= |row|
    ensures forall a | 0 <= a < |c| :: 0 <= c[a] < k && row[c[a]] != 0
    ensures forall a, b | 0 <= a < b < |c| :: c[a] < c[b]
  {
    if k == 0 then [] else Cols(row, k - 1) + (if row[k - 1] != 0 then [k - 1] else [])
  }

  /** The rows below k whose entry in column p is non-zero, ascending: p's sources. */
  function Rows(m: seq<seq<int>>, p: int, k: nat): (r: seq<int>)
    requires k <= |m| && 0 <= p && forall i | 0 <= i < |m| :: p < |m[i]|
    ensures forall a | 0 <= a < |r| :: 0 <= r[a] < k && m[r[a]][p] != 0
    ensures forall a, b | 0 <= a < b < |r| :: r[a] < r[b]
  {
    if k == 0 then [] else Rows(m, p, k - 1) + (if m[k - 1][p] != 0 then [k - 1] else [])
  }

  /** The neighbour sequences the traversals walk: each row's non-zero columns, ascending. */
  ghost function MatrixAdj(m: seq<seq<int>>, n: int): (adj: seq<seq<int>>)
    requires Square(m, n)
    ensures |adj| == n && WellFormed(adj)
  {
    seq(n, i requires 0 <= i < n => Cols(m[i], n))
  }

  /** The non-zero columns below k are exactly the ones Cols lists. */
  lemma {:induction false} ColsIn(row: seq<int>, k: nat, p: int)
    requires k <= |row|
    ensures p in Cols(row, k) <==> 0 <= p < k && row[p] != 0
  {
    if k > 0 {
      ColsIn(row, k - 1, p);
    }
  }

  lemma {:induction false} ColsNotTwice(row: seq<int>, k: nat, p: int)
    requires k <= |row|
    ensures multiset(Cols(row, k))[p] <= 1
  {
    if k > 0 {
      ColsNotTwice(row, k - 1, p);
      var c := Cols(row, k - 1);
      if row[k - 1] != 0 {
        assert Cols(row, k) == c + [k - 1];
        assert multiset(c + [k - 1]) == multiset(c) + multiset{k - 1};
        assert k - 1 !in c;
      }
    }
  }

  /** A column appears once among a row's neighbours when its entry is non-zero, and otherwise not at all. */
  lemma ColsCount(row: seq<int>, k: nat, p: int)
    requires k <= |row|
    ensures multiset(Cols(row, k))[p] == if 0 <= p < k && row[p] != 0 then 1 else 0
  {
    ColsIn(row, k, p);
    ColsNotTwice(row, k, p);
  }

  /** The edges into p that Kahn's in-degree counts are exactly p's sources. */
  lemma {:induction false} InCountRows(m: seq<seq<int>>, n: int, p: int, k: nat)
    requires Square(m, n) && 0 <= p < n && k <= n
    ensures InCount(MatrixAdj(m, n), {}, p, k) == |Rows(m, p, k)|
  {
    if k > 0 {
      InCountRows(m, n, p, k - 1);
      ColsCount(m[k - 1], n, p);
    }
  }

  /** The edges of the matrix: every edge's far end, counted from each row. */
  function DegreeSum(adj: seq<seq<int>>): nat
  {
    if adj == [] then 0 else DegreeSum(adj[..|adj| - 1]) + |adj[|adj| - 1]|
  }

  /** The non-zero entries of row at columns lo..k-1. */
  function EntryCount(row: seq<int>, k: nat, lo: int): nat
    requires k <= |row|
  {
    if k == 0 then 0 else EntryCount(row, k - 1, lo) + (if k - 1 >= lo && row[k - 1] != 0 then 1 else 0)
  }

  /** Counting from column 0 counts a row's neighbours. */
  lemma {:induction false} EntryCountCols(row: seq<int>, k: nat)
    requires k <= |row|
    ensures EntryCount(row, k, 0) == |Cols(row, k)|
  {
    if k > 0 {
      EntryCountCols(row, k - 1);
    }
  }

  /** The non-zero entries strictly above the diagonal in the first k rows. */
  function Upper(m: seq<seq<int>>, n: int, k: nat): nat
    requires k <= |m| && forall i | 0 <= i < k :: |m[i]| == n
    requires n >= 0
  {
    if k == 0 then 0 else Upper(m, n, k - 1) + EntryCount(m[k - 1], n, k)
  }

  /**
   * The edges the edge-list constructors store: entry (i, j) is 1 when
   * some edge runs from the vertex at i to the one at j (or, for an
   * undirected graph, from j to i), 0 otherwise.
   */
  ghost predicate Filled(vertices: seq<int>, edges: seq<EdgePair>, symmetric: bool, m: seq<seq<int>>)
  {
    Square(m, |vertices|) &&
    forall i, j | 0 <= i < |vertices| && 0 <= j < |vertices| ::
      m[i][j] == if Joins(vertices, edges, i, j) || (symmetric && Joins(vertices, edges, j, i)) then 1 else 0
  }

  /**
   * The edge loop of the edge-list constructors: the matrix starts at 0,
   * and each edge, looked up by value, sets its entry to 1 (and, for an
   * undirected graph, the mirrored entry too); an edge with an unknown end
   * throws invalid_argument.
   */
  method FillMatrix(vertices: seq<int>, edges: seq<EdgePair>, symmetric: bool) returns (r: Result<seq<seq<int>>>)
    ensures r.Err? <==> !Known(vertices, edges)
    ensures r.Err? ==> r.error == InvalidArgument(InvalidEdge)
    ensures r.Ok? ==> Filled(vertices, edges, symmetric, r.value)
  {
    var n := |vertices|;
    var m := seq(n, _ => seq(n, _ => 0));
    for k := 0 to |edges|
      invariant Known(vertices, edges[..k]) && Filled(vertices, edges[..k], symmetric, m)
    {
      var p1 := GetPosition(vertices, edges[k].0);
      var p2 := GetPosition(vertices, edges[k].1);
      if p1 == -1 || p2 == -1 {
        return Err(InvalidArgument(InvalidEdge));
      }
      var m' := SetEdge(m, n, p1, p2, symmetric);
      FillStep(vertices, edges, symmetric, k, p1, p2, m, m');
      KnownNext(vertices, edges, k);
      m := m';
    }
    assert edges[..|edges|] == edges;
    return Ok(m);
  }

  /** One edge's assignments: entry (p1, p2) becomes 1 and, undirected, (p2, p1) too; every other entry stays. */
  method SetEdge(m: seq<seq<int>>, n: int, p1: int, p2: int, symmetric: bool) returns (m': seq<seq<int>>)
    requires Square(m, n) && 0 <= p1 < n && 0 <= p2 < n
    ensures Square(m', n)
    ensures forall i, j | 0 <= i < n && 0 <= j < n ::
      m'[i][j] == if (i == p1 && j == p2) || (symmetric && i == p2 && j == p1) then 1 else m[i][j]
  {
    m' := m[p1 := m[p1][p2 := 1]];
    if symmetric {
      m' := m'[p2 := m'[p2][p1 := 1]];
    }
  }

  /** Setting the entries of edge k extends the filled matrix to one more edge. */
  lemma FillStep(vertices: seq<int>, edges: seq<EdgePair>, symmetric: bool, k: int, p1: int, p2: int,
                 m: seq<seq<int>>, m': seq<seq<int>>)
    requires 0 <= k < |edges| && Filled(vertices, edges[..k], symmetric, m)
    requires p1 == Index(vertices, edges[k].0) && p2 == Index(vertices, edges[k].1)
    requires Square(m', |vertices|)
    requires forall i, j | 0 <= i < |vertices| && 0 <= j < |vertices| ::
      m'[i][j] == if (i == p1 && j == p2) || (symmetric && i == p2 && j == p1) then 1 else m[i][j]
    ensures Filled(vertices, edges[..k + 1], symmetric, m')
  {
    forall i, j | 0 <= i < |vertices| && 0 <= j < |vertices|
      ensures m'[i][j] == if Joins(vertices, edges[..k + 1], i, j) || (symmetric && Joins(vertices, edges[..k + 1], j, i)) then 1 else 0
    {
      JoinsNext(vertices, edges, k, i, j);
      JoinsNext(vertices, edges, k, j, i);
    }
  }

  /** The copy loop of one row: its first n entries, and how many of those from column lo on are non-zero. */
  method CopyRow(row: seq<int>, n: int, lo: int) returns (copy: seq<int>, count: int)
    requires 0 <= n <= |row|
    ensures copy == row[..n] && count == EntryCount(copy, n, lo)
  {
    copy := [];
    count := 0;
    for j := 0 to n
      invariant copy == row[..j] && count == EntryCount(copy, j, lo)
    {
      copy := copy + [row[j]];
      if row[j] != 0 && j >= lo {
        count := count + 1;
      }
      EntryCountPrefix(copy, j);
    }
  }

  lemma EntryCountPrefix(row: seq<int>, j: nat)
    requires j < |row|
    ensures EntryCount(row, j, 0) == EntryCount(row[..j], j, 0)
    ensures forall lo :: EntryCount(row, j, lo) == EntryCount(row[..j], j, lo)
  {
    forall lo
      ensures EntryCount(row, j, lo) == EntryCount(row[..j], j, lo)
    {
      EntryCountSame(row, row[..j], j, lo);
    }
  }

  /** The count only reads the first k entries. */
  lemma {:induction false} EntryCountSame(row: seq<int>, row': seq<int>, k: nat, lo: int)
    requires k <= |row| && k <= |row'| && row[..k] == row'[..k]
    ensures EntryCount(row, k, lo) == EntryCount(row', k, lo)
  {
    if k > 0 {
      assert row[k - 1] == row[..k][k - 1];
      assert row[..k - 1] == row[..k][..k - 1];
      assert row'[..k - 1] == row'[..k][..k - 1];
      EntryCountSame(row, row', k - 1, lo);
    }
  }

  /**
   * The matrix constructors' copy loop: the first n rows and columns of mat
   * are copied, counting the non-zero entries (all of them for a directed
   * graph, which is the number of edges; only those above the diagonal for
   * an undirected one, whose edges appear twice).
   */
  method CopyMatrix(mat: seq<seq<int>>, n: int, upper: bool) returns (m: seq<seq<int>>, count: int)
    requires 0 <= n <= |mat| && forall i | 0 <= i < n :: n <= |mat[i]|
    ensures Square(m, n) && forall i, j | 0 <= i < n && 0 <= j < n :: m[i][j] == mat[i][j]
    ensures !upper ==> count == DegreeSum(MatrixAdj(m, n))
    ensures upper ==> count == Upper(m, n, n)
  {
    m := [];
    count := 0;
    for i := 0 to n
      invariant |m| == i && forall a | 0 <= a < i :: m[a] == mat[a][..n]
      invariant !upper ==> count == DegreeSum(seq(i, a requires 0 <= a < i => Cols(m[a], n)))
      invariant upper ==> count == Upper(m, n, i)
    {
      var row, c := CopyRow(mat[i], n, if upper then i + 1 else 0);
      ghost var before := m;
      m := m + [row];
      if !upper {
        EntryCountCols(row, n);
        assert seq(i + 1, a requires 0 <= a < i + 1 => Cols(m[a], n))[..i] == seq(i, a requires 0 <= a < i => Cols(before[a], n));
      } else {
        UpperSame(before, m, n, i);
      }
      count := count + c;
    }
    assert MatrixAdj(m, n) == seq(n, a requires 0 <= a < n => Cols(m[a], n));
  }

  /** Upper only reads the rows it counts. */
  lemma {:induction false} UpperSame(m: seq<seq<int>>, m': seq<seq<int>>, n: int, k: nat)
    requires n >= 0 && k <= |m| && k <= |m'| && m[..k] == m'[..k] && forall i | 0 <= i < k :: |m[i]| == n
    ensures Upper(m, n, k) == Upper(m', n, k)
  {
    if k > 0 {
      assert m[k - 1] == m[..k][k - 1];
      assert m[..k - 1] == m[..k][..k - 1];
      assert m'[..k - 1] == m'[..k][..k - 1];
      UpperSame(m, m', n, k - 1);
    }
  }

  /** A row loop that collects the non-zero columns, ascending. */
  method RowCols(row: seq<int>, n: int) returns (c: seq<int>)
    requires 0 <= n <= |row|
    ensures c == Cols(row, n)
  {
    c := [];
    for j := 0 to n
      invariant c == Cols(row, j)
    {
      if row[j] != 0 {
        c := c + [j];
      }
    }
  }

  /** Every row's non-zero columns, in row order. */
  method AdjOf(m: seq<seq<int>>, n: int) returns (adj: seq<seq<int>>)
    requires Square(m, n)
    ensures adj == MatrixAdj(m, n)
  {
    ghost var all := MatrixAdj(m, n);
    adj := [];
    for i := 0 to n
      invariant adj == all[..i]
    {
      var c := RowCols(m[i], n);
      assert all[..i + 1] == all[..i] + [c];
      adj := adj + [c];
    }
  }

  /** getOutNeighbors / getNeighbors: the values of the non-zero columns of row p, ascending. */
  method OutValues(vertices: seq<int>, m: seq<seq<int>>, p: int) returns (vals: seq<int>)
    requires Square(m, |vertices|) && 0 <= p < |vertices|
    ensures vals == Values(vertices, Cols(m[p], |vertices|))
  {
    vals := [];
    for i := 0 to |vertices|
      invariant vals == Values(vertices, Cols(m[p], i))
    {
      if m[p][i] != 0 {
        ValuesSnoc(vertices, Cols(m[p], i), i);
        vals := vals + [vertices[i]];
      }
    }
  }

  /** getInNeighbors: the values of the non-zero rows of column p, ascending. */
  method InValues(vertices: seq<int>, m: seq<seq<int>>, p: int) returns (vals: seq<int>)
    requires Square(m, |vertices|) && 0 <= p < |vertices|
    ensures vals == Values(vertices, Rows(m, p, |vertices|))
  {
    vals := [];
    for i := 0 to |vertices|
      invariant vals == Values(vertices, Rows(m, p, i))
    {
      if m[i][p] != 0 {
        ValuesSnoc(vertices, Rows(m, p, i), i);
        vals := vals + [vertices[i]];
      }
    }
  }

  /** getOutDegree's loop: the non-zero entries of row p. */
  method RowDegree(m: seq<seq<int>>, n: int, p: int) returns (d: int)
    requires Square(m, n) && 0 <= p < n
    ensures d == |Cols(m[p], n)|
  {
    d := 0;
    for i := 0 to n
      invariant d == |Cols(m[p], i)|
    {
      if m[p][i] != 0 {
        d := d + 1;
      }
    }
  }

  /** getInDegree's loop: the non-zero entries of column p, i.e. the edges into p. */
  method ColumnDegree(m: seq<seq<int>>, n: int, p: int) returns (d: int)
    requires Square(m, n) && 0 <= p < n
    ensures d == |Rows(m, p, n)| == InCount(MatrixAdj(m, n), {}, p, n)
  {
    d := 0;
    for i := 0 to n
      invariant d == |Rows(m, p, i)|
    {
      if m[i][p] != 0 {
        d := d + 1;
      }
    }
    InCountRows(m, n, p, n);
  }

  /** The in-degree of every column, one column after another. */
  method ColumnDegrees(m: seq<seq<int>>, n: int) returns (inDegree: seq<int>)
    requires Square(m, n)
    ensures |inDegree| == n
    ensures forall w | 0 <= w < n :: inDegree[w] == InCount(MatrixAdj(m, n), {}, w, n)
  {
    inDegree := [];
    for i := 0 to n
      invariant |inDegree| == i
      invariant forall w | 0 <= w < i :: inDegree[w] == |Rows(m, w, n)|
    {
      var d := ColumnDegree(m, n, i);
      inDegree := inDegree + [d];
    }
    forall w | 0 <= w < n
      ensures inDegree[w] == InCount(MatrixAdj(m, n), {}, w, n)
    {
      InCountRows(m, n, w, n);
    }
  }
}
