/**
 * The traversals shared by the graph representations of Graphic/. Each
 * representation walks a vertex's neighbours in its own order: the edge
 * chain from head[v] in ChainForwardStar, the column index in the adjacency
 * matrices, the linked edge list in the adjacency lists. The algorithms are
 * stated once here over adj, where adj[v] is the sequence of v's
 * neighbours (vertex indices) in that order, repeated for parallel edges;
 * every representation module proves that the sequences it hands in are
 * the ones its own loops walk.
 */
module GraphCore {
  import opened Sequences
  import opened Errors

  /** Every neighbour entry names a vertex. */
  ghost predicate WellFormed(adj: seq<seq<int>>)
  {
    forall u, j | 0 <= u < |adj| && 0 <= j < |adj[u]| :: 0 <= adj[u][j] < |adj|
  }

  ghost predicate Distinct(s: seq<int>)
  {
    forall i, j | 0 <= i < j < |s| :: s[i] != s[j]
  }

  ghost predicate InRange(s: seq<int>, n: int)
  {
    forall i | 0 <= i < |s| :: 0 <= s[i] < n
  }

  /** order names every vertex 0..n-1 exactly once. */
  ghost predicate EachOnce(order: seq<int>, n: int)
  {
    Distinct(order) && InRange(order, n) && forall v | 0 <= v < n :: v in order
  }

  /**
   * The visited marks are exactly the vertices of done and pending, two
   * disjoint sequences without repeats: what every traversal keeps, with
   * done the vertices already emitted and pending its queue or stack.
   */
  ghost predicate Marks(visited: seq<bool>, done: seq<int>, pending: seq<int>)
  {
    Distinct(done) && Distinct(pending) &&
    InRange(done, |visited|) && InRange(pending, |visited|) &&
    (forall i, j | 0 <= i < |done| && 0 <= j < |pending| :: done[i] != pending[j]) &&
    (forall u | 0 <= u < |visited| :: visited[u] <==> u in done || u in pending)
  }

  /** The number of unvisited vertices. */
  function Unvisited(visited: seq<bool>): nat
  {
    if visited == [] then 0
    else Unvisited(visited[..|visited| - 1]) + (if visited[|visited| - 1] then 0 else 1)
  }

  /** Marking an unvisited vertex lowers the count; marking never raises it. */
  lemma {:induction false} UnvisitedMark(s: seq<bool>, t: seq<bool>, v: int)
    requires Grown(s, t) && 0 <= v < |s| && !s[v] && t[v]
    ensures Unvisited(t) < Unvisited(s)
    decreases |s|
  {
    var k := |s| - 1;
    UnvisitedGrow(s[..k], t[..k]);
    if v < k {
      UnvisitedMark(s[..k], t[..k], v);
    }
  }

  lemma {:induction false} UnvisitedGrow(s: seq<bool>, t: seq<bool>)
    requires Grown(s, t)
    ensures Unvisited(t) <= Unvisited(s)
    decreases |s|
  {
    if s != [] {
      UnvisitedGrow(s[..|s| - 1], t[..|t| - 1]);
    }
  }

  /** The vertices 0..n-1 in order. */
  function Iota(n: nat): (r: seq<int>)
    ensures |r| == n && forall i | 0 <= i < n :: r[i] == i
  {
    seq(n, i => i)
  }

  /** A sequence without repeats drawn from 0..n-1 is no longer than n, and covers all of them when exactly that long. */
  lemma DistinctBound(s: seq<int>, n: nat)
    requires Distinct(s) && InRange(s, n)
    ensures |s| <= n
    ensures |s| == n ==> forall v | 0 <= v < n :: v in s
    ensures (forall v | 0 <= v < n :: v in s) ==> |s| == n
  {
    var r := Iota(n);
    var elems := set i | 0 <= i < |s| :: s[i];
    var all := set i | 0 <= i < n :: r[i];
    DistinctCard(s);
    DistinctCard(r);
    assert elems <= all by {
      forall x | x in elems
        ensures x in all
      {
        assert r[x] == x;
      }
    }
    SubsetCard(elems, all);
    if forall v | 0 <= v < n :: v in s {
      assert all <= elems by {
        forall x | x in all
          ensures x in elems
        {
          var j :| 0 <= j < n && r[j] == x;
          assert x in s;
          var i :| 0 <= i < |s| && s[i] == x;
        }
      }
      SubsetCard(all, elems);
    }
    if |s| == n {
      forall v | 0 <= v < n
        ensures v in s
      {
        if v !in s {
          assert r[v] in all && r[v] !in elems;
          SubsetCard(elems, all - {r[v]});
        }
      }
    }
  }

  lemma SubsetCard(a: set<int>, b: set<int>)
    requires a <= b
    ensures |a| <= |b|
  {
    assert b == a + (b - a);
  }

  lemma {:induction false} DistinctCard(s: seq<int>)
    requires Distinct(s)
    ensures |set i | 0 <= i < |s| :: s[i]| == |s|
    decreases |s|
  {
    if s != [] {
      var k := |s| - 1;
      DistinctCard(s[..k]);
      assert (set i | 0 <= i < |s| :: s[i]) == (set i | 0 <= i < k :: s[..k][i]) + {s[k]};
    }
  }

  /** Queuing an unmarked vertex: it is marked and joins the end of pending. */
  lemma MarksPush(before: seq<bool>, after: seq<bool>, done: seq<int>, pending: seq<int>, u: int)
    requires Marks(before, done, pending) && 0 <= u < |before| && !before[u]
    requires after == before[u := true]
    ensures Marks(after, done, pending + [u])
  {
  }

  /** Taking the front of pending and emitting it keeps the marks. */
  lemma MarksPop(visited: seq<bool>, done: seq<int>, pending: seq<int>)
    requires Marks(visited, done, pending) && pending != []
    ensures Marks(visited, done + [pending[0]], pending[1..])
  {
  }

  /** Taking the back of pending and emitting it keeps the marks. */
  lemma MarksPopBack(visited: seq<bool>, done: seq<int>, pending: seq<int>)
    requires Marks(visited, done, pending) && pending != []
    ensures Marks(visited, done + [pending[|pending| - 1]], pending[..|pending| - 1])
  {
  }

  /** Once nothing is pending and every vertex is marked, done names each vertex once. */
  lemma MarksAll(visited: seq<bool>, done: seq<int>)
    requires Marks(visited, done, [])
    requires forall u | 0 <= u < |visited| :: visited[u]
    ensures EachOnce(done, |visited|)
  {
  }

  /** t keeps every mark of s. */
  ghost predicate Grown(s: seq<bool>, t: seq<bool>)
  {
    |s| == |t| && forall u | 0 <= u < |s| :: s[u] ==> t[u]
  }

  /** Every vertex of nbrs is marked. */
  ghost predicate AllMarked(visited: seq<bool>, nbrs: seq<int>)
  {
    forall j | 0 <= j < |nbrs| :: 0 <= nbrs[j] < |visited| && visited[nbrs[j]]
  }

  /** Marks that were there stay there, and the next neighbour is now marked too. */
  lemma MarkedGrow(s: seq<bool>, t: seq<bool>, nbrs: seq<int>, x: int)
    requires AllMarked(s, nbrs) && Grown(s, t) && 0 <= x < |t| && t[x]
    ensures AllMarked(t, nbrs + [x])
  {
  }

  lemma GrownTrans(s: seq<bool>, t: seq<bool>, r: seq<bool>)
    requires Grown(s, t) && Grown(t, r)
    ensures Grown(s, r)
  {
  }

  /** later is order followed by v and then possibly more. */
  ghost predicate Extends(order: seq<int>, later: seq<int>, v: int)
  {
    |order| < |later| && later[..|order| + 1] == order + [v]
  }

  lemma ExtendsChain(order: seq<int>, mid: seq<int>, later: seq<int>, v: int, u: int)
    requires Extends(order, mid, v) && Extends(mid, later, u)
    ensures Extends(order, later, v)
  {
    assert later[..|order| + 1] == later[..|mid| + 1][..|order| + 1];
  }

  /**
   * What DFS(v, visited) keeps while it walks v's neighbours: the marks
   * match later, which is order followed by v and the searches so far; no
   * mark of entry was cleared, v is marked, fewer vertices are unmarked
   * than at entry, and the neighbours walked so far are all marked.
   */
  ghost predicate Walking(entry: seq<bool>, visited: seq<bool>, order: seq<int>, later: seq<int>, v: int, walked: seq<int>)
  {
    Marks(visited, later, []) && Extends(order, later, v) && Grown(entry, visited) &&
    0 <= v < |visited| && visited[v] && Unvisited(visited) < Unvisited(entry) && AllMarked(visited, walked)
  }

  /** Walking past neighbour u, after searching it if it was unmarked, keeps the walk's facts. */
  lemma WalkStep(entry: seq<bool>, before: seq<bool>, after: seq<bool>, order: seq<int>, mid: seq<int>, later: seq<int>,
                 v: int, nbrs: seq<int>, i: int)
    requires 0 <= i < |nbrs| && Walking(entry, before, order, mid, v, nbrs[..i]) && 0 <= nbrs[i] < |before|
    requires Marks(after, later, []) && Grown(before, after) && after[nbrs[i]]
    requires later == mid || Extends(mid, later, nbrs[i])
    ensures Walking(entry, after, order, later, v, nbrs[..i + 1])
  {
    var u := nbrs[i];
    UnvisitedGrow(before, after);
    GrownTrans(entry, before, after);
    MarkedGrow(before, after, nbrs[..i], u);
    assert nbrs[..i + 1] == nbrs[..i] + [u];
    if later != mid {
      ExtendsChain(order, mid, later, v, u);
    }
  }

  /**
   * DFS(v, visited): v is marked and emitted, then each unvisited neighbour
   * in turn is searched. The result extends order with v first; afterwards
   * v and all its neighbours are marked and no mark was cleared.
   */
  method Visit(adj: seq<seq<int>>, v: int, visited: array<bool>, order: seq<int>) returns (order': seq<int>)
    requires WellFormed(adj) && visited.Length == |adj| && 0 <= v < |adj| && !visited[v]
    requires Marks(visited[..], order, [])
    modifies visited
    ensures Marks(visited[..], order', [])
    ensures Extends(order, order', v) && visited[v]
    ensures Grown(old(visited[..]), visited[..])
    ensures AllMarked(visited[..], adj[v])
    decreases Unvisited(visited[..])
  {
    ghost var entry := visited[..];
    visited[v] := true;
    assert visited[..] == entry[v := true];
    MarksPush(entry, visited[..], order, [], v);
    MarksPop(visited[..], order, [v]);
    order' := order + [v];
    UnvisitedMark(entry, visited[..], v);
    var i := 0;
    while i < |adj[v]|
      invariant 0 <= i <= |adj[v]|
      invariant Walking(entry, visited[..], order, order', v, adj[v][..i])
    {
      var u := adj[v][i];
      ghost var before := visited[..];
      ghost var mid := order';
      if !visited[u] {
        order' := Visit(adj, u, visited, order');
      }
      WalkStep(entry, before, visited[..], order, mid, order', v, adj[v], i);
      i := i + 1;
    }
    assert adj[v][..i] == adj[v];
  }

  /** DFS(): a search from every vertex not yet visited, in index order; every vertex is emitted exactly once. */
  method Dfs(adj: seq<seq<int>>) returns (order: seq<int>)
    requires WellFormed(adj)
    ensures EachOnce(order, |adj|)
  {
    var visited := new bool[|adj|](_ => false);
    order := [];
    for i := 0 to |adj|
      invariant Marks(visited[..], order, [])
      invariant forall u | 0 <= u < i :: visited[u]
    {
      if !visited[i] {
        order := Visit(adj, i, visited, order);
      }
    }
    MarksAll(visited[..], order);
  }

  /**
   * The inner loop of the queue and stack searches: each neighbour of
   * nbrs, in turn, that is not yet visited is marked and appended to
   * pending. Afterwards every neighbour is marked, no mark was cleared, and
   * either a vertex was newly marked or nothing changed.
   */
  method MarkNeighbours(nbrs: seq<int>, visited: array<bool>, done: seq<int>, pending: seq<int>) returns (pending': seq<int>)
    requires InRange(nbrs, visited.Length) && Marks(visited[..], done, pending)
    modifies visited
    ensures Marks(visited[..], done, pending')
    ensures Grown(old(visited[..]), visited[..])
    ensures AllMarked(visited[..], nbrs)
    ensures Unvisited(visited[..]) < Unvisited(old(visited[..])) || (pending' == pending && visited[..] == old(visited[..]))
  {
    ghost var entry := visited[..];
    pending' := pending;
    for j := 0 to |nbrs|
      invariant Marks(visited[..], done, pending')
      invariant Grown(entry, visited[..])
      invariant AllMarked(visited[..], nbrs[..j])
      invariant Unvisited(visited[..]) < Unvisited(entry) || (pending' == pending && visited[..] == entry)
    {
      var u := nbrs[j];
      ghost var before := visited[..];
      if !visited[u] {
        visited[u] := true;
        assert visited[..] == before[u := true];
        MarksPush(before, visited[..], done, pending', u);
        pending' := pending' + [u];
        UnvisitedMark(before, visited[..], u);
        UnvisitedGrow(entry, before);
      }
      MarkedGrow(before, visited[..], nbrs[..j], u);
      assert nbrs[..j + 1] == nbrs[..j] + [u];
    }
    assert nbrs[..|nbrs|] == nbrs;
  }

  /**
   * BFS(): from every vertex not yet visited, in index order, a queue
   * search that marks a vertex when it is queued and emits it when it is
   * dequeued. The emitted order followed by the queue is one sequence
   * without repeats, which dequeuing leaves unchanged; every vertex is
   * emitted exactly once.
   */
  method Bfs(adj: seq<seq<int>>) returns (order: seq<int>)
    requires WellFormed(adj)
    ensures EachOnce(order, |adj|)
  {
    var n := |adj|;
    var visited := new bool[n](_ => false);
    order := [];
    for i := 0 to n
      invariant Marks(visited[..], order, [])
      invariant forall u | 0 <= u < i :: visited[u]
    {
      if !visited[i] {
        ghost var before := visited[..];
        visited[i] := true;
        assert visited[..] == before[i := true];
        MarksPush(before, visited[..], order, [], i);
        var queue := [i];
        while queue != []
          invariant Marks(visited[..], order, queue)
          invariant forall u | 0 <= u <= i :: visited[u]
          decreases Unvisited(visited[..]), |queue|
        {
          MarksPop(visited[..], order, queue);
          var v := queue[0];
          queue := queue[1..];
          order := order + [v];
          queue := MarkNeighbours(adj[v], visited, order, queue);
        }
      }
    }
    MarksAll(visited[..], order);
  }

  lemma InRangeReverse(s: seq<int>, n: int)
    requires InRange(s, n)
    ensures InRange(Reverse(s), n)
  {
    forall k | 0 <= k < |s|
      ensures 0 <= Reverse(s)[k] < n
    {
      ReverseAt(s, k);
    }
  }

  /**
   * DFS_NoRecursive(): from every vertex not yet visited, in index order, a
   * stack search that marks a vertex when it is pushed and emits it when it
   * is popped; the unvisited neighbours of the popped vertex are pushed from
   * the last of its neighbour sequence to the first, so that the first is
   * popped next. Every vertex is emitted exactly once.
   */
  method DfsNoRecursive(adj: seq<seq<int>>) returns (order: seq<int>)
    requires WellFormed(adj)
    ensures EachOnce(order, |adj|)
  {
    var n := |adj|;
    var visited := new bool[n](_ => false);
    order := [];
    for i := 0 to n
      invariant Marks(visited[..], order, [])
      invariant forall u | 0 <= u < i :: visited[u]
    {
      if !visited[i] {
        ghost var before := visited[..];
        visited[i] := true;
        assert visited[..] == before[i := true];
        MarksPush(before, visited[..], order, [], i);
        var stack := [i];
        while stack != []
          invariant Marks(visited[..], order, stack)
          invariant forall u | 0 <= u <= i :: visited[u]
          decreases Unvisited(visited[..]), |stack|
        {
          MarksPopBack(visited[..], order, stack);
          var v := stack[|stack| - 1];
          stack := stack[..|stack| - 1];
          order := order + [v];
          InRangeReverse(adj[v], n);
          stack := MarkNeighbours(Reverse(adj[v]), visited, order, stack);
        }
      }
    }
    MarksAll(visited[..], order);
  }

  /**
   * The number of edges into w from the vertices below k that are not in
   * done: each occurrence of w in their neighbour sequences counts.
   */
  ghost function InCount(adj: seq<seq<int>>, done: set<int>, w: int, k: nat): nat
    requires k <= |adj|
  {
    if k == 0 then 0
    else InCount(adj, done, w, k - 1) + (if k - 1 in done then 0 else multiset(adj[k - 1])[w])
  }

  /** Moving v into done takes its edges into w off the count. */
  lemma {:induction false} InCountDone(adj: seq<seq<int>>, done: set<int>, v: int, w: int, k: nat)
    requires k <= |adj| && 0 <= v < |adj| && v !in done
    ensures InCount(adj, done + {v}, w, k) + (if v < k then multiset(adj[v])[w] else 0) == InCount(adj, done, w, k)
  {
    if k > 0 {
      InCountDone(adj, done, v, w, k - 1);
    }
  }

  /** A positive count has a source outside done with an edge into w. */
  lemma {:induction false} InCountSource(adj: seq<seq<int>>, done: set<int>, w: int, k: nat) returns (u: int)
    requires k <= |adj| && InCount(adj, done, w, k) > 0
    ensures 0 <= u < k && u !in done && w in adj[u]
  {
    if InCount(adj, done, w, k - 1) > 0 {
      u := InCountSource(adj, done, w, k - 1);
    } else {
      u := k - 1;
    }
  }

  /** A zero count leaves no vertex outside done with an edge into w. */
  lemma {:induction false} InCountNone(adj: seq<seq<int>>, done: set<int>, w: int, k: nat)
    requires k <= |adj| && InCount(adj, done, w, k) == 0
    ensures forall u | 0 <= u < k && u !in done :: w !in adj[u]
  {
    if k > 0 {
      InCountNone(adj, done, w, k - 1);
      assert k - 1 !in done ==> multiset(adj[k - 1])[w] == 0;
    }
  }

  /** Every edge into a vertex of order comes from a vertex emitted before it. */
  ghost predicate EdgesForward(adj: seq<seq<int>>, order: seq<int>)
  {
    forall i, u | 0 <= i < |order| && 0 <= u < |adj| && order[i] in adj[u] :: u in order[..i]
  }

  /** rank numbers the vertices so that every edge goes to a higher number. */
  ghost predicate Ranked(adj: seq<seq<int>>, rank: seq<int>)
  {
    |rank| == |adj| &&
    forall u, j | 0 <= u < |adj| && 0 <= j < |adj[u]| :: 0 <= adj[u][j] < |rank| && rank[u] < rank[adj[u][j]]
  }

  /** The graph has no cycle: some numbering makes every edge go upwards. */
  ghost predicate Acyclic(adj: seq<seq<int>>)
  {
    exists rank :: Ranked(adj, rank)
  }

  /** An order that emits every vertex once with every edge forward numbers the vertices by position. */
  lemma RankFromOrder(adj: seq<seq<int>>, order: seq<int>)
    requires WellFormed(adj) && EachOnce(order, |adj|) && EdgesForward(adj, order)
    ensures Acyclic(adj)
  {
    var rank := seq(|adj|, v => Position(order, v));
    forall u, j | 0 <= u < |adj| && 0 <= j < |adj[u]|
      ensures rank[u] < rank[adj[u][j]]
    {
      EdgeRank(adj, order, u, adj[u][j]);
    }
    assert Ranked(adj, rank);
  }

  /** The source of an edge sits earlier in a forward order than its target. */
  lemma EdgeRank(adj: seq<seq<int>>, order: seq<int>, u: int, w: int)
    requires EachOnce(order, |adj|) && EdgesForward(adj, order)
    requires 0 <= u < |adj| && 0 <= w < |adj| && w in adj[u]
    ensures Position(order, u) < Position(order, w)
  {
    assert w in order;
    var i :| 0 <= i < |order| && order[i] == w;
    assert u in order[..i];
    var i' :| 0 <= i' < i && order[..i][i'] == u;
    assert order[i'] == u;
    assert w !in order[..i] by {
      assert forall k | 0 <= k < i :: order[k] != order[i];
    }
    assert u !in order[..i'] by {
      assert forall k | 0 <= k < i' :: order[k] != order[i'];
    }
    PositionFirst(order, w, i + 1);
    PositionFirst(order, u, i' + 1);
  }

  /** The vertices below k outside done, in index order. */
  ghost function Outside(done: set<int>, k: nat): (r: seq<int>)
    ensures forall x :: x in r <==> 0 <= x < k && x !in done
  {
    if k == 0 then [] else Outside(done, k - 1) + (if k - 1 in done then [] else [k - 1])
  }

  /** A vertex of c with the lowest rank. */
  lemma {:induction false} LowestRank(c: seq<int>, rank: seq<int>) returns (w: int)
    requires c != [] && forall i | 0 <= i < |c| :: 0 <= c[i] < |rank|
    ensures w in c && forall x | x in c :: rank[w] <= rank[x]
    decreases |c|
  {
    if |c| == 1 {
      w := c[0];
    } else {
      var m := LowestRank(c[1..], rank);
      w := if rank[c[0]] <= rank[m] then c[0] else m;
    }
  }

  /**
   * When every vertex outside done still has an edge from a vertex outside
   * done, and some vertex is outside done, no numbering makes every edge go
   * upwards: the lowest-ranked vertex left has a source left whose rank is
   * not lower.
   */
  lemma Stuck(adj: seq<seq<int>>, done: set<int>, v: int)
    requires WellFormed(adj) && 0 <= v < |adj| && v !in done
    requires forall w | 0 <= w < |adj| && w !in done :: InCount(adj, done, w, |adj|) > 0
    ensures !Acyclic(adj)
  {
    forall rank
      ensures !Ranked(adj, rank)
    {
      if |rank| == |adj| {
        var c := Outside(done, |adj|);
        assert v in c;
        assert forall i | 0 <= i < |c| :: 0 <= c[i] < |rank| by {
          assert forall i | 0 <= i < |c| :: c[i] in c;
        }
        var w := LowestRank(c, rank);
        var u := InCountSource(adj, done, w, |adj|);
        var j :| 0 <= j < |adj[u]| && adj[u][j] == w;
        assert u in c && rank[u] >= rank[adj[u][j]];
      }
    }
  }

  /**
   * What Kahn's algorithm keeps between steps: inDeg counts, for every
   * vertex, its edges from vertices outside done plus its occurrences in
   * extra (the out-edges of the vertex being processed not yet taken off);
   * the queue holds, once each, exactly the vertices outside done whose
   * count is zero; the vertices of done have count zero.
   */
  ghost predicate KahnState(adj: seq<seq<int>>, inDeg: seq<int>, done: set<int>, queue: seq<int>, extra: seq<int>)
  {
    |inDeg| == |adj| &&
    (forall w | 0 <= w < |adj| :: inDeg[w] == InCount(adj, done, w, |adj|) + multiset(extra)[w]) &&
    Distinct(queue) && InRange(queue, |adj|) &&
    (forall w | 0 <= w < |adj| :: w in queue <==> w !in done && inDeg[w] == 0) &&
    (forall w | 0 <= w < |adj| && w in done :: inDeg[w] == 0)
  }

  /** Dequeuing v: v is outside done, every edge into v comes from done, and v joins done with its out-edges still to take off. */
  lemma PopStep(adj: seq<seq<int>>, inDeg: seq<int>, done: set<int>, queue: seq<int>)
    requires KahnState(adj, inDeg, done, queue, []) && queue != []
    ensures 0 <= queue[0] < |adj| && queue[0] !in done
    ensures forall u | 0 <= u < |adj| && queue[0] in adj[u] :: u in done
    ensures KahnState(adj, inDeg, done + {queue[0]}, queue[1..], adj[queue[0]])
  {
    var v := queue[0];
    var n := |adj|;
    InCountNone(adj, done, v, n);
    forall w | 0 <= w < n
      ensures inDeg[w] == InCount(adj, done + {v}, w, n) + multiset(adj[v])[w]
    {
      InCountDone(adj, done, v, w, n);
    }
  }

  /** Taking one out-edge into w off: w's count drops by one, and w is queued when it reaches zero. */
  lemma DecrementStep(adj: seq<seq<int>>, inDeg: seq<int>, done: set<int>, queue: seq<int>, w: int, rest: seq<int>)
    requires KahnState(adj, inDeg, done, queue, [w] + rest) && 0 <= w < |adj|
    ensures var inDeg' := inDeg[w := inDeg[w] - 1];
            KahnState(adj, inDeg', done, if inDeg'[w] == 0 then queue + [w] else queue, rest)
  {
    assert multiset([w] + rest) == multiset{w} + multiset(rest);
  }

  /** Emitting v after all the sources of its in-edges keeps every edge forward. */
  lemma EmitStep(adj: seq<seq<int>>, order: seq<int>, done: set<int>, v: int)
    requires EdgesForward(adj, order) && forall x :: x in done <==> x in order
    requires forall u | 0 <= u < |adj| && v in adj[u] :: u in done
    ensures EdgesForward(adj, order + [v])
  {
    var order' := order + [v];
    assert order'[..|order|] == order;
    forall i, u | 0 <= i < |order'| && 0 <= u < |adj| && order'[i] in adj[u]
      ensures u in order'[..i]
    {
      if i < |order| {
        assert order'[..i] == order[..i];
      }
    }
  }

  /**
   * The inner loop of topologicalSort(): each out-edge of the dequeued
   * vertex, in turn, is taken off its target's in-degree, and a target
   * whose in-degree reaches zero is queued.
   */
  method ReleaseEdges(adj: seq<seq<int>>, out: seq<int>, inDeg: seq<int>, ghost done: set<int>, queue: seq<int>)
    returns (inDeg': seq<int>, queue': seq<int>)
    requires InRange(out, |adj|) && KahnState(adj, inDeg, done, queue, out)
    ensures KahnState(adj, inDeg', done, queue', [])
  {
    inDeg', queue' := inDeg, queue;
    for k := 0 to |out|
      invariant KahnState(adj, inDeg', done, queue', out[k..])
    {
      var w := out[k];
      assert out[k..] == [w] + out[k + 1..];
      DecrementStep(adj, inDeg', done, queue', w, out[k + 1..]);
      inDeg' := inDeg'[w := inDeg'[w] - 1];
      if inDeg'[w] == 0 {
        queue' := queue' + [w];
      }
    }
  }

  /**
   * topologicalSort(): Kahn's algorithm. inDegree holds every vertex's
   * number of incoming edges; the vertices of in-degree zero are queued in
   * index order; each dequeued vertex is emitted and its out-edges are
   * taken off their targets' in-degrees, queuing a target when its
   * in-degree reaches zero. The result is true when every vertex was
   * emitted. Every edge into an emitted vertex comes from one emitted
   * before it, and the result is true exactly when the graph is acyclic.
   */
  method TopologicalSort(adj: seq<seq<int>>, inDegree: seq<int>) returns (ok: bool, order: seq<int>)
    requires WellFormed(adj) && |inDegree| == |adj|
    requires forall w | 0 <= w < |adj| :: inDegree[w] == InCount(adj, {}, w, |adj|)
    ensures Distinct(order) && InRange(order, |adj|) && EdgesForward(adj, order)
    ensures ok <==> |order| == |adj|
    ensures ok ==> EachOnce(order, |adj|)
    ensures ok <==> Acyclic(adj)
  {
    var n := |adj|;
    var inDeg := inDegree;
    var queue: seq<int> := [];
    for i := 0 to n
      invariant Distinct(queue) && InRange(queue, n)
      invariant forall w | 0 <= w < n :: w in queue <==> w < i && inDeg[w] == 0
    {
      if inDeg[i] == 0 {
        queue := queue + [i];
      }
    }
    order := [];
    ghost var done: set<int> := {};
    while queue != []
      invariant KahnState(adj, inDeg, done, queue, [])
      invariant forall x :: x in done <==> x in order
      invariant Distinct(order) && InRange(order, n) && EdgesForward(adj, order)
      decreases n - |order|
    {
      PopStep(adj, inDeg, done, queue);
      var v := queue[0];
      queue := queue[1..];
      EmitStep(adj, order, done, v);
      order := order + [v];
      done := done + {v};
      DistinctBound(order, n);
      inDeg, queue := ReleaseEdges(adj, adj[v], inDeg, done, queue);
    }
    DistinctBound(order, n);
    ok := |order| == n;
    if ok {
      RankFromOrder(adj, order);
    } else {
      var v :| 0 <= v < n && v !in order;
      Stuck(adj, done, v);
    }
  }

  /** INT_MAX of a 32-bit int: the weight Prim starts every vertex but the first with. */
  const IntMax := 0x7fff_ffff

  /** An edge of a weighted neighbour sequence: its far end and its weight. */
  datatype Arc = Arc(to: int, weight: int)

  /** Every arc's far end names a vertex. */
  ghost predicate WellFormedArcs(g: seq<seq<Arc>>)
  {
    forall u, j | 0 <= u < |g| && 0 <= j < |g[u]| :: 0 <= g[u][j].to < |g|
  }

  /** u has an arc of weight w to v. */
  ghost predicate HasArc(g: seq<seq<Arc>>, u: int, v: int, w: int)
  {
    0 <= u < |g| && exists j | 0 <= j < |g[u]| :: g[u][j] == Arc(v, w)
  }

  /**
   * u has an arc to v lighter than INT_MAX: one Prim can follow, since a
   * vertex is only reached through a weight below the INT_MAX it starts
   * with.
   */
  ghost predicate Light(g: seq<seq<Arc>>, u: int, v: int)
  {
    0 <= u < |g| && exists j | 0 <= j < |g[u]| :: g[u][j].to == v && g[u][j].weight < IntMax
  }

  /** p is a walk of light arcs between vertices. */
  ghost predicate IsPath(g: seq<seq<Arc>>, p: seq<int>)
  {
    p != [] && 0 <= p[|p| - 1] < |g| &&
    (|p| > 1 ==> IsPath(g, p[..|p| - 1]) && Light(g, p[|p| - 2], p[|p| - 1]))
  }

  /** v is reachable from s. */
  ghost predicate Reach(g: seq<seq<Arc>>, s: int, v: int)
  {
    exists p :: IsPath(g, p) && p[0] == s && p[|p| - 1] == v
  }

  lemma ReachStart(g: seq<seq<Arc>>, s: int)
    requires 0 <= s < |g|
    ensures Reach(g, s, s)
  {
    assert IsPath(g, [s]);
  }

  /** One more light arc extends a path. */
  lemma ReachStep(g: seq<seq<Arc>>, s: int, u: int, v: int, w: int)
    requires Reach(g, s, u) && HasArc(g, u, v, w) && w < IntMax && 0 <= v < |g|
    ensures Reach(g, s, v)
  {
    var p :| IsPath(g, p) && p[0] == s && p[|p| - 1] == u;
    var q := p + [v];
    assert q[..|q| - 1] == p;
    var j :| 0 <= j < |g[u]| && g[u][j] == Arc(v, w);
    assert Light(g, u, v);
    assert IsPath(g, q);
  }

  /**
   * No light arc leaves the included vertices for one that is not: every
   * vertex not included but next to an included one through an arc has a
   * weight no heavier than that arc.
   */
  ghost predicate Closed(g: seq<seq<Arc>>, included: seq<bool>, weights: seq<int>)
    requires |included| == |weights| == |g| && WellFormedArcs(g)
  {
    forall u, j | 0 <= u < |g| && included[u] && 0 <= j < |g[u]| && !included[g[u][j].to] ::
      weights[g[u][j].to] <= g[u][j].weight
  }

  /** A set closed under light arcs that holds the first vertex of a path holds its last. */
  lemma {:induction false} ClosedReach(g: seq<seq<Arc>>, included: seq<bool>, weights: seq<int>, p: seq<int>)
    requires |included| == |weights| == |g| && WellFormedArcs(g) && Closed(g, included, weights)
    requires forall v | 0 <= v < |g| && !included[v] :: weights[v] == IntMax
    requires IsPath(g, p) && 0 <= p[0] < |g| && included[p[0]]
    ensures included[p[|p| - 1]]
    decreases |p|
  {
    if |p| > 1 {
      var q := p[..|p| - 1];
      ClosedReach(g, included, weights, q);
      var u, v := p[|p| - 2], p[|p| - 1];
      assert u == q[|q| - 1];
      var j :| 0 <= j < |g[u]| && g[u][j].to == v && g[u][j].weight < IntMax;
    }
  }

  /** The sum of weights over the vertices of order. */
  function WeightSum(weights: seq<int>, order: seq<int>): int
    requires InRange(order, |weights|)
  {
    if order == [] then 0
    else WeightSum(weights, order[..|order| - 1]) + weights[order[|order| - 1]]
  }

  /** The sum only reads the weights of the vertices of order. */
  lemma {:induction false} WeightSumSame(weights: seq<int>, weights': seq<int>, order: seq<int>)
    requires |weights| == |weights'| && InRange(order, |weights|)
    requires forall i | 0 <= i < |order| :: weights[order[i]] == weights'[order[i]]
    ensures WeightSum(weights, order) == WeightSum(weights', order)
    decreases |order|
  {
    if order != [] {
      WeightSumSame(weights, weights', order[..|order| - 1]);
    }
  }

  /**
   * What Prim keeps for a vertex not yet included: a weight of at most
   * INT_MAX, and below INT_MAX only for the start (weight 0, no parent) or
   * through an arc of exactly that weight from its included parent.
   */
  ghost predicate Tentative(g: seq<seq<Arc>>, start: int, included: seq<bool>, weights: seq<int>, parent: seq<int>)
    requires |included| == |weights| == |parent| == |g|
  {
    forall v | 0 <= v < |g| && !included[v] ::
      weights[v] <= IntMax &&
      (weights[v] < IntMax ==>
        (v == start && weights[v] == 0 && parent[v] == -1) ||
        (0 <= parent[v] < |g| && included[parent[v]] && HasArc(g, parent[v], v, weights[v])))
  }

  /**
   * The spanning tree Prim grows: the vertices in the order they were
   * included, each one's parent and weight at inclusion, and the total
   * weight.
   */
  datatype Span = Span(order: seq<int>, parent: seq<int>, weights: seq<int>, total: int)

  /**
   * The selection loop of Prim: the first vertex, in index order, of least
   * weight below INT_MAX among those not included, or -1 when every vertex
   * not included still weighs INT_MAX.
   */
  method Cheapest(included: seq<bool>, weights: seq<int>) returns (minIndex: int, minWeight: int)
    requires |included| == |weights|
    ensures minIndex == -1 <==> forall v | 0 <= v < |weights| && !included[v] :: weights[v] >= IntMax
    ensures minIndex != -1 ==> 0 <= minIndex < |weights| && !included[minIndex] && minWeight == weights[minIndex] < IntMax
    ensures minIndex != -1 ==> forall v | 0 <= v < |weights| && !included[v] :: minWeight <= weights[v]
  {
    minWeight, minIndex := IntMax, -1;
    for v := 0 to |weights|
      invariant minIndex == -1 ==> minWeight == IntMax
      invariant minIndex != -1 ==> 0 <= minIndex < v && !included[minIndex] && minWeight == weights[minIndex] < IntMax
      invariant forall u | 0 <= u < v && !included[u] :: minWeight <= weights[u]
    {
      if !included[v] && weights[v] < minWeight {
        minWeight, minIndex := weights[v], v;
      }
    }
  }

  /**
   * weights' and parent' are weights and parent after relaxing the arcs of
   * m: no weight rose; included vertices kept weight and parent; a vertex
   * whose weight changed now hangs from m by an arc of its new weight, and
   * one whose weight did not change kept its parent; no arc of m to a
   * vertex not included is lighter than that vertex's weight.
   */
  ghost predicate Relaxed(g: seq<seq<Arc>>, m: int, included: seq<bool>, weights: seq<int>, parent: seq<int>,
                          weights': seq<int>, parent': seq<int>)
    requires WellFormedArcs(g) && 0 <= m < |g| && |included| == |weights| == |parent| == |g|
  {
    |weights'| == |parent'| == |g| &&
    (forall v | 0 <= v < |g| :: weights'[v] <= weights[v]) &&
    (forall v | 0 <= v < |g| && included[v] :: weights'[v] == weights[v] && parent'[v] == parent[v]) &&
    (forall v | 0 <= v < |g| && weights'[v] != weights[v] :: parent'[v] == m && HasArc(g, m, v, weights'[v])) &&
    (forall v | 0 <= v < |g| && weights'[v] == weights[v] :: parent'[v] == parent[v]) &&
    (forall j | 0 <= j < |g[m]| && !included[g[m][j].to] :: weights'[g[m][j].to] <= g[m][j].weight)
  }

  /**
   * The update loop of Prim: for each arc of the newly included vertex m,
   * in turn, whose far end is not included and is heavier than the arc,
   * the far end takes the arc's weight and m as its parent. Included
   * vertices keep their weights, and afterwards no arc of m is lighter
   * than its far end's weight.
   */
  method Relax(g: seq<seq<Arc>>, m: int, included: seq<bool>, weights: seq<int>, parent: seq<int>)
    returns (weights': seq<int>, parent': seq<int>)
    requires WellFormedArcs(g) && 0 <= m < |g| && |included| == |weights| == |parent| == |g|
    ensures Relaxed(g, m, included, weights, parent, weights', parent')
  {
    weights', parent' := weights, parent;
    for k := 0 to |g[m]|
      invariant |weights'| == |parent'| == |g|
      invariant forall v | 0 <= v < |g| :: weights'[v] <= weights[v]
      invariant forall v | 0 <= v < |g| && included[v] :: weights'[v] == weights[v] && parent'[v] == parent[v]
      invariant forall v | 0 <= v < |g| && weights'[v] != weights[v] :: parent'[v] == m && HasArc(g, m, v, weights'[v])
      invariant forall v | 0 <= v < |g| && weights'[v] == weights[v] :: parent'[v] == parent[v]
      invariant forall j | 0 <= j < k && !included[g[m][j].to] :: weights'[g[m][j].to] <= g[m][j].weight
    {
      var v := g[m][k].to;
      if !included[v] && g[m][k].weight < weights'[v] {
        parent' := parent'[v := m];
        weights' := weights'[v := g[m][k].weight];
        assert g[m][k] == Arc(v, weights'[v]);
      }
    }
  }

  /** The message of the invalid_argument Prim throws. */
  const InvalidStart := "Invalid starting vertex"

  /**
   * sp is what Prim grows from start: it includes, each once and start
   * first, exactly the vertices reachable from start; every later vertex
   * hangs from a parent included before it by an arc of the weight it was
   * included with; the total is the sum of those weights.
   */
  ghost predicate SpanningTree(g: seq<seq<Arc>>, start: int, sp: Span)
  {
    var o := sp.order;
    |sp.parent| == |sp.weights| == |g| && 0 <= start < |g| &&
    Distinct(o) && InRange(o, |g|) && o != [] && o[0] == start &&
    sp.weights[start] == 0 && sp.parent[start] == -1 &&
    (forall v | 0 <= v < |g| :: v in o <==> Reach(g, start, v)) &&
    (forall i | 1 <= i < |o| :: sp.parent[o[i]] in o[..i] && HasArc(g, sp.parent[o[i]], o[i], sp.weights[o[i]])) &&
    sp.total == WeightSum(sp.weights, o)
  }

  /**
   * What Prim keeps between iterations: the shape below and the tree
   * facts after it.
   */
  ghost predicate PrimState(g: seq<seq<Arc>>, start: int, included: seq<bool>, weights: seq<int>, parent: seq<int>,
                            order: seq<int>, total: int)
  {
    PrimShape(g, start, included, weights, parent, order) &&
    PrimTree(g, start, weights, parent, order, total)
  }

  /**
   * The included vertices are those of order, each once, start first; the
   * tentative weights and closedness above hold; start weighs 0 with no
   * parent.
   */
  ghost predicate PrimShape(g: seq<seq<Arc>>, start: int, included: seq<bool>, weights: seq<int>, parent: seq<int>,
                            order: seq<int>)
  {
    WellFormedArcs(g) && 0 <= start < |g| && |included| == |weights| == |parent| == |g| &&
    Distinct(order) && InRange(order, |g|) &&
    (forall v | 0 <= v < |g| :: included[v] <==> v in order) &&
    Tentative(g, start, included, weights, parent) && Closed(g, included, weights) &&
    weights[start] == 0 && parent[start] == -1 && (order != [] ==> order[0] == start)
  }

  /**
   * Every included vertex after the first hangs from an earlier one by an
   * arc of its weight, and is reachable from start; the total is the sum
   * of the included weights.
   */
  ghost predicate PrimTree(g: seq<seq<Arc>>, start: int, weights: seq<int>, parent: seq<int>, order: seq<int>, total: int)
    requires |weights| == |parent| == |g| && InRange(order, |g|)
  {
    (forall i | 1 <= i < |order| :: parent[order[i]] in order[..i] && HasArc(g, parent[order[i]], order[i], weights[order[i]])) &&
    (forall i | 0 <= i < |order| :: Reach(g, start, order[i])) &&
    total == WeightSum(weights, order)
  }

  /** Including the cheapest vertex m, adding its weight and relaxing its arcs keeps the state. */
  lemma PrimStep(g: seq<seq<Arc>>, start: int, included: seq<bool>, weights: seq<int>, parent: seq<int>,
                 order: seq<int>, total: int, m: int, weights': seq<int>, parent': seq<int>)
    requires PrimState(g, start, included, weights, parent, order, total)
    requires 0 <= m < |g| && !included[m] && weights[m] < IntMax
    requires Relaxed(g, m, included[m := true], weights, parent, weights', parent')
    ensures PrimState(g, start, included[m := true], weights', parent', order + [m], total + weights[m])
  {
    StepTree(g, start, included, weights, parent, order, total, m, weights', parent');
    ShapeStep(g, start, included, weights, parent, order, m, weights', parent');
    TreeStep(g, start, included, weights, parent, order, total, m, weights', parent');
  }

  lemma ShapeStep(g: seq<seq<Arc>>, start: int, included: seq<bool>, weights: seq<int>, parent: seq<int>,
                  order: seq<int>, m: int, weights': seq<int>, parent': seq<int>)
    requires PrimShape(g, start, included, weights, parent, order)
    requires 0 <= m < |g| && !included[m] && (order == [] ==> m == start)
    requires Relaxed(g, m, included[m := true], weights, parent, weights', parent')
    ensures PrimShape(g, start, included[m := true], weights', parent', order + [m])
  {
    var included', order' := included[m := true], order + [m];
    StepTentative(g, start, included, weights, parent, m, weights', parent');
    StepClosed(g, included, weights, parent, m, weights', parent');
    assert Distinct(order') && InRange(order', |g|);
    assert forall v | 0 <= v < |g| :: included'[v] <==> v in order';
    assert weights'[start] == 0 && parent'[start] == -1 && order'[0] == start;
    assert PrimShape(g, start, included', weights', parent', order');
  }

  lemma TreeStep(g: seq<seq<Arc>>, start: int, included: seq<bool>, weights: seq<int>, parent: seq<int>,
                 order: seq<int>, total: int, m: int, weights': seq<int>, parent': seq<int>)
    requires PrimShape(g, start, included, weights, parent, order)
    requires PrimTree(g, start, weights, parent, order, total)
    requires 0 <= m < |g| && !included[m]
    requires Relaxed(g, m, included[m := true], weights, parent, weights', parent')
    requires weights'[m] == weights[m] && parent'[m] == parent[m]
    requires m != start ==> parent[m] in order && HasArc(g, parent[m], m, weights[m])
    requires Reach(g, start, m)
    ensures PrimTree(g, start, weights', parent', order + [m], total + weights[m])
  {
    var order' := order + [m];
    assert order'[..|order|] == order;
    StepOrder(g, included, weights, parent, order, m, weights', parent');
    WeightSumSame(weights, weights', order);
    assert forall i | 1 <= i < |order'| :: parent'[order'[i]] in order'[..i] && HasArc(g, parent'[order'[i]], order'[i], weights'[order'[i]]) by {
      forall i | 1 <= i < |order'|
        ensures parent'[order'[i]] in order'[..i] && HasArc(g, parent'[order'[i]], order'[i], weights'[order'[i]])
      {
        if i == |order| {
          assert order'[i] == m && order'[..i] == order && m != start;
        } else {
          assert order'[i] == order[i];
        }
      }
    }
    assert forall i | 0 <= i < |order'| :: Reach(g, start, order'[i]);
    assert total + weights[m] == WeightSum(weights', order');
    assert PrimTree(g, start, weights', parent', order', total + weights[m]);
  }

  /** Included vertices keep their parents and weights, so the tree facts of order carry over to order + [m]. */
  lemma StepOrder(g: seq<seq<Arc>>, included: seq<bool>, weights: seq<int>, parent: seq<int>,
                  order: seq<int>, m: int, weights': seq<int>, parent': seq<int>)
    requires WellFormedArcs(g) && |included| == |weights| == |parent| == |g| && 0 <= m < |g| && InRange(order, |g|)
    requires forall v | 0 <= v < |g| :: included[v] <==> v in order
    requires forall i | 1 <= i < |order| :: parent[order[i]] in order[..i] && HasArc(g, parent[order[i]], order[i], weights[order[i]])
    requires Relaxed(g, m, included[m := true], weights, parent, weights', parent')
    ensures forall i | 1 <= i < |order| :: parent'[order[i]] in (order + [m])[..i] && HasArc(g, parent'[order[i]], order[i], weights'[order[i]])
    ensures forall i | 0 <= i < |order| :: weights'[order[i]] == weights[order[i]]
  {
    forall i | 1 <= i < |order|
      ensures parent'[order[i]] in (order + [m])[..i]
    {
      assert (order + [m])[..i] == order[..i];
    }
  }

  lemma StepTentative(g: seq<seq<Arc>>, start: int, included: seq<bool>, weights: seq<int>, parent: seq<int>,
                      m: int, weights': seq<int>, parent': seq<int>)
    requires WellFormedArcs(g) && |included| == |weights| == |parent| == |g| && 0 <= m < |g|
    requires Tentative(g, start, included, weights, parent)
    requires Relaxed(g, m, included[m := true], weights, parent, weights', parent')
    ensures Tentative(g, start, included[m := true], weights', parent')
  {
  }

  lemma StepClosed(g: seq<seq<Arc>>, included: seq<bool>, weights: seq<int>, parent: seq<int>, m: int, weights': seq<int>, parent': seq<int>)
    requires WellFormedArcs(g) && |included| == |weights| == |parent| == |g| && 0 <= m < |g|
    requires Closed(g, included, weights)
    requires Relaxed(g, m, included[m := true], weights, parent, weights', parent')
    ensures Closed(g, included[m := true], weights')
  {
  }

  lemma StepTree(g: seq<seq<Arc>>, start: int, included: seq<bool>, weights: seq<int>, parent: seq<int>,
                 order: seq<int>, total: int, m: int, weights': seq<int>, parent': seq<int>)
    requires PrimState(g, start, included, weights, parent, order, total)
    requires 0 <= m < |g| && !included[m] && weights[m] < IntMax
    requires Relaxed(g, m, included[m := true], weights, parent, weights', parent')
    ensures weights'[m] == weights[m] && parent'[m] == parent[m]
    ensures order == [] ==> m == start
    ensures m != start ==> parent[m] in order && HasArc(g, parent[m], m, weights[m])
    ensures Reach(g, start, m)
  {
    if m == start {
      ReachStart(g, start);
    } else {
      var i :| 0 <= i < |order| && order[i] == parent[m];
      ReachStep(g, start, parent[m], m, weights[m]);
    }
  }

  /**
   * Prim(start): invalid_argument for a start outside the vertices.
   * Otherwise start weighs 0 and every other vertex INT_MAX; up to once per
   * vertex, the cheapest vertex not yet included is included, its weight
   * added to the total and its arcs relaxed, until no vertex left weighs
   * less than INT_MAX. The spanning tree grown covers exactly the vertices
   * reachable from start.
   */
  method Prim(g: seq<seq<Arc>>, start: int) returns (r: Result<Span>)
    requires WellFormedArcs(g)
    ensures r.Err? <==> !(0 <= start < |g|)
    ensures r.Err? ==> r.error == InvalidArgument(InvalidStart)
    ensures r.Ok? ==> SpanningTree(g, start, r.value)
  {
    var n := |g|;
    if start < 0 || start >= n {
      return Err(InvalidArgument(InvalidStart));
    }
    var included := seq(n, _ => false);
    var weights := seq(n, _ => IntMax);
    var parent := seq(n, _ => -1);
    var total := 0;
    weights := weights[start := 0];
    var order: seq<int> := [];
    ghost var stopped := false;
    for count := 0 to n
      invariant PrimState(g, start, included, weights, parent, order, total) && |order| == count
    {
      var minIndex, minWeight := Cheapest(included, weights);
      if minIndex == -1 {
        stopped := true;
        break;
      }
      ghost var (included0, weights0, parent0, order0, total0) := (included, weights, parent, order, total);
      included := included[minIndex := true];
      total := total + minWeight;
      weights, parent := Relax(g, minIndex, included, weights, parent);
      order := order + [minIndex];
      PrimStep(g, start, included0, weights0, parent0, order0, total0, minIndex, weights, parent);
    }
    if !stopped {
      DistinctBound(order, n);
    }
    forall v | 0 <= v < n && Reach(g, start, v)
      ensures v in order
    {
      if stopped {
        var p :| IsPath(g, p) && p[0] == start && p[|p| - 1] == v;
        ClosedReach(g, included, weights, p);
      }
    }
    return Ok(Span(order, parent, weights, total));
  }
}
