/**
 * The disjoint-set forest shared by Set/UnionSet/UnionSet.hpp and
 * Set/UnionSet/UnionSet.cpp: a parent vector and a rank vector over the
 * elements 0..n-1. An element whose parent is itself is the root, and the
 * representative, of its set.
 *
 * What find and merge do to the two vectors is given here as functions on
 * values (Compress, Link, MergeF); the classes in UnionSetHpp and
 * UnionSetCpp are proved to change their fields exactly that way. The
 * sets themselves are read off with Root, and the number of sets is the
 * number of roots.
 */
module DisjointSets {

  /** The message of the out_of_range thrown for an element outside [0, size). */
  const IndexOutOfRange := "Index out of range"

  /** The message of the invalid_argument thrown by the constructor for a size below 1. */
  const SizeNotPositive := "Size must be positive"

  /** The parent and rank vectors of a union-find structure. */
  datatype Sets = Sets(parent: seq<int>, rank: seq<int>)

  /** The largest entry of a sequence, 0 for the empty one. */
  function MaxOf(s: seq<int>): (m: int)
    ensures forall i | 0 <= i < |s| :: s[i] <= m
  {
    if |s| == 0 then 0
    else
      var m := MaxOf(s[1..]);
      assert forall i | 1 <= i < |s| :: s[i] == s[1..][i - 1];
      if s[0] > m then s[0] else m
  }

  /**
   * The shape union by rank keeps: every parent is an element, and rank
   * strictly grows from a child to its parent, so following parents ends
   * at a root.
   */
  ghost predicate Forest(s: Sets)
  {
    |s.parent| == |s.rank| &&
    (forall i | 0 <= i < |s.parent| :: 0 <= s.parent[i] < |s.parent|) &&
    (forall i | 0 <= i < |s.parent| && s.parent[i] != i :: s.rank[i] < s.rank[s.parent[i]])
  }

  /** The root of x's tree: follow parents until an element is its own parent. */
  function Root(s: Sets, x: int): (r: int)
    requires Forest(s) && 0 <= x < |s.parent|
    ensures 0 <= r < |s.parent| && s.parent[r] == r
    ensures s.parent[x] == x ==> r == x
    ensures s.parent[x] != x ==> s.rank[x] < s.rank[r]
    decreases MaxOf(s.rank) - s.rank[x]
  {
    if s.parent[x] == x then x else Root(s, s.parent[x])
  }

  /** x and y are in the same set. */
  predicate Connected(s: Sets, x: int, y: int)
    requires Forest(s) && 0 <= x < |s.parent| && 0 <= y < |s.parent|
  {
    Root(s, x) == Root(s, y)
  }

  /** The roots among the elements below k. */
  ghost function RootsBelow(s: Sets, k: int): set<int>
  {
    set i | 0 <= i < k && 0 <= i < |s.parent| && s.parent[i] == i
  }

  /** The roots: one per set, so their number is getSetCount(). */
  ghost function Roots(s: Sets): set<int>
  {
    RootsBelow(s, |s.parent|)
  }

  // ----- the constructor -----

  /** The vectors the constructor builds: parent[i] == i and rank[i] == 1. */
  function Init(n: nat): (s: Sets)
    ensures |s.parent| == |s.rank| == n
  {
    Sets(seq(n, i => i), seq(n, _ => 1))
  }

  /** Counting roots one element further. */
  lemma RootsBelowStep(s: Sets, k: int)
    requires 0 <= k < |s.parent|
    ensures RootsBelow(s, k + 1) == RootsBelow(s, k) + (if s.parent[k] == k then {k} else {})
    ensures k !in RootsBelow(s, k)
  {
  }

  /** After construction every element is alone in its set: n sets, and no two distinct elements connected. */
  lemma InitSingletons(n: nat)
    ensures Forest(Init(n))
    ensures |Roots(Init(n))| == n
    ensures forall x, y | 0 <= x < n && 0 <= y < n :: Connected(Init(n), x, y) <==> x == y
  {
    var s := Init(n);
    for k := 0 to n
      invariant |RootsBelow(s, k)| == k
    {
      RootsBelowStep(s, k);
    }
  }

  // ----- path compression -----

  /**
   * q is p with some parents replaced by their roots: every element keeps
   * its parent or points straight at its root, and the ranks are the same.
   */
  ghost predicate Shortcut(p: Sets, q: Sets)
  {
    Forest(p) && |q.parent| == |p.parent| && q.rank == p.rank &&
    forall i | 0 <= i < |p.parent| :: q.parent[i] == p.parent[i] || q.parent[i] == Root(p, i)
  }

  /** Shortcutting keeps the forest shape and the roots. */
  lemma ShortcutForest(p: Sets, q: Sets)
    requires Shortcut(p, q)
    ensures Forest(q)
    ensures forall i | 0 <= i < |q.parent| :: q.parent[i] == i <==> p.parent[i] == i
  {
    forall i | 0 <= i < |q.parent| && q.parent[i] != i
      ensures q.rank[i] < q.rank[q.parent[i]]
    {
    }
  }

  /** Shortcutting keeps every element's root. */
  lemma {:induction false} ShortcutRoot(p: Sets, q: Sets, y: int)
    requires Shortcut(p, q) && 0 <= y < |p.parent|
    ensures Forest(q) && Root(q, y) == Root(p, y)
    decreases MaxOf(p.rank) - p.rank[y]
  {
    ShortcutForest(p, q);
    if p.parent[y] != y {
      if q.parent[y] == p.parent[y] {
        ShortcutRoot(p, q, p.parent[y]);
      } else {
        var r := Root(p, y);
        assert q.parent[r] == r;
      }
    }
  }

  /** Shortcutting keeps every element's root, for all elements at once. */
  lemma ShortcutRoots(p: Sets, q: Sets)
    requires Shortcut(p, q)
    ensures Forest(q)
    ensures forall y | 0 <= y < |p.parent| :: Root(q, y) == Root(p, y)
  {
    ShortcutForest(p, q);
    forall y | 0 <= y < |p.parent|
      ensures Root(q, y) == Root(p, y)
    {
      ShortcutRoot(p, q, y);
    }
  }

  /** The vectors after the mutable find(x): x and every element above it point straight at the root. */
  function Compress(s: Sets, x: int): (c: Sets)
    requires Forest(s) && 0 <= x < |s.parent|
    ensures |c.parent| == |s.parent| && c.rank == s.rank
    decreases MaxOf(s.rank) - s.rank[x]
  {
    if s.parent[x] == x then s
    else
      var c := Compress(s, s.parent[x]);
      c.(parent := c.parent[x := Root(s, x)])
  }

  /** find(x) only shortcuts, and leaves x pointing at its root. */
  lemma {:induction false} CompressShortcuts(s: Sets, x: int)
    requires Forest(s) && 0 <= x < |s.parent|
    ensures Shortcut(s, Compress(s, x))
    ensures Compress(s, x).parent[x] == Root(s, x)
    decreases MaxOf(s.rank) - s.rank[x]
  {
    if s.parent[x] != x {
      CompressShortcuts(s, s.parent[x]);
    }
  }

  /**
   * find(x) changes no element's set and no root, and afterwards x's parent
   * is its root.
   */
  lemma CompressKeeps(s: Sets, x: int)
    requires Forest(s) && 0 <= x < |s.parent|
    ensures Forest(Compress(s, x))
    ensures forall y | 0 <= y < |s.parent| :: Root(Compress(s, x), y) == Root(s, y)
    ensures Roots(Compress(s, x)) == Roots(s)
    ensures Compress(s, x).parent[x] == Root(s, x)
  {
    CompressShortcuts(s, x);
    ShortcutRoots(s, Compress(s, x));
    ShortcutForest(s, Compress(s, x));
  }

  /** The vectors after find(x) and then find(y), as isConnected of UnionSet.cpp leaves them. */
  function CompressBoth(s: Sets, x: int, y: int): (c: Sets)
    requires Forest(s) && 0 <= x < |s.parent| && 0 <= y < |s.parent|
    ensures |c.parent| == |s.parent| && c.rank == s.rank
  {
    CompressKeeps(s, x);
    Compress(Compress(s, x), y)
  }

  /** Two finds in a row change no element's root, so no element's set. */
  lemma CompressBothKeeps(s: Sets, x: int, y: int)
    requires Forest(s) && 0 <= x < |s.parent| && 0 <= y < |s.parent|
    ensures Forest(CompressBoth(s, x, y))
    ensures forall a | 0 <= a < |s.parent| :: Root(CompressBoth(s, x, y), a) == Root(s, a)
    ensures Compress(s, x).parent[x] == Root(s, x) && Forest(Compress(s, x))
    ensures Root(Compress(s, x), y) == Root(s, y)
  {
    CompressKeeps(s, x);
    CompressKeeps(Compress(s, x), y);
  }

  // ----- union by rank -----

  /**
   * Linking two distinct roots by rank: the root of lower rank goes under
   * the other; on a tie rx goes under ry and ry's rank grows by one.
   */
  function Link(s: Sets, rx: int, ry: int): (l: Sets)
    requires |s.parent| == |s.rank| && 0 <= rx < |s.parent| && 0 <= ry < |s.parent|
    ensures |l.parent| == |l.rank| == |s.parent|
  {
    if s.rank[rx] < s.rank[ry] then s.(parent := s.parent[rx := ry])
    else if s.rank[rx] > s.rank[ry] then s.(parent := s.parent[ry := rx])
    else Sets(s.parent[rx := ry], s.rank[ry := s.rank[ry] + 1])
  }

  /** Hanging root a under root b keeps the forest shape, given a's rank is below b's new rank. */
  lemma {:induction false} HangRoot(s: Sets, l: Sets, a: int, b: int, y: int)
    requires Forest(s) && 0 <= a < |s.parent| && 0 <= b < |s.parent| && a != b
    requires s.parent[a] == a && s.parent[b] == b
    requires l.parent == s.parent[a := b] && |l.rank| == |s.rank|
    requires forall i | 0 <= i < |s.rank| && i != b :: l.rank[i] == s.rank[i]
    requires s.rank[b] <= l.rank[b] && s.rank[a] < l.rank[b]
    requires 0 <= y < |s.parent|
    ensures Forest(l)
    ensures Root(l, y) == if Root(s, y) == a then b else Root(s, y)
    decreases MaxOf(s.rank) - s.rank[y]
  {
    assert Forest(l) by {
      forall i | 0 <= i < |l.parent| && l.parent[i] != i
        ensures l.rank[i] < l.rank[l.parent[i]]
      {
        if i != a && s.parent[i] == b {
          assert s.rank[i] < s.rank[b];
        }
      }
    }
    if y != a && s.parent[y] != y {
      HangRoot(s, l, a, b, s.parent[y]);
    }
  }

  /** Linking two distinct roots keeps the forest shape and removes exactly the root that goes under. */
  lemma LinkForest(s: Sets, rx: int, ry: int)
    requires Forest(s) && 0 <= rx < |s.parent| && 0 <= ry < |s.parent| && rx != ry
    requires s.parent[rx] == rx && s.parent[ry] == ry
    ensures Forest(Link(s, rx, ry))
    ensures Roots(Link(s, rx, ry)) == Roots(s) - {if s.rank[rx] > s.rank[ry] then ry else rx}
  {
    var l := Link(s, rx, ry);
    var a, b := if s.rank[rx] > s.rank[ry] then ry else rx, if s.rank[rx] > s.rank[ry] then rx else ry;
    assert l.parent == s.parent[a := b];
    HangRoot(s, l, a, b, ry);
  }

  /**
   * After linking two distinct roots, every element of their two sets has
   * the same root, one of the two; every other element keeps its root.
   */
  lemma LinkRoot(s: Sets, rx: int, ry: int, y: int)
    requires Forest(s) && 0 <= rx < |s.parent| && 0 <= ry < |s.parent| && rx != ry
    requires s.parent[rx] == rx && s.parent[ry] == ry && 0 <= y < |s.parent|
    ensures Forest(Link(s, rx, ry))
    ensures Root(Link(s, rx, ry), ry) in {rx, ry}
    ensures Root(Link(s, rx, ry), y) == if Root(s, y) in {rx, ry} then Root(Link(s, rx, ry), ry) else Root(s, y)
  {
    var l := Link(s, rx, ry);
    var a, b := if s.rank[rx] > s.rank[ry] then ry else rx, if s.rank[rx] > s.rank[ry] then rx else ry;
    assert l.parent == s.parent[a := b];
    HangRoot(s, l, a, b, y);
    HangRoot(s, l, a, b, ry);
  }

  /** The vectors after merge(x, y): find(x), find(y), then link the two roots if they differ. */
  function MergeF(s: Sets, x: int, y: int): (m: Sets)
    requires Forest(s) && 0 <= x < |s.parent| && 0 <= y < |s.parent|
    ensures |m.parent| == |m.rank| == |s.parent|
  {
    var s1 := Compress(s, x);
    CompressKeeps(s, x);
    var s2 := Compress(s1, y);
    CompressKeeps(s1, y);
    var rx, ry := Root(s, x), Root(s1, y);
    if rx == ry then s2 else Link(s2, rx, ry)
  }

  /**
   * merge(x, y) step by step: s1 and s2 are the vectors after find(x) and
   * find(y); the result is s2 when the two roots agree, and otherwise the
   * link of the two roots in s2, which is a forest.
   */
  lemma MergeSteps(s: Sets, s1: Sets, s2: Sets, x: int, y: int)
    requires Forest(s) && 0 <= x < |s.parent| && 0 <= y < |s.parent|
    requires s1 == Compress(s, x) && Forest(s1) && s2 == Compress(s1, y)
    ensures Forest(s2) && Root(s1, y) == Root(s, y)
    ensures s2.parent[Root(s, x)] == Root(s, x) && s2.parent[Root(s, y)] == Root(s, y)
    ensures Root(s, x) == Root(s, y) ==> MergeF(s, x, y) == s2
    ensures Root(s, x) != Root(s, y) ==>
      MergeF(s, x, y) == Link(s2, Root(s, x), Root(s, y)) && Forest(MergeF(s, x, y))
  {
    CompressKeeps(s, x);
    CompressKeeps(s1, y);
    if Root(s, x) != Root(s, y) {
      LinkForest(s2, Root(s, x), Root(s, y));
    }
  }

  /** merge(x, y) keeps the forest shape. */
  lemma MergeForest(s: Sets, x: int, y: int)
    requires Forest(s) && 0 <= x < |s.parent| && 0 <= y < |s.parent|
    ensures Forest(MergeF(s, x, y))
  {
    var s1 := Compress(s, x);
    CompressKeeps(s, x);
    var s2 := Compress(s1, y);
    CompressKeeps(s1, y);
    var rx, ry := Root(s, x), Root(s1, y);
    if rx != ry {
      LinkForest(s2, rx, ry);
    }
  }

  /**
   * After merge(x, y) two elements are connected exactly when they were
   * before, or one was connected with x and the other with y.
   */
  lemma MergeConnects(s: Sets, x: int, y: int, a: int, b: int)
    requires Forest(s) && 0 <= x < |s.parent| && 0 <= y < |s.parent|
    requires 0 <= a < |s.parent| && 0 <= b < |s.parent|
    ensures Forest(MergeF(s, x, y))
    ensures Connected(MergeF(s, x, y), a, b) <==>
      Connected(s, a, b) || (Connected(s, a, x) && Connected(s, b, y)) || (Connected(s, a, y) && Connected(s, b, x))
  {
    MergeForest(s, x, y);
    var s1 := Compress(s, x);
    CompressKeeps(s, x);
    var s2 := Compress(s1, y);
    CompressKeeps(s1, y);
    var rx, ry := Root(s, x), Root(s1, y);
    assert ry == Root(s, y);
    assert Root(s2, a) == Root(s, a) && Root(s2, b) == Root(s, b);
    if rx == ry {
      assert MergeF(s, x, y) == s2;
    } else {
      assert MergeF(s, x, y) == Link(s2, rx, ry);
      LinkRoot(s2, rx, ry, a);
      LinkRoot(s2, rx, ry, b);
    }
  }

  /** merge(x, y) lowers the number of sets by one exactly when x and y were not connected. */
  lemma MergeCount(s: Sets, x: int, y: int)
    requires Forest(s) && 0 <= x < |s.parent| && 0 <= y < |s.parent|
    ensures Forest(MergeF(s, x, y))
    ensures |Roots(MergeF(s, x, y))| == if Connected(s, x, y) then |Roots(s)| else |Roots(s)| - 1
  {
    MergeForest(s, x, y);
    var s1 := Compress(s, x);
    CompressKeeps(s, x);
    var s2 := Compress(s1, y);
    CompressKeeps(s1, y);
    var rx, ry := Root(s, x), Root(s1, y);
    assert ry == Root(s, y);
    if rx == ry {
      assert MergeF(s, x, y) == s2;
    } else {
      assert MergeF(s, x, y) == Link(s2, rx, ry);
      assert s2.parent[rx] == rx && s2.parent[ry] == ry;
      LinkForest(s2, rx, ry);
      assert (if s2.rank[rx] > s2.rank[ry] then ry else rx) in Roots(s2);
    }
  }

  /** The first merge of the unit tests, 0 with 1, on six singletons. */
  lemma MergeExampleFirst(s0: Sets, s1: Sets)
    requires s0 == Init(6) && s1 == MergeF(s0, 0, 1)
    ensures Forest(s1) && |s1.parent| == 6 && |Roots(s1)| == 5 && Connected(s1, 0, 1)
    ensures !Connected(s1, 0, 2) && !Connected(s1, 0, 3) && !Connected(s1, 2, 3)
  {
    InitSingletons(6);
    MergeCount(s0, 0, 1);
    MergeForest(s0, 0, 1);
    MergeConnects(s0, 0, 1, 0, 1);
    MergeConnects(s0, 0, 1, 0, 2);
    MergeConnects(s0, 0, 1, 0, 3);
    MergeConnects(s0, 0, 1, 2, 3);
  }

  /** The second merge of the unit tests, 2 with 3. */
  lemma MergeExampleSecond(s1: Sets, s2: Sets)
    requires Forest(s1) && |s1.parent| == 6 && |Roots(s1)| == 5 && Connected(s1, 0, 1)
    requires !Connected(s1, 0, 2) && !Connected(s1, 0, 3) && !Connected(s1, 2, 3)
    requires s2 == MergeF(s1, 2, 3)
    ensures Forest(s2) && |s2.parent| == 6 && |Roots(s2)| == 4
    ensures Connected(s2, 0, 1) && Connected(s2, 2, 3) && !Connected(s2, 0, 2)
  {
    MergeCount(s1, 2, 3);
    MergeForest(s1, 2, 3);
    MergeConnects(s1, 2, 3, 0, 1);
    MergeConnects(s1, 2, 3, 2, 3);
    MergeConnects(s1, 2, 3, 0, 2);
  }

  /** The third merge of the unit tests, 0 with 2. */
  lemma MergeExampleThird(s2: Sets, s3: Sets)
    requires Forest(s2) && |s2.parent| == 6 && |Roots(s2)| == 4
    requires Connected(s2, 0, 1) && Connected(s2, 2, 3) && !Connected(s2, 0, 2)
    requires s3 == MergeF(s2, 0, 2)
    ensures Forest(s3) && |Roots(s3)| == 3 && Connected(s3, 1, 3)
  {
    MergeCount(s2, 0, 2);
    MergeForest(s2, 0, 2);
    MergeConnects(s2, 0, 2, 1, 3);
  }

  /**
   * The merges of the unit tests on six elements: {0,1}, then {2,3}, then
   * {0,2} leave 5, 4 and 3 sets; 0 and 2 are apart before the last merge,
   * and 1 and 3 are connected after it.
   */
  lemma MergeExample(s0: Sets, s1: Sets, s2: Sets, s3: Sets)
    requires s0 == Init(6) && s1 == MergeF(s0, 0, 1) && s2 == MergeF(s1, 2, 3) && s3 == MergeF(s2, 0, 2)
    ensures Forest(s1) && Forest(s2) && Forest(s3)
    ensures |Roots(s1)| == 5 && Connected(s1, 0, 1)
    ensures |Roots(s2)| == 4 && Connected(s2, 2, 3) && !Connected(s2, 0, 2)
    ensures |Roots(s3)| == 3 && Connected(s3, 1, 3)
  {
    MergeExampleFirst(s0, s1);
    MergeExampleSecond(s1, s2);
    MergeExampleThird(s2, s3);
  }
}
