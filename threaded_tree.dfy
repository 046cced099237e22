/**
 * The BinTree<T> class of BinTree/BinTree.cpp with T = char: the tree read
 * from a generalised table, its traversals, Size, Height and Cal, and
 * in-order threading with the walk along the threads.
 *
 * Heap nodes are the cells of a node store (GenTable.Cell): a link is an
 * index into the store and -1 is a null link. A tag is 0 when its link
 * is a child and 1 when it is a thread.
 */
module ThreadedTree {
  import opened Trees
  import opened GenTable
  import opened Errors
  import Hpp = BinTree

  // ----- the threaded store -----

  /**
   * The cells of t numbered in pre-order from `base`, threaded: a missing
   * left child becomes a thread (tag 1) to `pred`, the node just before the
   * subtree in order, and a missing right child a thread to the node just
   * after it. The last node's right link is `succ` with tag `stag`; with
   * succ = -1 and stag = 0 it is still the untouched null link.
   */
  function Threaded(t: Tree<char>, base: int, pred: int, succ: int, stag: int): (r: seq<Cell>)
    ensures |r| == Size(t)
  {
    match t
    case Nil => []
    case Node(l, d, rt) =>
      [Cell(d, if l.Node? then base + 1 else pred, if rt.Node? then base + 1 + Size(l) else succ,
            if l.Node? then 0 else 1, if rt.Node? then 0 else stag)]
      + Threaded(l, base + 1, pred, base, 1) + Threaded(rt, base + 1 + Size(l), base, succ, stag)
  }

  /** The pre-order offset of the node that comes first in order. */
  function FirstIdx(t: Tree<char>): (r: nat)
    ensures t.Node? ==> r < Size(t)
  {
    if t.Nil? || t.left.Nil? then 0 else 1 + FirstIdx(t.left)
  }

  /** The pre-order offset of the node that comes last in order. */
  function LastIdx(t: Tree<char>): (r: nat)
    ensures t.Node? ==> r < Size(t)
  {
    if t.Nil? || t.right.Nil? then 0 else 1 + Size(t.left) + LastIdx(t.right)
  }

  /** The store indices of t's nodes, numbered in pre-order from `base`, listed in order. */
  function InOrderIdx(t: Tree<char>, base: int): (r: seq<int>)
    ensures |r| == Size(t)
    ensures forall j | 0 <= j < |r| :: base <= r[j] < base + Size(t)
  {
    match t
    case Nil => []
    case Node(l, _, rt) =>
      var a, b := InOrderIdx(l, base + 1), InOrderIdx(rt, base + 1 + Size(l));
      assert forall j | 0 <= j < |a| + 1 + |b| :: (a + [base] + b)[j] == if j < |a| then a[j] else if j == |a| then base else b[j - |a| - 1];
      a + [base] + b
  }

  /** The store holds t, threaded, from `base` on. */
  ghost predicate Holds(cells: seq<Cell>, t: Tree<char>, base: int, pred: int, succ: int, stag: int)
  {
    0 <= base && base + Size(t) <= |cells| && cells[base..base + Size(t)] == Threaded(t, base, pred, succ, stag)
  }

  /** The threaded cell of a node numbered b. */
  function ThreadedCell(t: Tree<char>, b: int, pred: int, succ: int, stag: int): Cell
    requires t.Node?
  {
    Cell(t.data, if t.left.Node? then b + 1 else pred, if t.right.Node? then b + 1 + Size(t.left) else succ,
         if t.left.Node? then 0 else 1, if t.right.Node? then 0 else stag)
  }

  /** Where a threaded node's cell and its subtrees sit in the store. */
  lemma ThreadedParts(cells: seq<Cell>, t: Tree<char>, b: int, pred: int, succ: int, stag: int)
    requires t.Node? && Holds(cells, t, b, pred, succ, stag)
    ensures cells[b] == ThreadedCell(t, b, pred, succ, stag)
    ensures Holds(cells, t.left, b + 1, pred, b, 1)
    ensures Holds(cells, t.right, b + 1 + Size(t.left), b, succ, stag)
  {
    var l, r := t.left, t.right;
    var m, n := Size(l), Size(r);
    var x, y := Threaded(l, b + 1, pred, b, 1), Threaded(r, b + 1 + m, b, succ, stag);
    ThreadedNode(t, b, pred, succ, stag);
    SliceParts(cells, b, ThreadedCell(t, b, pred, succ, stag), x, m, y, n);
  }

  /** The converse of ThreadedParts. */
  lemma ThreadedJoin(cells: seq<Cell>, t: Tree<char>, b: int, pred: int, succ: int, stag: int)
    requires t.Node? && 0 <= b && b + Size(t) <= |cells|
    requires cells[b] == ThreadedCell(t, b, pred, succ, stag)
    requires Holds(cells, t.left, b + 1, pred, b, 1)
    requires Holds(cells, t.right, b + 1 + Size(t.left), b, succ, stag)
    ensures Holds(cells, t, b, pred, succ, stag)
  {
    var l, r := t.left, t.right;
    var m, n := Size(l), Size(r);
    var x, y := Threaded(l, b + 1, pred, b, 1), Threaded(r, b + 1 + m, b, succ, stag);
    ThreadedNode(t, b, pred, succ, stag);
    SliceJoin(cells, b, ThreadedCell(t, b, pred, succ, stag), x, m, y, n);
  }

  /** One level of Threaded unfolded. */
  lemma ThreadedNode(t: Tree<char>, b: int, pred: int, succ: int, stag: int)
    requires t.Node?
    ensures Size(t) == 1 + Size(t.left) + Size(t.right)
    ensures Threaded(t, b, pred, succ, stag)
            == [ThreadedCell(t, b, pred, succ, stag)] + Threaded(t.left, b + 1, pred, b, 1)
               + Threaded(t.right, b + 1 + Size(t.left), b, succ, stag)
  {
  }

  /** Changing one cell outside a slice leaves the slice as it was. */
  lemma UpdateOutside(cells: seq<Cell>, i: int, v: Cell, x: int, y: int)
    requires 0 <= i < |cells| && 0 <= x <= y <= |cells| && !(x <= i < y)
    ensures cells[i := v][x..y] == cells[x..y]
  {
  }

  /** A slice that a change confined to [lo, hi) and to cell p does not reach is unchanged. */
  lemma Untouched(a: seq<Cell>, b: seq<Cell>, lo: int, hi: int, p: int, x: int, y: int)
    requires |a| == |b| && 0 <= x <= y <= |a|
    requires forall j | 0 <= j < |a| && !(lo <= j < hi) && j != p :: b[j] == a[j]
    requires y <= lo || hi <= x
    requires !(x <= p < y)
    ensures b[x..y] == a[x..y]
  {
    forall i | 0 <= i < y - x
      ensures b[x..y][i] == a[x..y][i]
    {
      assert b[x + i] == a[x + i];
    }
  }

  /** Updating past a prefix updates the suffix. */
  lemma UpdateAfter(p: seq<Cell>, q: seq<Cell>, j: int, v: Cell)
    requires 0 <= j < |q|
    ensures (p + q)[|p| + j] == q[j]
    ensures (p + q)[|p| + j := v] == p + q[j := v]
  {
    var l, r := (p + q)[|p| + j := v], p + q[j := v];
    assert forall i | 0 <= i < |l| :: l[i] == r[i];
  }

  /** Updating the head of a sequence. */
  lemma UpdateHead(c: Cell, q: seq<Cell>, v: Cell)
    ensures ([c] + q)[0 := v] == [v] + q
  {
    assert forall i | 0 <= i < 1 + |q| :: ([c] + q)[0 := v][i] == ([v] + q)[i];
  }

  /**
   * Until its successor is visited, the last node of a threaded subtree has
   * a null right link with tag 0; setting that link to `succ` with tag
   * `stag` is what distinguishes the finished subtree from the pending one.
   */
  lemma {:induction false} ThreadedClose(t: Tree<char>, b: int, pred: int, succ: int, stag: int)
    requires t.Node?
    ensures Threaded(t, b, pred, -1, 0)[LastIdx(t)].right == -1 && Threaded(t, b, pred, -1, 0)[LastIdx(t)].rtag == 0
    ensures Threaded(t, b, pred, succ, stag)
            == Threaded(t, b, pred, -1, 0)[LastIdx(t) := Threaded(t, b, pred, -1, 0)[LastIdx(t)].(right := succ, rtag := stag)]
    decreases t
  {
    ThreadedNode(t, b, pred, succ, stag);
    ThreadedNode(t, b, pred, -1, 0);
    var x := Threaded(t.left, b + 1, pred, b, 1);
    if t.right.Node? {
      var n := b + 1 + Size(t.left);
      ThreadedClose(t.right, n, b, succ, stag);
      var y0 := Threaded(t.right, n, b, -1, 0);
      var p := [ThreadedCell(t, b, pred, -1, 0)] + x;
      assert ThreadedCell(t, b, pred, succ, stag) == ThreadedCell(t, b, pred, -1, 0);
      assert LastIdx(t) == |p| + LastIdx(t.right);
      UpdateAfter(p, y0, LastIdx(t.right), y0[LastIdx(t.right)].(right := succ, rtag := stag));
    } else {
      assert LastIdx(t) == 0;
      UpdateHead(ThreadedCell(t, b, pred, -1, 0), x, ThreadedCell(t, b, pred, succ, stag));
    }
  }

  /** Reading and updating the store at offset j of a slice known to equal s. */
  lemma UpdateInside(cells: seq<Cell>, b: int, e: int, s: seq<Cell>, j: int, v: Cell)
    requires 0 <= b <= e <= |cells| && cells[b..e] == s && 0 <= j < |s|
    ensures cells[b + j] == s[j]
    ensures cells[b + j := v][b..e] == s[j := v]
  {
    assert cells[b + j] == cells[b..e][j];
    var l, r := cells[b + j := v][b..e], s[j := v];
    assert |l| == |r|;
    assert forall i | 0 <= i < |l| :: l[i] == r[i];
  }

  /** ThreadedClose on the store, with j the offset of the subtree's last node. */
  lemma CloseLast(cells: seq<Cell>, t: Tree<char>, b: int, j: int, pred: int, succ: int, stag: int)
    requires t.Node? && Holds(cells, t, b, pred, -1, 0) && j == LastIdx(t)
    ensures cells[b + j].right == -1 && cells[b + j].rtag == 0
    ensures Holds(cells[b + j := cells[b + j].(right := succ, rtag := stag)], t, b, pred, succ, stag)
  {
    var t0 := Threaded(t, b, pred, -1, 0);
    ThreadedClose(t, b, pred, succ, stag);
    UpdateInside(cells, b, b + Size(t), t0, j, t0[j].(right := succ, rtag := stag));
  }

  // ----- threading, one node at a time -----

  /**
   * The middle of createInthread's visit of `current`: a null left link
   * becomes a thread to `pre`, and a null right link of `pre` a thread to
   * `current`.
   */
  function Visited(cells: seq<Cell>, current: int, pre: int): (r: seq<Cell>)
    requires 0 <= current < |cells| && -1 <= pre < |cells|
    ensures |r| == |cells|
  {
    var c1 := if cells[current].left == -1 then cells[current := cells[current].(left := pre, ltag := 1)] else cells;
    if pre != -1 && c1[pre].right == -1 then c1[pre := c1[pre].(right := current, rtag := 1)] else c1
  }

  /** The cells outside [lo, hi) other than cell p are as they were. */
  ghost predicate Frame(a: seq<Cell>, b: seq<Cell>, lo: int, hi: int, p: int)
  {
    |a| == |b| && forall j | 0 <= j < |a| && !(lo <= j < hi) && j != p :: b[j] == a[j]
  }

  /**
   * What threading a subtree t numbered from `base` does to `pre`, the node
   * visited just before it: a null right link becomes a thread to the
   * subtree's first node in order.
   */
  function PreLinked(c: Cell, t: Tree<char>, base: int): Cell
  {
    if t.Node? && c.right == -1 then c.(right := base + FirstIdx(t), rtag := 1) else c
  }

  /** The pre-order layout's cell of a node numbered b: no threads yet. */
  function LayoutCell(t: Tree<char>, b: int): Cell
    requires t.Node?
  {
    Cell(t.data, if t.left.Node? then b + 1 else -1, if t.right.Node? then b + 1 + Size(t.left) else -1, 0, 0)
  }

  /** Where a laid-out node's cell and its subtrees sit, with the subtree sizes named. */
  lemma LaidParts(t: Tree<char>, cells: seq<Cell>, b: int, k: int, m: int)
    requires t.Node? && k == Size(t.left) && m == Size(t.right)
    requires 0 <= b && b + Size(t) <= |cells| && cells[b..b + Size(t)] == Layout(t, b)
    ensures Size(t) == 1 + k + m
    ensures cells[b] == LayoutCell(t, b)
    ensures cells[b + 1..b + 1 + k] == Layout(t.left, b + 1)
    ensures cells[b + 1 + k..b + 1 + k + m] == Layout(t.right, b + 1 + k)
  {
    LayoutParts(t, cells, b);
  }

  /** Visiting a node without a left child: its left link becomes a thread to pre. */
  lemma VisitNoLeft(n1: seq<Cell>, n3: seq<Cell>, t: Tree<char>, base: int, pre: int)
    requires t.Node? && t.left.Nil? && 0 <= base < |n1| && -1 <= pre < base
    requires n1[base] == LayoutCell(t, base) && n3 == Visited(n1, base, pre)
    ensures n3[base] == ThreadedCell(t, base, pre, -1, 0) && Frame(n1, n3, base, base + 1, pre)
      && (pre != -1 ==> n3[pre] == PreLinked(n1[pre], t, base))
  {
  }

  /** Visiting a node with a left child: the left subtree's last node gets its thread to it. */
  lemma VisitAfterLeft(n1: seq<Cell>, n3: seq<Cell>, t: Tree<char>, base: int, pre: int, p: int)
    requires t.Node? && t.left.Node? && 0 <= base && base + Size(t) <= |n1| && -1 <= pre < base
    requires n1[base] == LayoutCell(t, base)
    requires Holds(n1, t.left, base + 1, pre, -1, 0)
    requires p == base + 1 + LastIdx(t.left) && n3 == Visited(n1, base, p)
    ensures n3[base] == ThreadedCell(t, base, pre, -1, 0) && Frame(n1, n3, base + 1, base + 1 + Size(t.left), -1)
      && Holds(n3, t.left, base + 1, pre, base, 1)
  {
    CloseLast(n1, t.left, base + 1, p - base - 1, pre, base, 1);
    assert n1[base].left == base + 1;
    assert n3 == n1[p := n1[p].(right := base, rtag := 1)];
    assert n3[base] == n1[base];
  }

  /** Visiting a node once its left subtree is threaded, in the form the recursion uses. */
  lemma VisitNode(cells: seq<Cell>, n1: seq<Cell>, n3: seq<Cell>, t: Tree<char>, base: int, pre: int, p: int)
    requires t.Node? && 0 <= base && base + Size(t) <= |cells| && -1 <= pre < base
    requires cells[base] == LayoutCell(t, base) && Frame(cells, n1, base + 1, base + 1 + Size(t.left), pre)
    requires Holds(n1, t.left, base + 1, pre, -1, 0)
    requires p == (if t.left.Node? then base + 1 + LastIdx(t.left) else pre) && n3 == Visited(n1, base, p)
    ensures Frame(n1, n3, base, base + 1 + Size(t.left), pre)
      && n3[base] == ThreadedCell(t, base, pre, -1, 0) && Holds(n3, t.left, base + 1, pre, base, 1)
      && (pre != -1 ==> n3[pre] == (if t.left.Nil? then PreLinked(n1[pre], t, base) else n1[pre]))
  {
    assert n1[base] == cells[base];
    if t.left.Nil? {
      VisitNoLeft(n1, n3, t, base, pre);
    } else {
      VisitAfterLeft(n1, n3, t, base, pre, p);
    }
  }

  /** After the visit, the right subtree is still laid out and the node still links to it. */
  lemma RightReady(cells: seq<Cell>, n1: seq<Cell>, n3: seq<Cell>, t: Tree<char>, base: int, pre: int, k: int)
    requires t.Node? && k == Size(t.left) && 0 <= base && base + 1 + k + Size(t.right) <= |cells| && -1 <= pre < base
    requires cells[base + 1 + k..base + 1 + k + Size(t.right)] == Layout(t.right, base + 1 + k)
    requires Frame(cells, n1, base + 1, base + 1 + k, pre)
    requires Frame(n1, n3, base, base + 1 + k, pre)
    requires n3[base] == ThreadedCell(t, base, pre, -1, 0)
    ensures n3[base].right == (if t.right.Node? then base + 1 + k else -1)
    ensures base + 1 + k + Size(t.right) <= |n3|
    ensures n3[base + 1 + k..base + 1 + k + Size(t.right)] == Layout(t.right, base + 1 + k)
  {
    var e := base + 1 + k + Size(t.right);
    Untouched(cells, n1, base + 1, base + 1 + k, pre, base + 1 + k, e);
    Untouched(n1, n3, base, base + 1 + k, pre, base + 1 + k, e);
  }

  /** The right subtree threaded after its node is visited: the node's whole subtree is threaded. */
  lemma FinishNode(n0: seq<Cell>, n1: seq<Cell>, n3: seq<Cell>, n4: seq<Cell>, t: Tree<char>, base: int, pre: int)
    requires t.Node? && 0 <= base && base + Size(t) <= |n0| && -1 <= pre < base
    requires Frame(n0, n1, base + 1, base + 1 + Size(t.left), pre)
    requires pre != -1 ==> n1[pre] == PreLinked(n0[pre], t.left, base + 1)
    requires Frame(n1, n3, base, base + 1 + Size(t.left), pre)
    requires n3[base] == ThreadedCell(t, base, pre, -1, 0) && Holds(n3, t.left, base + 1, pre, base, 1)
    requires pre != -1 ==> n3[pre] == (if t.left.Nil? then PreLinked(n1[pre], t, base) else n1[pre])
    requires Holds(n4, t.right, base + 1 + Size(t.left), base, -1, 0)
    requires Frame(n3, n4, base + 1 + Size(t.left), base + 1 + Size(t.left) + Size(t.right), base)
    requires n4[base] == PreLinked(n3[base], t.right, base + 1 + Size(t.left))
    ensures Holds(n4, t, base, pre, -1, 0)
    ensures Frame(n0, n4, base, base + Size(t), pre)
    ensures pre != -1 ==> n4[pre] == PreLinked(n0[pre], t, base)
  {
    var k := Size(t.left);
    Untouched(n3, n4, base + 1 + k, base + 1 + k + Size(t.right), base, base + 1, base + 1 + k);
    ThreadedJoin(n4, t, base, pre, -1, 0);
    if pre != -1 {
      assert n4[pre] == n3[pre];
    }
  }

  /** The visit in the middle of createInthread, on the node store. */
  method Visit(cells: seq<Cell>, current: int, pre: int) returns (out: seq<Cell>)
    requires 0 <= current < |cells| && -1 <= pre < |cells|
    ensures out == Visited(cells, current, pre)
  {
    out := cells;
    if out[current].left == -1 {
      out := out[current := out[current].(left := pre, ltag := 1)];
    }
    if pre != -1 && out[pre].right == -1 {
      out := out[pre := out[pre].(right := current, rtag := 1)];
    }
  }

  /**
   * createInthread(current, pre): threads the subtree numbered from `base`
   * whose root is `current`, given `pre`, the node visited before it, and
   * returns the node visited last, which is where the by-reference pre ends
   * up. The node store is passed in and handed back.
   */
  method ThreadSubtree(cells: seq<Cell>, current: int, pre: int, ghost t: Tree<char>, ghost base: int)
      returns (out: seq<Cell>, last: int)
    requires current == (if t.Node? then base else -1)
    requires 0 <= base && base + Size(t) <= |cells|
    requires cells[base..base + Size(t)] == Layout(t, base)
    requires -1 <= pre < base
    ensures Holds(out, t, base, pre, -1, 0)
    ensures last == (if t.Node? then base + LastIdx(t) else pre)
    ensures Frame(cells, out, base, base + Size(t), pre)
    ensures pre != -1 ==> out[pre] == PreLinked(cells[pre], t, base)
    decreases Size(t), 2
  {
    if current == -1 {
      return cells, pre;
    }
    out, last := ThreadNode(cells, current, pre, t, base);
  }

  /** createInthread(current, pre) at a node: its left subtree first, then the node itself and its right subtree. */
  method ThreadNode(cells: seq<Cell>, current: int, pre: int, ghost t: Tree<char>, ghost base: int)
      returns (out: seq<Cell>, last: int)
    requires t.Node? && current == base
    requires 0 <= base && base + Size(t) <= |cells|
    requires cells[base..base + Size(t)] == Layout(t, base)
    requires -1 <= pre < base
    ensures Holds(out, t, base, pre, -1, 0)
    ensures last == base + LastIdx(t)
    ensures Frame(cells, out, base, base + Size(t), pre)
    ensures pre != -1 ==> out[pre] == PreLinked(cells[pre], t, base)
    decreases Size(t), 1
  {
    ghost var k := Size(t.left);
    LaidParts(t, cells, base, k, Size(t.right));
    var n1;
    n1, last := ThreadSubtree(cells, cells[current].left, pre, t.left, base + 1);
    out, last := ThreadRest(cells, n1, current, last, t, base, pre, k);
  }

  /**
   * The rest of createInthread once the left subtree is threaded: the visit
   * of `current` with `p` as pre, then the right subtree.
   */
  method ThreadRest(cells: seq<Cell>, n1: seq<Cell>, current: int, p: int, ghost t: Tree<char>, ghost base: int,
                    ghost pre: int, ghost k: int)
      returns (out: seq<Cell>, last: int)
    requires t.Node? && current == base && k == Size(t.left)
    requires 0 <= base && base + Size(t) <= |cells| && -1 <= pre < base
    requires cells[base] == LayoutCell(t, base)
    requires cells[base + 1 + k..base + 1 + k + Size(t.right)] == Layout(t.right, base + 1 + k)
    requires Frame(cells, n1, base + 1, base + 1 + k, pre)
    requires Holds(n1, t.left, base + 1, pre, -1, 0)
    requires pre != -1 ==> n1[pre] == PreLinked(cells[pre], t.left, base + 1)
    requires p == (if t.left.Node? then base + 1 + LastIdx(t.left) else pre)
    ensures Holds(out, t, base, pre, -1, 0)
    ensures last == base + LastIdx(t)
    ensures Frame(cells, out, base, base + Size(t), pre)
    ensures pre != -1 ==> out[pre] == PreLinked(cells[pre], t, base)
    decreases Size(t), 0
  {
    var n3 := VisitReady(cells, n1, current, p, t, base, pre, k);
    out, last := ThreadSubtree(n3, n3[current].right, current, t.right, base + 1 + k);
    FinishNode(cells, n1, n3, out, t, base, pre);
  }

  /**
   * The visit of `current` once its left subtree is threaded: it is
   * threaded itself, and its right link and the untouched layout of its
   * right subtree are ready for the descent into it.
   */
  method VisitReady(cells: seq<Cell>, n1: seq<Cell>, current: int, p: int, ghost t: Tree<char>, ghost base: int,
                    ghost pre: int, ghost k: int) returns (n3: seq<Cell>)
    requires t.Node? && current == base && k == Size(t.left)
    requires 0 <= base && base + Size(t) <= |cells| && -1 <= pre < base
    requires cells[base] == LayoutCell(t, base)
    requires cells[base + 1 + k..base + 1 + k + Size(t.right)] == Layout(t.right, base + 1 + k)
    requires Frame(cells, n1, base + 1, base + 1 + k, pre)
    requires Holds(n1, t.left, base + 1, pre, -1, 0)
    requires p == (if t.left.Node? then base + 1 + LastIdx(t.left) else pre)
    ensures Frame(n1, n3, base, base + 1 + k, pre)
    ensures n3[base] == ThreadedCell(t, base, pre, -1, 0) && Holds(n3, t.left, base + 1, pre, base, 1)
    ensures pre != -1 ==> n3[pre] == (if t.left.Nil? then PreLinked(n1[pre], t, base) else n1[pre])
    ensures n3[base].right == (if t.right.Node? then base + 1 + k else -1)
    ensures base + 1 + k + Size(t.right) <= |n3|
    ensures n3[base + 1 + k..base + 1 + k + Size(t.right)] == Layout(t.right, base + 1 + k)
  {
    n3 := Visit(n1, current, p);
    VisitNode(cells, n1, n3, t, base, pre, p);
    RightReady(cells, n1, n3, t, base, pre, k);
  }

  // ----- what threading leaves, and the walk along the threads -----

  /** A cell with its threads removed: a thread becomes the null link it replaced. */
  function Strip(c: Cell): Cell
  {
    Cell(c.data, if c.ltag == 0 then c.left else -1, if c.rtag == 0 then c.right else -1, 0, 0)
  }

  function Unthread(s: seq<Cell>): (r: seq<Cell>)
    ensures |r| == |s|
  {
    if s == [] then [] else [Strip(s[0])] + Unthread(s[1..])
  }

  lemma {:induction false} UnthreadAppend(a: seq<Cell>, b: seq<Cell>)
    ensures Unthread(a + b) == Unthread(a) + Unthread(b)
    decreases |a|
  {
    if a == [] {
      assert a + b == b;
    } else {
      assert (a + b)[1..] == a[1..] + b;
      UnthreadAppend(a[1..], b);
    }
  }

  /**
   * Threading changes nothing but null links: removing the threads gives
   * back the pre-order layout, so every key and every child link is kept,
   * with tag 0, and only null links carry tag 1.
   */
  lemma {:induction false} UnthreadThreaded(t: Tree<char>, b: int, pred: int, succ: int, stag: int)
    requires stag == 1 || succ == -1
    ensures Unthread(Threaded(t, b, pred, succ, stag)) == Layout(t, b)
    decreases t
  {
    if t.Node? {
      var x := Threaded(t.left, b + 1, pred, b, 1);
      var y := Threaded(t.right, b + 1 + Size(t.left), b, succ, stag);
      ThreadedNode(t, b, pred, succ, stag);
      LayoutNode(t, b);
      UnthreadThreaded(t.left, b + 1, pred, b, 1);
      UnthreadThreaded(t.right, b + 1 + Size(t.left), b, succ, stag);
      UnthreadAppend([ThreadedCell(t, b, pred, succ, stag)] + x, y);
      UnthreadAppend([ThreadedCell(t, b, pred, succ, stag)], x);
      assert Unthread([ThreadedCell(t, b, pred, succ, stag)]) == [LayoutCell(t, b)];
    }
  }

  /** The first store index in order is the subtree's first node. */
  lemma {:induction false} FirstIsFirst(t: Tree<char>, b: int)
    requires t.Node?
    ensures InOrderIdx(t, b)[0] == b + FirstIdx(t)
    decreases t
  {
    if t.left.Node? {
      FirstIsFirst(t.left, b + 1);
      assert InOrderIdx(t, b)[0] == InOrderIdx(t.left, b + 1)[0];
    } else {
      assert InOrderIdx(t, b)[0] == b;
    }
  }

  lemma {:induction false} InOrderLength(t: Tree<char>)
    ensures |InOrder(t)| == Size(t)
  {
    if t.Node? {
      InOrderLength(t.left);
      InOrderLength(t.right);
    }
  }

  /** The cell at the i-th store index in order holds the i-th key in order. */
  lemma {:induction false} InOrderData(cells: seq<Cell>, t: Tree<char>, b: int, pred: int, succ: int, stag: int, i: int)
    requires Holds(cells, t, b, pred, succ, stag) && 0 <= i < Size(t)
    ensures |InOrder(t)| == Size(t) && cells[InOrderIdx(t, b)[i]].data == InOrder(t)[i]
    decreases t, 1
  {
    assert t.Node?;
    if i < Size(t.left) {
      InOrderDataLeft(cells, t, b, pred, succ, stag, i);
    } else if i > Size(t.left) {
      InOrderDataRight(cells, t, b, pred, succ, stag, i);
    } else {
      ThreadedParts(cells, t, b, pred, succ, stag);
      Pick(InOrderIdx(t.left, b + 1), b, InOrderIdx(t.right, b + 1 + Size(t.left)),
           InOrder(t.left), t.data, InOrder(t.right), i);
      assert InOrderIdx(t, b)[i] == b && InOrder(t)[i] == t.data;
      assert cells[b].data == t.data;
    }
  }

  /** InOrderData for an index inside the left subtree. */
  lemma {:induction false} InOrderDataLeft(cells: seq<Cell>, t: Tree<char>, b: int, pred: int, succ: int, stag: int, i: int)
    requires t.Node? && Holds(cells, t, b, pred, succ, stag) && 0 <= i < Size(t.left)
    ensures cells[InOrderIdx(t, b)[i]].data == InOrder(t)[i]
    decreases t, 0
  {
    ThreadedParts(cells, t, b, pred, succ, stag);
    var il, ir := InOrderIdx(t.left, b + 1), InOrderIdx(t.right, b + 1 + Size(t.left));
    var kl, kr := InOrder(t.left), InOrder(t.right);
    assert InOrderIdx(t, b) == il + [b] + ir;
    assert InOrder(t) == kl + [t.data] + kr;
    Pick(il, b, ir, kl, t.data, kr, i);
    InOrderData(cells, t.left, b + 1, pred, b, 1, i);
    assert InOrderIdx(t, b)[i] == il[i] && InOrder(t)[i] == kl[i];
  }

  /** InOrderData for an index inside the right subtree. */
  lemma {:induction false} InOrderDataRight(cells: seq<Cell>, t: Tree<char>, b: int, pred: int, succ: int, stag: int, i: int)
    requires t.Node? && Holds(cells, t, b, pred, succ, stag) && Size(t.left) < i < Size(t)
    ensures cells[InOrderIdx(t, b)[i]].data == InOrder(t)[i]
    decreases t, 0
  {
    ThreadedParts(cells, t, b, pred, succ, stag);
    var il, ir := InOrderIdx(t.left, b + 1), InOrderIdx(t.right, b + 1 + Size(t.left));
    var kl, kr := InOrder(t.left), InOrder(t.right);
    assert |il| == |kl| == Size(t.left) && |ir| == |kr| == Size(t.right);
    var j := i - Size(t.left) - 1;
    assert 0 <= j < Size(t.right);
    assert InOrderIdx(t, b) == il + [b] + ir;
    assert InOrder(t) == kl + [t.data] + kr;
    Pick(il, b, ir, kl, t.data, kr, i);
    InOrderData(cells, t.right, b + 1 + Size(t.left), b, succ, stag, j);
    assert cells[ir[j]].data == kr[j];
    assert InOrderIdx(t, b)[i] == ir[j] && InOrder(t)[i] == kr[j];
  }

  /** The i-th entries of two lists that are split alike around a middle element. */
  lemma Pick(il: seq<int>, b: int, ir: seq<int>, kl: seq<char>, d: char, kr: seq<char>, i: int)
    requires |il| == |kl| && |ir| == |kr| && 0 <= i < |il| + 1 + |ir|
    ensures (il + [b] + ir)[i] == (if i < |il| then il[i] else if i == |il| then b else ir[i - |il| - 1])
    ensures (kl + [d] + kr)[i] == (if i < |kl| then kl[i] else if i == |kl| then d else kr[i - |kl| - 1])
  {
  }

  /**
   * InOrderNext's two cases at the i-th entry of a list of store indices in
   * order: a right link with tag 0 leads to a subtree u, threaded from c,
   * whose first node is the next entry; a thread points straight at the
   * next entry, or at `succ` after the last one.
   */
  ghost predicate NextOk(cells: seq<Cell>, idx: seq<int>, i: int, succ: int,
                         u: Tree<char>, c: int, pu: int, su: int, stu: int)
  {
    0 <= i < |idx| && 0 <= idx[i] < |cells|
    && (cells[idx[i]].rtag == 0 ==>
          i + 1 < |idx| && u.Node? && Holds(cells, u, c, pu, su, stu) && cells[idx[i]].right == c
          && c + FirstIdx(u) == idx[i + 1])
    && (cells[idx[i]].rtag != 0 ==> cells[idx[i]].right == (if i + 1 < |idx| then idx[i + 1] else succ))
  }

  /** An entry of the left subtree's list, whose successor after the last is the node b. */
  lemma NextInLeft(cells: seq<Cell>, il: seq<int>, b: int, ir: seq<int>, i: int, succ: int,
                   u: Tree<char>, c: int, pu: int, su: int, stu: int)
    requires NextOk(cells, il, i, b, u, c, pu, su, stu)
    ensures NextOk(cells, il + [b] + ir, i, succ, u, c, pu, su, stu)
  {
    var idx := il + [b] + ir;
    assert idx[i] == il[i];
    if i + 1 < |il| {
      assert idx[i + 1] == il[i + 1];
    } else {
      assert idx[i + 1] == b;
    }
  }

  /** An entry of the right subtree's list. */
  lemma NextInRight(cells: seq<Cell>, il: seq<int>, b: int, ir: seq<int>, j: int, succ: int,
                    u: Tree<char>, c: int, pu: int, su: int, stu: int)
    requires NextOk(cells, ir, j, succ, u, c, pu, su, stu)
    ensures NextOk(cells, il + [b] + ir, |il| + 1 + j, succ, u, c, pu, su, stu)
  {
    var idx := il + [b] + ir;
    assert idx[|il| + 1 + j] == ir[j];
    if j + 1 < |ir| {
      assert idx[|il| + 1 + j + 1] == ir[j + 1];
    }
  }

  /** The entry of the subtree's own node: its right subtree, or its thread to `succ`. */
  lemma NextAtNode(cells: seq<Cell>, t: Tree<char>, b: int, pred: int, succ: int, il: seq<int>, ir: seq<int>)
    requires t.Node? && 0 <= b < |cells| && cells[b] == ThreadedCell(t, b, pred, succ, 1)
    requires Holds(cells, t.right, b + 1 + Size(t.left), b, succ, 1)
    requires ir == InOrderIdx(t.right, b + 1 + Size(t.left))
    ensures NextOk(cells, il + [b] + ir, |il|, succ, t.right, b + 1 + Size(t.left), b, succ, 1)
  {
    var idx := il + [b] + ir;
    assert idx[|il|] == b;
    if t.right.Node? {
      FirstIsFirst(t.right, b + 1 + Size(t.left));
      assert idx[|il| + 1] == ir[0];
    }
  }

  /** NextOk holds at every entry of a finished subtree, with the subtree that InOrderNext descends into. */
  lemma {:induction false} NextIdx(cells: seq<Cell>, t: Tree<char>, b: int, pred: int, succ: int, i: int)
      returns (u: Tree<char>, c: int, pu: int, su: int, stu: int)
    requires Holds(cells, t, b, pred, succ, 1) && 0 <= i < Size(t)
    ensures NextOk(cells, InOrderIdx(t, b), i, succ, u, c, pu, su, stu)
    decreases t
  {
    assert t.Node?;
    ThreadedParts(cells, t, b, pred, succ, 1);
    var n := b + 1 + Size(t.left);
    var il, ir := InOrderIdx(t.left, b + 1), InOrderIdx(t.right, n);
    assert InOrderIdx(t, b) == il + [b] + ir;
    if i < |il| {
      u, c, pu, su, stu := NextIdx(cells, t.left, b + 1, pred, b, i);
      NextInLeft(cells, il, b, ir, i, succ, u, c, pu, su, stu);
    } else if i == |il| {
      u, c, pu, su, stu := t.right, n, b, succ, 1;
      NextAtNode(cells, t, b, pred, succ, il, ir);
    } else {
      u, c, pu, su, stu := NextIdx(cells, t.right, n, b, succ, i - |il| - 1);
      NextInRight(cells, il, b, ir, i - |il| - 1, succ, u, c, pu, su, stu);
    }
  }

  /**
   * The left-thread half of createInthread at the i-th entry of a list of
   * store indices in order: a left link with tag 1 points at the previous
   * entry, or at `pred` before the first one.
   */
  ghost predicate PrevOk(cells: seq<Cell>, idx: seq<int>, i: int, pred: int)
  {
    0 <= i < |idx| && 0 <= idx[i] < |cells|
    && (cells[idx[i]].ltag == 1 ==> cells[idx[i]].left == (if i > 0 then idx[i - 1] else pred))
  }

  /** An entry of the left subtree's list, whose predecessor before the first is the subtree's own. */
  lemma PrevInLeft(cells: seq<Cell>, il: seq<int>, b: int, ir: seq<int>, i: int, pred: int)
    requires PrevOk(cells, il, i, pred)
    ensures PrevOk(cells, il + [b] + ir, i, pred)
  {
    var idx := il + [b] + ir;
    assert idx[i] == il[i];
    if i > 0 {
      assert idx[i - 1] == il[i - 1];
    }
  }

  /** An entry of the right subtree's list, whose predecessor before the first is the node b. */
  lemma PrevInRight(cells: seq<Cell>, il: seq<int>, b: int, ir: seq<int>, j: int, pred: int)
    requires PrevOk(cells, ir, j, b)
    ensures PrevOk(cells, il + [b] + ir, |il| + 1 + j, pred)
  {
    var idx := il + [b] + ir;
    assert idx[|il| + 1 + j] == ir[j];
    if j > 0 {
      assert idx[|il| + j] == ir[j - 1];
    } else {
      assert idx[|il|] == b;
    }
  }

  /** The entry of the subtree's own node: a left thread only when there is no left subtree, and then to `pred`. */
  lemma PrevAtNode(cells: seq<Cell>, t: Tree<char>, b: int, pred: int, succ: int, stag: int, il: seq<int>, ir: seq<int>)
    requires t.Node? && 0 <= b < |cells| && cells[b] == ThreadedCell(t, b, pred, succ, stag)
    requires il == InOrderIdx(t.left, b + 1)
    ensures PrevOk(cells, il + [b] + ir, |il|, pred)
  {
    var idx := il + [b] + ir;
    assert idx[|il|] == b;
    if t.left.Node? {
      assert cells[b].ltag == 0;
    } else {
      assert |il| == 0;
    }
  }

  /**
   * In a threaded subtree every left thread points at the in-order
   * predecessor, and the first node's at `pred`: -1, a null link, for the
   * whole tree.
   */
  lemma {:induction false} PrevIdx(cells: seq<Cell>, t: Tree<char>, b: int, pred: int, succ: int, stag: int, i: int)
    requires Holds(cells, t, b, pred, succ, stag) && 0 <= i < Size(t)
    ensures PrevOk(cells, InOrderIdx(t, b), i, pred)
    decreases t
  {
    assert t.Node?;
    ThreadedParts(cells, t, b, pred, succ, stag);
    var n := b + 1 + Size(t.left);
    var il, ir := InOrderIdx(t.left, b + 1), InOrderIdx(t.right, n);
    assert InOrderIdx(t, b) == il + [b] + ir;
    if i < |il| {
      PrevIdx(cells, t.left, b + 1, pred, b, 1, i);
      PrevInLeft(cells, il, b, ir, i, pred);
    } else if i == |il| {
      PrevAtNode(cells, t, b, pred, succ, stag, il, ir);
    } else {
      PrevIdx(cells, t.right, n, b, succ, stag, i - |il| - 1);
      PrevInRight(cells, il, b, ir, i - |il| - 1, pred);
    }
  }

  // ----- traversals, Size, Height and Cal of an unthreaded tree -----

  /**
   * PreOrder_NoRecursive: a null link is pushed first as a sentinel;
   * the loop emits p, pushes its right child, and goes to its left child,
   * or, without one, to the popped top of the stack.
   */
  method PreOrderSentinel<T>(root: Tree<T>) returns (out: seq<T>)
    ensures out == PreOrder(root)
  {
    var s: seq<Tree<T>> := [Nil];
    var p := root;
    ghost var pending: seq<Tree<T>> := [];
    out := [];
    assert Hpp.PreOrderStack(Pushed(p) + pending) == PreOrder(root) by {
      Hpp.PushedStack(p, []);
    }
    while p.Node?
      invariant Hpp.AllNodes(pending)
      invariant p.Node? ==> s == pending + [Nil]
      invariant p.Nil? ==> pending == []
      invariant out + Hpp.PreOrderStack(Pushed(p) + pending) == PreOrder(root)
      decreases ForestSize(Pushed(p) + pending)
    {
      ghost var before := ForestSize(Pushed(p) + pending);
      out, p, s, pending := SentinelStep(out, p, s, pending, root);
      assert ForestSize(Pushed(p) + pending) < before;
    }
  }

  /**
   * One turn of PreOrder_NoRecursive's loop: emit p, push its right child
   * onto the stack, and go to its left child or, without one, to the popped
   * top (the Nil sentinel once nothing is pending).
   */
  method SentinelStep<T>(out: seq<T>, p: Tree<T>, s: seq<Tree<T>>, ghost pending: seq<Tree<T>>, ghost root: Tree<T>)
    returns (out': seq<T>, p': Tree<T>, s': seq<Tree<T>>, ghost pending': seq<Tree<T>>)
    requires p.Node? && Hpp.AllNodes(pending) && s == pending + [Nil]
    requires out + Hpp.PreOrderStack(Pushed(p) + pending) == PreOrder(root)
    ensures Hpp.AllNodes(pending')
    ensures p'.Node? ==> s' == pending' + [Nil]
    ensures p'.Nil? ==> pending' == []
    ensures out' + Hpp.PreOrderStack(Pushed(p') + pending') == PreOrder(root)
    ensures ForestSize(Pushed(p') + pending') < ForestSize(Pushed(p) + pending)
  {
    ghost var next := Pushed(p.left) + (Pushed(p.right) + pending);
    SentinelAdvance(out, p, pending, root);
    out' := out + [p.data];
    s' := s;
    if p.right.Node? {
      assert [p.right] + (pending + [Nil]) == ([p.right] + pending) + [Nil];
      s' := [p.right] + s';
    } else {
      assert [] + pending == pending;
    }
    pending' := Pushed(p.right) + pending;
    if p.left.Node? {
      p' := p.left;
    } else {
      assert next == pending';
      PopSentinel(s', pending');
      p' := s'[0];
      s' := s'[1..];
      pending' := if pending' == [] then [] else pending'[1..];
      assert next == Pushed(p') + pending';
    }
  }

  /** The loop's invariant survives emitting p and stacking its children in front of the pending ones. */
  lemma SentinelAdvance<T>(out: seq<T>, p: Tree<T>, pending: seq<Tree<T>>, root: Tree<T>)
    requires p.Node? && Hpp.AllNodes(pending)
    requires out + Hpp.PreOrderStack(Pushed(p) + pending) == PreOrder(root)
    ensures Hpp.AllNodes(Pushed(p.right) + pending)
    ensures ForestSize(Pushed(p.left) + (Pushed(p.right) + pending)) < ForestSize(Pushed(p) + pending)
    ensures (out + [p.data]) + Hpp.PreOrderStack(Pushed(p.left) + (Pushed(p.right) + pending)) == PreOrder(root)
  {
    SentinelTurn(p, pending);
    Hpp.AppendShift(out, p.data, Hpp.PreOrderStack(Pushed(p.left) + (Pushed(p.right) + pending)));
  }

  /** One turn of PreOrder_NoRecursive: p is emitted, its children wait in front of the pending ones. */
  lemma SentinelTurn<T>(p: Tree<T>, pending: seq<Tree<T>>)
    requires p.Node? && Hpp.AllNodes(pending)
    ensures Hpp.AllNodes(Pushed(p.right) + pending)
    ensures ForestSize(Pushed(p.left) + (Pushed(p.right) + pending)) < ForestSize(Pushed(p) + pending)
    ensures Hpp.PreOrderStack(Pushed(p) + pending)
            == [p.data] + Hpp.PreOrderStack(Pushed(p.left) + (Pushed(p.right) + pending))
  {
    Hpp.PreOrderTurn([p] + pending);
    assert ([p] + pending)[1..] == pending;
    Hpp.PushedNodes(p.right, pending);
  }

  /** Popping a stack that ends in the sentinel: a pending node, or the sentinel itself. */
  lemma PopSentinel<T>(s: seq<Tree<T>>, pending: seq<Tree<T>>)
    requires s == pending + [Nil] && Hpp.AllNodes(pending)
    ensures s[0] == (if pending == [] then Nil else pending[0])
    ensures pending != [] ==> s[1..] == pending[1..] + [Nil] && pending == [pending[0]] + pending[1..]
    ensures var rest := if pending == [] then [] else pending[1..];
      Pushed(s[0]) + rest == pending && Hpp.AllNodes(rest) &&
      (s[0].Node? ==> s[1..] == rest + [Nil]) && (s[0].Nil? ==> rest == [])
  {
    if pending != [] {
      assert s[0] == pending[0];
    }
  }

  /** The offset of a key from 'A', as Cal adds it up (a 32-bit int in the source, unbounded here). */
  function Offset(c: char): int
  {
    c as int - 'A' as int
  }

  /** Cal(p): the offsets from 'A' of all keys, added up node by node. */
  function CalOf(t: Tree<char>): int
  {
    match t
    case Nil => 0
    case Node(l, d, r) => Offset(d) + CalOf(l) + CalOf(r)
  }

  /** The offsets of a sequence of keys, added up. */
  function OffsetSum(s: seq<char>): int
  {
    if s == [] then 0 else Offset(s[0]) + OffsetSum(s[1..])
  }

  lemma {:induction false} OffsetSumAppend(a: seq<char>, b: seq<char>)
    ensures OffsetSum(a + b) == OffsetSum(a) + OffsetSum(b)
    decreases |a|
  {
    if a == [] {
      assert a + b == b;
    } else {
      assert (a + b)[1..] == a[1..] + b;
      OffsetSumAppend(a[1..], b);
    }
  }

  /** Cal sums the offsets of exactly the keys the in-order traversal emits. */
  lemma {:induction false} CalSumsInOrder(t: Tree<char>)
    ensures CalOf(t) == OffsetSum(InOrder(t))
    decreases t
  {
    if t.Node? {
      CalSumsInOrder(t.left);
      CalSumsInOrder(t.right);
      OffsetSumAppend(InOrder(t.left) + [t.data], InOrder(t.right));
      OffsetSumAppend(InOrder(t.left), [t.data]);
      assert OffsetSum([t.data]) == Offset(t.data);
    }
  }

  /**
   * The threading pass of createInthread over a store holding exactly the
   * pre-order layout of a non-empty tree: thread every subtree from the
   * root with no node before it, then close the last node's right link as
   * a null thread. The result is the threaded layout with no node before
   * or after the tree.
   */
  method ThreadWhole(cells: seq<Cell>, ghost t: Tree<char>) returns (out: seq<Cell>)
    requires t.Node? && cells == Layout(t, 0)
    ensures out == Threaded(t, 0, -1, -1, 1)
  {
    assert |cells| == Size(t) && cells[0..|cells|] == cells;
    var threaded, pre := ThreadSubtree(cells, 0, -1, t, 0);
    CloseLast(threaded, t, 0, pre, -1, -1, 1);
    out := threaded[pre := threaded[pre].(right := -1, rtag := 1)];
    assert out[0..|out|] == out;
  }

  /** BinTree<T> of BinTree.cpp: the node store and the root (0, or -1 for the empty tree). */
  class BinTree {
    var nodes: seq<Cell>
    var root: int
    /** The tree the store holds, and whether createInthread has run. */
    ghost var shape: Tree<char>
    ghost var threaded: bool

    ghost predicate Valid()
      reads this
    {
      if threaded then shape.Node? && root == 0 && nodes == Threaded(shape, 0, -1, -1, 1)
      else root == (if nodes == [] then -1 else 0) && shape == ToTree(nodes, root)
    }

    /** The store is exactly the pre-order layout of the tree, as after reading a printed table. */
    ghost predicate Compact()
      reads this
    {
      nodes == Layout(shape, 0)
    }

    constructor()
      ensures Valid() && !threaded && shape == Nil && nodes == []
    {
      nodes := [];
      root := -1;
      shape := Nil;
      threaded := false;
    }

    /**
     * CreateBinTree(GT): the tree read from a generalised table. The model
     * reports the tables on which the source reads an uninitialised link
     * or pops an empty stack, and then leaves the tree as it was.
     */
    method CreateBinTree(table: string) returns (r: Outcome)
      requires Valid()
      modifies this
      ensures Valid()
      ensures r.Done? <==> Parse(table).Ok?
      ensures r.Done? ==> !threaded && shape == Parse(table).value && nodes == Read(table).value
      ensures r.Done? && Printable(shape) && table == Print(shape) ==> Compact()
      ensures r.Fail? ==> nodes == old(nodes) && shape == old(shape) && threaded == old(threaded)
    {
      var cells := GenTable.CreateBinTree(table);
      if cells.Err? {
        return Fail(cells.error);
      }
      nodes := cells.value;
      root := if nodes == [] then -1 else 0;
      shape := ToTree(nodes, root);
      threaded := false;
      r := Done;
      if Printable(shape) && table == Print(shape) {
        ReadPrinted(shape);
      }
    }

    /** The tree the unthreaded store holds, read off its links. */
    function Tree(): (t: Tree<char>)
      requires Valid() && !threaded
      reads this
      ensures t == shape
    {
      ToTree(nodes, root)
    }

    /** PreOrder_NoRecursive: the pre-order, with a null sentinel at the bottom of the stack. */
    method PreOrderNoRecursive() returns (out: seq<char>)
      requires Valid() && !threaded
      ensures out == PreOrder(shape)
    {
      out := PreOrderSentinel(Tree());
    }

    /** PreOrder_NoRecursive1: the pre-order with the root pushed first; the source needs a root. */
    method PreOrderNoRecursive1() returns (out: seq<char>)
      requires Valid() && !threaded && shape.Node?
      ensures out == PreOrder(shape)
    {
      out := Hpp.PreOrderByStack(Tree());
    }

    /** InOrder_NoRecursive: the in-order, by the stack of left paths. */
    method InOrderNoRecursive() returns (out: seq<char>)
      requires Valid() && !threaded
      ensures out == InOrder(shape)
    {
      out := Hpp.InOrderByStack(Tree());
    }

    /** LevelOrder: the level order, by the queue; the source needs a root. */
    method LevelOrder() returns (out: seq<char>)
      requires Valid() && !threaded && shape.Node?
      ensures out == Trees.LevelOrder(shape)
    {
      out := LevelOrderWalk(Tree());
    }

    /** Size(): the node count, which is the length of the store when it holds nothing else. */
    method Size() returns (n: nat)
      requires Valid() && !threaded
      ensures n == Trees.Size(shape) && n == |InOrder(shape)|
      ensures Compact() ==> n == |nodes|
    {
      n := Trees.Size(Tree());
      InOrderLength(shape);
    }

    /** Height(): the number of levels, at most the node count and 0 only for the empty tree. */
    method Height() returns (h: nat)
      requires Valid() && !threaded
      ensures h == Trees.Height(shape) && h <= Trees.Size(shape)
      ensures h == 0 <==> nodes == []
    {
      h := Trees.Height(Tree());
      HeightBounds(shape);
    }

    /** Cal(): the offsets from 'A' of the keys, which are the keys in order. */
    method Cal() returns (c: int)
      requires Valid() && !threaded
      ensures c == OffsetSum(InOrder(shape))
    {
      c := CalOf(Tree());
      CalSumsInOrder(shape);
    }

    /** PrintBinTreeInGT: the generalised table of the tree, which reads back as the same tree. */
    method PrintBinTreeInGT() returns (table: string)
      requires Valid() && !threaded
      ensures table == Print(shape)
      ensures Printable(shape) ==> Parse(table) == Ok(shape)
    {
      table := Print(Tree());
      if Printable(shape) {
        ReadPrinted(shape);
      }
    }

    /**
     * createInthread(): threads the tree in order, then turns the right
     * link of the last node into a null thread. It is defined for a store
     * that holds exactly the tree, as one read from a printed table does.
     */
    method CreateInthread()
      requires Valid() && !threaded && Compact()
      modifies this
      ensures Valid() && shape == old(shape) && threaded == shape.Node?
      ensures shape.Node? ==> nodes == Threaded(shape, 0, -1, -1, 1)
      ensures shape.Nil? ==> nodes == old(nodes)
    {
      if root != -1 {
        assert shape.Node?;
        nodes := ThreadWhole(nodes, shape);
        threaded := true;
      }
    }

    /** The whole threaded store holds the tree with no node before or after it. */
    lemma WholeStore()
      requires Valid() && threaded
      ensures Holds(nodes, shape, 0, -1, -1, 1)
    {
      assert nodes[0..Trees.Size(shape)] == nodes;
    }

    /** After createInthread every left thread points at the in-order predecessor, and the first node's is null (-1). */
    lemma LeftThreads()
      requires Valid() && threaded
      ensures forall i | 0 <= i < Trees.Size(shape) :: PrevOk(nodes, InOrderIdx(shape, 0), i, -1)
    {
      WholeStore();
      forall i | 0 <= i < Trees.Size(shape)
        ensures PrevOk(nodes, InOrderIdx(shape, 0), i, -1)
      {
        PrevIdx(nodes, shape, 0, -1, -1, 1, i);
      }
    }

    /** InOrderFirst: follows left links while they are child links, to the subtree's first node in order. */
    method InOrderFirst(current: int, ghost u: Tree<char>, ghost b: int, ghost pred: int, ghost succ: int, ghost stag: int)
        returns (p: int)
      requires u.Node? && Holds(nodes, u, b, pred, succ, stag) && current == b
      ensures p == b + FirstIdx(u)
    {
      p := current;
      ghost var v, c, pv, sv, stv := u, b, pred, succ, stag;
      while nodes[p].ltag == 0
        invariant v.Node? && Holds(nodes, v, c, pv, sv, stv) && p == c
        invariant c + FirstIdx(v) == b + FirstIdx(u)
        decreases Trees.Size(v)
      {
        ThreadedParts(nodes, v, c, pv, sv, stv);
        p := nodes[p].left;
        v, c, pv, sv, stv := v.left, c + 1, pv, c, 1;
      }
      ThreadedParts(nodes, v, c, pv, sv, stv);
    }

    /** InOrderNext: the node after the i-th in order, or null after the last. */
    method InOrderNext(current: int, ghost i: int) returns (next: int)
      requires Valid() && threaded && 0 <= i < Trees.Size(shape) && current == InOrderIdx(shape, 0)[i]
      ensures next == (if i + 1 < Trees.Size(shape) then InOrderIdx(shape, 0)[i + 1] else -1)
    {
      WholeStore();
      ghost var u, c, pu, su, stu := NextIdx(nodes, shape, 0, -1, -1, i);
      next := nodes[current].right;
      if nodes[current].rtag == 0 {
        next := InOrderFirst(next, u, c, pu, su, stu);
      }
    }

    /** InOrderWithThread: from the first node in order along InOrderNext; the keys come out in order. */
    method InOrderWithThread() returns (out: seq<char>)
      requires Valid() && threaded
      ensures out == InOrder(shape)
    {
      ghost var n, idx := Trees.Size(shape), InOrderIdx(shape, 0);
      WholeStore();
      FirstIsFirst(shape, 0);
      InOrderLength(shape);
      var p := InOrderFirst(root, shape, 0, -1, -1, 1);
      ghost var j := 0;
      out := [];
      while p != -1
        invariant 0 <= j <= n
        invariant p == (if j < n then idx[j] else -1)
        invariant out == InOrder(shape)[..j]
        decreases n - j
      {
        InOrderData(nodes, shape, 0, -1, -1, 1, j);
        assert InOrder(shape)[..j + 1] == InOrder(shape)[..j] + [nodes[p].data];
        out := out + [nodes[p].data];
        p := InOrderNext(p, j);
        j := j + 1;
      }
      assert InOrder(shape)[..j] == InOrder(shape);
    }
  }
}
