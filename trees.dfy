/**
 * Plain binary trees (a key and two children, no balance information) and the
 * orders in which the tree classes emit their keys: pre-, in-, post- and
 * level-order. Level order is specified level by level, and the queue-driven
 * breadth-first walk that every levelOrder loop performs is proved to produce it.
 */
module Trees {
  datatype Tree<T> = Nil | Node(left: Tree<T>, data: T, right: Tree<T>)

  function Size<T>(t: Tree<T>): nat
  {
    match t
    case Nil => 0
    case Node(l, _, r) => Size(l) + 1 + Size(r)
  }

  /** Height counts nodes: 0 for the empty tree, 1 + the taller subtree otherwise. */
  function Height<T>(t: Tree<T>): nat
  {
    match t
    case Nil => 0
    case Node(l, _, r) => 1 + Max(Height(l), Height(r))
  }

  function Max(a: nat, b: nat): nat { if a < b then b else a }

  function Elements<T>(t: Tree<T>): set<T>
  {
    match t
    case Nil => {}
    case Node(l, x, r) => Elements(l) + {x} + Elements(r)
  }

  /** Root, then the left subtree, then the right: one entry per node. */
  function PreOrder<T>(t: Tree<T>): (r: seq<T>)
    ensures |r| == Size(t)
  {
    match t
    case Nil => []
    case Node(l, x, r) => [x] + PreOrder(l) + PreOrder(r)
  }

  /** Left subtree, root, right subtree: one entry per node. */
  function InOrder<T>(t: Tree<T>): (r: seq<T>)
    ensures |r| == Size(t)
  {
    match t
    case Nil => []
    case Node(l, x, r) => InOrder(l) + [x] + InOrder(r)
  }

  /** Left subtree, right subtree, then the root: one entry per node. */
  function PostOrder<T>(t: Tree<T>): (r: seq<T>)
    ensures |r| == Size(t)
  {
    match t
    case Nil => []
    case Node(l, x, r) => PostOrder(l) + PostOrder(r) + [x]
  }

  /** Where each walk puts the root: first in pre-order, right after the left subtree in in-order, last in post-order. */
  lemma RootPositions<T>(t: Tree<T>)
    requires t.Node?
    ensures PreOrder(t)[0] == t.data
    ensures InOrder(t)[Size(t.left)] == t.data
    ensures PostOrder(t)[Size(t) - 1] == t.data
  {
    assert InOrder(t) == InOrder(t.left) + [t.data] + InOrder(t.right);
    assert PostOrder(t) == PostOrder(t.left) + PostOrder(t.right) + [t.data];
  }

  /** Every traversal emits each node exactly once. */
  lemma TraversalsCoverTree<T>(t: Tree<T>)
    ensures |PreOrder(t)| == |InOrder(t)| == |PostOrder(t)| == Size(t)
    ensures multiset(PreOrder(t)) == multiset(InOrder(t)) == multiset(PostOrder(t))
    ensures forall x :: x in InOrder(t) <==> x in Elements(t)
  {
    TraversalMultisets(t);
    InOrderElements(t);
  }

  lemma TraversalMultisets<T>(t: Tree<T>)
    ensures |PreOrder(t)| == |InOrder(t)| == |PostOrder(t)| == Size(t)
    ensures multiset(PreOrder(t)) == multiset(InOrder(t)) == multiset(PostOrder(t))
  {
    PreOrderMultiset(t);
    PostOrderMultiset(t);
  }

  lemma {:induction false} PreOrderMultiset<T>(t: Tree<T>)
    ensures multiset(PreOrder(t)) == multiset(InOrder(t))
  {
    match t
    case Nil =>
    case Node(l, x, r) =>
      PreOrderMultiset(l);
      PreOrderMultiset(r);
      assert PreOrder(t) == [x] + PreOrder(l) + PreOrder(r);
      assert InOrder(t) == InOrder(l) + [x] + InOrder(r);
  }

  lemma {:induction false} PostOrderMultiset<T>(t: Tree<T>)
    ensures multiset(PostOrder(t)) == multiset(InOrder(t))
  {
    match t
    case Nil =>
    case Node(l, x, r) =>
      PostOrderMultiset(l);
      PostOrderMultiset(r);
      assert PostOrder(t) == PostOrder(l) + PostOrder(r) + [x];
      assert InOrder(t) == InOrder(l) + [x] + InOrder(r);
  }

  lemma {:induction false} InOrderElements<T>(t: Tree<T>)
    ensures forall x :: x in InOrder(t) <==> x in Elements(t)
  {
    match t
    case Nil =>
    case Node(l, x, r) =>
      InOrderElements(l);
      InOrderElements(r);
  }

  // ----- level order, specified level by level -----

  /** The keys at depth d, left to right. */
  function Level<T>(t: Tree<T>, d: nat): seq<T>
  {
    match t
    case Nil => []
    case Node(l, x, r) => if d == 0 then [x] else Level(l, d - 1) + Level(r, d - 1)
  }

  /** The keys at depths 0 .. n-1, shallower levels first. */
  function LevelsUpTo<T>(t: Tree<T>, n: nat): seq<T>
  {
    if n == 0 then [] else LevelsUpTo(t, n - 1) + Level(t, n - 1)
  }

  /** Level order: every level of the tree, top to bottom, each left to right. */
  function LevelOrder<T>(t: Tree<T>): seq<T>
  {
    LevelsUpTo(t, Height(t))
  }

  // ----- the queue-driven walk of the levelOrder loops -----

  /** The queue entries a node pushes for a child: nothing for an absent child. */
  function Pushed<T>(t: Tree<T>): seq<Tree<T>>
  {
    if t.Nil? then [] else [t]
  }

  function ForestSize<T>(q: seq<Tree<T>>): nat
  {
    if q == [] then 0 else Size(q[0]) + ForestSize(q[1..])
  }

  lemma {:induction false} ForestSizeAppend<T>(a: seq<Tree<T>>, b: seq<Tree<T>>)
    ensures ForestSize(a + b) == ForestSize(a) + ForestSize(b)
    decreases |a|
  {
    if a == [] {
      assert a + b == b;
    } else {
      assert (a + b)[1..] == a[1..] + b;
      ForestSizeAppend(a[1..], b);
    }
  }

  lemma ForestSizePushed<T>(t: Tree<T>)
    ensures ForestSize(Pushed(t)) == Size(t)
  {
    if t.Node? {
      assert Pushed(t)[1..] == [];
    }
  }

  /**
   * What a levelOrder loop emits from queue q: pop the front, emit its key and push
   * its present children at the back, until the queue is empty.
   */
  function Bfs<T>(q: seq<Tree<T>>): seq<T>
    decreases ForestSize(q), |q|
  {
    if q == [] then []
    else
      match q[0]
      case Nil => Bfs(q[1..])
      case Node(l, x, r) =>
        ForestSizeAppend(q[1..] + Pushed(l), Pushed(r));
        ForestSizeAppend(q[1..], Pushed(l));
        ForestSizePushed(l);
        ForestSizePushed(r);
        [x] + Bfs(q[1..] + Pushed(l) + Pushed(r))
  }

  /** One iteration of a levelOrder loop on a non-empty node at the front of the queue. */
  lemma BfsStep<T>(q: seq<Tree<T>>)
    requires q != [] && q[0].Node?
    ensures Bfs(q) == [q[0].data] + Bfs(q[1..] + Pushed(q[0].left) + Pushed(q[0].right))
  {
  }

  function Roots<T>(q: seq<Tree<T>>): seq<T>
  {
    if q == [] then [] else (if q[0].Nil? then [] else [q[0].data]) + Roots(q[1..])
  }

  function Children<T>(q: seq<Tree<T>>): seq<Tree<T>>
  {
    if q == [] then []
    else (if q[0].Nil? then [] else Pushed(q[0].left) + Pushed(q[0].right)) + Children(q[1..])
  }

  function ForestLevel<T>(q: seq<Tree<T>>, d: nat): seq<T>
  {
    if q == [] then [] else Level(q[0], d) + ForestLevel(q[1..], d)
  }

  function ForestLevelsUpTo<T>(q: seq<Tree<T>>, n: nat): seq<T>
  {
    if n == 0 then [] else ForestLevelsUpTo(q, n - 1) + ForestLevel(q, n - 1)
  }

  function ForestHeight<T>(q: seq<Tree<T>>): nat
  {
    if q == [] then 0 else Max(Height(q[0]), ForestHeight(q[1..]))
  }

  /** Draining the entries of q ahead of rest emits their keys, then works on rest and their children. */
  lemma {:induction false} BfsSplit<T>(q: seq<Tree<T>>, rest: seq<Tree<T>>)
    ensures Bfs(q + rest) == Roots(q) + Bfs(rest + Children(q))
    decreases |q|
  {
    if q == [] {
      assert q + rest == rest && rest + Children(q) == rest;
    } else {
      var t := q[0];
      assert (q + rest)[0] == t && (q + rest)[1..] == q[1..] + rest;
      if t.Nil? {
        BfsSplit(q[1..], rest);
        FrontNil(q);
      } else {
        var pushed := Pushed(t.left) + Pushed(t.right);
        BfsSplit(q[1..], rest + pushed);
        BfsStep(q + rest);
        Assoc4(q[1..], rest, Pushed(t.left), Pushed(t.right));
        FrontNode(q);
        Assoc3(rest, pushed, Children(q[1..]));
        Assoc3([t.data], Roots(q[1..]), Bfs(rest + Children(q)));
      }
    }
  }

  /** Two sets that share nothing have as many elements together as apart. */
  lemma DisjointCount<A>(a: set<A>, b: set<A>)
    requires a !! b
    ensures |a + b| == |a| + |b|
  {
  }

  lemma Assoc3<A>(a: seq<A>, b: seq<A>, c: seq<A>)
    ensures a + b + c == a + (b + c)
  {
  }

  lemma Assoc4<A>(a: seq<A>, b: seq<A>, c: seq<A>, d: seq<A>)
    ensures a + b + c + d == a + (b + (c + d))
  {
  }

  /** An absent subtree at the front of a queue adds no key and no child. */
  lemma FrontNil<T>(q: seq<Tree<T>>)
    requires q != [] && q[0].Nil?
    ensures Roots(q) == Roots(q[1..]) && Children(q) == Children(q[1..])
  {
    assert Roots(q) == [] + Roots(q[1..]);
    assert Children(q) == [] + Children(q[1..]);
  }

  /** A node at the front of a queue adds its key and its present children. */
  lemma FrontNode<T>(q: seq<Tree<T>>)
    requires q != [] && q[0].Node?
    ensures Roots(q) == [q[0].data] + Roots(q[1..])
    ensures Children(q) == Pushed(q[0].left) + Pushed(q[0].right) + Children(q[1..])
  {
  }

  lemma {:induction false} ForestLevelShift<T>(q: seq<Tree<T>>, d: nat)
    ensures ForestLevel(q, 0) == Roots(q)
    ensures ForestLevel(q, d + 1) == ForestLevel(Children(q), d)
    decreases |q|
  {
    if q != [] {
      ForestLevelShift(q[1..], d);
      match q[0]
      case Nil =>
        assert Roots(q) == [] + Roots(q[1..]);
        assert Children(q) == [] + Children(q[1..]);
        assert Children(q) == Children(q[1..]);
        assert ForestLevel(q, 0) == [] + ForestLevel(q[1..], 0);
        assert Level(q[0], d + 1) == [];
        assert ForestLevel(q, d + 1) == [] + ForestLevel(q[1..], d + 1);
        assert ForestLevel(q, d + 1) == ForestLevel(q[1..], d + 1);
      case Node(l, x, r) =>
        ForestLevelAppend(Pushed(l) + Pushed(r), Children(q[1..]), d);
        ForestLevelAppend(Pushed(l), Pushed(r), d);
        assert Children(q) == Pushed(l) + Pushed(r) + Children(q[1..]);
        ForestLevelPushed(l, d);
        ForestLevelPushed(r, d);
        assert Level(q[0], d + 1) == Level(l, d) + Level(r, d);
    }
  }

  lemma ForestLevelPushed<T>(t: Tree<T>, d: nat)
    ensures ForestLevel(Pushed(t), d) == Level(t, d)
  {
    if t.Node? {
      assert Pushed(t)[1..] == [];
    }
  }

  lemma {:induction false} ForestLevelAppend<T>(a: seq<Tree<T>>, b: seq<Tree<T>>, d: nat)
    ensures ForestLevel(a + b, d) == ForestLevel(a, d) + ForestLevel(b, d)
    decreases |a|
  {
    if a == [] {
      assert a + b == b;
    } else {
      assert (a + b)[1..] == a[1..] + b;
      ForestLevelAppend(a[1..], b, d);
    }
  }

  lemma {:induction false} ForestLevelsShift<T>(q: seq<Tree<T>>, n: nat)
    ensures ForestLevelsUpTo(q, n + 1) == Roots(q) + ForestLevelsUpTo(Children(q), n)
    decreases n
  {
    if n == 0 {
      ForestLevelShift(q, 0);
      assert ForestLevelsUpTo(q, 1) == [] + ForestLevel(q, 0);
      assert ForestLevelsUpTo(Children(q), 0) == [];
    } else {
      ForestLevelsShift(q, n - 1);
      ForestLevelShift(q, n - 1);
      ConcatStep(ForestLevelsUpTo(q, n), ForestLevel(q, n), Roots(q),
        ForestLevelsUpTo(Children(q), n - 1), ForestLevel(Children(q), n - 1));
    }
  }

  lemma ConcatStep<T>(x: seq<T>, y: seq<T>, e: seq<T>, a: seq<T>, b: seq<T>)
    requires x == e + a && y == b
    ensures x + y == e + (a + b)
  {
  }

  lemma {:induction false} LevelBeyondHeight<T>(t: Tree<T>, d: nat)
    requires d >= Height(t)
    ensures Level(t, d) == []
    decreases t
  {
    match t
    case Nil =>
    case Node(l, _, r) =>
      LevelBeyondHeight(l, d - 1);
      LevelBeyondHeight(r, d - 1);
  }

  lemma {:induction false} ForestLevelBeyondHeight<T>(q: seq<Tree<T>>, d: nat)
    requires d >= ForestHeight(q)
    ensures ForestLevel(q, d) == []
    decreases |q|
  {
    if q != [] {
      LevelBeyondHeight(q[0], d);
      ForestLevelBeyondHeight(q[1..], d);
    }
  }

  lemma {:induction false} ForestLevelsBeyondHeight<T>(q: seq<Tree<T>>, n: nat)
    requires ForestHeight(q) == 0
    ensures ForestLevelsUpTo(q, n) == []
    decreases n
  {
    if n > 0 {
      ForestLevelsBeyondHeight(q, n - 1);
      ForestLevelBeyondHeight(q, n - 1);
    }
  }

  lemma {:induction false} ChildrenLower<T>(q: seq<Tree<T>>)
    ensures ForestHeight(q) == 0 ==> Children(q) == [] && Roots(q) == []
    ensures ForestHeight(q) > 0 ==> ForestHeight(Children(q)) < ForestHeight(q)
    decreases |q|
  {
    if q != [] {
      ChildrenLower(q[1..]);
      match q[0]
      case Nil =>
        assert Children(q) == [] + Children(q[1..]);
        assert Children(q) == Children(q[1..]);
        assert Roots(q) == [] + Roots(q[1..]);
        assert ForestHeight(q) == ForestHeight(q[1..]);
      case Node(l, x, r) =>
        ChildrenOfNode(q);
    }
  }

  /** The children of a queue led by a node: that node's children, then those of the rest. */
  lemma ChildrenOfNode<T>(q: seq<Tree<T>>)
    requires q != [] && q[0].Node?
    ensures ForestHeight(Children(q))
            == Max(Max(Height(q[0].left), Height(q[0].right)), ForestHeight(Children(q[1..])))
  {
    var l, r := q[0].left, q[0].right;
    var head := Pushed(l) + Pushed(r);
    FrontNode(q);
    ForestHeightAppend(head, Children(q[1..]));
    ForestHeightAppend(Pushed(l), Pushed(r));
    ForestHeightPushed(l);
    ForestHeightPushed(r);
  }

  lemma ForestHeightPushed<T>(t: Tree<T>)
    ensures ForestHeight(Pushed(t)) == Height(t)
  {
    if t.Node? {
      assert Pushed(t)[1..] == [];
    }
  }

  lemma {:induction false} ForestHeightAppend<T>(a: seq<Tree<T>>, b: seq<Tree<T>>)
    ensures ForestHeight(a + b) == Max(ForestHeight(a), ForestHeight(b))
    decreases |a|
  {
    if a == [] {
      assert a + b == b;
    } else {
      assert (a + b)[1..] == a[1..] + b;
      ForestHeightAppend(a[1..], b);
    }
  }

  /** Draining a whole queue: its keys, then everything its children lead to. */
  lemma BfsRoots<T>(q: seq<Tree<T>>)
    ensures Bfs(q) == Roots(q) + Bfs(Children(q))
  {
    BfsSplit(q, []);
    assert q + [] == q;
    assert [] + Children(q) == Children(q);
  }

  lemma {:induction false} BfsIsLevels<T>(q: seq<Tree<T>>, n: nat)
    requires n >= ForestHeight(q)
    ensures Bfs(q) == ForestLevelsUpTo(q, n)
    decreases n
  {
    ChildrenLower(q);
    BfsRoots(q);
    if ForestHeight(q) == 0 {
      ForestLevelsBeyondHeight(q, n);
      assert Bfs(Children(q)) == [];
    } else {
      var m := n - 1;
      BfsIsLevels(Children(q), m);
      ForestLevelsShift(q, m);
      assert m + 1 == n;
    }
  }


  lemma {:induction false} SingletonLevels<T>(t: Tree<T>, n: nat)
    ensures ForestLevelsUpTo([t], n) == LevelsUpTo(t, n)
    decreases n
  {
    if n > 0 {
      SingletonLevels(t, n - 1);
      assert [t][1..] == [];
      assert ForestLevel([t], n - 1) == Level(t, n - 1) + ForestLevel([], n - 1);
    }
  }

  /** A levelOrder loop started on [root] emits exactly the level order of the tree. */
  lemma BfsIsLevelOrder<T>(t: Tree<T>)
    ensures Bfs([t]) == LevelOrder(t)
  {
    assert [t][1..] == [];
    BfsIsLevels([t], Height(t));
    SingletonLevels(t, Height(t));
  }

  /**
   * The queue loop shared by the levelOrder methods: pop the front node, emit
   * its key, push its non-empty children. The output is the tree's level order.
   */
  method LevelOrderWalk<T>(t: Tree<T>) returns (out: seq<T>)
    ensures out == LevelOrder(t)
  {
    out := [];
    var q := Pushed(t);
    assert Bfs(q) == Bfs([t]) by {
      if t.Nil? {
        assert [t][1..] == [];
      }
    }
    while q != []
      invariant forall i | 0 <= i < |q| :: q[i].Node?
      invariant out + Bfs(q) == Bfs([t])
      decreases ForestSize(q)
    {
      var current := q[0];
      WalkStep(q);
      ghost var next := q[1..] + Pushed(current.left) + Pushed(current.right);
      ghost var before := out;
      q := q[1..];
      out := out + [current.data];
      assert out + Bfs(next) == before + ([current.data] + Bfs(next));
      if current.left.Node? {
        q := q + [current.left];
      }
      if current.right.Node? {
        q := q + [current.right];
      }
      assert q == next;
    }
    BfsIsLevelOrder(t);
  }

  /** One turn of the level-order loop: the front node's key comes out, its children go in. */
  lemma WalkStep<T>(q: seq<Tree<T>>)
    requires q != [] && q[0].Node?
    ensures var next := q[1..] + Pushed(q[0].left) + Pushed(q[0].right);
            Bfs(q) == [q[0].data] + Bfs(next) && ForestSize(next) < ForestSize(q)
  {
    var current := q[0];
    BfsStep(q);
    ForestSizeAppend(q[1..] + Pushed(current.left), Pushed(current.right));
    ForestSizeAppend(q[1..], Pushed(current.left));
    ForestSizePushed(current.left);
    ForestSizePushed(current.right);
  }

  /** A tree of n nodes has at most n levels, and at least one when it is not empty. */
  lemma {:induction false} HeightBounds<T>(t: Tree<T>)
    ensures Height(t) <= Size(t)
    ensures Height(t) == 0 <==> t.Nil?
  {
    match t
    case Nil =>
    case Node(l, _, r) =>
      HeightBounds(l);
      HeightBounds(r);
  }
}
