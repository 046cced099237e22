/**
 * The plain binary tree of BinTree/BinTree/BinTree.hpp: recursive traversals,
 * their stack-based counterparts, the queue-based level order, height, deep
 * copy and clear. The tree is a Trees.Tree<T> value; the class keeps the root
 * and the node count that derived classes maintain.
 */
module BinTree {
  import opened Trees
  import opened Sequences

  // ----- what the explicit stacks hold -----

  /** Pre-order of a stack of subtrees, top first: what preOrderNonRecursive still has to emit. */
  function PreOrderStack<T>(s: seq<Tree<T>>): seq<T>
  {
    if s == [] then [] else PreOrder(s[0]) + PreOrderStack(s[1..])
  }

  /**
   * What inOrderNonRecursive still has to emit for a stack of nodes, top
   * first: each node's key, then its right subtree in order.
   */
  function InOrderStack<T>(s: seq<Tree<T>>): seq<T>
  {
    if s == [] then []
    else (if s[0].Nil? then [] else [s[0].data] + InOrder(s[0].right)) + InOrderStack(s[1..])
  }

  /** The number of nodes inOrderNonRecursive still has to emit from the stack. */
  function InOrderStackSize<T>(s: seq<Tree<T>>): nat
  {
    if s == [] then 0
    else (if s[0].Nil? then 0 else 1 + Size(s[0].right)) + InOrderStackSize(s[1..])
  }

  /**
   * The order in which postOrderNonRecursive moves nodes onto its second
   * stack: a node, then its right subtree, then its left subtree.
   */
  function RootRightLeft<T>(t: Tree<T>): seq<T>
  {
    match t
    case Nil => []
    case Node(l, x, r) => [x] + RootRightLeft(r) + RootRightLeft(l)
  }

  function RootRightLeftStack<T>(s: seq<Tree<T>>): seq<T>
  {
    if s == [] then [] else RootRightLeft(s[0]) + RootRightLeftStack(s[1..])
  }

  /** Popping the second stack reverses the push order, and that reversal is the post-order. */
  lemma {:induction false} ReversedRootRightLeft<T>(t: Tree<T>)
    ensures Reverse(RootRightLeft(t)) == PostOrder(t)
  {
    match t
    case Nil =>
    case Node(l, x, r) =>
      ReversedRootRightLeft(l);
      ReversedRootRightLeft(r);
      ReverseAppend([x] + RootRightLeft(r), RootRightLeft(l));
      ReverseAppend([x], RootRightLeft(r));
      ReverseSingle(x);
  }

  // ----- the traversals with explicit stacks -----

  /** Every entry of a stack is a node: the loops never push an empty subtree. */
  predicate AllNodes<T>(s: seq<Tree<T>>)
  {
    forall i | 0 <= i < |s| :: s[i].Node?
  }

  /** Pushing a subtree (when it is a node) in front of a stack of nodes. */
  lemma PushedNodes<T>(t: Tree<T>, rest: seq<Tree<T>>)
    requires AllNodes(rest)
    ensures AllNodes(Pushed(t) + rest)
    ensures ForestSize(Pushed(t) + rest) == Size(t) + ForestSize(rest)
  {
    ForestSizeAppend(Pushed(t), rest);
    ForestSizePushed(t);
  }

  /** One turn of preOrderNonRecursive: pop the top, push its right and then its left child. */
  lemma PreOrderTurn<T>(s: seq<Tree<T>>)
    requires s != [] && AllNodes(s)
    ensures var next := Pushed(s[0].left) + (Pushed(s[0].right) + s[1..]);
      AllNodes(next) && ForestSize(next) < ForestSize(s) &&
      PreOrderStack(s) == [s[0].data] + PreOrderStack(next)
  {
    var t, rest := s[0], s[1..];
    var l, r := t.left, t.right;
    PushedNodes(r, rest);
    PushedNodes(l, Pushed(r) + rest);
    PushedStack(r, rest);
    PushedStack(l, Pushed(r) + rest);
    assert ForestSize(s) == Size(t) + ForestSize(rest);
    assert PreOrderStack(s) == PreOrder(t) + PreOrderStack(rest);
    Regroup([t.data], PreOrder(l), PreOrder(r), PreOrderStack(rest));
  }

  /** Moving one emitted key from the pending part to the output. */
  lemma AppendShift<T>(a: seq<T>, d: T, b: seq<T>)
    ensures (a + [d]) + b == a + ([d] + b)
  {
  }

  /** Concatenation regrouped: (x + a + b) + c == x + (a + (b + c)). */
  lemma Regroup<T>(x: seq<T>, a: seq<T>, b: seq<T>, c: seq<T>)
    ensures x + a + b + c == x + (a + (b + c))
  {
  }

  lemma PushedStack<T>(t: Tree<T>, rest: seq<Tree<T>>)
    ensures PreOrderStack(Pushed(t) + rest) == PreOrder(t) + PreOrderStack(rest)
  {
    if t.Node? {
      assert (Pushed(t) + rest)[1..] == rest;
    } else {
      assert Pushed(t) + rest == rest;
    }
  }

  /** preOrderNonRecursive: pop a node, emit it, push its right then its left child. */
  method PreOrderByStack<T>(root: Tree<T>) returns (out: seq<T>)
    ensures out == PreOrder(root)
  {
    out := [];
    if root.Nil? {
      return;
    }
    var s := [root];
    assert PreOrderStack(s) == PreOrder(root) by {
      assert s[1..] == [];
    }
    while s != []
      invariant AllNodes(s)
      invariant out + PreOrderStack(s) == PreOrder(root)
      decreases ForestSize(s)
    {
      var current := s[0];
      PreOrderTurn(s);
      ghost var next := Pushed(current.left) + (Pushed(current.right) + s[1..]);
      ghost var before := out;
      s := s[1..];
      out := out + [current.data];
      if current.right.Node? {
        s := [current.right] + s;
      }
      if current.left.Node? {
        s := [current.left] + s;
      }
      assert out + PreOrderStack(next) == before + ([current.data] + PreOrderStack(next));
      assert s == next;
    }
  }

  /** One turn of the inner loop of inOrderNonRecursive: push the node, go left. */
  lemma InOrderDescend<T>(current: Tree<T>, s: seq<Tree<T>>)
    requires current.Node?
    ensures InOrder(current) + InOrderStack(s) == InOrder(current.left) + InOrderStack([current] + s)
    ensures Size(current) + InOrderStackSize(s) == Size(current.left) + InOrderStackSize([current] + s)
  {
    assert ([current] + s)[1..] == s;
  }

  /** One turn of the outer loop of inOrderNonRecursive: pop, emit, go right. */
  lemma InOrderPop<T>(s: seq<Tree<T>>)
    requires s != [] && s[0].Node?
    ensures InOrderStack(s) == [s[0].data] + (InOrder(s[0].right) + InOrderStack(s[1..]))
    ensures InOrderStackSize(s) == 1 + Size(s[0].right) + InOrderStackSize(s[1..])
  {
    assert InOrderStack(s) == ([s[0].data] + InOrder(s[0].right)) + InOrderStack(s[1..]);
    Assoc3([s[0].data], InOrder(s[0].right), InOrderStack(s[1..]));
  }

  /**
   * inOrderNonRecursive: push the path of left links, then pop a node, emit
   * it and continue with its right subtree.
   */
  method InOrderByStack<T>(root: Tree<T>) returns (out: seq<T>)
    ensures out == InOrder(root)
  {
    out := [];
    if root.Nil? {
      return;
    }
    var s: seq<Tree<T>> := [];
    var current := root;
    assert InOrderStack(s) == [];
    while current.Node? || s != []
      invariant AllNodes(s)
      invariant out + (InOrder(current) + InOrderStack(s)) == InOrder(root)
      decreases Size(current) + InOrderStackSize(s)
    {
      s := PushLeftPath(current, s);
      var top := s[0];
      InOrderPop(s);
      AppendShift(out, top.data, InOrder(top.right) + InOrderStack(s[1..]));
      s := s[1..];
      out := out + [top.data];
      current := top.right;
    }
  }

  /** inOrderNonRecursive's inner loop: push the path of left children down from current. */
  method PushLeftPath<T>(current: Tree<T>, s: seq<Tree<T>>) returns (s': seq<Tree<T>>)
    requires AllNodes(s)
    ensures AllNodes(s') && (current.Node? ==> s' != [])
    ensures InOrderStack(s') == InOrder(current) + InOrderStack(s)
    ensures InOrderStackSize(s') == Size(current) + InOrderStackSize(s)
  {
    s' := s;
    var c := current;
    while c.Node?
      invariant AllNodes(s') && (c == current || s' != [])
      invariant InOrder(c) + InOrderStack(s') == InOrder(current) + InOrderStack(s)
      invariant Size(c) + InOrderStackSize(s') == Size(current) + InOrderStackSize(s)
      decreases Size(c)
    {
      InOrderDescend(c, s');
      s' := [c] + s';
      c := c.left;
    }
  }



  /** One turn of postOrderNonRecursive's first loop: move the top over, push left then right. */
  lemma PostOrderTurn<T>(s: seq<Tree<T>>)
    requires s != [] && AllNodes(s)
    ensures var next := Pushed(s[0].right) + (Pushed(s[0].left) + s[1..]);
      AllNodes(next) && ForestSize(next) < ForestSize(s) &&
      RootRightLeftStack(s) == [s[0].data] + RootRightLeftStack(next)
  {
    var t, rest := s[0], s[1..];
    var l, r := t.left, t.right;
    PushedNodes(l, rest);
    PushedNodes(r, Pushed(l) + rest);
    PushedRrl(l, rest);
    PushedRrl(r, Pushed(l) + rest);
    assert ForestSize(s) == Size(t) + ForestSize(rest);
    assert RootRightLeftStack(s) == RootRightLeft(t) + RootRightLeftStack(rest);
    Regroup([t.data], RootRightLeft(r), RootRightLeft(l), RootRightLeftStack(rest));
  }

  lemma PushedRrl<T>(t: Tree<T>, rest: seq<Tree<T>>)
    ensures RootRightLeftStack(Pushed(t) + rest) == RootRightLeft(t) + RootRightLeftStack(rest)
  {
    if t.Node? {
      assert (Pushed(t) + rest)[1..] == rest;
    } else {
      assert Pushed(t) + rest == rest;
    }
  }



  /**
   * postOrderNonRecursive: the first stack moves nodes onto the second one
   * (pushing left then right children), then the second is popped empty.
   */
  method PostOrderByStacks<T>(root: Tree<T>) returns (out: seq<T>)
    ensures out == PostOrder(root)
  {
    out := [];
    if root.Nil? {
      return;
    }
    var s2 := FillSecondStack(root);
    out := PopAll(s2);
    ReversedRootRightLeft(root);
  }

  /** postOrderNonRecursive's first loop: move each node to the second stack, push its left then right child. */
  method FillSecondStack<T>(root: Tree<T>) returns (s2: seq<T>)
    requires root.Node?
    ensures s2 == RootRightLeft(root)
  {
    var s1 := [root];
    s2 := [];
    assert RootRightLeftStack(s1) == RootRightLeft(root) by {
      assert s1[1..] == [];
    }
    while s1 != []
      invariant AllNodes(s1)
      invariant s2 + RootRightLeftStack(s1) == RootRightLeft(root)
      decreases ForestSize(s1)
    {
      var current := s1[0];
      PostOrderTurn(s1);
      ghost var next := Pushed(current.right) + (Pushed(current.left) + s1[1..]);
      AppendShift(s2, current.data, RootRightLeftStack(next));
      s1 := s1[1..];
      s2 := s2 + [current.data];
      if current.left.Node? {
        s1 := [current.left] + s1;
      }
      if current.right.Node? {
        s1 := [current.right] + s1;
      }
      assert s1 == next;
    }
  }

  /** postOrderNonRecursive's second loop: pop the second stack (top last) into the output. */
  method PopAll<T>(s2: seq<T>) returns (out: seq<T>)
    ensures out == Reverse(s2)
  {
    out := [];
    var s := s2;
    while s != []
      invariant out + Reverse(s) == Reverse(s2)
      decreases |s|
    {
      AppendShift(out, s[|s| - 1], Reverse(s[..|s| - 1]));
      out := out + [s[|s| - 1]];
      s := s[..|s| - 1];
    }
  }


  /** copyTree(node): a node-for-node copy. */
  function CopyTree<T>(t: Tree<T>): (r: Tree<T>)
    ensures r == t
  {
    if t.Nil? then Nil else Node(CopyTree(t.left), t.data, CopyTree(t.right))
  }

  // ----- the class -----

  /** BinTree<T>: the root and the node count. */
  class BinTree<T> {
    var root: Tree<T>
    var size: int

    ghost predicate Valid()
      reads this
    {
      size == Size(root)
    }

    constructor()
      ensures Valid() && root == Nil && size == 0
    {
      root := Nil;
      size := 0;
    }

    /** The copy constructor: a deep copy with the same size. */
    constructor Copy(other: BinTree<T>)
      requires other.Valid()
      ensures Valid() && root == other.root && size == other.size
    {
      root := CopyTree(other.root);
      size := other.size;
    }

    /** operator=: self-assignment changes nothing; otherwise clear, then copy. */
    method Assign(other: BinTree<T>)
      requires Valid() && other.Valid()
      modifies this
      ensures Valid() && root == old(other.root) && size == old(other.size)
    {
      if this != other {
        Clear();
        root := CopyTree(other.root);
        size := other.size;
      }
    }

    method GetSize() returns (n: int)
      requires Valid()
      ensures n == Size(root)
    {
      n := size;
    }

    /** isEmpty: no root node, which is the same as a size of zero. */
    method IsEmpty() returns (b: bool)
      requires Valid()
      ensures b <==> root.Nil?
      ensures b <==> size == 0
    {
      HeightBounds(root);
      b := root.Nil?;
    }

    /** getHeight: 0 for an empty tree, else 1 + the larger subtree height. */
    method GetHeight() returns (h: int)
      requires Valid()
      ensures h == Height(root)
      ensures h == 0 <==> size == 0
      ensures h <= size
    {
      HeightBounds(root);
      h := Height(root);
    }

    /** clear: the empty tree. */
    method Clear()
      modifies this
      ensures Valid() && root == Nil && size == 0
    {
      root := Nil;
      size := 0;
    }

    method PreOrderNonRecursive() returns (s: seq<T>)
      ensures s == PreOrder(root)
    {
      s := PreOrderByStack(root);
    }

    method InOrderNonRecursive() returns (s: seq<T>)
      ensures s == InOrder(root)
    {
      s := InOrderByStack(root);
    }

    method PostOrderNonRecursive() returns (s: seq<T>)
      ensures s == PostOrder(root)
    {
      s := PostOrderByStacks(root);
    }

    /** levelOrder: the queue walk, which lists the tree level by level. */
    method LevelOrder() returns (s: seq<T>)
      ensures s == Trees.LevelOrder(root)
    {
      s := LevelOrderWalk(root);
    }
  }

  /**
   * The five-node tree of the unit tests, A over B and C with B over D and
   * E: the stack walks give pre-order A B D E C, in-order D B E A C and
   * post-order D E B C A, the queue walk A B C D E, and the height is 3.
   */
  method TestTreeExample() returns (pre: seq<char>, ino: seq<char>, post: seq<char>, level: seq<char>, h: nat)
    ensures pre == "ABDEC" && ino == "DBEAC" && post == "DEBCA" && level == "ABCDE" && h == 3
  {
    var t := TestTree();
    TestTreeWalks();
    TestTreeLevels();
    pre := PreOrderByStack(t);
    ino := InOrderByStack(t);
    post := PostOrderByStacks(t);
    level := LevelOrderWalk(t);
    h := Height(t);
  }

  function TestTree(): Tree<char>
  {
    Node(Node(Node(Nil, 'D', Nil), 'B', Node(Nil, 'E', Nil)), 'A', Node(Nil, 'C', Nil))
  }

  /** The recursive walks and the height of the test tree. */
  lemma TestTreeWalks()
    ensures PreOrder(TestTree()) == "ABDEC" && InOrder(TestTree()) == "DBEAC"
    ensures PostOrder(TestTree()) == "DEBCA" && Height(TestTree()) == 3
  {
    var b := Node(Node(Nil, 'D', Nil), 'B', Node(Nil, 'E', Nil));
    assert PreOrder(b) == "BDE" && InOrder(b) == "DBE" && PostOrder(b) == "DEB";
  }

  /** The level order of the test tree, one level at a time. */
  lemma TestTreeLevels()
    ensures Trees.LevelOrder(TestTree()) == "ABCDE"
  {
    var t := TestTree();
    assert Height(t) == 3;
    assert Level(t, 0) == "A";
    assert Level(t, 1) == "BC";
    assert Level(t, 2) == "DE";
  }
}
