/**
 * The independent AVL insert of BinTree/AVL.cpp. Its rotations give the new
 * subtree root a cached height one short (no "+ 1"), and every return from
 * insert recomputes the node's height from its children, which repairs it.
 * A rotation fires when the child heights differ by exactly two.
 *
 * The model shares the node shape and the invariants of AvlTree and proves
 * that this insert builds exactly the tree that AVL.hpp's insert builds.
 */
module AvlInsert {
  import opened AvlTree
  import Trees

  /** leftLeftRotation: k1 = k2.left becomes the root; k1's height lacks the "+ 1". */
  function LeftLeftRotation(k2: Tree): (k1: Tree)
    requires k2.Node? && k2.left.Node?
    ensures k1.Node? && Keys(k1) == Keys(k2) && InOrder(k1) == InOrder(k2)
    ensures k1.height == Max(Height(k1.left), Height(k1.right))
    ensures UpdateHeight(k1) == RightRotate(k2)
  {
    var k1 := k2.left;
    var k2' := k2.(left := k1.right, height := Max(Height(k2.right), Height(k1.right)) + 1);
    RotationKeepsOrder(k1.left, k1.data, k1.right, k2.data, k2.right, k1.height, k2.height, k2'.height, 0);
    k1.(right := k2', height := Max(Height(k1.left), k2'.height))
  }

  /** rightRightRotation: k2 = k1.right becomes the root; k2's height lacks the "+ 1". */
  function RightRightRotation(k1: Tree): (k2: Tree)
    requires k1.Node? && k1.right.Node?
    ensures k2.Node? && Keys(k2) == Keys(k1) && InOrder(k2) == InOrder(k1)
    ensures k2.height == Max(Height(k2.left), Height(k2.right))
    ensures UpdateHeight(k2) == LeftRotate(k1)
  {
    var k2 := k1.right;
    var k1' := k1.(right := k2.left, height := Max(Height(k2.left), Height(k1.left)) + 1);
    RotationKeepsOrder(k1.left, k1.data, k2.left, k2.data, k2.right, k1'.height, 0, k2.height, k1.height);
    k2.(left := k1', height := Max(Height(k2.right), k1'.height))
  }

  /** leftRightRotation: rightRightRotation on the left child, then leftLeftRotation. */
  function LeftRightRotation(k3: Tree): (r: Tree)
    requires k3.Node? && k3.left.Node? && k3.left.right.Node?
    ensures r.Node? && Keys(r) == Keys(k3) && InOrder(r) == InOrder(k3)
    ensures r.height == Max(Height(r.left), Height(r.right))
    ensures UpdateHeight(r) == RightRotate(k3.(left := LeftRotate(k3.left)))
  {
    var k2 := RightRightRotation(k3.left);
    // leftLeftRotation never reads the cached height of the child it lifts
    assert LeftLeftRotation(k3.(left := k2)) == LeftLeftRotation(k3.(left := UpdateHeight(k2)));
    LeftLeftRotation(k3.(left := k2))
  }

  /** rightLeftRotation: leftLeftRotation on the right child, then rightRightRotation. */
  function RightLeftRotation(k1: Tree): (r: Tree)
    requires k1.Node? && k1.right.Node? && k1.right.left.Node?
    ensures r.Node? && Keys(r) == Keys(k1) && InOrder(r) == InOrder(k1)
    ensures r.height == Max(Height(r.left), Height(r.right))
    ensures UpdateHeight(r) == LeftRotate(k1.(right := RightRotate(k1.right)))
  {
    var k3 := LeftLeftRotation(k1.right);
    assert RightRightRotation(k1.(right := k3)) == RightRightRotation(k1.(right := UpdateHeight(k3)));
    RightRightRotation(k1.(right := k3))
  }

  /**
   * insert(node, key): the new subtree, and whether the "cannot add duplicate
   * key!" diagnostic was printed. The result is the tree AVL.hpp's insert
   * builds from the same AVL tree, so it is again an AVL tree holding the
   * key, and a duplicate leaves the subtree as it was.
   */
  function InsertSubtree(node: Tree, key: int): (r: (Tree, bool))
    requires IsAvl(node)
    ensures r.0 == InsertNode(node, key).0
    ensures IsAvl(r.0) && Keys(r.0) == Keys(node) + {key}
    ensures r.1 <==> key in Keys(node)
    ensures r.1 ==> r.0 == node
    decreases node
  {
    if node.Nil? then
      (UpdateHeight(Node(Nil, key, Nil, 0)), false)
    else if key < node.data then
      var sub := InsertSubtree(node.left, key);
      var n := node.(left := sub.0);
      InsertedLeft(node, key, InsertNode(node.left, key));
      var n' :=
        if Height(n.left) - Height(n.right) == 2 then
          if key < n.left.data then LeftLeftRotation(n) else LeftRightRotation(n)
        else n;
      SameAsRebalanceLeft(n, key);
      (UpdateHeight(n'), sub.1)
    else if key > node.data then
      var sub := InsertSubtree(node.right, key);
      var n := node.(right := sub.0);
      InsertedRight(node, key, InsertNode(node.right, key));
      var n' :=
        if Height(n.right) - Height(n.left) == 2 then
          if key > n.right.data then RightRightRotation(n) else RightLeftRotation(n)
        else n;
      SameAsRebalanceRight(n, key);
      (UpdateHeight(n'), sub.1)
    else
      (UpdateHeight(node), true)
  }

  /** After inserting on the left, the rotation choice of AVL.cpp agrees with AVL.hpp's InsertRebalance. */
  lemma SameAsRebalanceLeft(n: Tree, key: int)
    requires n.Node? && key < n.data && Ordered(n) && IsAvl(n.left) && IsAvl(n.right)
    requires -1 <= Height(n.left) - Height(n.right) <= 2
    requires Height(n.left) - Height(n.right) == 2 ==>
      (n.left.Node? && n.left.data != key && BalanceFactor(n.left) == (if key < n.left.data then 1 else -1))
    ensures Height(n.left) - Height(n.right) == 2 && key > n.left.data ==> n.left.right.Node?
    ensures UpdateHeight(
      if Height(n.left) - Height(n.right) == 2 then
        if key < n.left.data then LeftLeftRotation(n) else LeftRightRotation(n)
      else n) == InsertRebalance(n, key)
  {
    if Height(n.left) - Height(n.right) == 2 && key > n.left.data {
      HeightPositive(n.left.left);
    }
  }

  /** Mirror of SameAsRebalanceLeft. */
  lemma SameAsRebalanceRight(n: Tree, key: int)
    requires n.Node? && key > n.data && Ordered(n) && IsAvl(n.left) && IsAvl(n.right)
    requires -1 <= Height(n.right) - Height(n.left) <= 2
    requires Height(n.right) - Height(n.left) == 2 ==>
      (n.right.Node? && n.right.data != key && BalanceFactor(n.right) == (if key > n.right.data then -1 else 1))
    ensures Height(n.right) - Height(n.left) == 2 && key < n.right.data ==> n.right.left.Node?
    ensures UpdateHeight(
      if Height(n.right) - Height(n.left) == 2 then
        if key > n.right.data then RightRightRotation(n) else RightLeftRotation(n)
      else n) == InsertRebalance(n, key)
  {
    if Height(n.right) - Height(n.left) == 2 && key < n.right.data {
      HeightPositive(n.right.right);
    }
  }

  /** The AVL<T> class of AVL.cpp (T = int): the root it inherits from BST<T>. */
  class AvlCpp {
    var root: Tree

    ghost predicate Valid()
      reads this
    {
      IsAvl(root)
    }

    constructor()
      ensures Valid() && root == Nil
    {
      root := Nil;
    }

    /** insert(key): rebuilds the tree from the root; `duplicate` is the printed diagnostic. */
    method Insert(key: int) returns (duplicate: bool)
      requires Valid()
      modifies this
      ensures Valid() && Keys(root) == old(Keys(root)) + {key}
      ensures duplicate <==> key in old(Keys(root))
      ensures root == InsertNode(old(root), key).0
    {
      var r := InsertSubtree(root, key);
      root := r.0;
      duplicate := r.1;
    }

    /** height(): the root's cached height, the number of levels. */
    method Height() returns (h: int)
      requires Valid()
      ensures h == Trees.Height(Shape(root))
    {
      CachedHeightIsHeight(root);
      h := AvlTree.Height(root);
    }
  }
}
