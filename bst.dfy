/**
 * The unbalanced binary search tree of BinTree/BST/BST.hpp: insert and remove
 * by key, membership, extreme keys, in-order predecessor and successor, and
 * the traversals. Nodes are plain Trees.Tree<int> values; the class holds the
 * root and the node count.
 */
module Bst {
  import opened Errors
  import opened Trees

  /** Search order: smaller keys to the left, larger keys to the right, at every node. */
  ghost predicate Ordered(t: Tree<int>)
  {
    match t
    case Nil => true
    case Node(l, d, r) =>
      Ordered(l) && Ordered(r) &&
      (forall k | k in Elements(l) :: k < d) && (forall k | k in Elements(r) :: d < k)
  }

  /** In a search tree every key is stored once. */
  lemma {:induction false} SizeIsKeyCount(t: Tree<int>)
    requires Ordered(t)
    ensures Size(t) == |Elements(t)|
  {
    match t
    case Nil =>
    case Node(l, d, r) =>
      SizeIsKeyCount(l);
      SizeIsKeyCount(r);
      OrderedApart(t);
      DisjointCount(Elements(l), Elements(r));
      DisjointCount(Elements(l) + Elements(r), {d});
      assert Elements(t) == (Elements(l) + Elements(r)) + {d};
  }

  /** In a search tree the two subtrees and the root key share no key. */
  lemma OrderedApart(t: Tree<int>)
    requires t.Node? && Ordered(t)
    ensures Elements(t.left) !! Elements(t.right) && Elements(t.left) + Elements(t.right) !! {t.data}
  {
    forall k | k in Elements(t.left) && k in Elements(t.right) ensures false { }
  }

  predicate StrictlyAscending(s: seq<int>)
  {
    forall i, j | 0 <= i < j < |s| :: s[i] < s[j]
  }

  /** A search tree lists its keys in strictly ascending order. */
  lemma {:induction false} InOrderAscending(t: Tree<int>)
    requires Ordered(t)
    ensures StrictlyAscending(InOrder(t))
    ensures forall k :: k in InOrder(t) <==> k in Elements(t)
  {
    match t
    case Nil =>
    case Node(l, d, r) =>
      InOrderAscending(l);
      InOrderAscending(r);
      var a, b := InOrder(l), InOrder(r);
      assert InOrder(t) == a + [d] + b;
      forall i, j | 0 <= i < j < |a + [d] + b| ensures (a + [d] + b)[i] < (a + [d] + b)[j] {
        if j < |a| {
        } else if i < |a| {
          assert a[i] in Elements(l);
          if j > |a| { assert b[j - |a| - 1] in Elements(r); }
        } else if i == |a| {
          assert b[j - |a| - 1] in Elements(r);
        }
      }
  }

  // ----- the recursive helpers -----

  /** getMin(node) as a value: the key reached by following left links. */
  function MinKey(t: Tree<int>): (m: int)
    requires t.Node?
    ensures m in Elements(t)
    ensures Ordered(t) ==> forall k | k in Elements(t) :: m <= k
  {
    if t.left.Nil? then t.data else MinKey(t.left)
  }

  /** getMax(node) as a value: the key reached by following right links. */
  function MaxKey(t: Tree<int>): (m: int)
    requires t.Node?
    ensures m in Elements(t)
    ensures Ordered(t) ==> forall k | k in Elements(t) :: k <= m
  {
    if t.right.Nil? then t.data else MaxKey(t.right)
  }

  /**
   * insert(node, value): the new subtree and whether a node was created.
   * A key met on the search path is not inserted again; in a search tree that
   * is exactly a key already stored.
   */
  function InsertNode(node: Tree<int>, value: int): (r: (Tree<int>, bool))
    ensures Elements(r.0) == Elements(node) + {value}
    ensures Size(r.0) == Size(node) + (if r.1 then 1 else 0)
    ensures !r.1 ==> r.0 == node
    ensures Ordered(node) ==> Ordered(r.0) && (r.1 <==> value !in Elements(node))
  {
    if node.Nil? then
      (Node(Nil, value, Nil), true)
    else if value < node.data then
      var sub := InsertNode(node.left, value);
      (node.(left := sub.0), sub.1)
    else if value > node.data then
      var sub := InsertNode(node.right, value);
      (node.(right := sub.0), sub.1)
    else
      (node, false)
  }

  /**
   * remove(node, value): the new subtree and whether a node was deleted. A
   * node without a left child is replaced by its right child and vice versa;
   * a node with two children takes the minimum of its right subtree, which is
   * then removed from there.
   */
  function RemoveNode(node: Tree<int>, value: int): (r: (Tree<int>, bool))
    ensures Size(r.0) == Size(node) - (if r.1 then 1 else 0)
    ensures Elements(r.0) <= Elements(node)
    ensures Ordered(node) ==>
      Ordered(r.0) && Elements(r.0) == Elements(node) - {value} && (r.1 <==> value in Elements(node)) &&
      (!r.1 ==> r.0 == node)
  {
    if node.Nil? then
      (Nil, false)
    else if value < node.data then
      var sub := RemoveNode(node.left, value);
      (node.(left := sub.0), sub.1)
    else if value > node.data then
      var sub := RemoveNode(node.right, value);
      (node.(right := sub.0), sub.1)
    else if node.left.Nil? then
      (node.right, true)
    else if node.right.Nil? then
      (node.left, true)
    else
      var m := MinKey(node.right);
      var sub := RemoveNode(node.right, m);
      RemovedSuccessor(node, m, sub.0);
      (node.(data := m, right := sub.0), sub.1)
  }

  /** The two-children case of remove: the right subtree's minimum replaces the removed key. */
  lemma RemovedSuccessor(node: Tree<int>, m: int, rt: Tree<int>)
    requires node.Node? && node.right.Node? && m == MinKey(node.right)
    requires Ordered(node) ==> Ordered(rt) && Elements(rt) == Elements(node.right) - {m}
    requires Elements(rt) <= Elements(node.right)
    ensures Elements(node.(data := m, right := rt)) <= Elements(node)
    ensures Ordered(node) ==>
      Ordered(node.(data := m, right := rt)) &&
      Elements(node.(data := m, right := rt)) == Elements(node) - {node.data}
  {
    if Ordered(node) {
      assert forall k | k in Elements(node.left) :: k < m by {
        assert node.data < m;
      }
      assert node.data !in Elements(node.left) && node.data !in Elements(node.right);
    }
  }

  /** contains(node, value): binary search; in a search tree it finds exactly the stored keys. */
  function ContainsKey(t: Tree<int>, value: int): (b: bool)
    ensures b ==> value in Elements(t)
    ensures Ordered(t) ==> (b <==> value in Elements(t))
  {
    if t.Nil? then false
    else if value < t.data then ContainsKey(t.left, value)
    else if value > t.data then ContainsKey(t.right, value)
    else true
  }

  /** findNode(node, value): the subtree rooted at the node holding `value`, or an empty tree. */
  function FindNode(t: Tree<int>, value: int): (r: Tree<int>)
    ensures r.Node? ==> r.data == value
    ensures Elements(r) <= Elements(t)
    ensures Ordered(t) ==> Ordered(r) && (r.Node? <==> value in Elements(t))
  {
    if t.Nil? || t.data == value then t
    else if value < t.data then FindNode(t.left, value)
    else FindNode(t.right, value)
  }

  /** copyTree(node): a node-for-node copy. */
  function CopyTree(t: Tree<int>): (r: Tree<int>)
    ensures r == t
  {
    if t.Nil? then Nil else Node(CopyTree(t.left), t.data, CopyTree(t.right))
  }

  // ----- predecessor and successor -----

  /** `p` is the greatest stored key below `value`. */
  ghost predicate IsPredecessor(t: Tree<int>, value: int, p: int)
  {
    p in Elements(t) && p < value && forall k | k in Elements(t) && k < value :: k <= p
  }

  /** `s` is the least stored key above `value`. */
  ghost predicate IsSuccessor(t: Tree<int>, value: int, s: int)
  {
    s in Elements(t) && value < s && forall k | k in Elements(t) && value < k :: s <= k
  }

  /** When the found node has a left subtree, that subtree's maximum is the predecessor. */
  lemma {:induction false} PredecessorInLeftSubtree(t: Tree<int>, value: int)
    requires Ordered(t) && FindNode(t, value).Node? && FindNode(t, value).left.Node?
    ensures IsPredecessor(t, value, MaxKey(FindNode(t, value).left))
    decreases t
  {
    var node := FindNode(t, value);
    var m := MaxKey(node.left);
    assert m in Elements(node);
    if t.data == value {
    } else if value < t.data {
      PredecessorInLeftSubtree(t.left, value);
    } else {
      PredecessorInLeftSubtree(t.right, value);
      assert node == FindNode(t.right, value);
      assert m in Elements(t.right);
      assert Elements(t) == Elements(t.left) + {t.data} + Elements(t.right);
      forall k | k in Elements(t) && k < value ensures k <= m {
        if k !in Elements(t.right) {
          assert k <= t.data && t.data < m;
        }
      }
    }
  }

  /** When the found node has a right subtree, that subtree's minimum is the successor. */
  lemma {:induction false} SuccessorInRightSubtree(t: Tree<int>, value: int)
    requires Ordered(t) && FindNode(t, value).Node? && FindNode(t, value).right.Node?
    ensures IsSuccessor(t, value, MinKey(FindNode(t, value).right))
    decreases t
  {
    var node := FindNode(t, value);
    var m := MinKey(node.right);
    assert m in Elements(node);
    if t.data == value {
    } else if value > t.data {
      SuccessorInRightSubtree(t.right, value);
    } else {
      SuccessorInRightSubtree(t.left, value);
      assert node == FindNode(t.left, value);
      assert m in Elements(t.left);
      assert Elements(t) == Elements(t.left) + {t.data} + Elements(t.right);
      forall k | k in Elements(t) && value < k ensures m <= k {
        if k !in Elements(t.left) {
          assert t.data <= k && m < t.data;
        }
      }
    }
  }

  // ----- the class -----

  /** BST<T> with T = int: the root and the node count. */
  class Bst {
    var root: Tree<int>
    var size: int

    ghost predicate Valid()
      reads this
    {
      Ordered(root) && size == Size(root)
    }

    ghost function Contents(): set<int>
      reads this
    {
      Elements(root)
    }

    constructor()
      ensures Valid() && root == Nil && size == 0
    {
      root := Nil;
      size := 0;
    }

    /** The copy constructor: a deep copy with the same size. */
    constructor Copy(other: Bst)
      requires other.Valid()
      ensures Valid() && root == other.root && size == other.size
    {
      root := CopyTree(other.root);
      size := other.size;
    }

    /** operator=: self-assignment changes nothing; otherwise clear, then copy. */
    method Assign(other: Bst)
      requires Valid() && other.Valid()
      modifies this
      ensures Valid() && root == old(other.root) && size == old(other.size)
    {
      if this != other {
        Clear();
        root := CopyTree(other.root);
        size := other.size;
      }
    }

    /** insert: adds the key unless present; size counts the new node. */
    method Insert(value: int)
      requires Valid()
      modifies this
      ensures Valid() && Contents() == old(Contents()) + {value}
      ensures size == old(size) + (if value in old(Contents()) then 0 else 1)
      ensures root == InsertNode(old(root), value).0
    {
      var r := InsertNode(root, value);
      root := r.0;
      if r.1 {
        size := size + 1;
      }
    }

    /** remove: deletes the key; an absent key throws runtime_error and changes nothing. */
    method Remove(value: int) returns (outcome: Outcome)
      requires Valid()
      modifies this
      ensures Valid() && Contents() == old(Contents()) - {value}
      ensures value in old(Contents()) ==> outcome == Done && size == old(size) - 1
      ensures value !in old(Contents()) ==>
        outcome == Fail(RuntimeError("Value not found in the tree")) && root == old(root) && size == old(size)
      ensures root == RemoveNode(old(root), value).0
    {
      var oldSize := size;
      var r := RemoveNode(root, value);
      root := r.0;
      if r.1 {
        size := size - 1;
      }
      if size == oldSize {
        return Fail(RuntimeError("Value not found in the tree"));
      }
      return Done;
    }

    /** contains: true exactly for a stored key. */
    method Contains(value: int) returns (b: bool)
      requires Valid()
      ensures b <==> value in Contents()
    {
      b := ContainsKey(root, value);
    }

    /** getMin: follows left links; runtime_error on an empty tree. */
    method GetMin() returns (r: Result<int>)
      requires Valid()
      ensures root.Nil? ==> r == Err(RuntimeError("Tree is empty"))
      ensures root.Node? ==> r.Ok? && r.value in Contents() && forall k | k in Contents() :: r.value <= k
    {
      if root.Nil? {
        return Err(RuntimeError("Tree is empty"));
      }
      var m := LeftmostKey(root);
      return Ok(m);
    }

    /** getMax: follows right links; runtime_error on an empty tree. */
    method GetMax() returns (r: Result<int>)
      requires Valid()
      ensures root.Nil? ==> r == Err(RuntimeError("Tree is empty"))
      ensures root.Node? ==> r.Ok? && r.value in Contents() && forall k | k in Contents() :: k <= r.value
    {
      if root.Nil? {
        return Err(RuntimeError("Tree is empty"));
      }
      var m := RightmostKey(root);
      return Ok(m);
    }

    /**
     * getPredecessor: the greatest stored key below `value`. It throws when
     * `value` is not stored, and when no smaller key exists.
     */
    method GetPredecessor(value: int) returns (r: Result<int>)
      requires Valid()
      ensures value !in Contents() ==> r == Err(RuntimeError("Value not found in the tree"))
      ensures value in Contents() && (forall k | k in Contents() :: value <= k) ==>
        r == Err(RuntimeError("No predecessor exists"))
      ensures r.Ok? ==> IsPredecessor(root, value, r.value)
      ensures value in Contents() && (exists k | k in Contents() :: k < value) ==> r.Ok?
    {
      var node := FindNode(root, value);
      if node.Nil? {
        return Err(RuntimeError("Value not found in the tree"));
      }
      if node.left.Node? {
        PredecessorInLeftSubtree(root, value);
        var m := RightmostKey(node.left);
        return Ok(m);
      }
      var cur := root;
      var found := false;
      var pred := 0;
      while cur.Node?
        invariant Ordered(cur) && value in Elements(cur) && FindNode(cur, value) == node
        invariant Elements(cur) <= Elements(root)
        invariant found ==> pred in Elements(root) && pred < value && forall k | k in Elements(cur) :: pred < k
        invariant forall k | k in Elements(root) && k !in Elements(cur) && k < value :: found && k <= pred
        decreases cur
      {
        if value > cur.data {
          found := true;
          pred := cur.data;
          cur := cur.right;
        } else if value < cur.data {
          cur := cur.left;
        } else {
          break;
        }
      }
      assert cur == node;
      if !found {
        return Err(RuntimeError("No predecessor exists"));
      }
      return Ok(pred);
    }

    /**
     * getSuccessor: the least stored key above `value`. It throws when
     * `value` is not stored, and when no larger key exists.
     */
    method GetSuccessor(value: int) returns (r: Result<int>)
      requires Valid()
      ensures value !in Contents() ==> r == Err(RuntimeError("Value not found in the tree"))
      ensures value in Contents() && (forall k | k in Contents() :: k <= value) ==>
        r == Err(RuntimeError("No successor exists"))
      ensures r.Ok? ==> IsSuccessor(root, value, r.value)
      ensures value in Contents() && (exists k | k in Contents() :: value < k) ==> r.Ok?
    {
      var node := FindNode(root, value);
      if node.Nil? {
        return Err(RuntimeError("Value not found in the tree"));
      }
      if node.right.Node? {
        SuccessorInRightSubtree(root, value);
        var m := LeftmostKey(node.right);
        return Ok(m);
      }
      var cur := root;
      var found := false;
      var succ := 0;
      while cur.Node?
        invariant Ordered(cur) && value in Elements(cur) && FindNode(cur, value) == node
        invariant Elements(cur) <= Elements(root)
        invariant found ==> succ in Elements(root) && value < succ && forall k | k in Elements(cur) :: k < succ
        invariant forall k | k in Elements(root) && k !in Elements(cur) && value < k :: found && succ <= k
        decreases cur
      {
        if value < cur.data {
          found := true;
          succ := cur.data;
          cur := cur.left;
        } else if value > cur.data {
          cur := cur.right;
        } else {
          break;
        }
      }
      assert cur == node;
      if !found {
        return Err(RuntimeError("No successor exists"));
      }
      return Ok(succ);
    }

    /** getSize: the number of distinct keys stored. */
    method GetSize() returns (n: int)
      requires Valid()
      ensures n == |Contents()|
    {
      SizeIsKeyCount(root);
      n := size;
    }

    /** isEmpty: no root node, which is the same as holding no key. */
    method IsEmpty() returns (b: bool)
      requires Valid()
      ensures b <==> Contents() == {}
      ensures b <==> size == 0
    {
      b := root.Nil?;
    }

    /** getHeight: 0 for an empty tree, else 1 + the larger subtree height. */
    method GetHeight() returns (h: int)
      requires Valid()
      ensures h == Height(root)
      ensures h == 0 <==> size == 0
      ensures h <= size
    {
      HeightBounds(root);
      h := Height(root);
    }

    /** clear: the empty tree. */
    method Clear()
      modifies this
      ensures Valid() && root == Nil && size == 0
    {
      root := Nil;
      size := 0;
    }

    /** preOrder: node, left subtree, right subtree; every key once. */
    method PreOrder() returns (s: seq<int>)
      requires Valid()
      ensures s == Trees.PreOrder(root)
      ensures |s| == size && multiset(s) == multiset(Trees.InOrder(root))
    {
      TraversalsCoverTree(root);
      s := Trees.PreOrder(root);
    }

    /** inOrder: the keys in strictly ascending order, each once. */
    method InOrder() returns (s: seq<int>)
      requires Valid()
      ensures s == Trees.InOrder(root)
      ensures StrictlyAscending(s)
      ensures forall k :: k in s <==> k in Contents()
    {
      InOrderAscending(root);
      s := Trees.InOrder(root);
    }

    /** postOrder: left subtree, right subtree, node; every key once. */
    method PostOrder() returns (s: seq<int>)
      requires Valid()
      ensures s == Trees.PostOrder(root)
      ensures |s| == size && multiset(s) == multiset(Trees.InOrder(root))
    {
      TraversalsCoverTree(root);
      s := Trees.PostOrder(root);
    }

    /** levelOrder: the queue walk, which lists the tree level by level. */
    method LevelOrder() returns (s: seq<int>)
      requires Valid()
      ensures s == Trees.LevelOrder(root)
    {
      s := LevelOrderWalk(root);
    }
  }

  /** The getMin loop: follow left links down to the leftmost node. */
  method LeftmostKey(t: Tree<int>) returns (m: int)
    requires t.Node?
    ensures m == MinKey(t)
  {
    var node := t;
    while node.left.Node?
      invariant node.Node? && MinKey(node) == MinKey(t)
      decreases node
    {
      node := node.left;
    }
    m := node.data;
  }

  /** The getMax loop: follow right links down to the rightmost node. */
  method RightmostKey(t: Tree<int>) returns (m: int)
    requires t.Node?
    ensures m == MaxKey(t)
  {
    var node := t;
    while node.right.Node?
      invariant node.Node? && MaxKey(node) == MaxKey(t)
      decreases node
    {
      node := node.right;
    }
    m := node.data;
  }

  /**
   * The unit tests' tree from inserting 10, 5, 15, 3, 7: five keys, 7 stored
   * and 100 not, minimum 3 and maximum 15, and the four walks 10 5 3 7 15,
   * 3 5 7 10 15, 3 7 5 15 10 and 10 5 15 3 7.
   */
  method TraversalExample() returns (pre: seq<int>, ino: seq<int>, post: seq<int>, level: seq<int>)
    ensures pre == [10, 5, 3, 7, 15] && ino == [3, 5, 7, 10, 15]
    ensures post == [3, 7, 5, 15, 10] && level == [10, 5, 15, 3, 7]
  {
    var t := new Bst();
    t.Insert(10);
    t.Insert(5);
    assert t.root == Node(Node(Nil, 5, Nil), 10, Nil);
    t.Insert(15);
    assert t.root == Node(Node(Nil, 5, Nil), 10, Node(Nil, 15, Nil));
    t.Insert(3);
    assert t.root == Node(Node(Node(Nil, 3, Nil), 5, Nil), 10, Node(Nil, 15, Nil));
    t.Insert(7);
    assert t.root == Node(Node(Node(Nil, 3, Nil), 5, Node(Nil, 7, Nil)), 10, Node(Nil, 15, Nil));
    FiveKeysWalks(t.root);
    pre := t.PreOrder();
    ino := t.InOrder();
    post := t.PostOrder();
    level := t.LevelOrder();
  }

  /** The four walks of the five-key tree 10 over (5 over 3 and 7) and 15. */
  lemma FiveKeysWalks(t: Tree<int>)
    requires t == Node(Node(Node(Nil, 3, Nil), 5, Node(Nil, 7, Nil)), 10, Node(Nil, 15, Nil))
    ensures PreOrder(t) == [10, 5, 3, 7, 15] && Trees.InOrder(t) == [3, 5, 7, 10, 15]
    ensures PostOrder(t) == [3, 7, 5, 15, 10] && Trees.LevelOrder(t) == [10, 5, 15, 3, 7]
  {
    FiveKeysDepthFirst(t);
    FiveKeysLevels(t);
  }

  /** The pre-, in- and post-order walks of that tree, built from its two subtrees' walks. */
  lemma FiveKeysDepthFirst(t: Tree<int>)
    requires t == Node(Node(Node(Nil, 3, Nil), 5, Node(Nil, 7, Nil)), 10, Node(Nil, 15, Nil))
    ensures PreOrder(t) == [10, 5, 3, 7, 15] && Trees.InOrder(t) == [3, 5, 7, 10, 15]
    ensures PostOrder(t) == [3, 7, 5, 15, 10]
  {
    var l := Node(Node(Nil, 3, Nil), 5, Node(Nil, 7, Nil));
    assert PreOrder(l) == [5, 3, 7] && Trees.InOrder(l) == [3, 5, 7] && PostOrder(l) == [3, 7, 5];
  }

  /** The level order of that tree: one level at a time. */
  lemma FiveKeysLevels(t: Tree<int>)
    requires t == Node(Node(Node(Nil, 3, Nil), 5, Node(Nil, 7, Nil)), 10, Node(Nil, 15, Nil))
    ensures Trees.LevelOrder(t) == [10, 5, 15, 3, 7]
  {
    assert Height(t) == 3;
    assert Level(t, 0) == [10] && Level(t, 1) == [5, 15] && Level(t, 2) == [3, 7];
  }

  /** Copies are deep: after the source of a copy and of an assignment is cleared, both still hold three keys. */
  method CopyExample() returns (viaCopy: int, viaAssign: int)
    ensures viaCopy == 3 && viaAssign == 3
  {
    var t1 := new Bst();
    t1.Insert(10);
    t1.Insert(5);
    t1.Insert(15);
    var t2 := new Bst.Copy(t1);
    var t3 := new Bst();
    t3.Assign(t1);
    t1.Clear();
    viaCopy := t2.GetSize();
    viaAssign := t3.GetSize();
  }
}
