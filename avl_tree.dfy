/**
 * The self-balancing search tree of BinTree/AVL/AVL.hpp: nodes cache their height,
 * insert and remove rebalance with single and double rotations, and the tree
 * keeps four invariants: search order, cached heights, balance factors in
 * {-1, 0, 1}, and a size equal to the number of keys.
 *
 * The recursive helpers of the class return the new root of the subtree they
 * were given; they are modelled as functions on tree values, and the class
 * holds the current root and size.
 */
module AvlTree {
  import opened Errors
  import Trees

  /** A node: key, children and the height cached in the node (1 for a leaf). */
  datatype Tree = Nil | Node(left: Tree, data: int, right: Tree, height: int)

  function Max(a: int, b: int): int { if a < b then b else a }

  /** The cached height, 0 for an absent node. */
  function Height(t: Tree): int
  {
    if t.Nil? then 0 else t.height
  }

  function Keys(t: Tree): set<int>
  {
    match t
    case Nil => {}
    case Node(l, d, r, _) => Keys(l) + {d} + Keys(r)
  }

  /** Number of nodes. */
  function Count(t: Tree): nat
  {
    match t
    case Nil => 0
    case Node(l, _, r, _) => Count(l) + 1 + Count(r)
  }

  /** The tree without its cached heights. */
  function Shape(t: Tree): Trees.Tree<int>
  {
    match t
    case Nil => Trees.Nil
    case Node(l, d, r, _) => Trees.Node(Shape(l), d, Shape(r))
  }

  function InOrder(t: Tree): seq<int> { Trees.InOrder(Shape(t)) }

  /** Search order: every key in a left subtree is smaller, every key in a right subtree larger. */
  ghost predicate Ordered(t: Tree)
  {
    match t
    case Nil => true
    case Node(l, d, r, _) =>
      Ordered(l) && Ordered(r) &&
      (forall k | k in Keys(l) :: k < d) && (forall k | k in Keys(r) :: d < k)
  }

  /** Every node caches 1 + the larger cached height of its children. */
  predicate HeightsCached(t: Tree)
  {
    match t
    case Nil => true
    case Node(l, _, r, h) => HeightsCached(l) && HeightsCached(r) && h == 1 + Max(Height(l), Height(r))
  }

  /** getBalanceFactor: left height minus right height, 0 for an absent node. */
  function BalanceFactor(t: Tree): int
  {
    if t.Nil? then 0 else Height(t.left) - Height(t.right)
  }

  /** Every node's balance factor is -1, 0 or 1. */
  predicate Balanced(t: Tree)
  {
    match t
    case Nil => true
    case Node(l, _, r, _) => Balanced(l) && Balanced(r) && -1 <= BalanceFactor(t) <= 1
  }

  ghost predicate IsAvl(t: Tree)
  {
    Ordered(t) && HeightsCached(t) && Balanced(t)
  }

  // ----- what the invariants give -----

  /** With correct caches, the cached height is the number of nodes on the longest root-to-leaf path. */
  lemma {:induction false} CachedHeightIsHeight(t: Tree)
    requires HeightsCached(t)
    ensures Height(t) == Trees.Height(Shape(t))
    ensures t.Node? ==> Height(t) >= 1
  {
    match t
    case Nil =>
    case Node(l, _, r, _) =>
      CachedHeightIsHeight(l);
      CachedHeightIsHeight(r);
  }

  /** In a search tree every key is stored once, so the node count is the number of keys. */
  lemma {:induction false} CountIsKeyCount(t: Tree)
    requires Ordered(t)
    ensures Count(t) == |Keys(t)|
  {
    match t
    case Nil =>
    case Node(l, d, r, _) =>
      CountIsKeyCount(l);
      CountIsKeyCount(r);
      OrderedApart(t);
      Trees.DisjointCount(Keys(l), Keys(r));
      Trees.DisjointCount(Keys(l) + Keys(r), {d});
      assert Keys(t) == (Keys(l) + Keys(r)) + {d};
  }

  /** In a search tree the two subtrees and the root key share no key. */
  lemma OrderedApart(t: Tree)
    requires t.Node? && Ordered(t)
    ensures Keys(t.left) !! Keys(t.right) && Keys(t.left) + Keys(t.right) !! {t.data}
  {
    forall k | k in Keys(t.left) && k in Keys(t.right) ensures false { }
  }

  predicate StrictlyAscending(s: seq<int>)
  {
    forall i, j | 0 <= i < j < |s| :: s[i] < s[j]
  }

  /** A search tree lists its keys in strictly ascending order, each exactly once. */
  lemma {:induction false} InOrderAscending(t: Tree)
    requires Ordered(t)
    ensures StrictlyAscending(InOrder(t))
    ensures forall k :: k in InOrder(t) <==> k in Keys(t)
  {
    match t
    case Nil =>
    case Node(l, d, r, _) =>
      InOrderAscending(l);
      InOrderAscending(r);
      var a, b := InOrder(l), InOrder(r);
      assert InOrder(t) == a + [d] + b;
      forall i, j | 0 <= i < j < |a + [d] + b| ensures (a + [d] + b)[i] < (a + [d] + b)[j] {
        if j < |a| {
        } else if i < |a| {
          assert a[i] in Keys(l);
          if j > |a| { assert b[j - |a| - 1] in Keys(r); }
        } else if i == |a| {
          assert b[j - |a| - 1] in Keys(r);
        }
      }
  }

  // ----- the node-level helpers -----

  /** updateHeight: recompute a node's cached height from its children. */
  function UpdateHeight(node: Tree): (r: Tree)
    ensures Keys(r) == Keys(node) && Shape(r) == Shape(node)
    ensures node.Node? ==> r.Node? && r.left == node.left && r.data == node.data && r.right == node.right
    ensures node.Node? && HeightsCached(node.left) && HeightsCached(node.right) ==> HeightsCached(r)
    ensures HeightsCached(node) ==> r == node
  {
    if node.Nil? then node else node.(height := 1 + Max(Height(node.left), Height(node.right)))
  }

  /**
   * The two shapes a rotation converts between, ((a x b) y c) and (a x (b y c)),
   * hold the same keys in the same in-order sequence, and one is a search tree
   * exactly when the other is.
   */
  lemma RotationKeepsOrder(a: Tree, x: int, b: Tree, y: int, c: Tree, h1: int, h2: int, h3: int, h4: int)
    ensures var lifted := Node(Node(a, x, b, h1), y, c, h2);
            var lowered := Node(a, x, Node(b, y, c, h3), h4);
            Keys(lifted) == Keys(lowered) && InOrder(lifted) == InOrder(lowered) &&
            (Ordered(lifted) <==> Ordered(lowered))
  {
    RotationKeepsInOrder(a, x, b, y, c, h1, h2, h3, h4);
    RotationKeepsSearchOrder(a, x, b, y, c, h1, h2, h3, h4);
  }

  lemma RotationKeepsInOrder(a: Tree, x: int, b: Tree, y: int, c: Tree, h1: int, h2: int, h3: int, h4: int)
    ensures var lifted := Node(Node(a, x, b, h1), y, c, h2);
            var lowered := Node(a, x, Node(b, y, c, h3), h4);
            Keys(lifted) == Keys(lowered) && InOrder(lifted) == InOrder(lowered)
  {
    var lifted := Node(Node(a, x, b, h1), y, c, h2);
    var lowered := Node(a, x, Node(b, y, c, h3), h4);
    var A, B, C := Trees.InOrder(Shape(a)), Trees.InOrder(Shape(b)), Trees.InOrder(Shape(c));
    assert Shape(lifted) == Trees.Node(Trees.Node(Shape(a), x, Shape(b)), y, Shape(c));
    assert Shape(lowered) == Trees.Node(Shape(a), x, Trees.Node(Shape(b), y, Shape(c)));
    assert Trees.InOrder(Trees.Node(Shape(a), x, Shape(b))) == A + [x] + B;
    assert Trees.InOrder(Trees.Node(Shape(b), y, Shape(c))) == B + [y] + C;
    assert InOrder(lifted) == A + [x] + B + [y] + C;
    assert InOrder(lowered) == A + [x] + (B + [y] + C);
  }

  lemma RotationKeepsSearchOrder(a: Tree, x: int, b: Tree, y: int, c: Tree, h1: int, h2: int, h3: int, h4: int)
    ensures var lifted := Node(Node(a, x, b, h1), y, c, h2);
            var lowered := Node(a, x, Node(b, y, c, h3), h4);
            Ordered(lifted) <==> Ordered(lowered)
  {
    var lifted := Node(Node(a, x, b, h1), y, c, h2);
    var lowered := Node(a, x, Node(b, y, c, h3), h4);
    if Ordered(lifted) {
      var ab := Node(a, x, b, h1);
      assert Ordered(ab) && Ordered(c) && (forall k | k in Keys(c) :: y < k);
      assert Ordered(b) && (forall k | k in Keys(ab) :: k < y);
      assert Keys(ab) == Keys(a) + {x} + Keys(b);
      assert forall k | k in Keys(b) :: k < y;
      assert Ordered(Node(b, y, c, h3));
    }
    if Ordered(lowered) {
      var bc := Node(b, y, c, h3);
      assert Ordered(bc) && Ordered(a) && (forall k | k in Keys(a) :: k < x);
      assert Ordered(b) && (forall k | k in Keys(bc) :: x < k);
      assert Keys(bc) == Keys(b) + {y} + Keys(c);
      assert forall k | k in Keys(b) :: x < k;
      assert Ordered(Node(a, x, b, h1));
    }
  }

  /** rightRotate: the left child x becomes the root, with y as its right child. */
  function RightRotate(y: Tree): (x: Tree)
    requires y.Node? && y.left.Node?
    ensures x.Node? && Keys(x) == Keys(y) && InOrder(x) == InOrder(y)
    ensures Ordered(y) ==> Ordered(x)
    ensures HeightsCached(y.left.left) && HeightsCached(y.left.right) && HeightsCached(y.right) ==> HeightsCached(x)
  {
    var x := y.left;
    var t2 := x.right;
    var y' := UpdateHeight(y.(left := t2));
    var r := UpdateHeight(x.(right := y'));
    RotationKeepsOrder(x.left, x.data, t2, y.data, y.right, x.height, y.height, y'.height, r.height);
    r
  }

  /** leftRotate: the right child y becomes the root, with x as its left child. */
  function LeftRotate(x: Tree): (y: Tree)
    requires x.Node? && x.right.Node?
    ensures y.Node? && Keys(y) == Keys(x) && InOrder(y) == InOrder(x)
    ensures Ordered(x) ==> Ordered(y)
    ensures HeightsCached(x.left) && HeightsCached(x.right.left) && HeightsCached(x.right.right) ==> HeightsCached(y)
  {
    var y := x.right;
    var t2 := y.left;
    var x' := UpdateHeight(x.(right := t2));
    var r := UpdateHeight(y.(left := x'));
    RotationKeepsOrder(x.left, x.data, t2, y.data, y.right, x'.height, r.height, y.height, x.height);
    r
  }

  /** A rotation recomputes heights from the children, so it ignores the cached height of the node it turns. */
  lemma RotationsIgnoreHeight(t: Tree, h: int)
    requires t.Node?
    ensures t.left.Node? ==> RightRotate(t) == RightRotate(t.(height := h))
    ensures t.right.Node? ==> LeftRotate(t) == LeftRotate(t.(height := h))
  {
  }

  // ----- rotations repair a height difference of two -----

  /** A single right rotation balances a node whose left child is two taller and does not lean right. */
  lemma RightRotateBalances(n: Tree)
    requires n.Node? && n.left.Node? && Ordered(n) && IsAvl(n.left) && IsAvl(n.right)
    requires Height(n.left) == Height(n.right) + 2 && BalanceFactor(n.left) >= 0
    ensures IsAvl(RightRotate(n))
    ensures Height(RightRotate(n)) == Height(n.left) + (if BalanceFactor(n.left) == 0 then 1 else 0)
  {
    CachedHeightIsHeight(n.right);
  }

  /** Mirror of RightRotateBalances. */
  lemma LeftRotateBalances(n: Tree)
    requires n.Node? && n.right.Node? && Ordered(n) && IsAvl(n.left) && IsAvl(n.right)
    requires Height(n.right) == Height(n.left) + 2 && BalanceFactor(n.right) <= 0
    ensures IsAvl(LeftRotate(n))
    ensures Height(LeftRotate(n)) == Height(n.right) + (if BalanceFactor(n.right) == 0 then 1 else 0)
  {
    CachedHeightIsHeight(n.left);
  }

  /** Left-right double rotation: for a left child two taller that leans right. */
  lemma LeftRightBalances(n: Tree)
    requires n.Node? && n.left.Node? && Ordered(n) && IsAvl(n.left) && IsAvl(n.right)
    requires Height(n.left) == Height(n.right) + 2 && BalanceFactor(n.left) < 0
    ensures n.left.right.Node?
    ensures IsAvl(RightRotate(n.(left := LeftRotate(n.left))))
    ensures Height(RightRotate(n.(left := LeftRotate(n.left)))) == Height(n.left)
  {
    LeftRightHeights(n);
  }

  lemma LeftRightHeights(n: Tree)
    requires n.Node? && n.left.Node?
    requires HeightsCached(n.left) && Balanced(n.left) && HeightsCached(n.right) && Balanced(n.right)
    requires Height(n.left) == Height(n.right) + 2 && BalanceFactor(n.left) < 0
    ensures n.left.right.Node?
    ensures var r := RightRotate(n.(left := LeftRotate(n.left)));
            HeightsCached(r) && Balanced(r) && Height(r) == Height(n.left)
  {
    var L, R := n.left, n.right;
    var A, Z := L.left, L.right;
    var hr := Height(R);
    TallerSide(L, A, Z, hr);
    var B, C := Z.left, Z.right;
    HeightsBelow(Z, hr);
    var L' := LeftRotate(L);
    assert L' == Node(Node(A, L.data, B, hr + 1), Z.data, C, hr + 2);
    assert RightRotate(n.(left := L')) ==
      Node(Node(A, L.data, B, hr + 1), Z.data, Node(C, n.data, R, hr + 1), hr + 2);
    Join(A, L.data, B, Z.data, C, n.data, R, hr);
  }

  /** Heights are never negative, and a node's height is at least one. */
  lemma {:induction false} HeightPositive(t: Tree)
    requires HeightsCached(t)
    ensures Height(t) >= 0 && (t.Node? ==> Height(t) >= 1)
  {
    if t.Node? {
      HeightPositive(t.left);
      HeightPositive(t.right);
    }
  }

  /**
   * A balanced cached node of height h + 2 whose child `tall` is taller than
   * its child `short`: `tall` has height h + 1 and `short` height h.
   */
  lemma TallerSide(t: Tree, short: Tree, tall: Tree, h: int)
    requires t.Node? && HeightsCached(t) && Balanced(t) && Height(t) == h + 2
    requires (short == t.left && tall == t.right) || (short == t.right && tall == t.left)
    requires Height(short) < Height(tall)
    ensures Height(tall) == h + 1 && Height(short) == h && tall.Node?
    ensures HeightsCached(short) && Balanced(short) && HeightsCached(tall) && Balanced(tall)
  {
    HeightPositive(short);
  }

  /** The children of a balanced cached node of height h + 1 have heights h - 1 or h. */
  lemma HeightsBelow(t: Tree, h: int)
    requires t.Node? && HeightsCached(t) && Balanced(t) && Height(t) == h + 1
    ensures h - 1 <= Height(t.left) <= h && h - 1 <= Height(t.right) <= h
    ensures HeightsCached(t.left) && Balanced(t.left) && HeightsCached(t.right) && Balanced(t.right)
  {
  }

  /**
   * What both double rotations build: ((a x b) y (c z d)) with a and d of
   * height h and b and c of height h - 1 or h is balanced, with height h + 2.
   */
  lemma Join(a: Tree, x: int, b: Tree, y: int, c: Tree, z: int, d: Tree, h: int)
    requires HeightsCached(a) && Balanced(a) && HeightsCached(b) && Balanced(b)
    requires HeightsCached(c) && Balanced(c) && HeightsCached(d) && Balanced(d)
    requires Height(a) == h && Height(d) == h
    requires h - 1 <= Height(b) <= h && h - 1 <= Height(c) <= h
    ensures var r := Node(Node(a, x, b, h + 1), y, Node(c, z, d, h + 1), h + 2);
            HeightsCached(r) && Balanced(r) && Height(r) == h + 2
  {
    var lower, upper := Node(a, x, b, h + 1), Node(c, z, d, h + 1);
    assert HeightsCached(lower) && Balanced(lower);
    assert HeightsCached(upper) && Balanced(upper);
  }

  /** Right-left double rotation: mirror of LeftRightBalances. */
  lemma RightLeftBalances(n: Tree)
    requires n.Node? && n.right.Node? && Ordered(n) && IsAvl(n.left) && IsAvl(n.right)
    requires Height(n.right) == Height(n.left) + 2 && BalanceFactor(n.right) > 0
    ensures n.right.left.Node?
    ensures IsAvl(LeftRotate(n.(right := RightRotate(n.right))))
    ensures Height(LeftRotate(n.(right := RightRotate(n.right)))) == Height(n.right)
  {
    RightLeftHeights(n);
  }

  lemma RightLeftHeights(n: Tree)
    requires n.Node? && n.right.Node?
    requires HeightsCached(n.left) && Balanced(n.left) && HeightsCached(n.right) && Balanced(n.right)
    requires Height(n.right) == Height(n.left) + 2 && BalanceFactor(n.right) > 0
    ensures n.right.left.Node?
    ensures var r := LeftRotate(n.(right := RightRotate(n.right)));
            HeightsCached(r) && Balanced(r) && Height(r) == Height(n.right)
  {
    var L, R := n.left, n.right;
    var Z, D := R.left, R.right;
    var hl := Height(L);
    TallerSide(R, D, Z, hl);
    var B, C := Z.left, Z.right;
    HeightsBelow(Z, hl);
    var R' := RightRotate(R);
    assert R' == Node(B, Z.data, Node(C, R.data, D, hl + 1), hl + 2);
    assert LeftRotate(n.(right := R')) ==
      Node(Node(L, n.data, B, hl + 1), Z.data, Node(C, R.data, D, hl + 1), hl + 2);
    Join(L, n.data, B, Z.data, C, R.data, D, hl);
  }

  // ----- insert (AVL.hpp insert helper) -----

  /**
   * The tail of the insert helper: refresh the height, then try the four
   * rotation cases in the order the source tests them (left-left, right-right,
   * left-right, right-left), choosing by where `value` went. The requires say
   * what a recursive insert of `value` leaves behind: both children are AVL
   * trees, their heights differ by at most two, and a child two taller holds
   * `value` strictly on the side its balance factor leans to.
   */
  function InsertRebalance(node: Tree, value: int): (r: Tree)
    requires node.Node? && Ordered(node) && IsAvl(node.left) && IsAvl(node.right)
    requires -2 <= Height(node.left) - Height(node.right) <= 2
    requires Height(node.left) - Height(node.right) == 2 ==>
      (node.left.Node? && node.left.data != value &&
       BalanceFactor(node.left) == (if value < node.left.data then 1 else -1))
    requires Height(node.right) - Height(node.left) == 2 ==>
      (node.right.Node? && node.right.data != value &&
       BalanceFactor(node.right) == (if value > node.right.data then -1 else 1))
    ensures IsAvl(r) && Keys(r) == Keys(node) && InOrder(r) == InOrder(node)
    ensures -1 <= Height(node.left) - Height(node.right) <= 1 ==> r == UpdateHeight(node)
    ensures Height(node.left) - Height(node.right) == 2 ==> Height(r) == Height(node.left)
    ensures Height(node.right) - Height(node.left) == 2 ==> Height(r) == Height(node.right)
    // which rotation fires; a rotation never reads the cached height of the node it turns
    ensures Height(node.left) - Height(node.right) == 2 && value < node.left.data ==> r == RightRotate(node)
    ensures Height(node.left) - Height(node.right) == 2 && value > node.left.data ==>
      node.left.right.Node? && r == RightRotate(node.(left := LeftRotate(node.left)))
    ensures Height(node.right) - Height(node.left) == 2 && value > node.right.data ==> r == LeftRotate(node)
    ensures Height(node.right) - Height(node.left) == 2 && value < node.right.data ==>
      node.right.left.Node? && r == LeftRotate(node.(right := RightRotate(node.right)))
  {
    var n := UpdateHeight(node);
    var balance := BalanceFactor(n);
    assert Ordered(n);
    if balance > 1 && value < n.left.data then
      RightRotateBalances(n);
      RotationsIgnoreHeight(node, n.height);
      RightRotate(n)
    else if balance < -1 && value > n.right.data then
      LeftRotateBalances(n);
      RotationsIgnoreHeight(node, n.height);
      LeftRotate(n)
    else if balance > 1 && value > n.left.data then
      LeftRightBalances(n);
      RotationsIgnoreHeight(node.(left := LeftRotate(node.left)), n.height);
      RightRotate(n.(left := LeftRotate(n.left)))
    else if balance < -1 && value < n.right.data then
      RightLeftBalances(n);
      RotationsIgnoreHeight(node.(right := RightRotate(node.right)), n.height);
      LeftRotate(n.(right := RightRotate(n.right)))
    else
      n
  }

  /**
   * What insert(node, value) promises about the new subtree r.0 and the flag
   * r.1 that says whether a node was created (the source counts that in
   * `size`): the result is again an AVL tree holding the old keys and value; a
   * key already present leaves the subtree as it was; the height grows by at
   * most one, and when it grows (past a single leaf) the new root leans
   * towards the side `value` went to, which is what the caller's rotation
   * choice relies on.
   */
  ghost predicate Inserted(node: Tree, value: int, r: (Tree, bool))
  {
    IsAvl(r.0) && Keys(r.0) == Keys(node) + {value}
    && (r.1 <==> value !in Keys(node))
    && (!r.1 ==> r.0 == node)
    && Height(node) <= Height(r.0) <= Height(node) + 1
    && (Height(r.0) == Height(node) + 1 && Height(r.0) >= 2 ==>
          r.0.data != value && BalanceFactor(r.0) == (if value < r.0.data then 1 else -1))
  }

  /** insert(node, value): the new subtree and whether a node was created. */
  function InsertNode(node: Tree, value: int): (r: (Tree, bool))
    requires IsAvl(node)
    ensures Inserted(node, value, r)
    decreases node
  {
    if node.Nil? then
      (Node(Nil, value, Nil, 1), true)
    else if value < node.data then
      var sub := InsertNode(node.left, value);
      InsertedLeft(node, value, sub);
      (InsertRebalance(node.(left := sub.0), value), sub.1)
    else if value > node.data then
      var sub := InsertNode(node.right, value);
      InsertedRight(node, value, sub);
      (InsertRebalance(node.(right := sub.0), value), sub.1)
    else
      (node, false)
  }

  /** The step of InsertNode that puts the grown left subtree back under `node`. */
  lemma InsertedLeft(node: Tree, value: int, sub: (Tree, bool))
    requires IsAvl(node) && node.Node? && value < node.data
    requires Inserted(node.left, value, sub)
    ensures var n := node.(left := sub.0);
      Ordered(n) && IsAvl(n.left) && IsAvl(n.right) && -2 <= Height(n.left) - Height(n.right) <= 2 &&
      (Height(n.left) - Height(n.right) == 2 ==>
        (n.left.Node? && n.left.data != value && BalanceFactor(n.left) == (if value < n.left.data then 1 else -1))) &&
      Keys(n) == Keys(node) + {value}
    ensures Inserted(node, value, (InsertRebalance(node.(left := sub.0), value), sub.1))
  {
    var l := sub.0;
    InsertedLeftKeys(node, value, l);
    HeightPositive(node.left);
    HeightPositive(node.right);
    HeightPositive(l);
  }

  /** Putting a left subtree that gained `value` back under `node` keeps the search order. */
  lemma InsertedLeftKeys(node: Tree, value: int, l: Tree)
    requires Ordered(node) && node.Node? && value < node.data
    requires Ordered(l) && Keys(l) == Keys(node.left) + {value}
    ensures Ordered(node.(left := l)) && Keys(node.(left := l)) == Keys(node) + {value}
    ensures value in Keys(node) <==> value in Keys(node.left)
  {
    assert value !in Keys(node.right);
  }

  /** Mirror of InsertedLeft. */
  lemma InsertedRight(node: Tree, value: int, sub: (Tree, bool))
    requires IsAvl(node) && node.Node? && value > node.data
    requires Inserted(node.right, value, sub)
    ensures var n := node.(right := sub.0);
      Ordered(n) && IsAvl(n.left) && IsAvl(n.right) && -2 <= Height(n.left) - Height(n.right) <= 2 &&
      (Height(n.right) - Height(n.left) == 2 ==>
        (n.right.Node? && n.right.data != value && BalanceFactor(n.right) == (if value > n.right.data then -1 else 1))) &&
      Keys(n) == Keys(node) + {value}
    ensures Inserted(node, value, (InsertRebalance(node.(right := sub.0), value), sub.1))
  {
    var rt := sub.0;
    InsertedRightKeys(node, value, rt);
    HeightPositive(node.left);
    HeightPositive(node.right);
    HeightPositive(rt);
  }

  lemma InsertedRightKeys(node: Tree, value: int, rt: Tree)
    requires Ordered(node) && node.Node? && value > node.data
    requires Ordered(rt) && Keys(rt) == Keys(node.right) + {value}
    ensures Ordered(node.(right := rt)) && Keys(node.(right := rt)) == Keys(node) + {value}
    ensures value in Keys(node) <==> value in Keys(node.right)
  {
    assert value !in Keys(node.left);
  }

  // ----- remove (AVL.hpp remove helper) -----

  /**
   * The tail of the remove helper: refresh the height, then rotate by the
   * balance factor of the taller child (left-left, left-right, right-right,
   * right-left, in the source's order). Removing one key leaves the children
   * AVL trees whose heights differ by at most two; the result is an AVL tree
   * with the same keys, unchanged when the node was balanced already.
   */
  function RemoveRebalance(node: Tree): (r: Tree)
    requires node.Node? && Ordered(node) && IsAvl(node.left) && IsAvl(node.right)
    requires -2 <= Height(node.left) - Height(node.right) <= 2
    ensures IsAvl(r) && Keys(r) == Keys(node) && InOrder(r) == InOrder(node)
    ensures -1 <= Height(node.left) - Height(node.right) <= 1 ==> r == UpdateHeight(node)
    ensures IsAvl(node) ==> r == node
    ensures Height(node.left) - Height(node.right) == 2 ==>
      Height(node.left) <= Height(r) <= Height(node.left) + 1
    ensures Height(node.right) - Height(node.left) == 2 ==>
      Height(node.right) <= Height(r) <= Height(node.right) + 1
  {
    CachedHeightIsHeight(node.left);
    CachedHeightIsHeight(node.right);
    var n := UpdateHeight(node);
    var balance := BalanceFactor(n);
    assert Ordered(n);
    if balance > 1 && BalanceFactor(n.left) >= 0 then
      RightRotateBalances(n);
      RightRotate(n)
    else if balance > 1 && BalanceFactor(n.left) < 0 then
      LeftRightBalances(n);
      RightRotate(n.(left := LeftRotate(n.left)))
    else if balance < -1 && BalanceFactor(n.right) <= 0 then
      LeftRotateBalances(n);
      LeftRotate(n)
    else if balance < -1 && BalanceFactor(n.right) > 0 then
      RightLeftBalances(n);
      LeftRotate(n.(right := RightRotate(n.right)))
    else
      n
  }

  /** getMin(node) as a value: the key reached by following left links from a non-empty subtree. */
  function MinKey(t: Tree): (m: int)
    requires t.Node?
    ensures m in Keys(t)
    ensures Ordered(t) ==> forall k | k in Keys(t) :: m <= k
  {
    if t.left.Nil? then t.data else MinKey(t.left)
  }

  /** getMax(node) as a value: the key reached by following right links. */
  function MaxKey(t: Tree): (m: int)
    requires t.Node?
    ensures m in Keys(t)
    ensures Ordered(t) ==> forall k | k in Keys(t) :: k <= m
  {
    if t.right.Nil? then t.data else MaxKey(t.right)
  }

  /**
   * remove(node, value): the new subtree and whether a node was deleted (the
   * source detects that through `size`). An absent key leaves the subtree as
   * it was; otherwise exactly that key goes, the result is again an AVL tree,
   * and the height drops by at most one. A node with two children takes the
   * minimum of its right subtree, which is then removed from there.
   */
  function RemoveNode(node: Tree, value: int): (r: (Tree, bool))
    requires IsAvl(node)
    ensures IsAvl(r.0) && Keys(r.0) == Keys(node) - {value}
    ensures r.1 <==> value in Keys(node)
    ensures !r.1 ==> r.0 == node
    ensures Height(node) - 1 <= Height(r.0) <= Height(node)
    decreases node, 1
  {
    if node.Nil? then
      (Nil, false)
    else if value < node.data then
      var sub := RemoveNode(node.left, value);
      RemovedLeft(node, sub.0, value);
      (RemoveRebalance(node.(left := sub.0)), sub.1)
    else if value > node.data then
      var sub := RemoveNode(node.right, value);
      RemovedRight(node, sub.0, value);
      (RemoveRebalance(node.(right := sub.0)), sub.1)
    else
      (RemoveRoot(node), true)
  }

  /**
   * The found-key case of remove(node, value): a node with at most one child
   * is replaced by that child; one with two children takes the minimum of its
   * right subtree, which is removed from there.
   */
  function RemoveRoot(node: Tree): (r: Tree)
    requires IsAvl(node) && node.Node?
    ensures IsAvl(r) && Keys(r) == Keys(node) - {node.data}
    ensures Height(node) - 1 <= Height(r) <= Height(node)
    decreases node, 0
  {
    if node.left.Nil? || node.right.Nil? then
      var child := if node.left.Node? then node.left else node.right;
      RemovedRoot(node);
      if child.Nil? then Nil else RemoveRebalance(child)
    else
      var m := MinKey(node.right);
      var sub := RemoveNode(node.right, m);
      RemovedSuccessor(node, m, sub.0);
      RemoveRebalance(node.(data := m, right := sub.0))
  }

  /** The step of RemoveNode that puts the shrunk left subtree back under `node`. */
  lemma RemovedLeft(node: Tree, l: Tree, value: int)
    requires IsAvl(node) && node.Node? && value < node.data
    requires IsAvl(l) && Keys(l) == Keys(node.left) - {value}
    requires Height(node.left) - 1 <= Height(l) <= Height(node.left)
    ensures var n := node.(left := l);
      Ordered(n) && -2 <= Height(l) - Height(n.right) <= 2 && Keys(n) == Keys(node) - {value}
    ensures var r := RemoveRebalance(node.(left := l));
      (l == node.left ==> r == node) && Height(node) - 1 <= Height(r) <= Height(node)
  {
    ReplaceLeft(node, l);
    KeysWithout(node, value);
    RebalancedHeight(node.(left := l), Height(node.left), Height(node.right));
  }

  /** Mirror of RemovedLeft. */
  lemma RemovedRight(node: Tree, rt: Tree, value: int)
    requires IsAvl(node) && node.Node? && value > node.data
    requires IsAvl(rt) && Keys(rt) == Keys(node.right) - {value}
    requires Height(node.right) - 1 <= Height(rt) <= Height(node.right)
    ensures var n := node.(right := rt);
      Ordered(n) && -2 <= Height(n.left) - Height(rt) <= 2 && Keys(n) == Keys(node) - {value}
    ensures var r := RemoveRebalance(node.(right := rt));
      (rt == node.right ==> r == node) && Height(node) - 1 <= Height(r) <= Height(node)
  {
    ReplaceRight(node, node.data, rt);
    KeysWithout(node, value);
    RebalancedHeight(node.(right := rt), Height(node.left), Height(node.right));
  }

  /** A left subtree with a subset of the keys keeps the node a search tree. */
  lemma ReplaceLeft(node: Tree, l: Tree)
    requires node.Node? && Ordered(node) && Ordered(l) && Keys(l) <= Keys(node.left)
    ensures Ordered(node.(left := l))
    ensures Keys(node.(left := l)) == Keys(l) + {node.data} + Keys(node.right)
  {
  }

  /**
   * A right subtree with a subset of the keys, under a key `m` that is larger
   * than the left subtree and smaller than the new right one, keeps the node a
   * search tree.
   */
  lemma ReplaceRight(node: Tree, m: int, rt: Tree)
    requires node.Node? && Ordered(node) && Ordered(rt) && Keys(rt) <= Keys(node.right)
    requires forall k | k in Keys(node.left) :: k < m
    requires forall k | k in Keys(rt) :: m < k
    ensures Ordered(node.(data := m, right := rt))
    ensures Keys(node.(data := m, right := rt)) == Keys(node.left) + {m} + Keys(rt)
  {
  }

  /** Removing a key from one side of a search tree removes it from the whole. */
  lemma KeysWithout(node: Tree, value: int)
    requires node.Node? && Ordered(node) && value != node.data
    ensures value < node.data ==>
      Keys(node) - {value} == (Keys(node.left) - {value}) + {node.data} + Keys(node.right)
    ensures value > node.data ==>
      Keys(node) - {value} == Keys(node.left) + {node.data} + (Keys(node.right) - {value})
  {
    if value < node.data {
      assert value !in Keys(node.right);
    } else {
      assert value !in Keys(node.left);
    }
  }

  /**
   * Heights around RemoveRebalance: children that were balanced at heights
   * `hl` and `hr` and each lost at most one level leave a subtree at most one
   * level lower than before; a node already AVL is returned as it is.
   */
  lemma RebalancedHeight(n: Tree, hl: int, hr: int)
    requires n.Node? && Ordered(n) && IsAvl(n.left) && IsAvl(n.right)
    requires -1 <= hl - hr <= 1
    requires hl - 1 <= Height(n.left) <= hl && hr - 1 <= Height(n.right) <= hr
    ensures -2 <= Height(n.left) - Height(n.right) <= 2
    ensures Max(hl, hr) <= Height(RemoveRebalance(n)) <= 1 + Max(hl, hr)
  {
  }

  /** A found node with at most one child is replaced by that child, one level lower. */
  lemma RemovedRoot(node: Tree)
    requires IsAvl(node) && node.Node? && (node.left.Nil? || node.right.Nil?)
    ensures var child := if node.left.Node? then node.left else node.right;
      IsAvl(child) && Keys(child) == Keys(node) - {node.data} && Height(child) == Height(node) - 1
  {
    CachedHeightIsHeight(node.left);
    CachedHeightIsHeight(node.right);
  }

  /** A found node with two children takes the right subtree's minimum `m`, removed from there. */
  lemma RemovedSuccessor(node: Tree, m: int, rt: Tree)
    requires IsAvl(node) && node.Node? && node.right.Node? && m == MinKey(node.right)
    requires IsAvl(rt) && Keys(rt) == Keys(node.right) - {m}
    requires Height(node.right) - 1 <= Height(rt) <= Height(node.right)
    ensures var n := node.(data := m, right := rt);
      Ordered(n) && -2 <= Height(n.left) - Height(rt) <= 2 && Keys(n) == Keys(node) - {node.data}
    ensures Height(node) - 1 <= Height(RemoveRebalance(node.(data := m, right := rt))) <= Height(node)
  {
    SuccessorKeys(node, m, rt);
    RebalancedHeight(node.(data := m, right := rt), Height(node.left), Height(node.right));
  }

  /** The successor m moved into the root, over the right subtree without m: still ordered, one key fewer. */
  lemma SuccessorKeys(node: Tree, m: int, rt: Tree)
    requires node.Node? && Ordered(node) && node.right.Node? && m in Keys(node.right)
    requires forall k | k in Keys(node.right) :: m <= k
    requires Ordered(rt) && Keys(rt) == Keys(node.right) - {m}
    ensures var n := node.(data := m, right := rt);
      Ordered(n) && Keys(n) == Keys(node) - {node.data}
  {
    assert forall k | k in Keys(node.left) :: k < m by {
      assert node.data < m;
    }
    ReplaceRight(node, m, rt);
    assert node.data !in Keys(node.left) && node.data !in Keys(node.right);
  }

  // ----- the remaining recursive helpers -----

  /** contains(node, value): binary search; in a search tree it finds exactly the stored keys. */
  function ContainsKey(t: Tree, value: int): (b: bool)
    ensures b ==> value in Keys(t)
    ensures Ordered(t) ==> (b <==> value in Keys(t))
  {
    if t.Nil? then false
    else if value < t.data then ContainsKey(t.left, value)
    else if value > t.data then ContainsKey(t.right, value)
    else true
  }

  /** copyTree(node): a node-for-node copy, cached heights included. */
  function CopyTree(t: Tree): (r: Tree)
    ensures r == t
  {
    if t.Nil? then Nil else Node(CopyTree(t.left), t.data, CopyTree(t.right), t.height)
  }

  // ----- the class -----

  /** AVL<T> with T = int: the root of the node tree and the node count. */
  class Avl {
    var root: Tree
    var size: int

    /** The class invariant: an AVL tree whose size is its node count. */
    ghost predicate Valid()
      reads this
    {
      IsAvl(root) && size == Count(root)
    }

    /** The key set the tree represents. */
    ghost function Contents(): set<int>
      reads this
    {
      Keys(root)
    }

    constructor()
      ensures Valid() && root == Nil && size == 0
    {
      root := Nil;
      size := 0;
    }

    /** The copy constructor: a copy of the other tree's nodes and its size. */
    constructor Copy(other: Avl)
      requires other.Valid()
      ensures Valid() && root == other.root && size == other.size
    {
      root := CopyTree(other.root);
      size := other.size;
    }

    /** operator=: self-assignment changes nothing; otherwise clear, then copy. */
    method Assign(other: Avl)
      requires Valid() && other.Valid()
      modifies this
      ensures Valid() && root == old(other.root) && size == old(other.size)
    {
      if this != other {
        Clear();
        root := CopyTree(other.root);
        size := other.size;
      }
    }

    /** insert: adds the key unless present; size counts the new node. */
    method Insert(value: int)
      requires Valid()
      modifies this
      ensures Valid() && Contents() == old(Contents()) + {value}
      ensures size == old(size) + (if value in old(Contents()) then 0 else 1)
      ensures root == InsertNode(old(root), value).0
    {
      var r := InsertNode(root, value);
      CountIsKeyCount(root);
      CountIsKeyCount(r.0);
      root := r.0;
      if r.1 {
        size := size + 1;
      }
    }

    /**
     * remove: deletes the key; when the size did not drop the key was absent
     * and the source throws runtime_error, leaving the tree as it was.
     */
    method Remove(value: int) returns (outcome: Outcome)
      requires Valid()
      modifies this
      ensures Valid() && Contents() == old(Contents()) - {value}
      ensures value in old(Contents()) ==> outcome == Done && size == old(size) - 1
      ensures value !in old(Contents()) ==>
        outcome == Fail(RuntimeError("Value not found in the tree")) && root == old(root) && size == old(size)
      ensures root == RemoveNode(old(root), value).0
    {
      var oldSize := size;
      var r := RemoveNode(root, value);
      CountIsKeyCount(root);
      CountIsKeyCount(r.0);
      root := r.0;
      if r.1 {
        size := size - 1;
      }
      if size == oldSize {
        return Fail(RuntimeError("Value not found in the tree"));
      }
      return Done;
    }

    /** contains: true exactly for a stored key. */
    method Contains(value: int) returns (b: bool)
      requires Valid()
      ensures b <==> value in Contents()
    {
      b := ContainsKey(root, value);
    }

    /** getMin: follows left links from the root; runtime_error on an empty tree. */
    method GetMin() returns (r: Result<int>)
      requires Valid()
      ensures root.Nil? ==> r == Err(RuntimeError("Tree is empty"))
      ensures root.Node? ==> r.Ok? && r.value in Contents() && forall k | k in Contents() :: r.value <= k
    {
      if root.Nil? {
        return Err(RuntimeError("Tree is empty"));
      }
      var node := root;
      while node.left.Node?
        invariant node.Node? && MinKey(node) == MinKey(root)
        decreases node
      {
        node := node.left;
      }
      return Ok(node.data);
    }

    /** getMax: follows right links from the root; runtime_error on an empty tree. */
    method GetMax() returns (r: Result<int>)
      requires Valid()
      ensures root.Nil? ==> r == Err(RuntimeError("Tree is empty"))
      ensures root.Node? ==> r.Ok? && r.value in Contents() && forall k | k in Contents() :: k <= r.value
    {
      if root.Nil? {
        return Err(RuntimeError("Tree is empty"));
      }
      var node := root;
      while node.right.Node?
        invariant node.Node? && MaxKey(node) == MaxKey(root)
        decreases node
      {
        node := node.right;
      }
      return Ok(node.data);
    }

    /** getSize: the number of distinct keys stored. */
    method GetSize() returns (n: int)
      requires Valid()
      ensures n == |Contents()|
    {
      CountIsKeyCount(root);
      n := size;
    }

    /** isEmpty: no root node, which is the same as holding no key. */
    method IsEmpty() returns (b: bool)
      requires Valid()
      ensures b <==> Contents() == {}
      ensures b <==> size == 0
    {
      b := root.Nil?;
    }

    /** getHeight: the root's cached height, the number of levels of the tree. */
    method GetHeight() returns (h: int)
      requires Valid()
      ensures h == Trees.Height(Shape(root))
    {
      CachedHeightIsHeight(root);
      h := Height(root);
    }

    /** clear: the empty tree. */
    method Clear()
      modifies this
      ensures Valid() && root == Nil && size == 0
    {
      root := Nil;
      size := 0;
    }

    /** preOrder: root, then left subtree, then right subtree; every key once. */
    method PreOrder() returns (s: seq<int>)
      requires Valid()
      ensures s == Trees.PreOrder(Shape(root))
      ensures |s| == size && multiset(s) == multiset(InOrder(root))
    {
      Trees.TraversalsCoverTree(Shape(root));
      ShapeSize(root);
      s := Trees.PreOrder(Shape(root));
    }

    /** inOrder: the keys in strictly ascending order. */
    method InOrderKeys() returns (s: seq<int>)
      requires Valid()
      ensures s == InOrder(root)
      ensures StrictlyAscending(s)
      ensures forall k :: k in s <==> k in Contents()
    {
      InOrderAscending(root);
      s := InOrder(root);
    }

    /** postOrder: left subtree, right subtree, then root; every key once. */
    method PostOrder() returns (s: seq<int>)
      requires Valid()
      ensures s == Trees.PostOrder(Shape(root))
      ensures |s| == size && multiset(s) == multiset(InOrder(root))
    {
      Trees.TraversalsCoverTree(Shape(root));
      ShapeSize(root);
      s := Trees.PostOrder(Shape(root));
    }

    /** levelOrder: the queue walk from the root, which lists the tree level by level. */
    method LevelOrder() returns (s: seq<int>)
      requires Valid()
      ensures s == Trees.LevelOrder(Shape(root))
    {
      s := Trees.LevelOrderWalk(Shape(root));
    }
  }

  lemma {:induction false} ShapeSize(t: Tree)
    ensures Trees.Size(Shape(t)) == Count(t)
  {
    match t
    case Nil =>
    case Node(l, _, r, _) =>
      ShapeSize(l);
      ShapeSize(r);
  }

  /** Three keys in any of the four orders that need a rotation end in a tree of height 2. */
  method RotationExample() returns (ll: int, rr: int, lr: int, rl: int)
    ensures ll == 2 && rr == 2 && lr == 2 && rl == 2
  {
    ll := HeightAfter(30, 20, 10);
    rr := HeightAfter(10, 20, 30);
    lr := HeightAfter(30, 10, 20);
    rl := HeightAfter(10, 30, 20);
  }

  /** The height of the tree built by inserting three distinct keys in the given order. */
  method HeightAfter(a: int, b: int, c: int) returns (h: int)
    requires a != b && b != c && a != c
    ensures h == 2
  {
    var t := new Avl();
    t.Insert(a);
    t.Insert(b);
    t.Insert(c);
    h := t.GetHeight();
    ThreeKeysHeight(t.root);
  }

  /** An AVL tree of three keys has height 2: one level is too few and a third level needs a fourth key. */
  lemma ThreeKeysHeight(t: Tree)
    requires IsAvl(t) && Count(t) == 3
    ensures Trees.Height(Shape(t)) == 2
  {
    CachedHeightIsHeight(t);
    var l, r := t.left, t.right;
    CachedHeightIsHeight(l);
    CachedHeightIsHeight(r);
    if l.Nil? {
      TwoKeysHeight(r);
    } else if r.Nil? {
      TwoKeysHeight(l);
    } else {
      assert Count(l) == 1 && Count(r) == 1;
      LeafOfOne(l);
      LeafOfOne(r);
    }
  }

  /** A single node is a leaf, one level tall. */
  lemma LeafOfOne(t: Tree)
    requires HeightsCached(t) && Count(t) == 1
    ensures Height(t) == 1
  {
    assert Count(t.left) == 0 && Count(t.right) == 0;
    assert t.left.Nil? && t.right.Nil?;
  }

  /** A tree of two cached nodes is two levels tall. */
  lemma TwoKeysHeight(t: Tree)
    requires HeightsCached(t) && Count(t) == 2
    ensures Height(t) == 2
  {
    CachedHeightIsHeight(t.left);
    CachedHeightIsHeight(t.right);
    if t.left.Node? {
      LeafOfOne(t.left);
    } else {
      LeafOfOne(t.right);
    }
  }
}
