/**
 * The generalised-table notation of BinTree/BinTree.cpp, for example
 * "A(B(D,E(G,)),C(,F))": the reader CreateBinTree, which wires heap nodes
 * together with a stack of enclosing nodes and a child flag k, and the
 * printer PrintBinTreeInGT.
 *
 * Heap nodes are modelled as a node store: a sequence of cells whose links
 * are indices into the store, with -1 for a null link. The reader
 * creates the nodes in the order of their characters, so every link it sets
 * points to a later cell.
 */
module GenTable {
  import opened Errors
  import opened Trees

  /** A BinTreeNode: its character, its two links and the two thread tags. */
  datatype Cell = Cell(data: char, left: int, right: int, ltag: int, rtag: int)

  /** A fresh node: both links null, both tags 0. */
  function NewCell(c: char): Cell
  {
    Cell(c, -1, -1, 0, 0)
  }

  /** The characters that create a node: every one except '(', ')' and ','. */
  predicate IsNodeChar(c: char)
  {
    c != '(' && c != ')' && c != ','
  }

  /** The number of node characters of a table. */
  function NodeCount(s: string): nat
  {
    if s == [] then 0 else (if IsNodeChar(s[0]) then 1 else 0) + NodeCount(s[1..])
  }

  /** The first node character of a table that has one. */
  function FirstNodeChar(s: string): char
    requires NodeCount(s) > 0
  {
    if IsNodeChar(s[0]) then s[0] else FirstNodeChar(s[1..])
  }

  /** A tree the printer can write: no label is one of the three punctuation characters. */
  ghost predicate Printable(t: Tree<char>)
  {
    forall c | c in Elements(t) :: IsNodeChar(c)
  }

  // ----- the node store -----

  /**
   * The cells of t numbered in pre-order from `base`: the node store the
   * reader builds for the table that prints t.
   */
  function Layout(t: Tree<char>, base: int): (r: seq<Cell>)
    ensures |r| == Size(t)
  {
    match t
    case Nil => []
    case Node(l, d, rt) =>
      [Cell(d, if l.Node? then base + 1 else -1, if rt.Node? then base + 1 + Size(l) else -1, 0, 0)]
      + Layout(l, base + 1) + Layout(rt, base + 1 + Size(l))
  }

  lemma LayoutNode(t: Tree<char>, base: int)
    requires t.Node?
    ensures Layout(t, base)
            == [Cell(t.data, if t.left.Node? then base + 1 else -1,
                     if t.right.Node? then base + 1 + Size(t.left) else -1, 0, 0)]
               + Layout(t.left, base + 1) + Layout(t.right, base + 1 + Size(t.left))
  {
  }

  /**
   * The tree reachable from cell i. A link that does not point to a later
   * cell is not followed; the reader never sets one.
   */
  function ToTree(cells: seq<Cell>, i: int): Tree<char>
    decreases |cells| - i
  {
    if i < 0 || i >= |cells| then Nil
    else
      var c := cells[i];
      Node(if c.left > i then ToTree(cells, c.left) else Nil,
           c.data,
           if c.right > i then ToTree(cells, c.right) else Nil)
  }

  /** The parts of a node's slice of a store: its cell and its two subtrees' slices. */
  lemma SliceParts(cells: seq<Cell>, b: int, c: Cell, x: seq<Cell>, m: int, y: seq<Cell>, n: int)
    requires |x| == m && |y| == n && 0 <= b && b + 1 + m + n <= |cells|
    requires cells[b..b + 1 + m + n] == [c] + x + y
    ensures cells[b] == c
    ensures cells[b + 1..b + 1 + m] == x
    ensures cells[b + 1 + m..b + 1 + m + n] == y
  {
    var w := cells[b..b + 1 + m + n];
    assert cells[b] == w[0];
    forall i | 0 <= i < m
      ensures cells[b + 1..b + 1 + m][i] == x[i]
    {
      assert cells[b + 1 + i] == w[1 + i];
    }
    forall i | 0 <= i < n
      ensures cells[b + 1 + m..b + 1 + m + n][i] == y[i]
    {
      assert cells[b + 1 + m + i] == w[1 + m + i];
    }
  }

  /** The converse of SliceParts: a cell followed by two slices makes up the slice they span. */
  lemma SliceJoin(cells: seq<Cell>, b: int, c: Cell, x: seq<Cell>, m: int, y: seq<Cell>, n: int)
    requires |x| == m && |y| == n && 0 <= b && b + 1 + m + n <= |cells|
    requires cells[b] == c
    requires cells[b + 1..b + 1 + m] == x
    requires cells[b + 1 + m..b + 1 + m + n] == y
    ensures cells[b..b + 1 + m + n] == [c] + x + y
  {
    var w := [c] + x + y;
    forall i | 0 <= i < 1 + m + n
      ensures cells[b..b + 1 + m + n][i] == w[i]
    {
      if i == 0 {
      } else if i < 1 + m {
        assert cells[b + 1..b + 1 + m][i - 1] == cells[b + i];
      } else {
        assert cells[b + 1 + m..b + 1 + m + n][i - 1 - m] == cells[b + i];
      }
    }
  }

  /** Where a laid-out node's cell and its subtrees sit in the store. */
  lemma LayoutParts(t: Tree<char>, cells: seq<Cell>, b: int)
    requires t.Node? && 0 <= b && b + Size(t) <= |cells|
    requires cells[b..b + Size(t)] == Layout(t, b)
    ensures cells[b] == Cell(t.data, if t.left.Node? then b + 1 else -1,
                             if t.right.Node? then b + 1 + Size(t.left) else -1, 0, 0)
    ensures b + 1 + Size(t.left) <= |cells| && cells[b + 1..b + 1 + Size(t.left)] == Layout(t.left, b + 1)
    ensures var n := b + 1 + Size(t.left);
      n + Size(t.right) <= |cells| && cells[n..n + Size(t.right)] == Layout(t.right, n)
  {
    var l, r := t.left, t.right;
    var c := Cell(t.data, if l.Node? then b + 1 else -1, if r.Node? then b + 1 + Size(l) else -1, 0, 0);
    LayoutNode(t, b);
    SliceParts(cells, b, c, Layout(l, b + 1), Size(l), Layout(r, b + 1 + Size(l)), Size(r));
  }

  /** Reading a laid-out tree back from any store that holds it gives the tree. */
  lemma {:induction false} ToTreeLayout(t: Tree<char>, cells: seq<Cell>, b: int)
    requires t.Node? && 0 <= b && b + Size(t) <= |cells|
    requires cells[b..b + Size(t)] == Layout(t, b)
    ensures ToTree(cells, b) == t
    decreases t
  {
    var l, r := t.left, t.right;
    LayoutParts(t, cells, b);
    if r.Node? {
      ToTreeLayout(r, cells, b + 1 + Size(l));
    }
    if l.Node? {
      ToTreeLayout(l, cells, b + 1);
    }
    ToTreeNode(cells, b, l, t.data, r);
  }

  /** One step of ToTree: a cell linking to where its subtrees are read gives the node. */
  lemma ToTreeNode(cells: seq<Cell>, b: int, l: Tree<char>, d: char, r: Tree<char>)
    requires 0 <= b < |cells|
    requires cells[b] == Cell(d, if l.Node? then b + 1 else -1, if r.Node? then b + 1 + Size(l) else -1, 0, 0)
    requires l.Node? ==> ToTree(cells, b + 1) == l
    requires r.Node? ==> ToTree(cells, b + 1 + Size(l)) == r
    ensures ToTree(cells, b) == Node(l, d, r)
  {
  }

  // ----- the reader -----

  /**
   * The reader's variables: the nodes made so far, the stack of enclosing
   * nodes (top last), the child flag k (1: left, 2: right; 0 before any
   * '(') and p, the node made last (-1 before the first one).
   */
  datatype Reader = Reader(cells: seq<Cell>, stack: seq<int>, k: int, p: int)

  const Start := Reader([], [], 0, -1)

  /** Every stack entry and p name a node that exists, and p exists once any node does. */
  predicate Sane(st: Reader)
  {
    (forall j | 0 <= j < |st.stack| :: 0 <= st.stack[j] < |st.cells|)
    && -1 <= st.p < |st.cells| && (st.p == -1 <==> st.cells == [])
  }

  /** Sets the link of node t that k selects (1: left, otherwise right) to n. */
  function Link(cells: seq<Cell>, t: int, k: int, n: int): (r: seq<Cell>)
    requires 0 <= t < |cells|
    ensures |r| == |cells| && r[0].data == cells[0].data
  {
    if k == 1 then cells[t := cells[t].(left := n)] else cells[t := cells[t].(right := n)]
  }

  /**
   * One character of the table. '(' pushes the last node and selects the
   * left child, ')' pops, ',' selects the right child, and any other
   * character makes a node: the root when there is none yet, otherwise the
   * selected child of the node on top of the stack (replacing any child
   * already there). Where the source reads an uninitialised p, or the top
   * of an empty stack, the reader fails.
   */
  function Step(st: Reader, c: char): (r: Result<Reader>)
    requires Sane(st)
    ensures r.Ok? ==> Sane(r.value)
    ensures r.Ok? ==> |r.value.cells| == |st.cells| + (if IsNodeChar(c) then 1 else 0)
    ensures r.Ok? && st.cells != [] ==> r.value.cells[0].data == st.cells[0].data
    ensures r.Ok? && st.cells == [] && IsNodeChar(c) ==> r.value.cells[0].data == c
    ensures r.Err? <==> (c == '(' && st.cells == []) || (c == ')' && st.stack == [])
                        || (IsNodeChar(c) && st.cells != [] && st.stack == [])
  {
    if c == '(' then
      if st.p == -1 then Err(InvalidArgument("'(' before any node"))
      else Ok(st.(stack := st.stack + [st.p], k := 1))
    else if c == ')' then
      if st.stack == [] then Err(InvalidArgument("')' with no open node"))
      else Ok(st.(stack := st.stack[..|st.stack| - 1]))
    else if c == ',' then
      Ok(st.(k := 2))
    else if st.cells == [] then
      Ok(st.(cells := [NewCell(c)], p := 0))
    else if st.stack == [] then
      Err(InvalidArgument("a node outside every '('"))
    else
      var n := |st.cells|;
      Ok(st.(cells := Link(st.cells, st.stack[|st.stack| - 1], st.k, n) + [NewCell(c)], p := n))
  }

  /**
   * The reader run over a whole string. Each node character makes exactly
   * one node, and the first node made stays the first cell (the root).
   */
  function Run(st: Reader, s: string): (r: Result<Reader>)
    requires Sane(st)
    ensures r.Ok? ==> Sane(r.value) && |r.value.cells| == |st.cells| + NodeCount(s)
    ensures r.Ok? && st.cells != [] ==> r.value.cells[0].data == st.cells[0].data
    ensures r.Ok? && st.cells == [] && NodeCount(s) > 0 ==> r.value.cells[0].data == FirstNodeChar(s)
    decreases |s|
  {
    if s == [] then Ok(st)
    else
      match Step(st, s[0])
      case Err(e) => Err(e)
      case Ok(next) => Run(next, s[1..])
  }

  /** The node store CreateBinTree builds: one cell per node character, the root first. */
  function Read(table: string): (r: Result<seq<Cell>>)
    ensures r.Ok? ==> |r.value| == NodeCount(table)
  {
    match Run(Start, table)
    case Err(e) => Err(e)
    case Ok(st) => Ok(st.cells)
  }

  /** CreateBinTree's result: the tree hanging from the first node made, or the empty tree. */
  function Parse(table: string): (r: Result<Tree<char>>)
    ensures r.Ok? ==> (r.value.Nil? <==> NodeCount(table) == 0)
    ensures r.Ok? && NodeCount(table) > 0 ==> r.value.data == FirstNodeChar(table)
  {
    match Run(Start, table)
    case Err(e) => Err(e)
    case Ok(st) => Ok(if st.cells == [] then Nil else ToTree(st.cells, 0))
  }

  /** CreateBinTree: the loop over the table with its node stack and child flag. */
  method CreateBinTree(table: string) returns (r: Result<seq<Cell>>)
    ensures r == Read(table)
    ensures r.Ok? <==> Parse(table).Ok?
    ensures r.Ok? ==> Parse(table).value == (if r.value == [] then Nil else ToTree(r.value, 0))
  {
    var cells: seq<Cell> := [];
    var stack: seq<int> := [];
    var k := 0;
    var p := -1;
    var i := 0;
    while i < |table|
      invariant 0 <= i <= |table|
      invariant Sane(Reader(cells, stack, k, p))
      invariant Run(Reader(cells, stack, k, p), table[i..]) == Run(Start, table)
    {
      var c := table[i];
      assert table[i..][1..] == table[i + 1..];
      ghost var before := Reader(cells, stack, k, p);
      if c == '(' {
        if p == -1 {
          return Err(InvalidArgument("'(' before any node"));
        }
        stack := stack + [p];
        k := 1;
      } else if c == ')' {
        if stack == [] {
          return Err(InvalidArgument("')' with no open node"));
        }
        stack := stack[..|stack| - 1];
      } else if c == ',' {
        k := 2;
      } else if cells == [] {
        cells := [NewCell(c)];
        p := 0;
      } else {
        if stack == [] {
          return Err(InvalidArgument("a node outside every '('"));
        }
        var t := stack[|stack| - 1];
        if k == 1 {
          cells := cells[t := cells[t].(left := |cells|)];
        } else {
          cells := cells[t := cells[t].(right := |cells|)];
        }
        cells := cells + [NewCell(c)];
        p := |cells| - 1;
      }
      assert Step(before, c) == Ok(Reader(cells, stack, k, p));
      i := i + 1;
    }
    r := Ok(cells);
  }

  // ----- the printer -----

  /**
   * PrintBinTreeInGT: a leaf is its character; any other node is its
   * character, '(', its left subtree if present, ',', its right subtree if
   * present, ')'.
   */
  function Print(t: Tree<char>): string
  {
    match t
    case Nil => ""
    case Node(l, d, r) =>
      if l.Nil? && r.Nil? then [d] else [d] + "(" + Print(l) + "," + Print(r) + ")"
  }

  lemma {:induction false} NodeCountAppend(a: string, b: string)
    ensures NodeCount(a + b) == NodeCount(a) + NodeCount(b)
  {
    if a == [] {
      assert a + b == b;
    } else {
      assert (a + b)[0] == a[0];
      assert (a + b)[1..] == a[1..] + b;
      NodeCountAppend(a[1..], b);
    }
  }

  /** The table printed for t has one node character per node. */
  lemma {:induction false} PrintedNodeCount(t: Tree<char>)
    requires Printable(t)
    ensures NodeCount(Print(t)) == Size(t)
  {
    match t
    case Nil =>
    case Node(l, d, r) =>
      assert Printable(l) && Printable(r);
      PrintedNodeCount(l);
      PrintedNodeCount(r);
      if !(l.Nil? && r.Nil?) {
        NodeCountAppend([d] + "(" + Print(l) + "," + Print(r), ")");
        NodeCountAppend([d] + "(" + Print(l) + ",", Print(r));
        NodeCountAppend([d] + "(" + Print(l), ",");
        NodeCountAppend([d] + "(", Print(l));
        NodeCountAppend([d], "(");
      }
  }

  // ----- reading a printed table -----

  /** The store after the node that the reader makes next has been linked into its parent. */
  function Attached(st: Reader): (r: seq<Cell>)
    requires Sane(st)
    ensures |r| == |st.cells|
  {
    if st.cells == [] || st.stack == [] then st.cells
    else Link(st.cells, st.stack[|st.stack| - 1], st.k, |st.cells|)
  }

  lemma RunCons(st: Reader, c: char, s: string)
    requires Sane(st)
    ensures Step(st, c).Err? ==> Run(st, [c] + s) == Err(Step(st, c).error)
    ensures Step(st, c).Ok? ==> Run(st, [c] + s) == Run(Step(st, c).value, s)
  {
    assert ([c] + s)[1..] == s;
  }

  /** A node character made while a parent is available becomes the next cell, linked in. */
  lemma StepNode(st: Reader, d: char)
    requires Sane(st) && IsNodeChar(d)
    requires st.cells != [] ==> st.stack != []
    ensures Step(st, d) == Ok(Reader(Attached(st) + [NewCell(d)], st.stack, st.k, |st.cells|))
  {
    if st.cells == [] {
      assert Attached(st) + [NewCell(d)] == [NewCell(d)];
    }
  }

  lemma AppendEmpty(a: seq<Cell>)
    ensures a + [] == a
  {
  }

  lemma Assoc(a: seq<Cell>, b: seq<Cell>, c: seq<Cell>, d: seq<Cell>)
    ensures a + b + c + d == a + (b + c + d)
  {
  }

  /** Linking the next node into the node on top of the stack, when that node sits between a and b. */
  lemma Relink(q: Reader, a: seq<Cell>, c: Cell, b: seq<Cell>)
    requires Sane(q) && q.cells == a + [c] + b
    requires q.stack != [] && q.stack[|q.stack| - 1] == |a|
    ensures Attached(q)
            == a + [if q.k == 1 then c.(left := |q.cells|) else c.(right := |q.cells|)] + b
  {
  }

  /** The store after reading a subtree that may be absent, below the node on top of the stack. */
  lemma ChildCells(q: Reader, a: seq<Cell>, c: Cell, b: seq<Cell>, u: Tree<char>, n: int, next: Reader)
    requires Sane(q) && q.cells == a + [c] + b && n == |q.cells|
    requires q.stack != [] && q.stack[|q.stack| - 1] == |a|
    requires u.Nil? ==> next == q
    requires u.Node? ==> next.cells == Attached(q) + Layout(u, |q.cells|)
    ensures u.Nil? ==> next.cells == a + [c] + b
    ensures u.Node? && q.k == 1 ==> next.cells == a + [c.(left := n)] + b + Layout(u, n)
    ensures u.Node? && q.k != 1 ==> next.cells == a + [c.(right := n)] + b + Layout(u, n)
  {
    if u.Node? {
      Relink(q, a, c, b);
    }
  }

  /** The store after a node and its left subtree: the node's cell, then the left subtree laid out. */
  lemma LeftCells(a: seq<Cell>, d: char, l: Tree<char>, base: int, cells: seq<Cell>)
    requires l.Nil? ==> cells == a + [NewCell(d)] + []
    requires l.Node? ==> cells == a + [NewCell(d).(left := base + 1)] + [] + Layout(l, base + 1)
    ensures cells == a + [Cell(d, if l.Node? then base + 1 else -1, -1, 0, 0)] + Layout(l, base + 1)
  {
    var c1 := Cell(d, if l.Node? then base + 1 else -1, -1, 0, 0);
    AppendEmpty(a + [c1]);
    if l.Nil? {
      AppendEmpty(a + [c1] + Layout(l, base + 1));
    }
  }

  /** The store after a whole node: its cell, then its left and right subtrees, laid out. */
  lemma NodeCells(a: seq<Cell>, t: Tree<char>, base: int, c: Cell, n: int, cells: seq<Cell>)
    requires t.Node? && n == base + 1 + Size(t.left)
    requires c == Cell(t.data, if t.left.Node? then base + 1 else -1, -1, 0, 0)
    requires t.right.Nil? ==> cells == a + [c] + Layout(t.left, base + 1)
    requires t.right.Node? ==> cells == a + [c.(right := n)] + Layout(t.left, base + 1) + Layout(t.right, n)
    ensures cells == a + Layout(t, base)
  {
    var c2 := Cell(t.data, if t.left.Node? then base + 1 else -1, if t.right.Node? then n else -1, 0, 0);
    LayoutNode(t, base);
    Assoc(a, [c2], Layout(t.left, base + 1), Layout(t.right, n));
    if t.right.Nil? {
      AppendEmpty(a + [c2] + Layout(t.left, base + 1));
    }
  }

  /**
   * Reading the printed table of a subtree that may be absent: nothing
   * happens for an absent one.
   */
  lemma {:induction false} RunChild(st: Reader, t: Tree<char>, rest: string) returns (next: Reader)
    requires Sane(st) && Printable(t)
    requires st.cells != [] ==> st.stack != []
    ensures Sane(next) && next.stack == st.stack
    ensures t.Nil? ==> next == st
    ensures t.Node? ==> next.cells == Attached(st) + Layout(t, |st.cells|)
                        && next.k == (if t.left.Nil? && t.right.Nil? then st.k else 2)
                        && next.p == |st.cells| + Size(t) - 1
    ensures Run(st, Print(t) + rest) == Run(next, rest)
    decreases t, 3
  {
    if t.Nil? {
      assert Print(t) + rest == rest;
      next := st;
    } else {
      next := RunPrint(st, t, rest);
    }
  }

  /** Reading a node character and the '(' after it. */
  lemma RunOpen(st: Reader, d: char, s: string) returns (next: Reader)
    requires Sane(st) && IsNodeChar(d)
    requires st.cells != [] ==> st.stack != []
    ensures Sane(next)
    ensures next == Reader(Attached(st) + [NewCell(d)], st.stack + [|st.cells|], 1, |st.cells|)
    ensures Run(st, [d] + (['('] + s)) == Run(next, s)
  {
    StepNode(st, d);
    var st1 := Reader(Attached(st) + [NewCell(d)], st.stack, st.k, |st.cells|);
    RunCons(st, d, ['('] + s);
    RunCons(st1, '(', s);
    next := Reader(Attached(st) + [NewCell(d)], st.stack + [|st.cells|], 1, |st.cells|);
    assert Step(st1, '(') == Ok(next);
  }

  /** Reading the ')' that closes the node on top of the stack. */
  lemma RunClose(st: Reader, s: string) returns (next: Reader)
    requires Sane(st) && st.stack != []
    ensures Sane(next) && next == st.(stack := st.stack[..|st.stack| - 1])
    ensures Run(st, [')'] + s) == Run(next, s)
  {
    RunCons(st, ')', s);
    next := st.(stack := st.stack[..|st.stack| - 1]);
  }

  /** The printed table of an inner node, cut where the reader changes state. */
  lemma PrintNode(t: Tree<char>, rest: string)
    requires t.Node? && !(t.left.Nil? && t.right.Nil?)
    ensures Print(t) + rest
            == [t.data] + (['('] + (Print(t.left) + ([','] + (Print(t.right) + ([')'] + rest)))))
  {
  }

  /** Reading an inner node's right subtree and the ')' that closes the node. */
  lemma {:induction false} RunRightClose(st: Reader, t: Tree<char>, st4: Reader, rest: string) returns (next: Reader)
    requires Sane(st) && t.Node? && Printable(t)
    requires st.cells != [] ==> st.stack != []
    requires Sane(st4)
    requires st4 == Reader(Attached(st) + [Cell(t.data, if t.left.Nil? then -1 else |st.cells| + 1, -1, 0, 0)]
                             + Layout(t.left, |st.cells| + 1),
                           st.stack + [|st.cells|], 2, |st.cells| + Size(t.left))
    ensures Sane(next) && next.stack == st.stack
    ensures next.cells == Attached(st) + Layout(t, |st.cells|)
    ensures next.k == 2
    ensures next.p == |st.cells| + Size(t) - 1
    ensures Run(st4, Print(t.right) + ([')'] + rest)) == Run(next, rest)
    decreases t, 1
  {
    var st5 := RunRightChild(st, t, st4, rest);
    next := RunClose(st5, rest);
    assert st5.stack[..|st5.stack| - 1] == st.stack;
  }

  /** Reading an inner node's right subtree, up to its ')'. */
  lemma {:induction false} RunRightChild(st: Reader, t: Tree<char>, st4: Reader, rest: string) returns (st5: Reader)
    requires Sane(st) && t.Node? && Printable(t)
    requires st.cells != [] ==> st.stack != []
    requires Sane(st4)
    requires st4 == Reader(Attached(st) + [Cell(t.data, if t.left.Nil? then -1 else |st.cells| + 1, -1, 0, 0)]
                             + Layout(t.left, |st.cells| + 1),
                           st.stack + [|st.cells|], 2, |st.cells| + Size(t.left))
    ensures Sane(st5) && st5.stack == st.stack + [|st.cells|] && st5.stack != []
    ensures st5.cells == Attached(st) + Layout(t, |st.cells|)
    ensures st5.k == 2
    ensures st5.p == |st.cells| + Size(t) - 1
    ensures Run(st4, Print(t.right) + ([')'] + rest)) == Run(st5, [')'] + rest)
    decreases t, 0
  {
    var base := |st.cells|;
    var a := Attached(st);
    var c1 := Cell(t.data, if t.left.Nil? then -1 else base + 1, -1, 0, 0);
    var n := base + 1 + Size(t.left);
    assert Printable(t.right);
    st5 := RunChild(st4, t.right, [')'] + rest);
    ChildCells(st4, a, c1, Layout(t.left, base + 1), t.right, n, st5);
    NodeCells(a, t, base, c1, n, st5.cells);
  }

  /** Reading a leaf's one character. */
  lemma RunLeaf(st: Reader, t: Tree<char>, rest: string) returns (next: Reader)
    requires Sane(st) && t.Node? && t.left.Nil? && t.right.Nil? && IsNodeChar(t.data)
    requires st.cells != [] ==> st.stack != []
    ensures Sane(next)
    ensures next == Reader(Attached(st) + Layout(t, |st.cells|), st.stack, st.k, |st.cells|)
    ensures Run(st, Print(t) + rest) == Run(next, rest)
  {
    StepNode(st, t.data);
    RunCons(st, t.data, rest);
    assert Print(t) + rest == [t.data] + rest;
    assert Layout(t, |st.cells|) == [NewCell(t.data)];
    next := Reader(Attached(st) + [NewCell(t.data)], st.stack, st.k, |st.cells|);
  }

  /** Reading an inner node's character, its '(', its left subtree and the ',' after it. */
  lemma {:induction false} RunOpenLeft(st: Reader, t: Tree<char>, s: string) returns (next: Reader)
    requires Sane(st) && t.Node? && Printable(t)
    requires st.cells != [] ==> st.stack != []
    ensures Sane(next)
    ensures next == Reader(Attached(st) + [Cell(t.data, if t.left.Nil? then -1 else |st.cells| + 1, -1, 0, 0)]
                             + Layout(t.left, |st.cells| + 1),
                           st.stack + [|st.cells|], 2, |st.cells| + Size(t.left))
    ensures Run(st, [t.data] + (['('] + (Print(t.left) + ([','] + s)))) == Run(next, s)
    decreases t, 1
  {
    assert t.data in Elements(t);
    var st2 := RunOpen(st, t.data, Print(t.left) + ([','] + s));
    next := RunLeftComma(st, st2, t, s);
  }

  /** Reading an inner node's left subtree and the ',' after it, once the node is open. */
  lemma {:induction false} RunLeftComma(st: Reader, st2: Reader, t: Tree<char>, s: string) returns (next: Reader)
    requires Sane(st) && t.Node? && Printable(t)
    requires Sane(st2) && st2 == Reader(Attached(st) + [NewCell(t.data)], st.stack + [|st.cells|], 1, |st.cells|)
    ensures Sane(next)
    ensures next == Reader(Attached(st) + [Cell(t.data, if t.left.Nil? then -1 else |st.cells| + 1, -1, 0, 0)]
                             + Layout(t.left, |st.cells| + 1),
                           st.stack + [|st.cells|], 2, |st.cells| + Size(t.left))
    ensures Run(st2, Print(t.left) + ([','] + s)) == Run(next, s)
    decreases t, 0
  {
    var base := |st.cells|;
    var l, d := t.left, t.data;
    assert Printable(l);
    var a := Attached(st);
    AppendEmpty(a + [NewCell(d)]);
    var st3 := RunChild(st2, l, [','] + s);
    ChildCells(st2, a, NewCell(d), [], l, base + 1, st3);
    LeftCells(a, d, l, base, st3.cells);
    next := RunComma(st3, s);
  }

  /** Reading the ',' that selects the right child. */
  lemma RunComma(st: Reader, s: string) returns (next: Reader)
    requires Sane(st)
    ensures Sane(next) && next == st.(k := 2)
    ensures Run(st, [','] + s) == Run(next, s)
  {
    RunCons(st, ',', s);
    next := st.(k := 2);
  }


  /**
   * Reading the printed table of t links t's root to the node on top of the
   * stack (or makes it the root) and lays t's nodes out in pre-order after
   * the existing ones.
   */
  lemma {:induction false} RunPrint(st: Reader, t: Tree<char>, rest: string) returns (next: Reader)
    requires Sane(st) && t.Node? && Printable(t)
    requires st.cells != [] ==> st.stack != []
    ensures Sane(next) && next.stack == st.stack
    ensures next.cells == Attached(st) + Layout(t, |st.cells|)
    ensures next.k == (if t.left.Nil? && t.right.Nil? then st.k else 2)
    ensures next.p == |st.cells| + Size(t) - 1
    ensures Run(st, Print(t) + rest) == Run(next, rest)
    decreases t, 2
  {
    if t.left.Nil? && t.right.Nil? {
      assert t.data in Elements(t);
      next := RunLeaf(st, t, rest);
      return;
    }
    PrintNode(t, rest);
    var tail := [')'] + rest;
    var st4 := RunOpenLeft(st, t, Print(t.right) + tail);
    next := RunRightClose(st, t, st4, rest);
  }

  /** Reading the printed table of any printable tree gives that tree back. */
  lemma ReadPrinted(t: Tree<char>)
    requires Printable(t)
    ensures Parse(Print(t)) == Ok(t)
    ensures Read(Print(t)) == Ok(Layout(t, 0))
  {
    if t.Node? {
      assert Print(t) + "" == Print(t);
      var next := RunPrint(Start, t, "");
      assert Attached(Start) == [];
      assert next.cells == Layout(t, 0);
      assert Run(next, "") == Ok(next);
      assert next.cells[0..Size(t)] == Layout(t, 0);
      ToTreeLayout(t, next.cells, 0);
    }
  }

  /** Printing the tree read from a table that the printer produced gives that table back. */
  lemma PrintRead(table: string, t: Tree<char>)
    requires Printable(t) && table == Print(t)
    ensures Parse(table).Ok? && Print(Parse(table).value) == table
  {
    ReadPrinted(t);
  }
}
