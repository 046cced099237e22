# Data structures and algorithms, modelled in Dafny

This project models a C++ teaching library of classic data structures and
algorithms:

- binary trees: a plain linked tree, a binary search tree, two AVL trees, and a
  threaded tree built from a generalised-list table;
- two binary heaps: a comparator-driven `Heap` over a vector, and `HeapSim`, a
  1-based array heap whose entries carry insertion keys;
- two union-find classes, each with rank and path compression;
- sequential and linked lists, including a list simulated inside arrays;
- a circular queue, a linked queue and a sequential stack;
- a counting trie;
- the KMP string matcher;
- five graph stores: a chain-forward-star, adjacency matrices and adjacency
  lists, directed and undirected. Each has DFS, BFS, topological sort or Prim.

Each C++ class whose methods update its fields is a Dafny `class`, with the
same fields, `modifies` clauses and `old(...)` postconditions. The recursive
helpers that return a new subtree become functions on tree values. Every loop
becomes a `method` with invariants. Each method is proved against a
specification function, and the properties the library promises are lemmas
about those functions:

- search order, balance and cached heights for the AVL tree;
- heap order and permutation for both heaps;
- that union-find keeps a forest and merges exactly two classes;
- FIFO and LIFO order, including ring-buffer wrap-around;
- the KMP tables and the first occurrence;
- a topological order exactly when the graph is acyclic;
- that Prim grows a spanning tree of the start vertex's component.

Element types are `int`, or `char` where the source's tests use characters.
Error paths keep the source's outcome. A thrown exception is a `Result` or
`Outcome` holding the exception class and its message. A `bool` or `-1`
return stays as it is.

Module layout, by source directory:

| module | source |
|---|---|
| `Trees`, `Sequences`, `Errors` | shared: trees with their traversals, sequence reversal and positions, exception values |
| `AvlTree` | `BinTree/AVL/AVL.hpp` |
| `AvlInsert` | `BinTree/AVL.cpp` |
| `Bst` | `BinTree/BST/BST.hpp` |
| `BinTree` | `BinTree/BinTree/BinTree.hpp` |
| `GenTable`, `ThreadedTree` | `BinTree/BinTree.cpp`: the table reader and printer, and the threaded tree class |
| `Heap` | `Heap/Heap/Heap.hpp` |
| `HeapSim` | `Heap/HeapSim/HeapSim.hpp` |
| `DisjointSets` | the union-find forest as a value, shared by the two classes |
| `UnionSetHpp` | `Set/UnionSet/UnionSet.hpp` |
| `UnionSetCpp` | `Set/UnionSet/UnionSet.cpp` |
| `SeqList`, `SingleLinkedList`, `LinkedListSim` | `LinearList/...` |
| `SeqQueue`, `LinkedQueue`, `SeqStack` | `Queue/...`, `Stack/...` |
| `Trie` | `Trie/Trie.hpp` |
| `Kmp` | `String/Kmp.cpp` |
| `VertexTable`, `GraphCore`, `AdjLists`, `AdjMatrix` | shared by the graph classes: vertex lookup, DFS, BFS, Kahn's algorithm, Prim, and list and matrix building |
| `ChainForwardStar`, `MatrixDG`, `ListDG`, `ListUDG`, `MatrixUDG` | `Graphic/...` |

## Model

| member | source | states |
|---|---|---|
| Trees.PreOrder | BinTree/BinTree/BinTree.hpp:229-236 | the recursive pre-order walk (also BinTree/BinTree.cpp:131-139): one entry per node (Trees.RootPositions puts the root first; Trees.TraversalsCoverTree shows every value is listed once) |
| Trees.InOrder | BinTree/BinTree/BinTree.hpp:239-246 | the recursive in-order walk (also BinTree/BinTree.cpp:141-149): one entry per node (Trees.RootPositions puts the root right after the whole left subtree) |
| Trees.PostOrder | BinTree/BinTree/BinTree.hpp:249-256 | the recursive post-order walk (also BinTree/BinTree.cpp:151-159): one entry per node (Trees.RootPositions puts the root last) |
| Trees.RootPositions | BinTree/BinTree/BinTree.hpp:229-256 | where each recursive walk prints the root: first in pre-order, after the left subtree in in-order, last in post-order |
| Trees.TraversalsCoverTree | BinTree/BinTree/BinTree.hpp:71-89 | pre-, in- and post-order each list every node once: same length as the tree, same multiset of values, and a value is listed iff it is in the tree |
| Trees.BfsIsLevelOrder | BinTree/BinTree/BinTree.hpp:174-197 | the queue walk from the root yields the tree level by level, top level first, left to right |
| Trees.LevelOrderWalk | BinTree/BinTree/BinTree.hpp:174-197 | the queue loop outputs exactly the level order of the tree |
| Trees.HeightBounds | BinTree/BinTree/BinTree.hpp:201-206 | the height never exceeds the node count, and is 0 exactly for the empty tree |
| Sequences.ReverseReverse | LinearList/SeqList/SeqList.hpp:120-128 | reversing twice gives back the original list, so reverse is its own inverse |
| Sequences.ReverseAppend | LinearList/SingleLinkedList/SingleLinkedList.hpp:176-191 | the reverse of a concatenation is the reversed second part followed by the reversed first part |
| Sequences.Position | LinearList/SeqList/SeqList.hpp:93-100 | the 1-based position of the first occurrence, 0 iff the value is absent, never past the end |
| Sequences.PositionFirst | LinearList/SeqList/SeqList.hpp:93-100 | a value at index p-1 with no earlier copy has position p |
| AvlTree.CachedHeightIsHeight | BinTree/AVL/AVL.hpp:156-165 | with every node's cache refreshed, the cached height is the number of levels of the tree |
| AvlTree.CountIsKeyCount | BinTree/AVL/AVL.hpp:86-88 | in a search tree each key is stored once, so the node count equals the number of distinct keys |
| AvlTree.InOrderAscending | BinTree/AVL/AVL.hpp:115-119 | the in-order walk of a search tree is strictly ascending and lists exactly its keys |
| AvlTree.UpdateHeight | BinTree/AVL/AVL.hpp:161-165 | keys and shape are unchanged; the node's cache becomes correct once its children's are; an already-correct node is unchanged |
| AvlTree.RotationKeepsSearchOrder | BinTree/AVL/AVL.hpp:183-217 | the two shapes a rotation converts between have the same keys and in-order, and one is a search tree iff the other is |
| AvlTree.RightRotate | BinTree/AVL/AVL.hpp:183-195 | a right rotation keeps the key set, the in-order sequence and the search order, and leaves correct height caches |
| AvlTree.LeftRotate | BinTree/AVL/AVL.hpp:205-217 | a left rotation keeps the key set, the in-order sequence and the search order, and leaves correct height caches |
| AvlTree.RotationsIgnoreHeight | BinTree/AVL/AVL.hpp:183-217 | a rotation's result does not depend on the stale height cached in the node it turns |
| AvlTree.RightRotateBalances | BinTree/AVL/AVL.hpp:241-244 | left-left case: a left child two taller that does not lean right is balanced by one right rotation, with the resulting height given |
| AvlTree.LeftRotateBalances | BinTree/AVL/AVL.hpp:246-249 | right-right case: the mirror image, one left rotation |
| AvlTree.LeftRightBalances | BinTree/AVL/AVL.hpp:261-264 | left-right case: a left child two taller that leans right is balanced by rotating it left and then the node right; the height becomes the left child's old height |
| AvlTree.RightLeftBalances | BinTree/AVL/AVL.hpp:276-279 | right-left case: the mirror image of the left-right case |
| AvlTree.InsertRebalance | BinTree/AVL/AVL.hpp:236-280 | after inserting into one side, rebalancing yields an AVL tree with the same keys and in-order. The four cases are tried in the source's order, and each fires exactly when its guard holds |
| AvlTree.InsertNode | BinTree/AVL/AVL.hpp:220-282 | insert: the result is an AVL tree holding the old keys plus the value, with a flag that says whether a node was created. An existing key leaves the subtree unchanged. The height grows by at most one |
| AvlTree.RemoveRebalance | BinTree/AVL/AVL.hpp:318-346 | after removal from one side, rebalancing yields an AVL tree with the same keys and in-order; a node that is already balanced is returned unchanged |
| AvlTree.MinKey | BinTree/AVL/AVL.hpp:363-371 | the leftmost key is stored in the tree and, in a search tree, is its least key |
| AvlTree.MaxKey | BinTree/AVL/AVL.hpp:374-382 | the rightmost key is stored in the tree and, in a search tree, is its greatest key |
| AvlTree.RemoveNode | BinTree/AVL/AVL.hpp:285-347 | remove: the result is an AVL tree whose keys are the old keys without the value. The flag is true iff the value was present. An absent value leaves the tree unchanged. The height drops by at most one |
| AvlTree.RemoveRoot | BinTree/AVL/AVL.hpp:296-311 | deleting a found node leaves an AVL tree with exactly that key gone, at most one level lower |
| AvlTree.RemovedRoot | BinTree/AVL/AVL.hpp:296-305 | a found node with at most one child is replaced by that child, which is an AVL tree one level lower |
| AvlTree.RemovedSuccessor | BinTree/AVL/AVL.hpp:306-311 | a found node with two children takes the minimum of its right subtree, which is removed from there; the result is an AVL tree without the value and at most one level lower |
| AvlTree.ContainsKey | BinTree/AVL/AVL.hpp:350-360 | the binary search answers true only for a stored key, and in a search tree for every stored key |
| AvlTree.CopyTree | BinTree/AVL/AVL.hpp:385-394 | the copy has the same nodes, keys and cached heights as the original |
| AvlTree.Avl.constructor | BinTree/AVL/AVL.hpp:27 | a new tree is empty, with size 0 |
| AvlTree.Avl.Copy | BinTree/AVL/AVL.hpp:35-38 | the copy constructor copies the nodes and the size |
| AvlTree.Avl.Assign | BinTree/AVL/AVL.hpp:41-48 | after assignment this tree holds the other's nodes and size; self-assignment changes nothing |
| AvlTree.Avl.Insert | BinTree/AVL/AVL.hpp:51-53 | the key set gains the value; size grows by one unless it was present; the tree stays a valid AVL tree |
| AvlTree.Avl.Remove | BinTree/AVL/AVL.hpp:56-62 | the key set loses the value. A present value shrinks the size by one. An absent one gives runtime_error "Value not found" and leaves the tree unchanged |
| AvlTree.Avl.Contains | BinTree/AVL/AVL.hpp:65-67 | true iff the value is stored |
| AvlTree.Avl.GetMin | BinTree/AVL/AVL.hpp:70-75 | runtime_error "Tree is empty" on an empty tree; otherwise the least stored key |
| AvlTree.Avl.GetMax | BinTree/AVL/AVL.hpp:78-83 | runtime_error "Tree is empty" on an empty tree; otherwise the greatest stored key |
| AvlTree.Avl.GetSize | BinTree/AVL/AVL.hpp:86-88 | the number of distinct stored keys |
| AvlTree.Avl.IsEmpty | BinTree/AVL/AVL.hpp:91-93 | true iff no key is stored, iff the size is 0 |
| AvlTree.Avl.GetHeight | BinTree/AVL/AVL.hpp:96-98 | the root's cached height equals the true number of levels |
| AvlTree.Avl.Clear | BinTree/AVL/AVL.hpp:101-105 | the tree becomes empty with size 0 |
| AvlTree.Avl.PreOrder | BinTree/AVL/AVL.hpp:108-112 | the keys in pre-order, each key once |
| AvlTree.Avl.InOrderKeys | BinTree/AVL/AVL.hpp:115-119 | the keys in strictly ascending order, exactly the stored ones |
| AvlTree.Avl.PostOrder | BinTree/AVL/AVL.hpp:122-126 | the keys in post-order, each key once |
| AvlTree.Avl.LevelOrder | BinTree/AVL/AVL.hpp:129-152 | the keys level by level, as the queue walk visits them |
| AvlTree.ShapeSize | BinTree/AVL/AVL.hpp:86-88 | the node count of a tree equals the node count of its shape without heights |
| AvlTree.RotationExample | BinTree/AVL/AVLTest.cpp:42-81 | inserting three keys in the LL, RR, LR and RL orders of the unit tests each ends in a tree of height 2 |
| AvlTree.HeightAfter | BinTree/AVL/AVLTest.cpp:42-81 | any three distinct keys, inserted in any order, give a tree of height 2 |
| AvlTree.ThreeKeysHeight | BinTree/AVL/AVLTest.cpp:42-81 | every AVL tree of three keys has exactly two levels |
| AvlInsert.LeftLeftRotation | BinTree/AVL.cpp:22-32 | keys and in-order are kept; refreshing the new root's height gives exactly the AVL.hpp right rotation (the cached height is one short, since this version never refreshes it) |
| AvlInsert.RightRightRotation | BinTree/AVL.cpp:41-50 | keys and in-order are kept; refreshing the new root's height gives exactly the AVL.hpp left rotation |
| AvlInsert.LeftRightRotation | BinTree/AVL.cpp:61-67 | keys and in-order are kept; after the refresh the result equals the AVL.hpp left-right double rotation |
| AvlInsert.RightLeftRotation | BinTree/AVL.cpp:78-82 | keys and in-order are kept; after the refresh the result equals the AVL.hpp right-left double rotation |
| AvlInsert.InsertSubtree | BinTree/AVL.cpp:84-137 | the older insert builds the same tree as the AVL.hpp insert: an AVL tree holding the old keys plus the key; the flag reports a duplicate |
| AvlInsert.SameAsRebalanceLeft | BinTree/AVL.cpp:84-137 | the older left-side rebalance picks the same rotation and gives the same tree as the AVL.hpp rebalance |
| AvlInsert.SameAsRebalanceRight | BinTree/AVL.cpp:84-137 | the same for the right side |
| AvlInsert.AvlCpp.Insert | BinTree/AVL.cpp:10 | insert keeps an AVL tree whose root equals the AVL.hpp insert's, and reports a duplicate key |
| AvlInsert.AvlCpp.Height | BinTree/AVL.cpp:9 | the root's height is the number of levels of the tree |
| Bst.SizeIsKeyCount | BinTree/BST/BST.hpp:110-112 | in a search tree the node count equals the number of distinct keys |
| Bst.InOrderAscending | BinTree/BST/BST.hpp:139-143 | the in-order walk of a search tree is strictly ascending and lists exactly its keys |
| Bst.MinKey | BinTree/BST/BST.hpp:260-268 | the leftmost key is stored and, in a search tree, is the least |
| Bst.MaxKey | BinTree/BST/BST.hpp:271-279 | the rightmost key is stored and, in a search tree, is the greatest |
| Bst.InsertNode | BinTree/BST/BST.hpp:188-201 | the keys gain the value; the size grows by one exactly when a node is made, which in a search tree is exactly when the value was absent; search order is kept |
| Bst.RemoveNode | BinTree/BST/BST.hpp:204-233 | the size drops by one exactly when a node is removed; in a search tree the keys become the old keys without the value, the order is kept, and an absent value leaves the tree unchanged |
| Bst.RemovedSuccessor | BinTree/BST/BST.hpp:204-233 | replacing a two-child node by its in-order successor, removed from the right subtree, keeps the search order and drops only the value |
| Bst.ContainsKey | BinTree/BST/BST.hpp:236-246 | true only for a stored key, and in a search tree for every stored key |
| Bst.FindNode | BinTree/BST/BST.hpp:249-257 | the node found holds the value, and in a search tree a node is found iff the value is stored |
| Bst.CopyTree | BinTree/BST/BST.hpp:322-330 | the copy equals the original tree |
| Bst.PredecessorInLeftSubtree | BinTree/BST/BST.hpp:282-299 | when the value's node has a left subtree, that subtree's maximum is the greatest stored key below the value |
| Bst.SuccessorInRightSubtree | BinTree/BST/BST.hpp:302-319 | when the value's node has a right subtree, that subtree's minimum is the least stored key above the value |
| Bst.Bst.constructor | BinTree/BST/BST.hpp:25 | a new tree is empty with size 0 |
| Bst.Bst.Copy | BinTree/BST/BST.hpp:33-36 | the copy holds the other tree's nodes and size |
| Bst.Bst.Assign | BinTree/BST/BST.hpp:39-46 | after assignment this tree holds the other's nodes and size |
| Bst.Bst.Insert | BinTree/BST/BST.hpp:49-51 | the key set gains the value; size grows by one unless it was present |
| Bst.Bst.Remove | BinTree/BST/BST.hpp:54-60 | the key set loses the value. A present value shrinks the size by one. An absent one gives runtime_error and leaves the tree unchanged |
| Bst.Bst.Contains | BinTree/BST/BST.hpp:63-65 | true iff the value is stored |
| Bst.Bst.GetMin | BinTree/BST/BST.hpp:68-73 | runtime_error "Tree is empty" on an empty tree; otherwise the least key |
| Bst.Bst.GetMax | BinTree/BST/BST.hpp:76-81 | runtime_error "Tree is empty" on an empty tree; otherwise the greatest key |
| Bst.Bst.GetPredecessor | BinTree/BST/BST.hpp:84-94 | runtime_error "Value not found in the tree" for an absent value, and an error when the value is the least key. Otherwise it returns the greatest stored key below the value, and one is always found when such a key exists |
| Bst.Bst.GetSuccessor | BinTree/BST/BST.hpp:97-107 | the mirror image: the least stored key above the value, or the corresponding error |
| Bst.Bst.GetSize | BinTree/BST/BST.hpp:110-112 | the number of distinct keys |
| Bst.Bst.IsEmpty | BinTree/BST/BST.hpp:115-117 | true iff no key is stored, iff the size is 0 |
| Bst.Bst.GetHeight | BinTree/BST/BST.hpp:120-122 | the number of levels: 0 iff the tree is empty, never more than the size |
| Bst.Bst.Clear | BinTree/BST/BST.hpp:125-129 | the tree becomes empty with size 0 |
| Bst.Bst.PreOrder | BinTree/BST/BST.hpp:132-136 | the pre-order walk, each key once |
| Bst.Bst.InOrder | BinTree/BST/BST.hpp:139-143 | the keys in strictly ascending order, exactly the stored ones |
| Bst.Bst.PostOrder | BinTree/BST/BST.hpp:146-150 | the post-order walk, each key once |
| Bst.Bst.LevelOrder | BinTree/BST/BST.hpp:153-176 | the keys level by level |
| Bst.LeftmostKey | BinTree/BST/BST.hpp:260-268 | the loop that follows left links ends at the minimum key |
| Bst.RightmostKey | BinTree/BST/BST.hpp:271-279 | the loop that follows right links ends at the maximum key |
| Bst.TraversalExample | BinTree/BST/BSTTest.cpp:79-129 | inserting 10, 5, 15, 3, 7 gives pre-order 10 5 3 7 15, in-order 3 5 7 10 15, post-order 3 7 5 15 10 and level order 10 5 15 3 7 |
| Bst.FiveKeysWalks | BinTree/BST/BSTTest.cpp:79-129 | the four walks of that five-key tree |
| Bst.CopyExample | BinTree/BST/BSTTest.cpp:211-234 | copies are deep: clearing the original leaves the copy and the assigned tree with three keys each |
| BinTree.ReversedRootRightLeft | BinTree/BinTree/BinTree.hpp:143-171 | a root-right-left walk, reversed, is the post-order walk |
| BinTree.PreOrderByStack | BinTree/BinTree/BinTree.hpp:92-115 | the stack loop outputs exactly the pre-order walk |
| BinTree.InOrderByStack | BinTree/BinTree/BinTree.hpp:118-140 | the stack loop outputs exactly the in-order walk |
| BinTree.PushLeftPath | BinTree/BinTree/BinTree.hpp:118-140 | pushing the left spine leaves a stack whose pending in-order output is the subtree's in-order followed by the rest |
| BinTree.PostOrderByStacks | BinTree/BinTree/BinTree.hpp:143-171 | the two-stack loop outputs exactly the post-order walk |
| BinTree.FillSecondStack | BinTree/BinTree/BinTree.hpp:143-171 | the first phase fills the second stack with the root-right-left walk |
| BinTree.PopAll | BinTree/BinTree/BinTree.hpp:143-171 | emptying the second stack outputs its contents reversed |
| BinTree.CopyTree | BinTree/BinTree/BinTree.hpp:209-217 | the copy equals the original tree |
| BinTree.BinTree.constructor | BinTree/BinTree/BinTree.hpp:25 | a new tree is empty with size 0 |
| BinTree.BinTree.Copy | BinTree/BinTree/BinTree.hpp:33-36 | the copy holds the other tree and its size |
| BinTree.BinTree.Assign | BinTree/BinTree/BinTree.hpp:39-46 | after assignment this tree holds the other's nodes and size |
| BinTree.BinTree.GetSize | BinTree/BinTree/BinTree.hpp:49-51 | the number of nodes |
| BinTree.BinTree.IsEmpty | BinTree/BinTree/BinTree.hpp:54-56 | true iff there is no root, iff the size is 0 |
| BinTree.BinTree.GetHeight | BinTree/BinTree/BinTree.hpp:59-61 | the number of levels: 0 iff empty, never more than the size |
| BinTree.BinTree.Clear | BinTree/BinTree/BinTree.hpp:64-68 | the tree becomes empty with size 0 |
| BinTree.BinTree.PreOrderNonRecursive | BinTree/BinTree/BinTree.hpp:92-115 | the same output as the recursive pre-order |
| BinTree.BinTree.InOrderNonRecursive | BinTree/BinTree/BinTree.hpp:118-140 | the same output as the recursive in-order |
| BinTree.BinTree.PostOrderNonRecursive | BinTree/BinTree/BinTree.hpp:143-171 | the same output as the recursive post-order |
| BinTree.BinTree.LevelOrder | BinTree/BinTree/BinTree.hpp:174-197 | the values level by level |
| BinTree.TestTreeExample | BinTree/BinTree/BinTreeTest.cpp:125-167 | for the five-node tree of the unit tests the stack walks give ABDEC, DBEAC and DEBCA, the queue walk ABCDE, and the height is 3 |
| GenTable.Step | BinTree/BinTree.cpp:78-115 | one character of the table. There are exactly three errors: '(' with no node yet, ')' with an empty stack, and a node character after the root while the stack is empty. Otherwise a node character adds exactly one node, linked under the node on top of the stack |
| GenTable.Read | BinTree/BinTree.cpp:78-115 | a table that reads succeeds with one node per node character |
| GenTable.Parse | BinTree/BinTree.cpp:78-115 | the tree read is empty iff the table has no node character, and otherwise its root is the first node character |
| GenTable.CreateBinTree | BinTree/BinTree.cpp:78-115 | the reading loop builds exactly the node store Read describes, succeeds iff Parse does, and its root is the tree Parse returns |
| GenTable.ToTreeLayout | BinTree/BinTree.cpp:78-115 | following the child links of a laid-out store gives back the tree |
| GenTable.PrintedNodeCount | BinTree/BinTree.cpp:292-308 | the printed table has one node character per node |
| GenTable.ReadPrinted | BinTree/BinTree.cpp:292-308 | reading the printed table of any printable tree gives that tree back, in the pre-order node layout |
| GenTable.PrintRead | BinTree/BinTree.cpp:78-115 | printing the tree read from a printed table gives that table back |
| ThreadedTree.UnthreadThreaded | BinTree/BinTree.cpp:332-355 | threading only fills the empty links and the tags: removing the threads gives back the plain node store |
| ThreadedTree.ThreadSubtree | BinTree/BinTree.cpp:332-355 | the recursive threading of a subtree leaves its cells exactly as Threaded describes them and touches nothing outside the subtree; PrevIdx and NextIdx show the threads are the in-order predecessor and successor links |
| ThreadedTree.ThreadWhole | BinTree/BinTree.cpp:62-71 | threading the whole tree, with the last right link closed by hand, gives the fully threaded store |
| ThreadedTree.FirstIsFirst | BinTree/BinTree.cpp:357-364 | the node reached by following left links is the first node in in-order |
| ThreadedTree.NextIdx | BinTree/BinTree.cpp:366-375 | in a threaded store the next step from the i-th in-order node reaches the (i+1)-th, or the end after the last |
| ThreadedTree.PrevIdx | BinTree/BinTree.cpp:339-345 | in a threaded store every left link with tag 1 points at the in-order predecessor, and the first node's at the link passed in from outside the subtree |
| ThreadedTree.InOrderData | BinTree/BinTree.cpp:400-404 | the node at the i-th in-order position holds the i-th in-order value |
| ThreadedTree.PreOrderSentinel | BinTree/BinTree.cpp:161-180 | the loop that pushes a null sentinel outputs exactly the pre-order walk |
| ThreadedTree.SentinelStep | BinTree/BinTree.cpp:167-178 | one turn of that loop keeps its invariant: the output so far followed by what the stack still holds is the pre-order walk, and the work left shrinks |
| ThreadedTree.CalSumsInOrder | BinTree/BinTree.cpp:406-412 | the recursive sum over the tree equals the sum over its in-order walk |
| ThreadedTree.BinTree.constructor | BinTree/BinTree.cpp:27 | a new tree has no nodes and no threads |
| ThreadedTree.BinTree.CreateBinTree | BinTree/BinTree.cpp:34 | succeeds iff the table reads, and then holds the tree read; a failed read leaves the object unchanged; reading a printed table gives the compact store |
| ThreadedTree.BinTree.PreOrderNoRecursive | BinTree/BinTree.cpp:161-180 | the pre-order walk of the stored tree |
| ThreadedTree.BinTree.PreOrderNoRecursive1 | BinTree/BinTree.cpp:182-199 | the second stack version gives the same pre-order walk |
| ThreadedTree.BinTree.InOrderNoRecursive | BinTree/BinTree.cpp:201-224 | the in-order walk of the stored tree |
| ThreadedTree.BinTree.LevelOrder | BinTree/BinTree.cpp:263-276 | the values level by level |
| ThreadedTree.BinTree.Size | BinTree/BinTree.cpp:278-283 | the number of nodes, which is the store's length for a compact store |
| ThreadedTree.BinTree.Height | BinTree/BinTree.cpp:285-290 | the number of levels: 0 iff there are no nodes, never more than the size |
| ThreadedTree.BinTree.Cal | BinTree/BinTree.cpp:406-412 | the sum of the per-character offsets over the in-order walk |
| ThreadedTree.BinTree.PrintBinTreeInGT | BinTree/BinTree.cpp:292-308 | the generalised-list table of the tree, which reads back as the same tree |
| ThreadedTree.BinTree.CreateInthread | BinTree/BinTree.cpp:332-355 | a non-empty tree's store becomes the fully threaded store of the same tree; an empty one is left as it was |
| ThreadedTree.BinTree.LeftThreads | BinTree/BinTree.cpp:62-71 | after createInthread every left thread points at the in-order predecessor, and the first node's left thread is null |
| ThreadedTree.BinTree.InOrderFirst | BinTree/BinTree.cpp:357-364 | from any subtree root, the first in-order node of that subtree |
| ThreadedTree.BinTree.InOrderNext | BinTree/BinTree.cpp:366-375 | from the i-th in-order node, the (i+1)-th, or -1 after the last |
| ThreadedTree.BinTree.InOrderWithThread | BinTree/BinTree.cpp:400-404 | the walk along the threads outputs exactly the in-order walk |
| Heap.Parent | Heap/Heap/Heap.hpp:19-21 | every non-root index has a smaller parent of which it is the left or right child |
| Heap.LeftChild | Heap/Heap/Heap.hpp:28-30 | the left child index lies past the node and has that node as its parent |
| Heap.RightChild | Heap/Heap/Heap.hpp:37-39 | the right child index is the left child's plus one and has that node as its parent |
| Heap.RootFirst | Heap/Heap/Heap.hpp:137-142 | in a heap no element precedes the root under the comparator |
| Heap.SiftDownPermutes | Heap/Heap/Heap.hpp:66-82 | sift-down only moves elements: same multiset |
| Heap.SiftDownRestores | Heap/Heap/Heap.hpp:66-82 | sift-down from a node whose subtrees are heaps makes its whole subtree a heap |
| Heap.SiftUpPermutes | Heap/Heap/Heap.hpp:50-55 | sift-up only moves elements: same multiset |
| Heap.SiftUpRestores | Heap/Heap/Heap.hpp:50-55 | sift-up of a new last element in an otherwise ordered array restores heap order |
| Heap.PushKeepsHeap | Heap/Heap/Heap.hpp:110-113 | push keeps heap order and adds exactly the value to the multiset |
| Heap.PopKeepsHeap | Heap/Heap/Heap.hpp:120-129 | pop keeps heap order and removes exactly the top element from the multiset |
| Heap.HeapifyStart | Heap/Heap/Heap.hpp:97-103 | the heapify loop starts at the last parent, (n-2)/2, and not at all below two elements, the unsigned subtraction included |
| Heap.HeapifyBuildsHeap | Heap/Heap/Heap.hpp:97-103 | the heapify constructor turns any vector into a heap with the same multiset |
| Heap.ComparatorsAreOrders | Heap/Heap/Heap.hpp:8 | std::less and std::greater are strict weak orders, so min-heaps and max-heaps both satisfy the heap lemmas |
| Heap.HeapifyExample | Heap/Heap/HeapTest.cpp:74-88 | heapify of 4 1 3 2 16 9 10 14 8 7 starts at index 4 and produces exactly 1 2 3 4 7 9 10 14 8 16, a min-heap with 1 on top |
| Heap.MinHeapPushExample | Heap/Heap/HeapTest.cpp:31-54 | pushing 5 then 3 into a min-heap leaves 3 on top |
| Heap.MinHeapPopExample | Heap/Heap/HeapTest.cpp:31-54 | popping a min-heap yields its elements in ascending order |
| Heap.MaxHeapExample | Heap/Heap/HeapTest.cpp:56-72 | with std::greater the top is the largest element, 7, then 5 after a pop |
| Heap.Heap.constructor | Heap/Heap/Heap.hpp:89 | a new heap is empty with the given comparator |
| Heap.Heap.FromData | Heap/Heap/Heap.hpp:97-103 | the vector heapified from the last parent down to the root, which is a heap with the same multiset |
| Heap.Heap.SiftUp | Heap/Heap/Heap.hpp:50-55 | the loop computes exactly the sift-up function |
| Heap.Heap.SiftDown | Heap/Heap/Heap.hpp:66-82 | the loop computes exactly the sift-down function |
| Heap.Heap.Push | Heap/Heap/Heap.hpp:110-113 | the value is appended and sifted up; the heap stays valid |
| Heap.Heap.Pop | Heap/Heap/Heap.hpp:120-129 | runtime_error on an empty heap with nothing changed; otherwise the last element replaces the top and is sifted down |
| Heap.Heap.Top | Heap/Heap/Heap.hpp:137-142 | runtime_error on an empty heap; otherwise the first element, which no element precedes |
| Heap.Heap.Empty | Heap/Heap/Heap.hpp:149-151 | true iff there are no elements |
| Heap.Heap.Size | Heap/Heap/Heap.hpp:158-160 | the number of elements |
| Heap.Heap.Clear | Heap/Heap/Heap.hpp:166-168 | the heap becomes empty |
| Heap.Heap.GetData | Heap/Heap/Heap.hpp:175-177 | the underlying vector, which is in heap order |
| HeapSim.Init | Heap/HeapSim/HeapSim.hpp:71-75 | a new heap is consistent, holds no key, and has the requested array size |
| HeapSim.SwapKeeps | Heap/HeapSim/HeapSim.hpp:17-21 | heap_swap keeps the key-to-slot links consistent and the key-to-value map unchanged |
| HeapSim.UpKeeps | Heap/HeapSim/HeapSim.hpp:62-67 | up keeps the links and the key-to-value map |
| HeapSim.DownKeeps | Heap/HeapSim/HeapSim.hpp:38-46 | down keeps the links and the key-to-value map |
| HeapSim.UpStale | Heap/HeapSim/HeapSim.hpp:62-67 | up moves only live keys, so a key with no value keeps its slot entry |
| HeapSim.DownStale | Heap/HeapSim/HeapSim.hpp:38-46 | down moves only live keys, so a key with no value keeps its slot entry |
| HeapSim.UpOrders | Heap/HeapSim/HeapSim.hpp:62-67 | up from a slot that is too small restores min-heap order |
| HeapSim.DownOrders | Heap/HeapSim/HeapSim.hpp:38-46 | down from a slot that is too large restores min-heap order |
| HeapSim.DownOnHeap | Heap/HeapSim/HeapSim.hpp:38-46 | down on a heap that is already ordered changes nothing |
| HeapSim.SlotKeysCount | Heap/HeapSim/HeapSim.hpp:78-86 | slots 1..n hold n different keys, because push links each slot's key back to it |
| HeapSim.ContentsCount | Heap/HeapSim/HeapSim.hpp:124-131 | in a linked heap the keys with a value are exactly cnt many, and none iff cnt is 0 |
| HeapSim.RootLeast | Heap/HeapSim/HeapSim.hpp:115-121 | in a min-heap slot 1 holds the least value |
| HeapSim.PushKeeps | Heap/HeapSim/HeapSim.hpp:78-88 | push(k, x) of a key with no value keeps the heap consistent, maps key k to x and adds one element |
| HeapSim.RemoveAsWrittenKeeps | Heap/HeapSim/HeapSim.hpp:91-101 | remove(k) as written, of a live key, keeps the heap consistent, drops exactly key k and removes one element |
| HeapSim.RemoveLeavesSlot | Heap/HeapSim/HeapSim.hpp:95-99 | remove(k) as written leaves k's slot entry at the old count, which is non-zero, so the guard at line 92 lets a second remove(k) through |
| HeapSim.RemoveKeeps | Heap/HeapSim/HeapSim.hpp:91-101 | the corrected remove(k) keeps the heap consistent and drops key k from the map |
| HeapSim.ModifyKeeps | Heap/HeapSim/HeapSim.hpp:104-112 | modify(k, x) keeps the heap consistent and maps key k to x |
| HeapSim.RemoveTwiceAsWritten | Heap/HeapSim/HeapSim.hpp:91-101 | as written, remove never clears the key's slot link, so a second remove of the same key passes the guard and drives the count to -1 |
| HeapSim.RemoveTwiceRefused | Heap/HeapSim/HeapSim.hpp:91-101 | with the link cleared, a removed key is no longer live, so a second remove of it is refused |
| HeapSim.HeapSim.constructor | Heap/HeapSim/HeapSim.hpp:71-75 | a new heap of the given capacity holds no key |
| HeapSim.HeapSim.HeapSwap | Heap/HeapSim/HeapSim.hpp:17-21 | the arrays become exactly heap_swap of the old state |
| HeapSim.HeapSim.Up | Heap/HeapSim/HeapSim.hpp:62-67 | the loop computes exactly the up function |
| HeapSim.HeapSim.Down | Heap/HeapSim/HeapSim.hpp:38-46 | the recursion computes exactly the down function |
| HeapSim.HeapSim.Push | Heap/HeapSim/HeapSim.hpp:78-88 | succeeds iff the key is in range; then key k maps to x, the count grows by one and the heap stays consistent; otherwise nothing changes |
| HeapSim.HeapSim.Remove | Heap/HeapSim/HeapSim.hpp:91-101 | remove as written: succeeds iff the key is in range with a non-zero slot, which for a live key means it has a value; then the state is RemoveAsWrittenF of the old one, the key drops out of the map, the count falls by one and k's slot entry stays at the old count; otherwise nothing changes |
| HeapSim.HeapSim.Modify | Heap/HeapSim/HeapSim.hpp:104-112 | succeeds iff the key is in range with a non-zero slot, which for a live key means it has a value; then it maps to the new value and the heap stays consistent; otherwise nothing changes |
| HeapSim.HeapSim.GetMin | Heap/HeapSim/HeapSim.hpp:115-121 | succeeds iff some key is live, and returns the least live value |
| HeapSim.HeapSim.Empty | Heap/HeapSim/HeapSim.hpp:124-126 | true iff the count is 0, iff no key has a value |
| HeapSim.HeapSim.Size | Heap/HeapSim/HeapSim.hpp:129-131 | the count cnt, which equals the number of keys with a value |
| HeapSim.HeapSim.Capacity | Heap/HeapSim/HeapSim.hpp:134-136 | the array size minus one, wrapping to the largest size_t when the size is 0 |
| DisjointSets.Root | Set/UnionSet/UnionSet.hpp:17-27 | following parent links ends at a root, which is its own parent; a root is its own representative |
| DisjointSets.InitSingletons | Set/UnionSet/UnionSet.hpp:31-44 | the initial forest has n roots, and two elements are connected iff they are equal |
| DisjointSets.CompressShortcuts | Set/UnionSet/UnionSet.hpp:82-90 | path compression points x straight at its root and only shortcuts links along the path |
| DisjointSets.CompressKeeps | Set/UnionSet/UnionSet.hpp:82-90 | path compression keeps a forest and every element's root |
| DisjointSets.CompressBothKeeps | Set/UnionSet/UnionSet.cpp:77-82 | compressing from both queried elements keeps a forest and every root |
| DisjointSets.LinkForest | Set/UnionSet/UnionSet.hpp:104-113 | union by rank hangs the lower-ranked root (the first on a tie) under the other; the result is a forest with that root gone |
| DisjointSets.LinkRoot | Set/UnionSet/UnionSet.hpp:104-113 | after linking two roots, the second root's representative is one of the two |
| DisjointSets.MergeForest | Set/UnionSet/UnionSet.hpp:93-114 | merge keeps a forest |
| DisjointSets.MergeConnects | Set/UnionSet/UnionSet.hpp:93-114 | after merge(x, y), a and b are connected iff they were, or one was with x and the other with y |
| DisjointSets.MergeCount | Set/UnionSet/UnionSet.hpp:130-138 | merge lowers the set count by one, unless x and y were already connected |
| DisjointSets.MergeExample | Set/UnionSet/UnionSetTest.cpp:22-48 | the unit test's sequence of merges on six elements gives 5, 4 and 3 sets, with the stated pairs connected |
| UnionSetHpp.UnionSet.constructor | Set/UnionSet/UnionSet.hpp:31-44 | n singleton sets with rank 1 and data 0 |
| UnionSetHpp.UnionSet.Create | Set/UnionSet/UnionSet.hpp:31-44 | invalid_argument iff n <= 0; otherwise n singleton sets |
| UnionSetHpp.UnionSet.Copy | Set/UnionSet/UnionSet.hpp:47-52 | the copy has the same parents, ranks, data and size |
| UnionSetHpp.UnionSet.Assign | Set/UnionSet/UnionSet.hpp:55-63 | after assignment the arrays and size equal the other's |
| UnionSetHpp.UnionSet.SetData | Set/UnionSet/UnionSet.hpp:66-71 | out_of_range iff the index is out of range; otherwise only that datum changes |
| UnionSetHpp.UnionSet.GetData | Set/UnionSet/UnionSet.hpp:74-79 | out_of_range iff the index is out of range; otherwise the datum |
| UnionSetHpp.UnionSet.FindConst | Set/UnionSet/UnionSet.hpp:17-27 | out_of_range for a bad index; otherwise the root, without changing anything |
| UnionSetHpp.UnionSet.Find | Set/UnionSet/UnionSet.hpp:82-90 | out_of_range for a bad index; otherwise the root, with the path compressed and every root unchanged |
| UnionSetHpp.UnionSet.LinkRoots | Set/UnionSet/UnionSet.hpp:104-113 | the links become union by rank of the two roots |
| UnionSetHpp.UnionSet.Merge | Set/UnionSet/UnionSet.hpp:93-114 | out_of_range iff an index is bad, leaving the links unchanged; otherwise the links become the merge function's result |
| UnionSetHpp.UnionSet.IsConnected | Set/UnionSet/UnionSet.hpp:117-122 | out_of_range for a bad index; otherwise true iff the two have the same root |
| UnionSetHpp.UnionSet.GetSize | Set/UnionSet/UnionSet.hpp:125-127 | the number of elements |
| UnionSetHpp.UnionSet.GetSetCount | Set/UnionSet/UnionSet.hpp:130-138 | the number of roots, which is the number of sets |
| UnionSetHpp.UnionSet.GetRank | Set/UnionSet/UnionSet.hpp:141-146 | out_of_range for a bad index; otherwise the rank, which exceeds the rank of every child |
| UnionSetCpp.UnionSet.constructor | Set/UnionSet/UnionSet.cpp:15-28 | n singleton sets with rank 1 and data 0 |
| UnionSetCpp.UnionSet.Create | Set/UnionSet/UnionSet.cpp:15-28 | invalid_argument iff n <= 0 |
| UnionSetCpp.UnionSet.SetData | Set/UnionSet/UnionSet.cpp:31-36 | out_of_range iff the index is bad; otherwise only that datum changes |
| UnionSetCpp.UnionSet.GetData | Set/UnionSet/UnionSet.cpp:39-44 | out_of_range iff the index is bad; otherwise the datum |
| UnionSetCpp.UnionSet.Find | Set/UnionSet/UnionSet.cpp:47-52 | the root, with the path compressed and every root unchanged |
| UnionSetCpp.UnionSet.LinkRoots | Set/UnionSet/UnionSet.cpp:55-74 | the links become union by rank of the two roots |
| UnionSetCpp.UnionSet.Merge | Set/UnionSet/UnionSet.cpp:55-74 | out_of_range iff an index is bad; otherwise the merge function's result |
| UnionSetCpp.UnionSet.IsConnected | Set/UnionSet/UnionSet.cpp:77-82 | out_of_range iff an index is bad; otherwise true iff connected. Both paths are compressed, so the links change but every root is kept |
| UnionSetCpp.UnionSet.GetSize | Set/UnionSet/UnionSet.cpp:85-87 | the number of elements |
| UnionSetCpp.UnionSet.GetSetCount | Set/UnionSet/UnionSet.cpp:90-98 | the number of sets |
| SeqList.MinIndex | LinearList/SeqList/SeqList.hpp:103-117 | the index of the first least element |
| SeqList.DeleteMinKeeps | LinearList/SeqList/SeqList.hpp:103-117 | deleting the minimum removes one element: the old multiset is the new one plus the minimum |
| SeqList.SeqList.constructor | LinearList/SeqList/SeqList.hpp:16-21 | an empty list with the given capacity |
| SeqList.SeqList.Create | LinearList/SeqList/SeqList.hpp:16-21 | invalid_argument iff the size is not positive |
| SeqList.SeqList.Copy | LinearList/SeqList/SeqList.hpp:29-34 | a fresh array with the same capacity and elements |
| SeqList.SeqList.Assign | LinearList/SeqList/SeqList.hpp:37-49 | same capacity and elements as the other list, in a fresh array unless it was self-assignment |
| SeqList.SeqList.Append | LinearList/SeqList/SeqList.hpp:52-58 | succeeds iff not full, adding the element at the end; otherwise unchanged |
| SeqList.SeqList.Insert | LinearList/SeqList/SeqList.hpp:61-77 | succeeds iff 1 <= index <= length+1 and there is room; the element lands at that 1-based position, the rest shift right |
| SeqList.SeqList.Remove | LinearList/SeqList/SeqList.hpp:80-90 | succeeds iff 1 <= index <= length; returns the element there and closes the gap |
| SeqList.SeqList.Locate | LinearList/SeqList/SeqList.hpp:93-100 | the 1-based position of the first occurrence, 0 if absent |
| SeqList.SeqList.DeleteMin | LinearList/SeqList/SeqList.hpp:103-117 | fails on an empty list. Otherwise it returns the first minimum, and the last element moves into its slot |
| SeqList.SeqList.Reverse | LinearList/SeqList/SeqList.hpp:120-128 | the elements end up in reverse order |
| SeqList.SeqList.Get | LinearList/SeqList/SeqList.hpp:131-137 | succeeds iff the 1-based index is in range, returning that element |
| SeqList.SeqList.Set | LinearList/SeqList/SeqList.hpp:140-146 | succeeds iff the index is in range, replacing just that element |
| SeqList.SeqList.Size | LinearList/SeqList/SeqList.hpp:149-151 | the number of elements |
| SeqList.SeqList.Capacity | LinearList/SeqList/SeqList.hpp:154-156 | the array size |
| SeqList.SeqList.Empty | LinearList/SeqList/SeqList.hpp:159-161 | true iff there are no elements |
| SeqList.SeqList.Full | LinearList/SeqList/SeqList.hpp:164-166 | true iff the length equals the capacity |
| SeqList.SeqList.Clear | LinearList/SeqList/SeqList.hpp:169-171 | the list becomes empty |
| SeqList.OneToFive | LinearList/SeqList/SeqListTest.cpp:9-18 | a list of capacity 10 with 1..5 appended, every append succeeding, holds 1 2 3 4 5 |
| SeqList.BasicExample | LinearList/SeqList/SeqListTest.cpp:6-35 | in 1 2 3 4 5 the value 4 is located at position 4 |
| SingleLinkedList.SingleLinkedList.constructor | LinearList/SingleLinkedList/SingleLinkedList.hpp:23-26 | an empty list |
| SingleLinkedList.SingleLinkedList.FromSeq | LinearList/SingleLinkedList/SingleLinkedList.hpp:29-41 | built by head insertion the list holds the vector reversed, built by appending it holds the vector as is |
| SingleLinkedList.SingleLinkedList.Copy | LinearList/SingleLinkedList/SingleLinkedList.hpp:44-50 | fresh nodes holding the same elements |
| SingleLinkedList.SingleLinkedList.Assign | LinearList/SingleLinkedList/SingleLinkedList.hpp:53-60 | the list holds the other list's elements |
| SingleLinkedList.SingleLinkedList.Clear | LinearList/SingleLinkedList/SingleLinkedList.hpp:69-78 | the list becomes empty |
| SingleLinkedList.SingleLinkedList.InsertHead | LinearList/SingleLinkedList/SingleLinkedList.hpp:81-86 | the element goes in front |
| SingleLinkedList.SingleLinkedList.Append | LinearList/SingleLinkedList/SingleLinkedList.hpp:89-97 | the element goes at the end |
| SingleLinkedList.SingleLinkedList.Insert | LinearList/SingleLinkedList/SingleLinkedList.hpp:100-115 | succeeds iff 1 <= index <= length+1; the element lands at that 1-based position |
| SingleLinkedList.SingleLinkedList.NodeAt | LinearList/SingleLinkedList/SingleLinkedList.hpp:105-108 | k steps along next from the sentinel end at the node holding element k, or at the sentinel when k is 0 |
| SingleLinkedList.SingleLinkedList.Remove | LinearList/SingleLinkedList/SingleLinkedList.hpp:118-134 | succeeds iff 1 <= index <= length; returns the element there and unlinks it |
| SingleLinkedList.SingleLinkedList.Get | LinearList/SingleLinkedList/SingleLinkedList.hpp:137-148 | succeeds iff the index is in range, returning that element |
| SingleLinkedList.SingleLinkedList.Set | LinearList/SingleLinkedList/SingleLinkedList.hpp:151-162 | succeeds iff the index is in range, replacing just that element |
| SingleLinkedList.SingleLinkedList.Locate | LinearList/SingleLinkedList/SingleLinkedList.hpp:165-173 | the 1-based position of the first occurrence, 0 if absent |
| SingleLinkedList.SingleLinkedList.Reverse | LinearList/SingleLinkedList/SingleLinkedList.hpp:176-191 | the same nodes, relinked so that the elements read in reverse order |
| SingleLinkedList.SingleLinkedList.TurnLinks | LinearList/SingleLinkedList/SingleLinkedList.hpp:176-191 | the link-turning loop makes every node point at its former predecessor and returns the old last node |
| SingleLinkedList.SingleLinkedList.Size | LinearList/SingleLinkedList/SingleLinkedList.hpp:194-196 | the number of elements |
| SingleLinkedList.SingleLinkedList.Empty | LinearList/SingleLinkedList/SingleLinkedList.hpp:199-201 | true iff there are no elements |
| LinkedListSim.LinkedListSim.constructor | LinearList/LinkedListSim/LinkedListSim.hpp:29 | an empty list, with slot 1 the first free slot |
| LinkedListSim.LinkedListSim.GetNewNode | LinearList/LinkedListSim/LinkedListSim.hpp:18-25 | runtime_error iff no slot is free, changing nothing; otherwise the next free slot |
| LinkedListSim.LinkedListSim.InsertHead | LinearList/LinkedListSim/LinkedListSim.hpp:32-38 | fails iff no slot is free; otherwise the element goes in front |
| LinkedListSim.LinkedListSim.Append | LinearList/LinkedListSim/LinkedListSim.hpp:41-60 | succeeds iff a slot is free; then the element goes at the end |
| LinkedListSim.LinkedListSim.LastSlot | LinearList/LinkedListSim/LinkedListSim.hpp:52-55 | the walk along next ends at the last slot of the chain |
| LinkedListSim.LinkedListSim.Insert | LinearList/LinkedListSim/LinkedListSim.hpp:63-85 | false for a bad index and runtime_error when full, both changing nothing; otherwise the element lands at that 1-based position and one more slot is handed out |
| LinkedListSim.LinkedListSim.SlotAt | LinearList/LinkedListSim/LinkedListSim.hpp:76-79 | k steps along next from head end at the slot of element k+1 |
| LinkedListSim.LinkedListSim.Remove | LinearList/LinkedListSim/LinkedListSim.hpp:88-110 | succeeds iff the index is in range; returns the element and unlinks it |
| LinkedListSim.LinkedListSim.Get | LinearList/LinkedListSim/LinkedListSim.hpp:113-124 | succeeds iff the index is in range, returning that element |
| LinkedListSim.LinkedListSim.Set | LinearList/LinkedListSim/LinkedListSim.hpp:127-138 | succeeds iff the index is in range, replacing just that element |
| LinkedListSim.LinkedListSim.Locate | LinearList/LinkedListSim/LinkedListSim.hpp:141-152 | the 1-based position of the first occurrence, 0 if absent |
| LinkedListSim.LinkedListSim.Size | LinearList/LinkedListSim/LinkedListSim.hpp:155-157 | the number of elements |
| LinkedListSim.LinkedListSim.Empty | LinearList/LinkedListSim/LinkedListSim.hpp:160-162 | true iff there are no elements |
| LinkedListSim.LinkedListSim.Full | LinearList/LinkedListSim/LinkedListSim.hpp:165-167 | true iff no slot is free |
| LinkedListSim.LinkedListSim.Clear | LinearList/LinkedListSim/LinkedListSim.hpp:170-175 | empty list, every link reset, slot 1 free again |
| LinkedListSim.HeadInsertionExample | LinearList/LinkedListSim/LinkedListSimTest.cpp:57-74 | head insertion of 3, 2, 1 gives the list 1 2 3 |
| LinkedListSim.CapacityExample | LinearList/LinkedListSim/LinkedListSimTest.cpp:130-153 | with five slots the list is full after four appends, and a fifth append returns false |
| LinkedListSim.ClearExample | LinearList/LinkedListSim/LinkedListSimTest.cpp:102-128 | after clear the list can be filled again from slot 1 |
| SeqQueue.Slot | Queue/SeqQueue/SeqQueue.hpp:66-74 | the i-th element sits at (front + i) mod maxLen, always inside the array |
| SeqQueue.RingDistance | Queue/SeqQueue/SeqQueue.hpp:61-63 | the queue length (rear - front + maxLen) mod maxLen lies in [0, maxLen) and is 0 iff front == rear |
| SeqQueue.FullIffDistance | Queue/SeqQueue/SeqQueue.hpp:66-74 | the full test (rear + 1) mod maxLen == front holds iff the length is maxLen - 1 |
| SeqQueue.AdvanceDistance | Queue/SeqQueue/SeqQueue.hpp:66-74 | advancing rear lengthens the queue by one |
| SeqQueue.DropDistance | Queue/SeqQueue/SeqQueue.hpp:77-84 | advancing front shortens the queue by one |
| SeqQueue.SeqQueue.constructor | Queue/SeqQueue/SeqQueue.hpp:14-19 | an empty queue over an array of the given length |
| SeqQueue.SeqQueue.Create | Queue/SeqQueue/SeqQueue.hpp:14-19 | invalid_argument iff the length is not positive |
| SeqQueue.SeqQueue.Copy | Queue/SeqQueue/SeqQueue.hpp:27-34 | a fresh array with the same elements, front and rear |
| SeqQueue.SeqQueue.Assign | Queue/SeqQueue/SeqQueue.hpp:37-53 | the same elements, front and rear as the other queue |
| SeqQueue.SeqQueue.Empty | Queue/SeqQueue/SeqQueue.hpp:56-58 | true iff there are no elements |
| SeqQueue.SeqQueue.Len | Queue/SeqQueue/SeqQueue.hpp:61-63 | the number of elements, at most maxLen - 1 |
| SeqQueue.SeqQueue.EnQueue | Queue/SeqQueue/SeqQueue.hpp:66-74 | succeeds iff fewer than maxLen - 1 elements are queued, adding the element at the back |
| SeqQueue.SeqQueue.DeQueue | Queue/SeqQueue/SeqQueue.hpp:77-84 | succeeds iff not empty, returning and removing the front element |
| SeqQueue.SeqQueue.GetFront | Queue/SeqQueue/SeqQueue.hpp:87-93 | succeeds iff not empty, returning the front element |
| SeqQueue.SeqQueue.Capacity | Queue/SeqQueue/SeqQueue.hpp:96-98 | maxLen - 1, never less than the length |
| SeqQueue.WrapAroundExample | Queue/SeqQueue/SeqQueueTest.cpp:35-52 | with maxLen 5 the fifth enqueue fails. After two dequeues, two more enqueues succeed across the wrap and a third fails. The queue then drains as 3 4 5 6 |
| SeqStack.SeqStack.constructor | Stack/SeqStack/SeqStack.hpp:15-17 | an empty stack of the given capacity, for a size the array allocation accepts |
| SeqStack.SeqStack.Create | Stack/SeqStack/SeqStack.hpp:15-17 | the constructor for any size: bad_array_new_length iff the size is negative, otherwise an empty stack of that capacity |
| SeqStack.SeqStack.Copy | Stack/SeqStack/SeqStack.hpp:25-30 | a fresh array with the same elements |
| SeqStack.SeqStack.Assign | Stack/SeqStack/SeqStack.hpp:33-45 | the same capacity and elements as the other stack |
| SeqStack.SeqStack.Empty | Stack/SeqStack/SeqStack.hpp:48-50 | true iff there are no elements |
| SeqStack.SeqStack.Full | Stack/SeqStack/SeqStack.hpp:53-55 | true iff the stack holds as many elements as its capacity |
| SeqStack.SeqStack.Push | Stack/SeqStack/SeqStack.hpp:58-64 | succeeds iff not full, putting the element on top |
| SeqStack.SeqStack.Pop | Stack/SeqStack/SeqStack.hpp:67-73 | succeeds iff not empty, returning and removing the top element |
| SeqStack.SeqStack.GetTop | Stack/SeqStack/SeqStack.hpp:76-82 | succeeds iff not empty, returning the top element |
| SeqStack.SeqStack.Size | Stack/SeqStack/SeqStack.hpp:85-87 | the number of elements |
| SeqStack.SeqStack.Capacity | Stack/SeqStack/SeqStack.hpp:90-92 | the array size |
| SeqStack.PushPopExample | Stack/SeqStack/SeqStackTest.cpp:12-32 | with capacity 5 a sixth push fails, the pops come out 5 4 3 2 1, and a sixth pop fails |
| LinkedQueue.LinkedQueue.constructor | Queue/LinkedQueue/LinkedQueue.hpp:16-20 | an empty queue whose front and rear are the same head node |
| LinkedQueue.LinkedQueue.IsEmpty | Queue/LinkedQueue/LinkedQueue.hpp:31-33 | true iff front == rear, iff there are no elements |
| LinkedQueue.LinkedQueue.EnQueue | Queue/LinkedQueue/LinkedQueue.hpp:35-41 | the element is linked in at the back through a fresh rear node |
| LinkedQueue.LinkedQueue.DeQueue | Queue/LinkedQueue/LinkedQueue.hpp:43-53 | succeeds iff not empty, returning and removing the front element |
| LinkedQueue.FifoExample | Queue/LinkedQueue/LinkedQueueTest.cpp:5-32 | 1 to 5 come out in the order they went in, after which the queue is empty and a further dequeue fails |
| Trie.WalkSpells | Trie/Trie.hpp:75-84 | following a string's characters from a node reaches the node that spells the node's path plus that string |
| Trie.GrowStep | Trie/Trie.hpp:54-63 | a new child node keeps every node spelling its path and every count equal to the number of insertions of that path |
| Trie.Unreached | Trie/Trie.hpp:75-84 | a string with no node spelling it has never been inserted |
| Trie.Trie.constructor | Trie/Trie.hpp:40-42 | a new trie has inserted nothing |
| Trie.Trie.Insert | Trie/Trie.hpp:54-63 | the bag of inserted strings gains the string once more |
| Trie.Trie.Bump | Trie/Trie.hpp:54-63 | increments the end count of a node: one more insertion of the string it spells |
| Trie.Trie.Child | Trie/Trie.hpp:54-63 | finds or creates the child for the next character, which spells the string's next prefix; the bag is unchanged |
| Trie.Trie.Query | Trie/Trie.hpp:75-84 | how many times the string has been inserted, 0 if never |
| Trie.InsertQueryExample | Trie/Trie/TrieTest.cpp:18-40 | after inserting hello twice and world once the counts are 2 and 1, while the prefixes hel and worl count 0 |
| Trie.EmptyStringExample | Trie/Trie/TrieTest.cpp:46-49 | the empty string counts 0 before it is inserted and 1 after |
| Kmp.BorderOfBorder | String/Kmp.cpp:56-76 | the borders of a prefix shorter than a border are exactly the borders of the whole prefix below that length, which justifies the fallback |
| Kmp.KmpMatcher.constructor | String/Kmp.cpp:11-19 | stores the text and the pattern, with tables of the pattern's length |
| Kmp.KmpMatcher.BuildPartialMatch | String/Kmp.cpp:56-76 | entry i becomes the length of the longest proper border of the pattern's first i+1 characters |
| Kmp.KmpMatcher.BuildNext | String/Kmp.cpp:78-98 | entry i becomes the shifted next value: the border the matcher falls back to at position i, or -1 |
| Kmp.KmpMatcher.Scan | String/Kmp.cpp:21-42 | the scan stops at the first full match, with no occurrence starting earlier, or having seen that the pattern does not occur |
| Kmp.KmpMatcher.MatchWithPM | String/Kmp.cpp:21-42 | as written: -1 iff the pattern does not occur, and otherwise the pattern length minus one rather than the match start |
| Kmp.KmpMatcher.MatchStart | String/Kmp.cpp:21-42 | corrected: -1 iff the pattern does not occur, otherwise the start of its first occurrence |
| Kmp.WrongIndexExample | String/Kmp.cpp:21-42 | for text xxab and pattern ab, the code as written returns 1 but the match starts at 2 |
| Kmp.AaaabTables | String/Kmp.cpp:103-110 | for the demo pattern aaaab the partial-match table is 0 1 2 3 0 and the next table is -1 -1 -1 -1 3 |
| Kmp.DemoExample | String/Kmp.cpp:103-110 | the demo finds no occurrence of aaaab in its text and returns -1 |
| VertexTable.Index | Graphic/MatrixDG/MatrixDG.hpp:281-288 | the index of the first vertex holding the value, -1 iff none does |
| VertexTable.GetPosition | Graphic/MatrixDG/MatrixDG.hpp:281-288 | the scanning loop returns exactly that index |
| GraphCore.Visit | Graphic/MatrixDG/MatrixDG.hpp:291-300 | the recursive DFS from v marks v and extends the output only with vertices it newly marks, each once |
| GraphCore.Dfs | Graphic/MatrixDG/MatrixDG.hpp:91-102 | DFS from every unvisited vertex in index order outputs every vertex exactly once |
| GraphCore.MarkNeighbours | Graphic/MatrixDG/MatrixDG.hpp:134-160 | the neighbour loop marks and enqueues exactly the unmarked neighbours |
| GraphCore.Bfs | Graphic/MatrixDG/MatrixDG.hpp:134-160 | BFS from every unvisited vertex outputs every vertex exactly once |
| GraphCore.DfsNoRecursive | Graphic/MatrixDG/MatrixDG.hpp:105-131 | the stack-based DFS outputs every vertex exactly once |
| GraphCore.TopologicalSort | Graphic/MatrixDG/MatrixDG.hpp:163-203 | Kahn's algorithm succeeds iff the graph has no cycle, iff every vertex is output. The output never repeats a vertex and never lists an edge backwards |
| GraphCore.Stuck | Graphic/MatrixDG/MatrixDG.hpp:163-203 | when the queue empties with vertices left, every remaining vertex has an incoming edge from another remaining one, so the graph has a cycle |
| GraphCore.RankFromOrder | Graphic/MatrixDG/MatrixDG.hpp:163-203 | a complete order with every edge forward ranks the vertices, so the graph is acyclic |
| GraphCore.Cheapest | Graphic/MatrixUDG/MatrixUDG.hpp:175-187 | -1 iff every vertex not yet in the tree weighs INT_MAX or more; otherwise a vertex outside the tree of least weight, below INT_MAX |
| GraphCore.Relax | Graphic/MatrixUDG/MatrixUDG.hpp:199-206 | each neighbour outside the tree whose edge to the new vertex is lighter takes that edge's weight and the new vertex as parent |
| GraphCore.ClosedReach | Graphic/MatrixUDG/MatrixUDG.hpp:161-210 | when no outside vertex has a finite weight, every vertex reachable from the start is in the tree |
| GraphCore.Prim | Graphic/MatrixUDG/MatrixUDG.hpp:161-210 | invalid_argument iff the start is out of range. Otherwise the tree holds each vertex reachable from the start once, the start first. Each vertex hangs from an earlier one by an edge of its recorded weight, and the total is the sum of those weights |
| AdjLists.BuildLists | Graphic/ListDG/ListDG.hpp:38-66 | invalid_argument iff some edge end is not a vertex. Otherwise each edge goes at the front of its source's chain, and also of its target's when undirected |
| AdjLists.OutsIn | Graphic/ListDG/ListDG.hpp:38-66 | v is in u's chain iff some edge joins u to v, or v to u when undirected |
| AdjLists.Contains | Graphic/ListDG/ListDG.hpp:236-247 | the chain walk finds the index iff it is in the chain |
| AdjLists.ListValues | Graphic/ListDG/ListDG.hpp:250-261 | the vertex values along a chain, in chain order |
| AdjLists.Length | Graphic/ListDG/ListDG.hpp:302-313 | the number of nodes in the chain |
| AdjLists.SourcesIn | Graphic/ListDG/ListDG.hpp:264-280 | a vertex is a source of p iff its chain names p |
| AdjLists.SourcesAtMostEdges | Graphic/ListDG/ListDG.hpp:283-299 | the number of distinct sources never exceeds the number of edges into p |
| AdjLists.InValues | Graphic/ListDG/ListDG.hpp:264-280 | the values of every vertex whose chain names p, in index order, each once |
| AdjLists.SourceCount | Graphic/ListDG/ListDG.hpp:283-299 | the number of vertices whose chain names p |
| AdjLists.EdgeCounts | Graphic/ListDG/ListDG.hpp:341-351 | for every vertex, the number of chain nodes naming it, parallel edges included |
| AdjMatrix.FillMatrix | Graphic/MatrixDG/MatrixDG.hpp:21-52 | invalid_argument iff some edge end is not a vertex. Otherwise entry (i, j) is 1 iff an edge joins i to j, or j to i when undirected, and is 0 everywhere else |
| AdjMatrix.CopyMatrix | Graphic/MatrixDG/MatrixDG.hpp:55-77 | the square is copied entry for entry, and the count is the number of non-zero entries, or of those above the diagonal for the undirected class |
| AdjMatrix.ColsIn | Graphic/MatrixDG/MatrixDG.hpp:216-221 | a column is listed for a row iff the entry is non-zero |
| AdjMatrix.InCountRows | Graphic/MatrixDG/MatrixDG.hpp:252-263 | the edges into p are exactly the rows with a non-zero entry in column p |
| AdjMatrix.OutValues | Graphic/MatrixDG/MatrixDG.hpp:224-235 | the values at the non-zero entries of the row, in column order |
| AdjMatrix.InValues | Graphic/MatrixDG/MatrixDG.hpp:238-249 | the values at the non-zero entries of the column, in row order |
| AdjMatrix.RowDegree | Graphic/MatrixDG/MatrixDG.hpp:266-277 | the number of non-zero entries in the row |
| AdjMatrix.ColumnDegree | Graphic/MatrixDG/MatrixDG.hpp:252-263 | the number of non-zero entries in the column, which is the number of edges into the vertex |
| AdjMatrix.ColumnDegrees | Graphic/MatrixDG/MatrixDG.hpp:303-313 | every vertex's in-degree |
| AdjMatrix.AdjOf | Graphic/MatrixDG/MatrixDG.hpp:291-300 | each row's non-zero columns in ascending order, as every row loop visits them |
| ChainForwardStar.ChainForwardStar.constructor | Graphic/ChainForwardStar/ChainForwardStar.hpp:29-32 | n vertices with value 0 and no edges |
| ChainForwardStar.ChainForwardStar.AddEdge | Graphic/ChainForwardStar/ChainForwardStar.hpp:35-54 | out_of_range for a bad end, or runtime_error when the edge array is full, with nothing changed. Otherwise the edge goes at the front of its source's chain, and the reverse edge at the front of the target's chain when undirected |
| ChainForwardStar.ChainForwardStar.Link | Graphic/ChainForwardStar/ChainForwardStar.hpp:45-53 | the successful addEdge: the edge heads its source's chain, and the reverse heads the target's chain when undirected; one arc is stored, or two when undirected |
| ChainForwardStar.ChainForwardStar.SetVertex | Graphic/ChainForwardStar/ChainForwardStar.hpp:57-62 | out_of_range iff the index is bad; otherwise only that vertex value changes |
| ChainForwardStar.ChainForwardStar.GetVertex | Graphic/ChainForwardStar/ChainForwardStar.hpp:65-70 | out_of_range iff the index is bad; otherwise that value |
| ChainForwardStar.ChainForwardStar.GetVertexCount | Graphic/ChainForwardStar/ChainForwardStar.hpp:73-75 | the number of vertices |
| ChainForwardStar.ChainForwardStar.GetEdgeCount | Graphic/ChainForwardStar/ChainForwardStar.hpp:78-80 | the number of stored arcs, halved when undirected, which then is exact because arcs come in pairs |
| ChainForwardStar.ChainForwardStar.HasEdge | Graphic/ChainForwardStar/ChainForwardStar.hpp:83-95 | true iff both ends are in range and the source's chain reaches the target |
| ChainForwardStar.ChainForwardStar.GetWeight | Graphic/ChainForwardStar/ChainForwardStar.hpp:98-110 | the weight of the newest such edge, or INT_MAX when there is none or an end is bad |
| ChainForwardStar.ChainForwardStar.GetOutDegree | Graphic/ChainForwardStar/ChainForwardStar.hpp:113-123 | the length of the vertex's chain, or -1 for a bad vertex |
| ChainForwardStar.ChainForwardStar.GetInDegree | Graphic/ChainForwardStar/ChainForwardStar.hpp:126-140 | the number of arcs into the vertex, parallel ones included, or -1 for a bad vertex |
| ChainForwardStar.ChainForwardStar.Dfs | Graphic/ChainForwardStar/ChainForwardStar.hpp:143-153 | every vertex is output exactly once |
| ChainForwardStar.ChainForwardStar.Bfs | Graphic/ChainForwardStar/ChainForwardStar.hpp:156-182 | every vertex is output exactly once |
| ChainForwardStar.ChainForwardStar.InDegrees | Graphic/ChainForwardStar/ChainForwardStar.hpp:185-232 | for every vertex, the number of arcs into it |
| ChainForwardStar.ChainForwardStar.TopologicalSort | Graphic/ChainForwardStar/ChainForwardStar.hpp:185-232 | runtime_error iff the graph is undirected. Otherwise it succeeds iff the graph is acyclic iff every vertex is output; on success each vertex is output exactly once, and no arc is ever listed backwards |
| ChainForwardStar.NewestFirst | Graphic/ChainForwardStar/ChainForwardStar.hpp:98-110 | right after adding an edge, the first matching arc in the source's chain carries its weight |
| ChainForwardStar.EdgeCountAdd | Graphic/ChainForwardStar/ChainForwardStar.hpp:35-54 | adding an edge stores one arc when directed and two when undirected |
| ChainForwardStar.UndirectedSymmetry | Graphic/ChainForwardStar/ChainForwardStar.hpp:35-54 | in an undirected store v is on u's chain iff u is on v's |
| ChainForwardStar.UndirectedExample | Graphic/ChainForwardStar/ChainForwardStarTest.cpp:52-74 | two undirected edges make 4 arcs, halved to an edge count of 2; the edge 0-1 is seen from both ends |
| MatrixDG.MatrixDG.FromEdges | Graphic/MatrixDG/MatrixDG.hpp:21-52 | runtime_error for too many vertices and invalid_argument for an unknown edge end. Otherwise entry (i, j) is 1 iff an edge runs from i to j, and the edge count is the number of edges given |
| MatrixDG.MatrixDG.FromMatrix | Graphic/MatrixDG/MatrixDG.hpp:55-77 | runtime_error for too many vertices; otherwise the square is copied and the edge count is the number of non-zero entries |
| MatrixDG.MatrixDG.GetPosition | Graphic/MatrixDG/MatrixDG.hpp:281-288 | the first index of the value, -1 iff absent |
| MatrixDG.MatrixDG.HasEdge | Graphic/MatrixDG/MatrixDG.hpp:216-221 | true iff both values are vertices and the entry from the first to the second is non-zero |
| MatrixDG.MatrixDG.GetOutNeighbors | Graphic/MatrixDG/MatrixDG.hpp:224-235 | the out-neighbours' values in index order; empty for an unknown value |
| MatrixDG.MatrixDG.GetInNeighbors | Graphic/MatrixDG/MatrixDG.hpp:238-249 | the in-neighbours' values in index order; empty for an unknown value |
| MatrixDG.MatrixDG.GetOutDegree | Graphic/MatrixDG/MatrixDG.hpp:266-277 | the number of out-neighbours, -1 for an unknown value |
| MatrixDG.MatrixDG.GetInDegree | Graphic/MatrixDG/MatrixDG.hpp:252-263 | the number of edges into the vertex, -1 for an unknown value |
| MatrixDG.MatrixDG.GetVertexNum | Graphic/MatrixDG/MatrixDG.hpp:206-208 | the number of vertices |
| MatrixDG.MatrixDG.GetEdgeNum | Graphic/MatrixDG/MatrixDG.hpp:211-213 | the stored edge count |
| MatrixDG.MatrixDG.Dfs | Graphic/MatrixDG/MatrixDG.hpp:91-102 | every vertex's value is output exactly once |
| MatrixDG.MatrixDG.DfsNoRecursive | Graphic/MatrixDG/MatrixDG.hpp:105-131 | every vertex's value is output exactly once |
| MatrixDG.MatrixDG.Bfs | Graphic/MatrixDG/MatrixDG.hpp:134-160 | every vertex's value is output exactly once |
| MatrixDG.MatrixDG.InDegrees | Graphic/MatrixDG/MatrixDG.hpp:303-313 | every vertex's in-degree |
| MatrixDG.MatrixDG.TopologicalSort | Graphic/MatrixDG/MatrixDG.hpp:163-203 | succeeds iff the graph is acyclic, iff every vertex is output; the output never repeats a vertex or lists an edge backwards |
| MatrixDG.DirectedExample | Graphic/MatrixDG/MatrixDGTest.cpp:15-47 | with the single edge A to B, hasEdge(A, B) holds and hasEdge(B, A) does not |
| ListDG.ListDG.FromEdges | Graphic/ListDG/ListDG.hpp:38-66 | the same errors as the matrix class. Otherwise v is in u's chain iff an edge runs from u to v. The chains hold one node per edge, and the edge count is the number of edges given |
| ListDG.ListDG.GetPosition | Graphic/ListDG/ListDG.hpp:317-324 | the first index of the value, -1 iff absent |
| ListDG.ListDG.HasEdge | Graphic/ListDG/ListDG.hpp:236-247 | true iff both values are vertices and the first's chain names the second |
| ListDG.ListDG.GetOutNeighbors | Graphic/ListDG/ListDG.hpp:250-261 | the chain's values, newest edge first, repeats kept |
| ListDG.ListDG.GetInNeighbors | Graphic/ListDG/ListDG.hpp:264-280 | every vertex whose chain names this one, once each, in index order |
| ListDG.ListDG.GetOutDegree | Graphic/ListDG/ListDG.hpp:302-313 | the chain length, parallel edges included, -1 for an unknown value |
| ListDG.ListDG.GetInDegree | Graphic/ListDG/ListDG.hpp:283-299 | the number of distinct vertices with an edge into this one, never more than the edges counted by getInDegrees |
| ListDG.ListDG.GetVertexNum | Graphic/ListDG/ListDG.hpp:226-228 | the number of vertices |
| ListDG.ListDG.GetEdgeNum | Graphic/ListDG/ListDG.hpp:231-233 | the stored edge count |
| ListDG.ListDG.InDegrees | Graphic/ListDG/ListDG.hpp:341-351 | for every vertex, the number of chain nodes naming it |
| ListDG.ListDG.Dfs | Graphic/ListDG/ListDG.hpp:99-110 | every vertex's value is output exactly once |
| ListDG.ListDG.DfsNoRecursive | Graphic/ListDG/ListDG.hpp:113-149 | every vertex's value is output exactly once |
| ListDG.ListDG.Bfs | Graphic/ListDG/ListDG.hpp:152-180 | every vertex's value is output exactly once |
| ListDG.ListDG.TopologicalSort | Graphic/ListDG/ListDG.hpp:183-223 | succeeds iff the graph is acyclic, iff every vertex is output; no repeats and no backward edge |
| ListDG.ParallelExample | Graphic/ListDG/ListDG.hpp:283-299 | with A to B given twice, A's out-degree is 2 and getInDegrees counts 2 edges into B, but getInDegree(B) is 1 |
| ListUDG.WeightSumUnit | Graphic/ListUDG/ListUDG.hpp:187-238 | with the start weighing 0 and every other tree vertex 1, the total is one less than the number of vertices |
| ListUDG.ListUDG.FromEdges | Graphic/ListUDG/ListUDG.hpp:38-71 | the same errors. Otherwise v is in u's chain iff an edge joins them in either direction, so adjacency is symmetric. The chains hold two nodes per edge |
| ListUDG.ListUDG.GetPosition | Graphic/ListUDG/ListUDG.hpp:294-301 | the first index of the value, -1 iff absent |
| ListUDG.ListUDG.HasEdge | Graphic/ListUDG/ListUDG.hpp:251-262 | true iff both values are vertices and the first's chain names the second |
| ListUDG.ListUDG.GetNeighbors | Graphic/ListUDG/ListUDG.hpp:265-276 | the chain's values, newest edge first |
| ListUDG.ListUDG.GetDegree | Graphic/ListUDG/ListUDG.hpp:279-290 | the chain length, -1 for an unknown value |
| ListUDG.ListUDG.GetVertexNum | Graphic/ListUDG/ListUDG.hpp:241-243 | the number of vertices |
| ListUDG.ListUDG.GetEdgeNum | Graphic/ListUDG/ListUDG.hpp:246-248 | the stored edge count |
| ListUDG.ListUDG.Dfs | Graphic/ListUDG/ListUDG.hpp:104-114 | every vertex's value is output exactly once |
| ListUDG.ListUDG.DfsNoRecursive | Graphic/ListUDG/ListUDG.hpp:117-153 | every vertex's value is output exactly once |
| ListUDG.ListUDG.Bfs | Graphic/ListUDG/ListUDG.hpp:156-184 | every vertex's value is output exactly once |
| ListUDG.ListUDG.Prim | Graphic/ListUDG/ListUDG.hpp:187-238 | invalid_argument iff the start is out of range. Otherwise a spanning tree of the start's component in which every edge weighs 1, so the total is its vertex count minus one |
| ListUDG.UndirectedExample | Graphic/ListUDG/ListUDGTest.cpp:15-46 | one edge is seen from both ends, and the edge count is 1 |
| MatrixUDG.ArcMatrixHasArc | Graphic/MatrixUDG/MatrixUDG.hpp:199-206 | Prim sees an edge of weight w between u and v iff the matrix entry is w and non-zero |
| MatrixUDG.MatrixUDG.FromEdges | Graphic/MatrixUDG/MatrixUDG.hpp:20-52 | the same errors. Otherwise entry (i, j) is 1 iff an edge joins i and j in either direction, so the matrix is symmetric |
| MatrixUDG.MatrixUDG.FromMatrix | Graphic/MatrixUDG/MatrixUDG.hpp:55-77 | the square is copied and the edge count is the number of non-zero entries above the diagonal |
| MatrixUDG.MatrixUDG.GetPosition | Graphic/MatrixUDG/MatrixUDG.hpp:246-253 | the first index of the value, -1 iff absent |
| MatrixUDG.MatrixUDG.HasEdge | Graphic/MatrixUDG/MatrixUDG.hpp:223-228 | true iff both values are vertices and their entry is non-zero |
| MatrixUDG.MatrixUDG.GetNeighbors | Graphic/MatrixUDG/MatrixUDG.hpp:231-242 | the neighbours' values in index order |
| MatrixUDG.MatrixUDG.GetVertexNum | Graphic/MatrixUDG/MatrixUDG.hpp:213-215 | the number of vertices |
| MatrixUDG.MatrixUDG.GetEdgeNum | Graphic/MatrixUDG/MatrixUDG.hpp:218-220 | the stored edge count |
| MatrixUDG.MatrixUDG.Dfs | Graphic/MatrixUDG/MatrixUDG.hpp:91-100 | every vertex's value is output exactly once |
| MatrixUDG.MatrixUDG.DfsNoRecursive | Graphic/MatrixUDG/MatrixUDG.hpp:103-129 | every vertex's value is output exactly once |
| MatrixUDG.MatrixUDG.Bfs | Graphic/MatrixUDG/MatrixUDG.hpp:132-158 | every vertex's value is output exactly once |
| MatrixUDG.MatrixUDG.Prim | Graphic/MatrixUDG/MatrixUDG.hpp:161-210 | invalid_argument iff the start is out of range. Otherwise a spanning tree of the start's component whose edges are non-zero matrix entries, with their weights summed in the total |
| MatrixUDG.UndirectedExample | Graphic/MatrixUDG/MatrixUDG.hpp:223-228 | one edge is seen from both ends, and the edge count is 1 |

## Left out

- Printing. The show, print and traversal functions write to standard output, so they return the sequence they would print instead. The demo main functions and the trie's CJK and very long test strings are left out.
- Destructors and the manual freeing of nodes. Memory is not modelled; nodes a clear drops become unreachable.
- Generic element types. Every template is instantiated at `int`, or at `char` for the character trees. The string and double instantiations in the unit tests behave the same for the properties stated.
- The older duplicates that the newer headers replace. These are BinTree/BST.cpp, Graphic/ListGD.cpp, Graphic/ListUDG.cpp, Graphic/MatrixDG.cpp, Graphic/MatrixUDG.cpp, LinearList/LinkedListSimulatation.cpp, LinearList/SequentialList.cpp, LinearList/SingleLinkedList.cpp, Queue/LinkedQueue.cpp, Queue/SeqQueue/SeqQueue.cpp, Set/UnionSet.cpp, Set/tempCodeRunnerFile.cpp and Stack/SeqStack.cpp. They are not part of this model, and neither are Search/BinarySearch.cpp, Sort/ShellSelectSort.cpp or Stack/NifixToRPN.cpp.
- BinTree.cpp `PostOrder_NoRecursive`. Its second loop never pops on the right path, so it does not terminate on some trees and has no meaning to state.
- BinTree.cpp `Parent`. It recurses into a field `right` that the node type does not have (line 320), so it has no behaviour to state, and nothing calls it.
- BinTree.cpp `equal` and the `operator==` that calls it (line 58). The right-subtree test compares b's right child with itself (line 327), so a's right subtree is never looked at.
- BinTree.cpp `InOrderLast` and `InOrderPrior`. InOrderLast walks the right links of current's right child, and InOrderPrior returns current itself when it has a left thread, so neither finds the in-order predecessor. The predecessor threads themselves are stated by ThreadedTree.PrevIdx.
- BinTree.cpp `testTree`. Its demo table lacks the final ')', and the reader accepts it because end of input stops the loop. The model reads any table the same way, but the demo itself is left out.
- Fixed `MAX_SIZE` vertex arrays and heap-allocated edge chains are sequences. Running past `MAX_SIZE` is the constructors' runtime_error, and the chains keep their newest-first order.
- Negative vertex or edge counts passed to the graph constructors. The model's constructors take the vertex and edge sequences themselves, so these inputs cannot arise. In the C++, MatrixDG, ListDG, ListUDG and MatrixUDG compare vNum with the size_t MAX_SIZE (Graphic/MatrixDG/MatrixDG.hpp:22 and :56, Graphic/ListDG/ListDG.hpp:39, Graphic/ListUDG/ListUDG.hpp:39, Graphic/MatrixUDG/MatrixUDG.hpp:21 and :56). A negative vNum converts to a huge unsigned value, so the constructor throws runtime_error "Vertex number exceeds maximum size" and builds nothing. A negative eNum skips the edge loop, and getEdgeNum then returns that negative number. ChainForwardStar's `vertices(vertexNum)` (Graphic/ChainForwardStar/ChainForwardStar.hpp:30) asks for an oversized vector and throws std::length_error.
- 32-bit overflow of Prim's `totalWeight`, of `Cal`'s sum and of the heaps' indices. Integers are unbounded. Heap.HeapifyStart does model the `size_t` subtraction below two elements.
- AVL.hpp removes a node with one child by copying the child over it with `*node = *temp`. The model replaces the subtree by the child's value, which is the same tree.
- GenTable.Step, GenTable.CreateBinTree and ThreadedTree.BinTree.CreateBinTree return InvalidArgument on a malformed table. The C++ throws nothing: '(' before any node pushes an uninitialised pointer (BinTree/BinTree.cpp:91), ')' pops an empty stack (:93), and a second node outside every '(' reads the top of an empty stack (:105, :110). All three are undefined behaviour, and the model turns them into an error.
- SeqStack.SeqStack.constructor requires a non-negative size, because a Dafny array cannot have a negative length. The negative size, on which `new T[size]` throws std::bad_array_new_length (Stack/SeqStack/SeqStack.hpp:16), is modelled by SeqStack.SeqStack.Create, which returns that error.
- Kmp.KmpMatcher.constructor requires a non-empty pattern. With an empty pattern the C++ writes past `new int[0]` (String/Kmp.cpp:58, :81), and `p.length() - 1` at :82 wraps around. The model leaves that case out.
- ThreadedTree.BinTree.PreOrderNoRecursive1 requires a non-empty tree. On an empty tree the C++ dereferences a null pointer (BinTree/BinTree.cpp:192). The model leaves that case out.
- ThreadedTree.BinTree.LevelOrder requires a non-empty tree. On an empty tree the C++ dereferences a null front of the queue (BinTree/BinTree.cpp:269). The model leaves that case out.
- HeapSim.HeapSim.Push, Remove and Modify require a consistent heap. The C++ has no such guard, but only its own operations change the arrays.
- HeapSim.HeapSim.Push requires that the key has no value and that a slot is left. push checks neither (lines 82-85): pushing a live key again orphans its old slot, and pushing past the capacity writes outside the vectors.
- HeapSim.HeapSim.Remove requires that a key with a non-zero slot entry is live. The source also accepts a key it has already removed, whose entry is stale: the count then falls below the live values, down to -1 (see Findings). That case is not modelled by the class.
- HeapSim.HeapSim.Modify requires the same as Remove. On a removed key the source writes the value into a slot past the live ones; that case is not modelled by the class.
- ThreadedTree.BinTree.CreateInthread requires the node store to be the compact pre-order layout that CreateBinTree produces from a printed table. A store built some other way is not modelled.
- LinkedListSim. The header keeps slot 0 as the head, so a list of capacity N holds N-1 elements, and a full append returns false. The repository's unit test has all N appends succeed and a throw follows. The model follows the header.
- GraphCore.Dfs, GraphCore.Bfs and GraphCore.DfsNoRecursive state that every vertex is output exactly once, not the exact visiting order.
- MatrixDG.MatrixDG.Dfs, MatrixDG.MatrixDG.DfsNoRecursive, MatrixDG.MatrixDG.Bfs state each vertex once, not the exact order (as GraphCore.Dfs).
- ListDG.ListDG.Dfs, ListDG.ListDG.DfsNoRecursive, ListDG.ListDG.Bfs state each vertex once, not the exact order.
- ListUDG.ListUDG.Dfs, ListUDG.ListUDG.DfsNoRecursive, ListUDG.ListUDG.Bfs state each vertex once, not the exact order.
- MatrixUDG.MatrixUDG.Dfs, MatrixUDG.MatrixUDG.DfsNoRecursive, MatrixUDG.MatrixUDG.Bfs state each vertex once, not the exact order.
- ChainForwardStar.ChainForwardStar.Dfs, ChainForwardStar.ChainForwardStar.Bfs state each vertex once, not the exact order.
- GraphCore.Prim proves a spanning tree of the start's component with its weight sum, but not that the tree has least total weight.
- ListUDG.ListUDG.Prim: every edge weighs 1, so every spanning tree is minimal. Least weight itself is not proved, as for GraphCore.Prim.
- MatrixUDG.MatrixUDG.Prim does not prove least total weight, as for GraphCore.Prim.

## Findings

| source | as written | input that shows it | evidently intended | confidence | as-written member | corrected member |
|---|---|---|---|---|---|---|
| String/Kmp.cpp:21-42 | on a full match `match_withPM` returns `pos - 1`, i.e. the pattern length minus one | text "xxab", pattern "ab": returns 1 | the index where the first occurrence starts, here 2 | not executed | Kmp.WrongIndexExample | Kmp.KmpMatcher.MatchStart |
| Heap/HeapSim/HeapSim.hpp:91-101 | `remove(k)` never resets `ph[k]`, so the key still passes the liveness guard | capacity 3: push(1, 5), then remove(1) twice; the count becomes -1 | a removed key is no longer live, so a second remove(k) is refused | not executed | HeapSim.RemoveTwiceAsWritten | HeapSim.RemoveTwiceRefused |
