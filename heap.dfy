/**
 * The binary heap of Heap/Heap/Heap.hpp: a vector kept in heap order under a
 * comparator, with sift-up, sift-down, bottom-up heapify, push, pop and top.
 * The comparator is a parameter: `<` gives a min-heap, `>` a max-heap. The
 * element type is fixed to int.
 *
 * Each private step (sift_up, sift_down, the heapify loop, pop's
 * rearrangement) is a method proved equal to a function on sequences; the
 * heap order and the multiset of elements are proved about those functions.
 */
module Heap {
  import opened Errors

  /** A comparator: Precedes(comp, a, b) says that a belongs above b. */
  type Compare = (int, int) -> bool

  /** comp(a, b): a sorts before b, so a belongs nearer the root. */
  predicate Precedes(comp: Compare, a: int, b: int)
  {
    comp(a, b)
  }

  /** What the comparator must be for the heap to work: a strict weak order. */
  ghost predicate StrictWeakOrder(comp: Compare)
  {
    (forall a :: !Precedes(comp, a, a)) &&
    (forall a, b, c | Precedes(comp, a, b) && Precedes(comp, b, c) :: Precedes(comp, a, c)) &&
    (forall a, b, c | !Precedes(comp, a, b) && !Precedes(comp, b, c) :: !Precedes(comp, a, c))
  }

  /** std::less<int>, the default comparator: a min-heap. */
  const Less: Compare := (a: int, b: int) => a < b

  /** std::greater<int>: a max-heap. */
  const Greater: Compare := (a: int, b: int) => a > b

  /** The message of the runtime_error thrown by top and pop on an empty heap. */
  const EmptyHeap := "堆为空"

  // ----- the implicit tree over the vector -----

  /** parent(i); only ever asked for i > 0. */
  function Parent(i: nat): (p: nat)
    requires i > 0
    ensures p < i
    ensures i == 2 * p + 1 || i == 2 * p + 2
  {
    (i - 1) / 2
  }

  /** left_child(i): the left child's parent is i. */
  function LeftChild(i: nat): (c: nat)
    ensures c > i && Parent(c) == i
  {
    2 * i + 1
  }

  /** right_child(i): the right child's parent is i, and it follows the left child. */
  function RightChild(i: nat): (c: nat)
    ensures c > i && Parent(c) == i && c == LeftChild(i) + 1
  {
    2 * i + 2
  }

  /** Every element whose parent sits at index k or later does not belong above that parent. */
  ghost predicate HeapFrom(comp: Compare, s: seq<int>, k: nat)
  {
    forall j | 0 < j < |s| && k <= Parent(j) :: !Precedes(comp, s[j], s[Parent(j)])
  }

  /** Heap order: no element belongs above its parent. */
  ghost predicate IsHeap(comp: Compare, s: seq<int>)
  {
    HeapFrom(comp, s, 0)
  }

  /** std::swap of two vector slots. */
  function Swap(s: seq<int>, i: nat, j: nat): (r: seq<int>)
    requires i < |s| && j < |s|
  {
    s[i := s[j]][j := s[i]]
  }

  /** In a heap the root belongs above no later element: top is a least element. */
  lemma {:induction false} RootFirst(comp: Compare, s: seq<int>, j: nat)
    requires StrictWeakOrder(comp) && IsHeap(comp, s) && j < |s|
    ensures !Precedes(comp, s[j], s[0])
    decreases j
  {
    if j > 0 {
      RootFirst(comp, s, Parent(j));
    }
  }

  // ----- sift_down -----

  /**
   * The index sift_down swaps with: i, unless a child sorts strictly before
   * the element at i; then the child that sorts first, the right one only if
   * it sorts strictly before the left one.
   */
  function MinOfFamily(comp: Compare, s: seq<int>, i: nat): (m: nat)
    requires i < |s|
    ensures m < |s| && (m == i || m == LeftChild(i) || m == RightChild(i))
  {
    var l, r := LeftChild(i), RightChild(i);
    var m1 := if l < |s| && Precedes(comp, s[l], s[i]) then l else i;
    if r < |s| && Precedes(comp, s[r], s[m1]) then r else m1
  }

  /**
   * Under a strict weak order nothing in the family of i sorts before the
   * element MinOfFamily picks, and it sorts strictly before the element at i
   * when it is not i itself.
   */
  lemma FamilyLeast(comp: Compare, s: seq<int>, i: nat)
    requires StrictWeakOrder(comp) && i < |s|
    ensures var m := MinOfFamily(comp, s, i);
      !Precedes(comp, s[i], s[m]) &&
      (LeftChild(i) < |s| ==> !Precedes(comp, s[LeftChild(i)], s[m])) &&
      (RightChild(i) < |s| ==> !Precedes(comp, s[RightChild(i)], s[m])) &&
      (m != i ==> Precedes(comp, s[m], s[i]))
  {
  }

  /** sift_down(i) on a vector: swap the element with its highest child until it is in place. */
  function SiftDownF(comp: Compare, s: seq<int>, i: nat): (r: seq<int>)
    requires i < |s|
    ensures |r| == |s|
    decreases |s| - i
  {
    var m := MinOfFamily(comp, s, i);
    if m == i then s else SiftDownF(comp, Swap(s, i, m), m)
  }

  /** sift_down only rearranges the vector. */
  lemma {:induction false} SiftDownPermutes(comp: Compare, s: seq<int>, i: nat)
    requires i < |s|
    ensures multiset(SiftDownF(comp, s, i)) == multiset(s)
    decreases |s| - i
  {
    var m := MinOfFamily(comp, s, i);
    if m != i {
      SiftDownPermutes(comp, Swap(s, i, m), m);
    }
  }

  /**
   * What sift_down(i) needs to restore heap order from index k on: order
   * holds below every parent from k on except i, and when i's own parent
   * counts, i's children do not belong above that parent.
   */
  ghost predicate SiftDownReady(comp: Compare, s: seq<int>, i: nat, k: nat)
  {
    k <= i < |s| &&
    (forall j | 0 < j < |s| && k <= Parent(j) && Parent(j) != i :: !Precedes(comp, s[j], s[Parent(j)])) &&
    (0 < i && k <= Parent(i) ==> forall j | 0 < j < |s| && Parent(j) == i :: !Precedes(comp, s[j], s[Parent(i)]))
  }

  /** sift_down restores heap order from k on. */
  lemma {:induction false} SiftDownRestores(comp: Compare, s: seq<int>, i: nat, k: nat)
    requires StrictWeakOrder(comp) && SiftDownReady(comp, s, i, k)
    ensures HeapFrom(comp, SiftDownF(comp, s, i), k)
    decreases |s| - i
  {
    var m := MinOfFamily(comp, s, i);
    FamilyLeast(comp, s, i);
    if m != i {
      var t := Swap(s, i, m);
      forall j | 0 < j < |t| && k <= Parent(j) && Parent(j) != m
        ensures !Precedes(comp, t[j], t[Parent(j)])
      {
        if Parent(j) == i {
          assert j == LeftChild(i) || j == RightChild(i);
        } else if j == i {
          assert Parent(m) == i;
        }
      }
      forall j | 0 < j < |t| && Parent(j) == m
        ensures !Precedes(comp, t[j], t[Parent(m)])
      {
        assert Parent(m) == i && j != i && j != m;
      }
      SiftDownRestores(comp, t, m, k);
    } else {
      forall j | 0 < j < |s| && k <= Parent(j)
        ensures !Precedes(comp, s[j], s[Parent(j)])
      {
        if Parent(j) == i {
          assert j == LeftChild(i) || j == RightChild(i);
        }
      }
    }
  }

  // ----- sift_up -----

  /** sift_up(i) on a vector: swap the element with its parent while it belongs above it. */
  function SiftUpF(comp: Compare, s: seq<int>, i: nat): (r: seq<int>)
    requires i < |s|
    ensures |r| == |s|
    decreases i
  {
    if i > 0 && Precedes(comp, s[i], s[Parent(i)]) then SiftUpF(comp, Swap(s, i, Parent(i)), Parent(i)) else s
  }

  /** sift_up only rearranges the vector. */
  lemma {:induction false} SiftUpPermutes(comp: Compare, s: seq<int>, i: nat)
    requires i < |s|
    ensures multiset(SiftUpF(comp, s, i)) == multiset(s)
    decreases i
  {
    if i > 0 && Precedes(comp, s[i], s[Parent(i)]) {
      SiftUpPermutes(comp, Swap(s, i, Parent(i)), Parent(i));
    }
  }

  /**
   * What sift_up(i) needs to restore heap order: order holds for every
   * element but the one at i, and i's children do not belong above i's parent.
   */
  ghost predicate SiftUpReady(comp: Compare, s: seq<int>, i: nat)
  {
    i < |s| &&
    (forall j | 0 < j < |s| && j != i :: !Precedes(comp, s[j], s[Parent(j)])) &&
    (0 < i ==> forall j | 0 < j < |s| && Parent(j) == i :: !Precedes(comp, s[j], s[Parent(i)]))
  }

  /** sift_up restores heap order. */
  lemma {:induction false} SiftUpRestores(comp: Compare, s: seq<int>, i: nat)
    requires StrictWeakOrder(comp) && SiftUpReady(comp, s, i)
    ensures IsHeap(comp, SiftUpF(comp, s, i))
    decreases i
  {
    if i > 0 && Precedes(comp, s[i], s[Parent(i)]) {
      var p := Parent(i);
      var t := Swap(s, i, p);
      forall j | 0 < j < |t| && j != p
        ensures !Precedes(comp, t[j], t[Parent(j)])
      {
        if j == i {
        } else if Parent(j) == i {
          assert !Precedes(comp, s[j], s[p]);
        } else if Parent(j) == p {
          assert !Precedes(comp, s[j], s[p]);
        } else {
          assert Parent(j) != i && Parent(j) != p;
        }
      }
      if p > 0 {
        forall j | 0 < j < |t| && Parent(j) == p
          ensures !Precedes(comp, t[j], t[Parent(p)])
        {
          assert Parent(p) != i && Parent(p) != p;
          assert !Precedes(comp, s[p], s[Parent(p)]);
          if j != i {
            assert !Precedes(comp, s[j], s[p]);
          }
        }
      }
      SiftUpRestores(comp, t, p);
    }
  }

  // ----- the public operations on sequences -----

  /** push(value) on a vector. */
  function PushF(comp: Compare, s: seq<int>, value: int): (r: seq<int>)
  {
    SiftUpF(comp, s + [value], |s|)
  }

  /** push keeps heap order and adds exactly the pushed value. */
  lemma PushKeepsHeap(comp: Compare, s: seq<int>, value: int)
    requires StrictWeakOrder(comp) && IsHeap(comp, s)
    ensures IsHeap(comp, PushF(comp, s, value))
    ensures multiset(PushF(comp, s, value)) == multiset(s) + multiset{value}
    ensures |PushF(comp, s, value)| == |s| + 1
  {
    var t := s + [value];
    assert forall j | 0 < j < |t| && j != |s| :: t[j] == s[j] && t[Parent(j)] == s[Parent(j)];
    SiftUpRestores(comp, t, |s|);
    SiftUpPermutes(comp, t, |s|);
  }

  /** pop on a non-empty vector: the last element replaces the root and sinks. */
  function PopF(comp: Compare, s: seq<int>): (r: seq<int>)
    requires |s| > 0
  {
    var t := s[0 := s[|s| - 1]][..|s| - 1];
    if t == [] then t else SiftDownF(comp, t, 0)
  }

  /** pop keeps heap order and removes exactly the old top. */
  lemma PopKeepsHeap(comp: Compare, s: seq<int>)
    requires StrictWeakOrder(comp) && IsHeap(comp, s) && |s| > 0
    ensures IsHeap(comp, PopF(comp, s))
    ensures multiset(PopF(comp, s)) == multiset(s) - multiset{s[0]}
    ensures |PopF(comp, s)| == |s| - 1
  {
    var n := |s|;
    var t := s[0 := s[n - 1]][..n - 1];
    if n == 1 {
      assert t == [];
    } else {
      assert s == s[..n - 1] + [s[n - 1]];
      assert t == s[..n - 1][0 := s[n - 1]];
      assert multiset(t) == multiset(s[..n - 1]) - multiset{s[0]} + multiset{s[n - 1]};
      assert forall j | 0 < j < n - 1 && Parent(j) > 0 :: t[j] == s[j] && t[Parent(j)] == s[Parent(j)];
      SiftDownRestores(comp, t, 0, 0);
      SiftDownPermutes(comp, t, 0);
    }
  }

  // ----- the heapify constructor -----

  /** One more than the largest size_t value. */
  const SizeTModulus := 0x1_0000_0000_0000_0000

  /**
   * The first index of the heapify loop: (size - 2) / 2 computed in size_t,
   * where it wraps below zero, then converted to a 32-bit int, which keeps
   * the low 32 bits. A vector of fewer than two elements wraps to -1, so the
   * loop does not run.
   */
  function HeapifyStart(n: nat): (i: int)
    requires n < SizeTModulus
    ensures n < 2 ==> i == -1
    ensures 2 <= n < 0x1_0000_0000 ==> i == (n - 2) / 2 && 0 <= i < n
  {
    var u := ((n - 2) % SizeTModulus) / 2;
    var w := u % 0x1_0000_0000;
    if w < 0x8000_0000 then w else w - 0x1_0000_0000
  }

  /** The heapify loop on a vector: sift_down(i) for i from start down to 0. */
  function HeapifyF(comp: Compare, s: seq<int>, i: int): (r: seq<int>)
    requires i < |s|
    ensures |r| == |s|
    decreases i + 1
  {
    if i < 0 then s else HeapifyF(comp, SiftDownF(comp, s, i), i - 1)
  }

  /** Heapify from i down orders a vector whose parents after i are already in order. */
  lemma {:induction false} HeapifyOrders(comp: Compare, s: seq<int>, i: int)
    requires StrictWeakOrder(comp) && -1 <= i < |s| && HeapFrom(comp, s, i + 1)
    ensures IsHeap(comp, HeapifyF(comp, s, i))
    decreases i + 1
  {
    if i >= 0 {
      SiftDownRestores(comp, s, i, i);
      HeapifyOrders(comp, SiftDownF(comp, s, i), i - 1);
    }
  }

  /** Heapify only rearranges the vector. */
  lemma {:induction false} HeapifyPermutes(comp: Compare, s: seq<int>, i: int)
    requires i < |s|
    ensures multiset(HeapifyF(comp, s, i)) == multiset(s)
    decreases i + 1
  {
    if i >= 0 {
      SiftDownPermutes(comp, s, i);
      HeapifyPermutes(comp, SiftDownF(comp, s, i), i - 1);
    }
  }

  /** The heapify constructor turns any vector of fewer than 2^32 elements into a heap of the same elements. */
  lemma HeapifyBuildsHeap(comp: Compare, s: seq<int>)
    requires StrictWeakOrder(comp) && |s| < 0x1_0000_0000
    ensures IsHeap(comp, HeapifyF(comp, s, HeapifyStart(|s|)))
    ensures multiset(HeapifyF(comp, s, HeapifyStart(|s|))) == multiset(s)
  {
    var i := HeapifyStart(|s|);
    forall j | 0 < j < |s| && i + 1 <= Parent(j)
      ensures false
    {
    }
    HeapifyOrders(comp, s, i);
    HeapifyPermutes(comp, s, i);
  }

  // ----- the examples of the heap's tests -----

  /** One sift_down step: the element at i trades places with c. */
  lemma SinkStep(comp: Compare, s: seq<int>, i: nat, c: nat, t: seq<int>)
    requires i < |s| && MinOfFamily(comp, s, i) == c && c != i && Swap(s, i, c) == t
    ensures SiftDownF(comp, s, i) == SiftDownF(comp, t, c)
  {
  }

  /** The last sift_down step: the element at i stays. */
  lemma SinkStop(comp: Compare, s: seq<int>, i: nat)
    requires i < |s| && MinOfFamily(comp, s, i) == i
    ensures SiftDownF(comp, s, i) == s
  {
  }

  /** One sift_up step: the element at i trades places with its parent. */
  lemma RiseStep(comp: Compare, s: seq<int>, i: nat, t: seq<int>)
    requires 0 < i < |s| && Precedes(comp, s[i], s[Parent(i)]) && Swap(s, i, Parent(i)) == t
    ensures SiftUpF(comp, s, i) == SiftUpF(comp, t, Parent(i))
  {
  }

  /** The last sift_up step: the element at i stays. */
  lemma RiseStop(comp: Compare, s: seq<int>, i: nat)
    requires i < |s| && (i == 0 || !Precedes(comp, s[i], s[Parent(i)]))
    ensures SiftUpF(comp, s, i) == s
  {
  }

  /** The heapify example: {4, 1, 3, 2, 16, 9, 10, 14, 8, 7} becomes {1, 2, 3, 4, 7, 9, 10, 14, 8, 16}. */
  lemma HeapifyExample()
    ensures HeapifyStart(10) == 4
    ensures HeapifyF(Less, [4, 1, 3, 2, 16, 9, 10, 14, 8, 7], 4) == [1, 2, 3, 4, 7, 9, 10, 14, 8, 16]
  {
    var s0 := [4, 1, 3, 2, 16, 9, 10, 14, 8, 7];
    var s1 := [4, 1, 3, 2, 7, 9, 10, 14, 8, 16];
    var s3 := [1, 2, 3, 4, 7, 9, 10, 14, 8, 16];
    HeapifyExampleFirst();
    HeapifyExampleMiddle();
    HeapifyExampleRoot();
    assert HeapifyF(Less, s1, 0) == HeapifyF(Less, s3, -1) == s3;
    assert HeapifyF(Less, s1, 2) == HeapifyF(Less, s1, 0);
    assert HeapifyF(Less, s0, 4) == HeapifyF(Less, s1, 2);
  }

  /** The first step of the heapify example: 16 sinks below 7. */
  lemma HeapifyExampleFirst()
    ensures SiftDownF(Less, [4, 1, 3, 2, 16, 9, 10, 14, 8, 7], 4) == [4, 1, 3, 2, 7, 9, 10, 14, 8, 16]
  {
    var s1 := [4, 1, 3, 2, 7, 9, 10, 14, 8, 16];
    SinkStep(Less, [4, 1, 3, 2, 16, 9, 10, 14, 8, 7], 4, 9, s1);
    SinkStop(Less, s1, 9);
  }

  /** The next three steps of the heapify example: 2, 3 and 1 stay where they are. */
  lemma HeapifyExampleMiddle()
    ensures SiftDownF(Less, [4, 1, 3, 2, 7, 9, 10, 14, 8, 16], 3) == [4, 1, 3, 2, 7, 9, 10, 14, 8, 16]
    ensures SiftDownF(Less, [4, 1, 3, 2, 7, 9, 10, 14, 8, 16], 2) == [4, 1, 3, 2, 7, 9, 10, 14, 8, 16]
    ensures SiftDownF(Less, [4, 1, 3, 2, 7, 9, 10, 14, 8, 16], 1) == [4, 1, 3, 2, 7, 9, 10, 14, 8, 16]
  {
    var s1 := [4, 1, 3, 2, 7, 9, 10, 14, 8, 16];
    SinkStop(Less, s1, 3);
    SinkStop(Less, s1, 2);
    SinkStop(Less, s1, 1);
  }

  /** The last step of the heapify example: 4 sinks past 1 and then past 2. */
  lemma HeapifyExampleRoot()
    ensures SiftDownF(Less, [4, 1, 3, 2, 7, 9, 10, 14, 8, 16], 0) == [1, 2, 3, 4, 7, 9, 10, 14, 8, 16]
  {
    var s1 := [4, 1, 3, 2, 7, 9, 10, 14, 8, 16];
    var s2 := [1, 4, 3, 2, 7, 9, 10, 14, 8, 16];
    RootFamily();
    HeapifyExampleSink();
    SinkStep(Less, s1, 0, 1, s2);
  }

  /** The first choice of that step: 1 rises over 4. */
  lemma RootFamily()
    ensures MinOfFamily(Less, [4, 1, 3, 2, 7, 9, 10, 14, 8, 16], 0) == 1
    ensures Swap([4, 1, 3, 2, 7, 9, 10, 14, 8, 16], 0, 1) == [1, 4, 3, 2, 7, 9, 10, 14, 8, 16]
  {
  }

  /** The second choice: 2 rises over 4. */
  lemma SinkFamily()
    ensures MinOfFamily(Less, [1, 4, 3, 2, 7, 9, 10, 14, 8, 16], 1) == 3
    ensures Swap([1, 4, 3, 2, 7, 9, 10, 14, 8, 16], 1, 3) == [1, 2, 3, 4, 7, 9, 10, 14, 8, 16]
  {
  }

  /** The last choice: 4 stays above 14 and 8. */
  lemma StopFamily()
    ensures MinOfFamily(Less, [1, 2, 3, 4, 7, 9, 10, 14, 8, 16], 3) == 3
  {
  }

  /** The rest of that step: 4, now at index 1, sinks past 2 and stops. */
  lemma HeapifyExampleSink()
    ensures SiftDownF(Less, [1, 4, 3, 2, 7, 9, 10, 14, 8, 16], 1) == [1, 2, 3, 4, 7, 9, 10, 14, 8, 16]
  {
    var s2 := [1, 4, 3, 2, 7, 9, 10, 14, 8, 16];
    var s3 := [1, 2, 3, 4, 7, 9, 10, 14, 8, 16];
    StopFamily();
    SinkStop(Less, s3, 3);
    SinkFamily();
    SinkStep(Less, s2, 1, 3, s3);
  }

  /** Pushing 5, 3, 7 and 1 into a min-heap: the top is 5, then 3, 3 and 1. */
  lemma MinHeapPushExample()
    ensures PushF(Less, [], 5) == [5]
    ensures PushF(Less, [5], 3) == [3, 5]
    ensures PushF(Less, [3, 5], 7) == [3, 5, 7]
    ensures PushF(Less, [3, 5, 7], 1) == [1, 3, 7, 5]
  {
    RiseStop(Less, [5], 0);
    RiseStep(Less, [5, 3], 1, [3, 5]);
    RiseStop(Less, [3, 5], 0);
    RiseStop(Less, [3, 5, 7], 2);
    RiseStep(Less, [3, 5, 7, 1], 3, [3, 1, 7, 5]);
    RiseStep(Less, [3, 1, 7, 5], 1, [1, 3, 7, 5]);
    RiseStop(Less, [1, 3, 7, 5], 0);
  }

  /** Popping that min-heap three times: the top is 3, then 5, then 7. */
  lemma MinHeapPopExample()
    ensures PopF(Less, [1, 3, 7, 5]) == [3, 5, 7]
    ensures PopF(Less, [3, 5, 7]) == [5, 7]
    ensures PopF(Less, [5, 7]) == [7]
  {
    assert [1, 3, 7, 5][0 := 5][..3] == [5, 3, 7];
    SinkStep(Less, [5, 3, 7], 0, 1, [3, 5, 7]);
    SinkStop(Less, [3, 5, 7], 1);
    assert [3, 5, 7][0 := 7][..2] == [7, 5];
    SinkStep(Less, [7, 5], 0, 1, [5, 7]);
    SinkStop(Less, [5, 7], 1);
    assert [5, 7][0 := 7][..1] == [7];
  }

  /** The same pushes into a max-heap: the top is 7; after one pop it is 5, after two 3. */
  lemma MaxHeapExample()
    ensures PushF(Greater, PushF(Greater, PushF(Greater, PushF(Greater, [], 5), 3), 7), 1) == [7, 3, 5, 1]
    ensures PopF(Greater, [7, 3, 5, 1]) == [5, 3, 1]
    ensures PopF(Greater, [5, 3, 1]) == [3, 1]
  {
    RiseStop(Greater, [5], 0);
    RiseStop(Greater, [5, 3], 1);
    RiseStep(Greater, [5, 3, 7], 2, [7, 3, 5]);
    RiseStop(Greater, [7, 3, 5], 0);
    RiseStop(Greater, [7, 3, 5, 1], 3);
    assert [7, 3, 5, 1][0 := 1][..3] == [1, 3, 5];
    SinkStep(Greater, [1, 3, 5], 0, 2, [5, 3, 1]);
    SinkStop(Greater, [5, 3, 1], 2);
    assert [5, 3, 1][0 := 1][..2] == [1, 3];
    SinkStep(Greater, [1, 3], 0, 1, [3, 1]);
    SinkStop(Greater, [3, 1], 1);
  }

  /** The comparators the containers are used with are strict weak orders. */
  lemma ComparatorsAreOrders()
    ensures StrictWeakOrder(Less) && StrictWeakOrder(Greater)
  {
  }

  // ----- the class -----

  /** Heap<T, Compare>: the vector `data` in heap order under `comp`. */
  class Heap {
    var data: seq<int>
    const comp: Compare

    ghost predicate Valid()
      reads this
    {
      StrictWeakOrder(comp) && IsHeap(comp, data)
    }

    /** The default constructor: an empty heap. */
    constructor (compare: Compare)
      requires StrictWeakOrder(compare)
      ensures Valid() && comp == compare && data == []
    {
      comp := compare;
      data := [];
    }

    /** The heapify constructor: copy the vector, then sift_down every parent from the last one up. */
    constructor FromData(init: seq<int>, compare: Compare)
      requires StrictWeakOrder(compare)
      requires |init| < 0x1_0000_0000
      ensures Valid() && comp == compare
      ensures data == HeapifyF(compare, init, HeapifyStart(|init|))
      ensures multiset(data) == multiset(init)
    {
      comp := compare;
      data := init;
      new;
      var i := HeapifyStart(|data|);
      while i >= 0
        invariant -1 <= i < |data|
        invariant HeapifyF(comp, data, i) == HeapifyF(compare, init, HeapifyStart(|init|))
        decreases i + 1
      {
        SiftDown(i);
        i := i - 1;
      }
      HeapifyBuildsHeap(comp, init);
    }

    /** sift_up(index): move the element up while it belongs above its parent. */
    method SiftUp(index: nat)
      requires index < |data|
      modifies this
      ensures data == SiftUpF(comp, old(data), index)
    {
      var i: nat := index;
      while i > 0 && Precedes(comp, data[i], data[Parent(i)])
        invariant i < |data|
        invariant SiftUpF(comp, data, i) == SiftUpF(comp, old(data), index)
        decreases i
      {
        data := Swap(data, i, Parent(i));
        i := Parent(i);
      }
    }

    /** sift_down(index): swap with the child that belongs highest, recursively, until in place. */
    method SiftDown(index: nat)
      requires index < |data|
      modifies this
      ensures data == SiftDownF(comp, old(data), index)
      decreases |data| - index
    {
      var l, r := LeftChild(index), RightChild(index);
      var minIndex := index;
      if l < |data| && Precedes(comp, data[l], data[minIndex]) {
        minIndex := l;
      }
      if r < |data| && Precedes(comp, data[r], data[minIndex]) {
        minIndex := r;
      }
      if minIndex != index {
        data := Swap(data, index, minIndex);
        SiftDown(minIndex);
      }
    }

    /** push(value): append, then sift the new element up. */
    method Push(value: int)
      requires Valid()
      modifies this
      ensures Valid()
      ensures data == PushF(comp, old(data), value)
      ensures multiset(data) == multiset(old(data)) + multiset{value}
    {
      PushKeepsHeap(comp, data, value);
      data := data + [value];
      SiftUp(|data| - 1);
    }

    /** pop(): throw on an empty heap; otherwise move the last element to the root and sift it down. */
    method Pop() returns (r: Outcome)
      requires Valid()
      modifies this
      ensures Valid()
      ensures old(data) == [] ==> r == Fail(RuntimeError(EmptyHeap)) && data == old(data)
      ensures old(data) != [] ==> r == Done && data == PopF(comp, old(data))
      ensures old(data) != [] ==> multiset(data) == multiset(old(data)) - multiset{old(data)[0]}
    {
      if data == [] {
        return Fail(RuntimeError(EmptyHeap));
      }
      PopKeepsHeap(comp, data);
      data := data[0 := data[|data| - 1]];
      data := data[..|data| - 1];
      if data != [] {
        SiftDown(0);
      }
      return Done;
    }

    /** top(): throw on an empty heap; otherwise the root, which no element belongs above. */
    method Top() returns (r: Result<int>)
      requires Valid()
      ensures data == [] ==> r == Err(RuntimeError(EmptyHeap))
      ensures data != [] ==> r == Ok(data[0])
      ensures r.Ok? ==> forall j | 0 <= j < |data| :: !Precedes(comp, data[j], r.value)
    {
      if data == [] {
        return Err(RuntimeError(EmptyHeap));
      }
      forall j | 0 <= j < |data|
        ensures !Precedes(comp, data[j], data[0])
      {
        RootFirst(comp, data, j);
      }
      return Ok(data[0]);
    }

    /** empty() */
    method Empty() returns (e: bool)
      ensures e <==> |data| == 0
    {
      return |data| == 0;
    }

    /** size() */
    method Size() returns (n: nat)
      ensures n == |data|
    {
      return |data|;
    }

    /** clear(): the heap is empty and still usable. */
    method Clear()
      requires Valid()
      modifies this
      ensures Valid() && data == []
    {
      data := [];
    }

    /** get_data(): the underlying vector, in heap order. */
    method GetData() returns (v: seq<int>)
      requires Valid()
      ensures v == data && IsHeap(comp, v)
    {
      return data;
    }
  }
}
