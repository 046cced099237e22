/**
 * The "simulated" min-heap of Heap/HeapSim/HeapSim.hpp: three fixed-size
 * arrays and a count. Slots 1..cnt of `h` hold the values in heap order
 * (slot 0 is unused); `ph[k]` is the slot of the value pushed under key k,
 * 0 when none was ever pushed, and `hp[i]` is the key whose value sits in
 * slot i. remove does not reset `ph[k]`, so a removed key keeps a stale
 * slot; a key is live when its slot is a live one that names it back.
 *
 * The operations are specified by functions on a value of the whole state
 * (SimState); the class applies them in place. What the heap stores is the
 * map Contents from live keys to their values.
 */
module HeapSim {

  /** The fields of HeapSim<int>: values by slot, slot by key, key by slot, and the count. */
  datatype SimState = SimState(h: seq<int>, ph: seq<int>, hp: seq<int>, cnt: int)

  /** One more than the largest size_t value. */
  const SizeTModulus := 0x1_0000_0000_0000_0000

  /** The three vectors have the same size, every stored slot and key is an index, and cnt fits. */
  ghost predicate Sized(st: SimState)
  {
    |st.h| == |st.ph| == |st.hp| &&
    (forall k | 0 <= k < |st.ph| :: 0 <= st.ph[k] < |st.h|) &&
    (forall i | 0 <= i < |st.hp| :: 0 <= st.hp[i] < |st.h|) &&
    (st.cnt < |st.h| || |st.h| == 0)
  }

  /**
   * Every live slot 1..cnt is linked back to by the key it holds. A key's
   * slot may be stale: remove leaves the removed key's entry in `ph`
   * pointing past the live slots.
   */
  ghost predicate Linked(st: SimState)
  {
    Sized(st) && 0 <= st.cnt && (|st.h| == 0 ==> st.cnt == 0) &&
    (forall i | 1 <= i <= st.cnt :: st.ph[st.hp[i]] == i)
  }

  /** Key k has a value in the heap: its slot is a live one, and that slot names k. */
  ghost predicate Live(st: SimState, k: int)
  {
    0 <= k < |st.ph| && 1 <= st.ph[k] <= st.cnt && st.ph[k] < |st.hp| && st.hp[st.ph[k]] == k
  }

  /** Min-heap order on slots 1..cnt: h[u / 2] <= h[u]. */
  ghost predicate MinHeap(h: seq<int>, cnt: int)
    requires cnt < |h| || cnt < 2
  {
    forall u | 2 <= u <= cnt :: h[u / 2] <= h[u]
  }

  /** The invariant every public operation keeps. */
  ghost predicate Consistent(st: SimState)
  {
    Linked(st) && MinHeap(st.h, st.cnt)
  }

  /** What the heap stores: each live key with its value. */
  ghost function Contents(st: SimState): map<int, int>
    requires Sized(st)
  {
    map k | 0 <= k < |st.ph| && Live(st, k) :: st.h[st.ph[k]]
  }

  /** Two states store the same map when the same keys are live with the same values. */
  lemma SameContents(a: SimState, b: SimState)
    requires Sized(a) && Sized(b) && |a.ph| == |b.ph|
    requires forall q | 0 <= q < |a.ph| :: Live(a, q) <==> Live(b, q)
    requires forall q | 0 <= q < |a.ph| && Live(a, q) :: a.h[a.ph[q]] == b.h[b.ph[q]]
    ensures Contents(a) == Contents(b)
  {
  }

  /** b stores a's map with key k set to x. */
  lemma ContentsSet(a: SimState, b: SimState, k: int, x: int)
    requires Sized(a) && Sized(b) && |a.ph| == |b.ph| && 0 <= k < |a.ph|
    requires Live(b, k) && b.h[b.ph[k]] == x
    requires forall q | 0 <= q < |a.ph| && q != k :: Live(a, q) <==> Live(b, q)
    requires forall q | 0 <= q < |a.ph| && q != k && Live(a, q) :: a.h[a.ph[q]] == b.h[b.ph[q]]
    ensures Contents(b) == Contents(a)[k := x]
  {
  }

  /** b stores a's map without key k. */
  lemma ContentsMinus(a: SimState, b: SimState, k: int)
    requires Sized(a) && Sized(b) && |a.ph| == |b.ph| && 0 <= k < |a.ph| && !Live(b, k)
    requires forall q | 0 <= q < |a.ph| && q != k :: Live(a, q) <==> Live(b, q)
    requires forall q | 0 <= q < |a.ph| && q != k && Live(a, q) :: a.h[a.ph[q]] == b.h[b.ph[q]]
    ensures Contents(b) == Contents(a) - {k}
  {
  }

  /** The keys held by slots 1..n. */
  ghost function SlotKeys(st: SimState, n: int): set<int>
    requires Linked(st) && 0 <= n <= st.cnt
  {
    set i | 1 <= i <= n :: st.hp[i]
  }

  /** Slots 1..n hold n different keys, since each links back to its own slot. */
  lemma {:induction false} SlotKeysCount(st: SimState, n: int)
    requires Linked(st) && 0 <= n <= st.cnt
    ensures |SlotKeys(st, n)| == n
  {
    if n > 0 {
      SlotKeysCount(st, n - 1);
      SlotKeysGrow(st, n);
    }
  }

  /** Slot n adds its key to those of slots 1..n-1, which do not hold it already. */
  lemma SlotKeysGrow(st: SimState, n: int)
    requires Linked(st) && 1 <= n <= st.cnt
    ensures SlotKeys(st, n) == SlotKeys(st, n - 1) + {st.hp[n]}
    ensures st.hp[n] !in SlotKeys(st, n - 1)
  {
    forall i | 1 <= i <= n - 1
      ensures st.hp[i] != st.hp[n]
    {
      assert st.ph[st.hp[i]] == i;
    }
  }

  /** The heap stores exactly cnt keys: the live keys are those held by slots 1..cnt. */
  lemma ContentsCount(st: SimState)
    requires Linked(st)
    ensures |Contents(st).Keys| == st.cnt
    ensures Contents(st) == map[] <==> st.cnt == 0
  {
    forall k | k in SlotKeys(st, st.cnt)
      ensures k in Contents(st)
    {
      var i :| 1 <= i <= st.cnt && st.hp[i] == k;
      assert st.ph[k] == i;
    }
    assert Contents(st).Keys == SlotKeys(st, st.cnt);
    SlotKeysCount(st, st.cnt);
  }

  /** The state the constructor builds: three zeroed vectors of the given size and no elements. */
  function Init(capacity: nat): (st: SimState)
    ensures Consistent(st) && Contents(st) == map[]
    ensures |st.h| == capacity && st.cnt == 0
  {
    SimState(seq(capacity, _ => 0), seq(capacity, _ => 0), seq(capacity, _ => 0), 0)
  }

  // ----- heap_swap, up and down -----

  /** heap_swap(a, b): exchange the two slots' values and keys, and the two keys' slots. */
  function HeapSwapF(st: SimState, a: int, b: int): (r: SimState)
    requires Sized(st) && 0 <= a < |st.h| && 0 <= b < |st.h|
    ensures Sized(r) && r.cnt == st.cnt && |r.h| == |st.h|
  {
    var ka, kb := st.hp[a], st.hp[b];
    SimState(st.h[a := st.h[b]][b := st.h[a]],
             st.ph[ka := st.ph[kb]][kb := st.ph[ka]],
             st.hp[a := st.hp[b]][b := st.hp[a]],
             st.cnt)
  }

  /** heap_swap on two live slots keeps the maps inverse and the stored map unchanged. */
  lemma SwapKeeps(st: SimState, a: int, b: int)
    requires Linked(st) && 1 <= a <= st.cnt && 1 <= b <= st.cnt
    ensures Linked(HeapSwapF(st, a, b))
    ensures Contents(HeapSwapF(st, a, b)) == Contents(st)
    ensures HeapSwapF(st, a, b).h == st.h[a := st.h[b]][b := st.h[a]]
  {
    var r := HeapSwapF(st, a, b);
    var ka, kb := st.hp[a], st.hp[b];
    assert st.ph[ka] == a && st.ph[kb] == b;
    forall i | 1 <= i <= r.cnt
      ensures r.ph[r.hp[i]] == i
    {
      if i != a && i != b {
        assert st.ph[st.hp[i]] == i;
      }
    }
    forall q | 0 <= q < |st.ph|
      ensures Live(st, q) <==> Live(r, q)
      ensures Live(st, q) ==> st.h[st.ph[q]] == r.h[r.ph[q]]
    {
      if q != ka && q != kb {
        assert r.ph[q] == st.ph[q];
        if Live(r, q) {
          assert r.ph[q] != a && r.ph[q] != b;
        }
        if Live(st, q) {
          assert st.ph[q] != a && st.ph[q] != b;
        }
      }
    }
    SameContents(st, r);
  }

  /** up(u): swap the value with its parent while it is smaller. */
  function UpF(st: SimState, u: int): (r: SimState)
    requires Sized(st) && 0 <= u < |st.h|
    ensures Sized(r) && r.cnt == st.cnt && |r.h| == |st.h|
    decreases u
  {
    if u / 2 != 0 && st.h[u] < st.h[u / 2] then UpF(HeapSwapF(st, u, u / 2), u / 2) else st
  }

  /** The slot down(u) swaps with: the smaller live child when it is smaller than u's value, the left one on a tie; else u. */
  function DownTarget(st: SimState, u: int): (t: int)
    requires Sized(st) && 0 <= u < |st.h|
    ensures u <= t < |st.h| && (t == u || t == u * 2 || t == u * 2 + 1)
    ensures t != u ==> t <= st.cnt && st.h[t] < st.h[u]
    ensures u * 2 <= st.cnt ==> st.h[t] <= st.h[u * 2]
    ensures u * 2 + 1 <= st.cnt ==> st.h[t] <= st.h[u * 2 + 1]
  {
    var t1 := if u * 2 <= st.cnt && st.h[u * 2] < st.h[u] then u * 2 else u;
    if u * 2 + 1 <= st.cnt && st.h[u * 2 + 1] < st.h[t1] then u * 2 + 1 else t1
  }

  /** down(u): swap the value with its smaller child while that child is smaller. */
  function DownF(st: SimState, u: int): (r: SimState)
    requires Sized(st) && 0 <= u < |st.h|
    ensures Sized(r) && r.cnt == st.cnt && |r.h| == |st.h|
    decreases |st.h| - u
  {
    var t := DownTarget(st, u);
    if u != t then DownF(HeapSwapF(st, u, t), t) else st
  }

  /** up from a live slot keeps the maps inverse and the stored map unchanged. */
  lemma {:induction false} UpKeeps(st: SimState, u: int)
    requires Linked(st) && 1 <= u <= st.cnt
    ensures Linked(UpF(st, u)) && Contents(UpF(st, u)) == Contents(st)
    decreases u
  {
    if u / 2 != 0 && st.h[u] < st.h[u / 2] {
      var r := HeapSwapF(st, u, u / 2);
      SwapKeeps(st, u, u / 2);
      UpKeeps(r, u / 2);
      assert UpF(st, u) == UpF(r, u / 2);
    }
  }

  /** down from a live slot keeps the maps inverse and the stored map unchanged. */
  lemma {:induction false} DownKeeps(st: SimState, u: int)
    requires Linked(st) && 1 <= u <= st.cnt
    ensures Linked(DownF(st, u)) && Contents(DownF(st, u)) == Contents(st)
    decreases |st.h| - u
  {
    var t := DownTarget(st, u);
    if u != t {
      var r := HeapSwapF(st, u, t);
      SwapKeeps(st, u, t);
      DownKeeps(r, t);
      assert DownF(st, u) == DownF(r, t);
    } else {
      assert DownF(st, u) == st;
    }
  }

  /**
   * What up(u) needs to restore heap order: order holds at every slot but u,
   * and u's children are not smaller than u's parent.
   */
  ghost predicate UpReady(h: seq<int>, cnt: int, u: int)
  {
    cnt < |h| && 1 <= u <= cnt &&
    (forall v | 2 <= v <= cnt && v != u :: h[v / 2] <= h[v]) &&
    (u >= 2 ==> forall v | 2 <= v <= cnt && v / 2 == u :: h[u / 2] <= h[v])
  }

  /** One swap of up moves the place where order may fail to the parent. */
  lemma UpStepReady(st: SimState, u: int)
    requires Sized(st) && UpReady(st.h, st.cnt, u) && u / 2 != 0 && st.h[u] < st.h[u / 2]
    ensures UpReady(HeapSwapF(st, u, u / 2).h, st.cnt, u / 2)
  {
    var h, cnt := st.h, st.cnt;
    var p := u / 2;
    var g := HeapSwapF(st, u, p).h;
    assert g == h[u := h[p]][p := h[u]];
    forall v | 2 <= v <= cnt && v != p
      ensures g[v / 2] <= g[v]
    {
      if v == u {
      } else if v / 2 == u {
        assert h[p] <= h[v];
      } else if v / 2 == p {
        assert h[p] <= h[v];
      } else {
        assert h[v / 2] <= h[v];
      }
    }
    if p >= 2 {
      forall v | 2 <= v <= cnt && v / 2 == p
        ensures g[p / 2] <= g[v]
      {
        assert h[p / 2] <= h[p];
        if v != u {
          assert h[p] <= h[v];
        }
      }
    }
  }

  /** up restores heap order. */
  lemma {:induction false} UpOrders(st: SimState, u: int)
    requires Sized(st) && UpReady(st.h, st.cnt, u)
    ensures MinHeap(UpF(st, u).h, st.cnt)
    decreases u
  {
    if u / 2 != 0 && st.h[u] < st.h[u / 2] {
      var r := HeapSwapF(st, u, u / 2);
      UpStepReady(st, u);
      UpOrders(r, u / 2);
      assert UpF(st, u) == UpF(r, u / 2);
    } else {
      assert UpF(st, u) == st;
    }
  }

  /**
   * What down(u) needs to restore heap order: order holds at every slot whose
   * parent is not u, and u's children are not smaller than u's parent.
   */
  ghost predicate DownReady(h: seq<int>, cnt: int, u: int)
  {
    cnt < |h| && 1 <= u <= cnt &&
    (forall v | 2 <= v <= cnt && v / 2 != u :: h[v / 2] <= h[v]) &&
    (u >= 2 ==> forall v | 2 <= v <= cnt && v / 2 == u :: h[u / 2] <= h[v])
  }

  /** One swap of down moves the place where order may fail to the swapped child. */
  lemma DownStepReady(st: SimState, u: int)
    requires Sized(st) && DownReady(st.h, st.cnt, u) && DownTarget(st, u) != u
    ensures DownReady(HeapSwapF(st, u, DownTarget(st, u)).h, st.cnt, DownTarget(st, u))
  {
    var h, cnt := st.h, st.cnt;
    var t := DownTarget(st, u);
    var g := HeapSwapF(st, u, t).h;
    assert g == h[u := h[t]][t := h[u]];
    assert t / 2 == u by {
      assert (u * 2) / 2 == u && (u * 2 + 1) / 2 == u;
    }
    forall v | 2 <= v <= cnt && v / 2 != t
      ensures g[v / 2] <= g[v]
    {
      if v / 2 == u {
        assert v == u * 2 || v == u * 2 + 1;
      } else if v == u {
        assert h[u / 2] <= h[t];
      } else {
        assert h[v / 2] <= h[v];
      }
    }
    forall v | 2 <= v <= cnt && v / 2 == t
      ensures g[t / 2] <= g[v]
    {
      assert v != u && v != t;
      assert h[v / 2] <= h[v];
    }
  }

  /** When down stops, order holds everywhere. */
  lemma DownStopOrders(st: SimState, u: int)
    requires Sized(st) && DownReady(st.h, st.cnt, u) && DownTarget(st, u) == u
    ensures MinHeap(st.h, st.cnt)
  {
    var h, cnt := st.h, st.cnt;
    assert u * 2 <= cnt ==> h[u] <= h[u * 2];
    assert u * 2 + 1 <= cnt ==> h[u] <= h[u * 2 + 1];
    forall v | 2 <= v <= cnt
      ensures h[v / 2] <= h[v]
    {
      if v / 2 == u {
        assert v == u * 2 || v == u * 2 + 1;
      } else {
        assert h[v / 2] <= h[v];
      }
    }
  }

  /** down restores heap order. */
  lemma {:induction false} DownOrders(st: SimState, u: int)
    requires Sized(st) && DownReady(st.h, st.cnt, u)
    ensures MinHeap(DownF(st, u).h, st.cnt)
    decreases |st.h| - u
  {
    var t := DownTarget(st, u);
    if u != t {
      var r := HeapSwapF(st, u, t);
      DownStepReady(st, u);
      DownOrders(r, t);
      assert DownF(st, u) == DownF(r, t);
    } else {
      DownStopOrders(st, u);
      assert DownF(st, u) == st;
    }
  }

  /** On a heap down changes nothing. */
  lemma DownOnHeap(st: SimState, u: int)
    requires Sized(st) && st.cnt < |st.h| && 1 <= u < |st.h| && MinHeap(st.h, st.cnt)
    ensures DownF(st, u) == st
  {
    assert (u * 2) / 2 == u && (u * 2 + 1) / 2 == u;
  }

  /**
   * Slot u of a heap whose value was w now holds h[u]: order holds at every
   * slot that is neither u nor a child of u, and w lies between u's parent
   * and u's children.
   */
  ghost predicate HoleAt(h: seq<int>, cnt: int, u: int, w: int)
  {
    cnt < |h| && 1 <= u <= cnt &&
    (forall v | 2 <= v <= cnt && v != u && v / 2 != u :: h[v / 2] <= h[v]) &&
    (u >= 2 ==> h[u / 2] <= w) &&
    (forall v | 2 <= v <= cnt && v / 2 == u :: w <= h[v])
  }

  /** Overwriting one slot of a heap leaves a hole at that slot. */
  lemma ModifyHole(h: seq<int>, cnt: int, u: int, x: int)
    requires cnt < |h| && MinHeap(h, cnt) && 1 <= u <= cnt
    ensures HoleAt(h[u := x], cnt, u, h[u])
  {
    var g := h[u := x];
    forall v | 2 <= v <= cnt && v != u && v / 2 != u
      ensures g[v / 2] <= g[v]
    {
      assert h[v / 2] <= h[v];
    }
  }

  /** Moving the last slot's value into slot j and dropping the last slot leaves a hole at j. */
  lemma RemoveHole(h: seq<int>, cnt: int, j: int)
    requires cnt < |h| && MinHeap(h, cnt) && 1 <= j < cnt
    ensures HoleAt(h[j := h[cnt]][cnt := h[j]], cnt - 1, j, h[j])
  {
    var g := h[j := h[cnt]][cnt := h[j]];
    forall v | 2 <= v <= cnt - 1 && v != j && v / 2 != j
      ensures g[v / 2] <= g[v]
    {
      assert h[v / 2] <= h[v];
    }
    forall v | 2 <= v <= cnt - 1 && v / 2 == j
      ensures h[j] <= g[v]
    {
      assert h[j] <= h[v];
    }
  }

  /**
   * On a hole at u, up(u) followed by down at u's final slot p restores heap
   * order and keeps the stored map. When up moves nothing, p is u.
   */
  lemma FixAt(st: SimState, u: int, w: int, p: int)
    requires Linked(st) && HoleAt(st.h, st.cnt, u, w)
    requires 1 <= p <= st.cnt && (p == u || st.h[u] < w)
    ensures Consistent(DownF(UpF(st, u), p))
    ensures Contents(DownF(UpF(st, u), p)) == Contents(st)
  {
    var h, cnt := st.h, st.cnt;
    UpKeeps(st, u);
    var s2 := UpF(st, u);
    DownKeeps(s2, p);
    if h[u] < w {
      forall v | 2 <= v <= cnt && v / 2 == u
        ensures h[u] <= h[v] && (u >= 2 ==> h[u / 2] <= h[v])
      {
      }
      UpOrders(st, u);
      DownOnHeap(s2, p);
    } else {
      assert s2 == st;
      forall v | 2 <= v <= cnt && v / 2 != u
        ensures h[v / 2] <= h[v]
      {
        if v == u {
          assert h[u / 2] <= w;
        }
      }
      DownOrders(st, u);
    }
  }

  /** In a min-heap slot 1 holds the least value. */
  lemma {:induction false} RootLeast(h: seq<int>, cnt: int, v: int)
    requires cnt < |h| && MinHeap(h, cnt) && 1 <= v <= cnt
    ensures h[1] <= h[v]
    decreases v
  {
    if v > 1 {
      RootLeast(h, cnt, v / 2);
    }
  }

  // ----- the public operations -----

  /** The first half of push(k, x): a new last slot holding x, linked with k. */
  function PushStart(st: SimState, k: int, x: int): (r: SimState)
    requires Sized(st) && 0 <= k < |st.ph| && 0 <= st.cnt && st.cnt + 1 < |st.h|
    ensures Sized(r) && |r.h| == |st.h| && r.cnt == st.cnt + 1
  {
    var c := st.cnt + 1;
    SimState(st.h[c := x], st.ph[k := c], st.hp[c := k], c)
  }

  /** push(k, x) for a key in range: a new last slot for k, then up. */
  function PushF(st: SimState, k: int, x: int): (r: SimState)
    requires Sized(st) && 0 <= k < |st.ph| && 0 <= st.cnt && st.cnt + 1 < |st.h|
  {
    UpF(PushStart(st, k, x), st.cnt + 1)
  }

  /** Linking a key with no live value to a new last slot keeps the maps inverse and stores the key. */
  lemma GrowKeeps(st: SimState, k: int, x: int)
    requires Linked(st) && 0 <= k < |st.ph| && !Live(st, k) && st.cnt + 1 < |st.h|
    ensures Linked(PushStart(st, k, x))
    ensures Contents(PushStart(st, k, x)) == Contents(st)[k := x]
  {
    var c := st.cnt + 1;
    var s1 := PushStart(st, k, x);
    forall i | 1 <= i <= c
      ensures s1.ph[s1.hp[i]] == i
    {
      if i < c {
        assert st.ph[st.hp[i]] == i;
        assert Live(st, st.hp[i]);
      }
    }
    forall q | 0 <= q < |st.ph| && q != k
      ensures Live(st, q) <==> Live(s1, q)
    {
      if Live(s1, q) {
        assert s1.ph[q] != c;
      }
    }
    ContentsSet(st, s1, k, x);
  }

  /** A value appended after the last slot of a heap is all up needs. */
  lemma AppendReady(st: SimState, k: int, x: int)
    requires Sized(st) && 0 <= k < |st.ph| && 0 <= st.cnt && st.cnt + 1 < |st.h| && MinHeap(st.h, st.cnt)
    ensures UpReady(PushStart(st, k, x).h, st.cnt + 1, st.cnt + 1)
  {
    var h, cnt := st.h, st.cnt;
    var g := PushStart(st, k, x).h;
    assert g == h[cnt + 1 := x];
    forall v | 2 <= v <= cnt + 1 && v != cnt + 1
      ensures g[v / 2] <= g[v]
    {
      assert h[v / 2] <= h[v];
    }
  }

  /** push of a key with no live value keeps the maps inverse and stores the key. */
  lemma PushLinks(st: SimState, k: int, x: int)
    requires Linked(st) && 0 <= k < |st.ph| && !Live(st, k) && st.cnt + 1 < |st.h|
    ensures Linked(PushF(st, k, x)) && Contents(PushF(st, k, x)) == Contents(st)[k := x]
  {
    GrowKeeps(st, k, x);
    UpKeeps(PushStart(st, k, x), st.cnt + 1);
  }

  /** push onto a heap leaves a heap one slot longer. */
  lemma PushOrders(st: SimState, k: int, x: int)
    requires Sized(st) && 0 <= k < |st.ph| && 0 <= st.cnt && st.cnt + 1 < |st.h| && MinHeap(st.h, st.cnt)
    ensures MinHeap(PushF(st, k, x).h, st.cnt + 1)
  {
    AppendReady(st, k, x);
    UpOrders(PushStart(st, k, x), st.cnt + 1);
  }

  /** push of a key with no live value stores it, keeps the invariant and adds one element. */
  lemma PushKeeps(st: SimState, k: int, x: int)
    requires Consistent(st) && 0 <= k < |st.ph| && !Live(st, k) && st.cnt + 1 < |st.h|
    ensures Consistent(PushF(st, k, x))
    ensures Contents(PushF(st, k, x)) == Contents(st)[k := x]
    ensures PushF(st, k, x).cnt == st.cnt + 1
  {
    PushLinks(st, k, x);
    PushOrders(st, k, x);
  }

  /**
   * remove(k) as the source writes it, for a key whose slot is non-zero:
   * the last value moves into k's slot, the count drops, then up and down
   * from that slot. k's own entry in `ph` is left pointing at the dropped
   * slot.
   */
  function RemoveAsWrittenF(st: SimState, k: int): (r: SimState)
    requires Sized(st) && 0 <= st.cnt && 0 <= k < |st.ph| && st.ph[k] != 0
  {
    DownF(UpF(DropSlot(st, k), st.ph[k]), st.ph[k])
  }

  /** The first half of remove(k) as written: move the last value into k's slot and drop the last slot. */
  function DropSlot(st: SimState, k: int): (r: SimState)
    requires Sized(st) && 0 <= st.cnt && 0 <= k < |st.ph| && st.ph[k] != 0
    ensures Sized(r) && |r.h| == |st.h| && |r.ph| == |st.ph|
  {
    HeapSwapF(st, st.ph[k], st.cnt).(cnt := st.cnt - 1)
  }

  /** up and down touch only live keys' slots, so a key with no value keeps its stale slot. */
  lemma {:induction false} UpStale(st: SimState, u: int, q: int)
    requires Linked(st) && 1 <= u <= st.cnt && 0 <= q < |st.ph| && !Live(st, q)
    ensures UpF(st, u).ph[q] == st.ph[q]
    decreases u
  {
    if u / 2 != 0 && st.h[u] < st.h[u / 2] {
      var r := HeapSwapF(st, u, u / 2);
      assert Live(st, st.hp[u]) && Live(st, st.hp[u / 2]);
      SwapKeeps(st, u, u / 2);
      assert q !in Contents(r);
      UpStale(r, u / 2, q);
      assert UpF(st, u) == UpF(r, u / 2);
    }
  }

  lemma {:induction false} DownStale(st: SimState, u: int, q: int)
    requires Linked(st) && 1 <= u <= st.cnt && 0 <= q < |st.ph| && !Live(st, q)
    ensures DownF(st, u).ph[q] == st.ph[q]
    decreases |st.h| - u
  {
    var t := DownTarget(st, u);
    if u != t {
      var r := HeapSwapF(st, u, t);
      assert Live(st, st.hp[u]) && Live(st, st.hp[t]);
      SwapKeeps(st, u, t);
      assert q !in Contents(r);
      DownStale(r, t, q);
      assert DownF(st, u) == DownF(r, t);
    }
  }

  /** Dropping the last live slot, which holds k, leaves k with a stale slot and deletes it from the stored map. */
  lemma DropLast(s1: SimState, k: int)
    requires Linked(s1) && s1.cnt >= 1 && 0 <= k < |s1.ph| && s1.hp[s1.cnt] == k
    ensures Linked(s1.(cnt := s1.cnt - 1)) && s1.ph[k] == s1.cnt
    ensures Contents(s1.(cnt := s1.cnt - 1)) == Contents(s1) - {k}
  {
    var s2 := s1.(cnt := s1.cnt - 1);
    assert s1.ph[s1.hp[s1.cnt]] == s1.cnt;
    forall q | 0 <= q < |s1.ph| && q != k
      ensures Live(s1, q) <==> Live(s2, q)
    {
      if Live(s1, q) {
        assert s1.ph[q] != s1.cnt;
      }
    }
    ContentsMinus(s1, s2, k);
  }

  /** The first half of remove as written: k's value is gone and k's slot is the dropped one. */
  lemma StartAsWritten(st: SimState, k: int)
    requires Linked(st) && Live(st, k)
    ensures var r := DropSlot(st, k);
      Linked(r) && Contents(r) == Contents(st) - {k} && r.ph[k] == st.cnt && r.cnt == st.cnt - 1 &&
      r.h == st.h[st.ph[k] := st.h[st.cnt]][st.cnt := st.h[st.ph[k]]]
  {
    var j := st.ph[k];
    SwapKeeps(st, j, st.cnt);
    var s1 := HeapSwapF(st, j, st.cnt);
    assert s1.hp[st.cnt] == k;
    DropLast(s1, k);
  }

  /** remove as written, of a live key, deletes exactly that key and keeps the invariant. */
  lemma RemoveAsWrittenKeeps(st: SimState, k: int)
    requires Consistent(st) && Live(st, k)
    ensures Consistent(RemoveAsWrittenF(st, k))
    ensures Contents(RemoveAsWrittenF(st, k)) == Contents(st) - {k}
    ensures RemoveAsWrittenF(st, k).cnt == st.cnt - 1
  {
    var h, cnt := st.h, st.cnt;
    var j := st.ph[k];
    var s2 := DropSlot(st, k);
    StartAsWritten(st, k);
    if j == cnt {
      if j >= 2 {
        assert h[j / 2] <= h[j];
      }
      assert UpF(s2, j) == s2;
      assert DownF(s2, j) == s2;
      assert MinHeap(s2.h, s2.cnt);
    } else {
      RemoveHole(h, cnt, j);
      FixAt(s2, j, h[j], j);
    }
  }

  /**
   * remove as written leaves the removed key's slot at the old count, which
   * is not 0: the guard of a second remove(k) lets it through.
   */
  lemma RemoveLeavesSlot(st: SimState, k: int)
    requires Consistent(st) && Live(st, k)
    ensures RemoveAsWrittenF(st, k).ph[k] == st.cnt != 0
  {
    var j := st.ph[k];
    var s2 := DropSlot(st, k);
    StartAsWritten(st, k);
    if j == st.cnt {
      if j >= 2 {
        assert st.h[j / 2] <= st.h[j];
      }
      assert UpF(s2, j) == s2;
      assert DownF(s2, j) == s2;
    } else {
      assert k !in Contents(s2);
      UpStale(s2, j, k);
      UpKeeps(s2, j);
      assert k !in Contents(UpF(s2, j));
      DownStale(UpF(s2, j), j, k);
    }
  }

  /** The first half of the corrected remove(k): as written, and then k's slot is cleared. */
  function RemoveStart(st: SimState, k: int): (r: SimState)
    requires Sized(st) && 0 <= st.cnt && 0 <= k < |st.ph| && st.ph[k] != 0
    ensures Sized(r) && |r.h| == |st.h| && |r.ph| == |st.ph|
  {
    var s1 := HeapSwapF(st, st.ph[k], st.cnt);
    s1.(cnt := s1.cnt - 1, ph := s1.ph[k := 0])
  }

  /** remove(k) with the removed key's slot reset to 0, so that k reads as absent afterwards. */
  function RemoveF(st: SimState, k: int): (r: SimState)
    requires Sized(st) && 0 <= st.cnt && 0 <= k < |st.ph| && st.ph[k] != 0
  {
    DownF(UpF(RemoveStart(st, k), st.ph[k]), st.ph[k])
  }

  /** The first half of the corrected remove deletes k from the stored map and keeps the maps inverse. */
  lemma StartKeeps(st: SimState, k: int)
    requires Linked(st) && Live(st, k)
    ensures var r := RemoveStart(st, k);
      Linked(r) && Contents(r) == Contents(st) - {k} && r.cnt == st.cnt - 1 && r.ph[k] == 0 &&
      r.h == st.h[st.ph[k] := st.h[st.cnt]][st.cnt := st.h[st.ph[k]]]
  {
    var j := st.ph[k];
    SwapKeeps(st, j, st.cnt);
    var s1 := HeapSwapF(st, j, st.cnt);
    assert s1.hp[st.cnt] == k;
    ShrinkKeeps(s1, k);
  }

  /** The corrected remove of a live key deletes exactly that key, keeps the invariant, and clears k's slot. */
  lemma RemoveKeeps(st: SimState, k: int)
    requires Consistent(st) && Live(st, k)
    ensures Consistent(RemoveF(st, k))
    ensures Contents(RemoveF(st, k)) == Contents(st) - {k}
    ensures RemoveF(st, k).cnt == st.cnt - 1 && RemoveF(st, k).ph[k] == 0
  {
    var h, cnt := st.h, st.cnt;
    var j := st.ph[k];
    var s2 := RemoveStart(st, k);
    StartKeeps(st, k);
    if j == cnt {
      if j >= 2 {
        assert h[j / 2] <= h[j];
      }
      assert UpF(s2, j) == s2;
      assert DownF(s2, j) == s2;
      assert MinHeap(s2.h, s2.cnt);
    } else {
      RemoveHole(h, cnt, j);
      FixAt(s2, j, h[j], j);
      assert !Live(s2, k);
      UpStale(s2, j, k);
      UpKeeps(s2, j);
      assert k !in Contents(UpF(s2, j));
      DownStale(UpF(s2, j), j, k);
    }
  }

  /** Dropping the last live slot, which holds k, and clearing k's slot keeps the maps inverse. */
  lemma ShrinkKeeps(s1: SimState, k: int)
    requires Linked(s1) && s1.cnt >= 1 && 0 <= k < |s1.ph| && s1.hp[s1.cnt] == k
    ensures Linked(s1.(cnt := s1.cnt - 1, ph := s1.ph[k := 0]))
    ensures Contents(s1.(cnt := s1.cnt - 1, ph := s1.ph[k := 0])) == Contents(s1) - {k}
  {
    var s2 := s1.(cnt := s1.cnt - 1, ph := s1.ph[k := 0]);
    assert s1.ph[s1.hp[s1.cnt]] == s1.cnt;
    forall i | 1 <= i <= s2.cnt
      ensures s2.ph[s2.hp[i]] == i
    {
      assert s1.ph[s1.hp[i]] == i;
    }
    forall q | 0 <= q < |s1.ph| && q != k
      ensures Live(s1, q) <==> Live(s2, q)
    {
      if Live(s1, q) {
        assert s1.ph[q] != s1.cnt;
      }
    }
    ContentsMinus(s1, s2, k);
  }

  /** modify(k, x) for a key whose slot is non-zero: store x there, then up, then down from k's new slot. */
  function ModifyF(st: SimState, k: int, x: int): (r: SimState)
    requires Sized(st) && 0 <= k < |st.ph| && st.ph[k] != 0
  {
    var s1 := st.(h := st.h[st.ph[k] := x]);
    var s2 := UpF(s1, st.ph[k]);
    DownF(s2, s2.ph[k])
  }

  /** Overwriting a live key's value keeps the maps inverse and sets that key in the stored map. */
  lemma SetKeeps(st: SimState, k: int, x: int)
    requires Linked(st) && Live(st, k)
    ensures Linked(st.(h := st.h[st.ph[k] := x]))
    ensures Contents(st.(h := st.h[st.ph[k] := x])) == Contents(st)[k := x]
  {
    var u := st.ph[k];
    var s1 := st.(h := st.h[u := x]);
    forall q | 0 <= q < |st.ph| && q != k && Live(st, q)
      ensures st.h[st.ph[q]] == s1.h[s1.ph[q]]
    {
      assert st.hp[st.ph[q]] == q;
    }
    ContentsSet(st, s1, k, x);
  }

  /** modify of a live key replaces its value and keeps the invariant. */
  lemma ModifyKeeps(st: SimState, k: int, x: int)
    requires Consistent(st) && Live(st, k)
    ensures Consistent(ModifyF(st, k, x))
    ensures Contents(ModifyF(st, k, x)) == Contents(st)[k := x]
    ensures ModifyF(st, k, x).cnt == st.cnt
  {
    var u := st.ph[k];
    var s1 := st.(h := st.h[u := x]);
    SetKeeps(st, k, x);
    ModifyHole(st.h, st.cnt, u, x);
    var s2 := UpF(s1, u);
    UpKeeps(s1, u);
    assert k in Contents(s1);
    assert k in Contents(s2);
    if x >= st.h[u] {
      if u / 2 != 0 {
        assert st.h[u / 2] <= st.h[u];
      }
      assert s2 == s1;
    }
    FixAt(s1, u, st.h[u], s2.ph[k]);
  }

  /** The unfixed remove accepts a key it has already removed: the count drops below zero. */
  lemma RemoveTwiceAsWritten()
    ensures var s1 := PushF(Init(3), 1, 5);
      var s2 := RemoveAsWrittenF(s1, 1);
      s2.cnt == 0 && s2.ph[1] != 0 && RemoveAsWrittenF(s2, 1).cnt == -1
  {
    var s0 := Init(3);
    var s1 := PushF(s0, 1, 5);
    assert s1 == SimState([0, 5, 0], [0, 1, 0], [0, 1, 0], 1);
    var s2 := RemoveAsWrittenF(s1, 1);
    assert s2 == SimState([0, 5, 0], [0, 1, 0], [0, 1, 0], 0);
  }

  /** With the fix a second remove of the same key is refused: its slot reads 0. */
  lemma RemoveTwiceRefused(st: SimState, k: int)
    requires Consistent(st) && Live(st, k)
    ensures RemoveF(st, k).ph[k] == 0 && k !in Contents(RemoveF(st, k))
  {
    RemoveKeeps(st, k);
  }

  // ----- the class -----

  /** HeapSim<int>: the arrays h, ph, hp and the count cnt. */
  class HeapSim {
    const h: array<int>
    const ph: array<int>
    const hp: array<int>
    var cnt: int

    /** The fields as a state value. */
    ghost function State(): SimState
      reads this, h, ph, hp
    {
      SimState(h[..], ph[..], hp[..], cnt)
    }

    ghost predicate Valid()
      reads this, h, ph, hp
    {
      h != ph && h != hp && ph != hp && h.Length < SizeTModulus && Consistent(State())
    }

    /** HeapSim(capacity): three zeroed vectors of that size, no elements. */
    constructor (capacity: nat)
      requires capacity < SizeTModulus
      ensures Valid() && State() == Init(capacity)
      ensures fresh(h) && fresh(ph) && fresh(hp)
    {
      h := new int[capacity](_ => 0);
      ph := new int[capacity](_ => 0);
      hp := new int[capacity](_ => 0);
      cnt := 0;
      new;
      assert State() == Init(capacity);
    }

    method HeapSwap(a: int, b: int)
      requires h != ph && h != hp && ph != hp && Sized(State())
      requires 0 <= a < h.Length && 0 <= b < h.Length
      modifies h, ph, hp
      ensures State() == HeapSwapF(old(State()), a, b)
    {
      var ka, kb := hp[a], hp[b];
      var t := ph[ka];
      ph[ka] := ph[kb];
      ph[kb] := t;
      t := hp[a];
      hp[a] := hp[b];
      hp[b] := t;
      t := h[a];
      h[a] := h[b];
      h[b] := t;
    }

    method Up(u0: int)
      requires h != ph && h != hp && ph != hp && Sized(State())
      requires 0 <= u0 < h.Length
      modifies h, ph, hp
      ensures State() == UpF(old(State()), u0)
    {
      var u := u0;
      while u / 2 != 0 && h[u] < h[u / 2]
        invariant 0 <= u < h.Length && Sized(State())
        invariant UpF(State(), u) == UpF(old(State()), u0)
        decreases u
      {
        HeapSwap(u, u / 2);
        u := u / 2;
      }
    }

    method Down(u: int)
      requires h != ph && h != hp && ph != hp && Sized(State())
      requires 0 <= u < h.Length
      modifies h, ph, hp
      ensures State() == DownF(old(State()), u)
      decreases h.Length - u
    {
      ghost var st := State();
      var t := u;
      if u * 2 <= cnt && h[u * 2] < h[t] {
        t := u * 2;
      }
      if u * 2 + 1 <= cnt && h[u * 2 + 1] < h[t] {
        t := u * 2 + 1;
      }
      assert t == DownTarget(st, u);
      if u != t {
        HeapSwap(u, t);
        Down(t);
        assert DownF(st, u) == DownF(HeapSwapF(st, u, t), t);
      }
    }

    /**
     * push(k, x): false for a key outside [0, ph.size()); otherwise k's
     * value is stored. The caller must not push a key that already has a
     * value, nor push past the capacity: push checks neither.
     */
    method Push(k: int, x: int) returns (ok: bool)
      requires Valid()
      requires 0 <= k < ph.Length ==> !Live(State(), k) && cnt + 1 < h.Length
      modifies this, h, ph, hp
      ensures Valid()
      ensures ok <==> 0 <= k < ph.Length
      ensures ok ==> State() == PushF(old(State()), k, x)
      ensures ok ==> Contents(State()) == Contents(old(State()))[k := x] && cnt == old(cnt) + 1
      ensures !ok ==> State() == old(State())
    {
      if k < 0 || k >= ph.Length {
        return false;
      }
      ghost var st := State();
      PushKeeps(st, k, x);
      cnt := cnt + 1;
      ph[k] := cnt;
      hp[cnt] := k;
      h[cnt] := x;
      assert State() == PushStart(st, k, x);
      Up(cnt);
      assert State() == PushF(st, k, x);
      return true;
    }

    /**
     * remove(k): false for a key out of range or whose slot is 0; otherwise
     * k's value is deleted, and k's slot is left pointing past the live
     * slots. A non-zero slot must belong to a live key: the source does not
     * tell a removed key's stale slot from a live one.
     */
    method Remove(k: int) returns (ok: bool)
      requires Valid()
      requires 0 <= k < ph.Length && ph[k] != 0 ==> Live(State(), k)
      modifies this, h, ph, hp
      ensures Valid()
      ensures ok <==> 0 <= k < ph.Length && old(ph[k]) != 0
      ensures ok <==> k in Contents(old(State()))
      ensures ok ==> State() == RemoveAsWrittenF(old(State()), k)
      ensures ok ==> Contents(State()) == Contents(old(State())) - {k} && cnt == old(cnt) - 1
      ensures ok ==> ph[k] == old(cnt)
      ensures !ok ==> State() == old(State())
    {
      if k < 0 || k >= ph.Length || ph[k] == 0 {
        return false;
      }
      ghost var st := State();
      assert k in Contents(st);
      RemoveAsWrittenKeeps(st, k);
      RemoveLeavesSlot(st, k);
      var j := ph[k];
      HeapSwap(j, cnt);
      cnt := cnt - 1;
      assert State() == DropSlot(st, k);
      Up(j);
      Down(j);
      assert State() == RemoveAsWrittenF(st, k);
      return true;
    }

    /**
     * modify(k, x): false for a key out of range or whose slot is 0;
     * otherwise k's value becomes x. As for remove, a non-zero slot must
     * belong to a live key.
     */
    method Modify(k: int, x: int) returns (ok: bool)
      requires Valid()
      requires 0 <= k < ph.Length && ph[k] != 0 ==> Live(State(), k)
      modifies h, ph, hp
      ensures Valid()
      ensures ok <==> 0 <= k < ph.Length && old(ph[k]) != 0
      ensures ok <==> k in Contents(old(State()))
      ensures ok ==> State() == ModifyF(old(State()), k, x)
      ensures ok ==> Contents(State()) == Contents(old(State()))[k := x]
      ensures !ok ==> State() == old(State())
    {
      if k < 0 || k >= ph.Length || ph[k] == 0 {
        return false;
      }
      ghost var st := State();
      assert k in Contents(st);
      ModifyKeeps(st, k, x);
      h[ph[k]] := x;
      assert State() == st.(h := st.h[st.ph[k] := x]);
      Up(ph[k]);
      Down(ph[k]);
      assert State() == ModifyF(st, k, x);
      return true;
    }

    /** getMin(x): false on an empty heap; otherwise the least stored value. */
    method GetMin() returns (ok: bool, x: int)
      requires Valid()
      ensures ok <==> Contents(State()) != map[]
      ensures ok ==> x in Contents(State()).Values
      ensures ok ==> forall k | k in Contents(State()) :: x <= Contents(State())[k]
    {
      ghost var st := State();
      if cnt == 0 {
        assert Contents(st) == map[];
        return false, 0;
      }
      x := h[1];
      assert Live(st, st.hp[1]);
      assert Contents(st)[st.hp[1]] == x;
      forall k | k in Contents(st)
        ensures x <= Contents(st)[k]
      {
        RootLeast(st.h, st.cnt, st.ph[k]);
      }
      return true, x;
    }

    /** empty(): true iff no key has a value. */
    method Empty() returns (e: bool)
      requires Valid()
      ensures e <==> cnt == 0
      ensures e <==> Contents(State()) == map[]
    {
      ContentsCount(State());
      return cnt == 0;
    }

    /** size(): the number of keys with a value. */
    method Size() returns (n: int)
      requires Valid()
      ensures n == cnt
      ensures n == |Contents(State()).Keys|
    {
      ContentsCount(State());
      return cnt;
    }

    /** capacity(): h.size() - 1 in size_t, so a heap built with capacity 0 reports the largest size_t. */
    method Capacity() returns (c: nat)
      requires Valid()
      ensures c < SizeTModulus
      ensures h.Length > 0 ==> c == h.Length - 1
      ensures h.Length == 0 ==> c == SizeTModulus - 1
    {
      return (h.Length - 1) % SizeTModulus;
    }
  }
}
