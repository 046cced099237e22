/**
 * LinkedListSim<int, N> of LinearList/LinkedListSim/LinkedListSim.hpp: a
 * singly linked list simulated in two vectors of N slots, data and next,
 * where next holds a slot index and -1 ends the chain. Slot 0 is never
 * handed out; new slots come from firstFree, which only grows until clear,
 * so removed slots are not reused and at most N-1 elements ever fit between
 * two clears. Positions are 1-based.
 *
 * The ghost sequence nodes lists the slots of the chain from head on and
 * elems their data; Valid() ties both to head, next, data and length.
 */
module LinkedListSim {
  import opened Errors
  import opened Sequences

  /** The message of the runtime_error thrown when no slot is left. */
  const NoSpace := "No space available"

  /** Following next from head visits the slots of nodes in order and then reaches -1. */
  ghost predicate Links(next: seq<int>, head: int, nodes: seq<int>)
  {
    (forall i | 0 <= i < |nodes| :: 0 <= nodes[i] < |next|) &&
    head == (if |nodes| == 0 then -1 else nodes[0]) &&
    (forall i | 0 <= i < |nodes| - 1 :: next[nodes[i]] == nodes[i + 1]) &&
    (|nodes| > 0 ==> next[nodes[|nodes| - 1]] == -1)
  }

  /** No slot appears twice. */
  ghost predicate Distinct(nodes: seq<int>)
  {
    forall i, j | 0 <= i < j < |nodes| :: nodes[i] != nodes[j]
  }

  /**
   * The list held in data and next: nodes lists the chain's slots from head
   * on, each in [1, firstFree) and each once, and elems is their data. No
   * more elements than slots handed out.
   */
  ghost predicate Chain(data: seq<int>, next: seq<int>, head: int, firstFree: int, nodes: seq<int>, elems: seq<int>)
  {
    |data| == |next| && 1 <= firstFree <= |next| &&
    |nodes| <= firstFree - 1 && |elems| == |nodes| &&
    (forall i | 0 <= i < |nodes| :: 1 <= nodes[i] < firstFree) &&
    Distinct(nodes) && Links(next, head, nodes) &&
    (forall i | 0 <= i < |nodes| :: data[nodes[i]] == elems[i])
  }

  /** Writing the next entry of a slot outside the chain leaves the chain as it was. */
  lemma LinksOffChain(next: seq<int>, head: int, nodes: seq<int>, q: int, v: int)
    requires Links(next, head, nodes) && 0 <= q < |next|
    requires forall i | 0 <= i < |nodes| :: nodes[i] != q
    ensures Links(next[q := v], head, nodes)
  {
  }

  /** Handing out slot firstFree keeps the chain. */
  lemma ChainGrow(data: seq<int>, next: seq<int>, head: int, ff: int, nodes: seq<int>, elems: seq<int>)
    requires Chain(data, next, head, ff, nodes, elems) && ff < |next|
    ensures Chain(data, next, head, ff + 1, nodes, elems)
  {
  }

  /** insertHead's update: the new slot ff, holding e and pointing at the old head, starts the chain. */
  lemma ChainPush(data: seq<int>, next: seq<int>, head: int, ff: int, nodes: seq<int>, elems: seq<int>, e: int,
                  data': seq<int>, next': seq<int>, nodes': seq<int>, elems': seq<int>)
    requires Chain(data, next, head, ff, nodes, elems) && ff < |next|
    requires data' == data[ff := e] && next' == next[ff := head] && nodes' == [ff] + nodes && elems' == [e] + elems
    ensures Chain(data', next', ff, ff + 1, nodes', elems')
  {
    forall i | 0 <= i < |nodes'| - 1
      ensures next'[nodes'[i]] == nodes'[i + 1]
    {
      if i > 0 {
        assert nodes'[i] == nodes[i - 1] && nodes'[i + 1] == nodes[i];
      }
    }
  }

  /** append's update on an empty chain: the new slot ff, holding e and ending in -1, becomes the head. */
  lemma ChainAppendFirst(data: seq<int>, next: seq<int>, ff: int, e: int, data': seq<int>, next': seq<int>)
    requires Chain(data, next, -1, ff, [], []) && ff < |next|
    requires data' == data[ff := e] && next' == next[ff := -1]
    ensures Chain(data', next', ff, ff + 1, [ff], [e])
  {
  }

  /** append's update: the new slot ff, holding e and ending in -1, is linked after the last slot. */
  lemma ChainAppendLast(data: seq<int>, next: seq<int>, head: int, ff: int, nodes: seq<int>, elems: seq<int>, e: int,
                        data': seq<int>, next': seq<int>, nodes': seq<int>, elems': seq<int>)
    requires Chain(data, next, head, ff, nodes, elems) && ff < |next| && nodes != []
    requires data' == data[ff := e] && nodes' == nodes + [ff] && elems' == elems + [e]
    requires next' == next[ff := -1][nodes[|nodes| - 1] := ff]
    ensures Chain(data', next', head, ff + 1, nodes', elems')
  {
    forall i | 0 <= i < |nodes'|
      ensures data'[nodes'[i]] == elems'[i]
    {
    }
    forall i | 0 <= i < |nodes'| - 1
      ensures next'[nodes'[i]] == nodes'[i + 1]
    {
    }
  }

  /** insert's update for position k+1 >= 2: the new slot ff, holding e, is linked after slot nodes[k-1]. */
  lemma ChainInsert(data: seq<int>, next: seq<int>, head: int, ff: int, nodes: seq<int>, elems: seq<int>, k: int, e: int,
                    data': seq<int>, next': seq<int>, nodes': seq<int>, elems': seq<int>)
    requires Chain(data, next, head, ff, nodes, elems) && ff < |next| && 1 <= k <= |nodes|
    requires data' == data[ff := e] && next' == next[ff := next[nodes[k - 1]]][nodes[k - 1] := ff]
    requires nodes' == nodes[..k] + [ff] + nodes[k..] && elems' == elems[..k] + [e] + elems[k..]
    ensures Chain(data', next', head, ff + 1, nodes', elems')
  {
    InsertLinks(next, head, nodes, k, ff, next', nodes');
    forall i | 0 <= i < |nodes'|
      ensures 1 <= nodes'[i] < ff + 1 && data'[nodes'[i]] == elems'[i]
    {
      if i < k {
        assert nodes'[i] == nodes[i] && elems'[i] == elems[i];
      } else if i > k {
        assert nodes'[i] == nodes[i - 1] && elems'[i] == elems[i - 1];
      }
    }
  }

  /** Linking slot ff, absent from the chain, in after its k-th slot gives a chain with ff at index k, all slots still distinct. */
  lemma InsertLinks(next: seq<int>, head: int, nodes: seq<int>, k: int, ff: int, next': seq<int>, nodes': seq<int>)
    requires Links(next, head, nodes) && Distinct(nodes) && 1 <= k <= |nodes| && 0 <= ff < |next|
    requires forall i | 0 <= i < |nodes| :: nodes[i] != ff
    requires next' == next[ff := next[nodes[k - 1]]][nodes[k - 1] := ff]
    requires nodes' == nodes[..k] + [ff] + nodes[k..]
    ensures Links(next', head, nodes') && Distinct(nodes')
  {
    DistinctInsert(nodes, k, ff, nodes');
    assert forall i | 0 <= i < |nodes'| :: nodes'[i] == if i < k then nodes[i] else if i == k then ff else nodes[i - 1];
    forall i | 0 <= i < |nodes'| - 1
      ensures next'[nodes'[i]] == nodes'[i + 1]
    {
      if i < k - 1 {
        assert nodes[i] != nodes[k - 1];
      } else if i > k {
        assert nodes[i - 1] != nodes[k - 1];
      }
    }
    if k < |nodes| {
      assert nodes[|nodes| - 1] != nodes[k - 1];
    }
  }

  /**
   * remove's update for element k+1: once the links of the shorter chain
   * hold, its slots and data are those of the chain without element k+1.
   */
  lemma ChainRemove(data: seq<int>, next: seq<int>, head: int, ff: int, nodes: seq<int>, elems: seq<int>, k: int,
                    next': seq<int>, head': int, nodes': seq<int>, elems': seq<int>)
    requires Chain(data, next, head, ff, nodes, elems) && 0 <= k < |nodes| && |next'| == |next|
    requires nodes' == nodes[..k] + nodes[k + 1..] && elems' == elems[..k] + elems[k + 1..]
    requires Links(next', head', nodes') && Distinct(nodes')
    ensures Chain(data, next', head', ff, nodes', elems')
  {
    forall i | 0 <= i < |nodes'|
      ensures 1 <= nodes'[i] < ff && data[nodes'[i]] == elems'[i]
    {
      if i < k {
        assert nodes'[i] == nodes[i] && elems'[i] == elems[i];
      } else {
        assert nodes'[i] == nodes[i + 1] && elems'[i] == elems[i + 1];
      }
    }
  }

  /** Unlinking the first slot: the head moves to its successor and its next becomes -1. */
  lemma RemoveFirstLinks(next: seq<int>, head: int, nodes: seq<int>, next': seq<int>, head': int, nodes': seq<int>)
    requires Links(next, head, nodes) && Distinct(nodes) && 0 < |nodes|
    requires next' == next[nodes[0] := -1] && head' == next[head] && nodes' == nodes[..0] + nodes[1..]
    ensures Links(next', head', nodes')
  {
    assert nodes' == nodes[1..];
    TailLinks(next, head, nodes, head');
    LinksOffChain(next, head', nodes', nodes[0], -1);
  }

  /** The chain after its first slot starts at that slot's next. */
  lemma TailLinks(next: seq<int>, head: int, nodes: seq<int>, head': int)
    requires Links(next, head, nodes) && Distinct(nodes) && |nodes| > 0 && head' == next[head]
    ensures Links(next, head', nodes[1..])
    ensures forall i | 0 <= i < |nodes| - 1 :: nodes[1..][i] != nodes[0]
  {
  }

  /** Adding a slot that is not in the chain keeps the slots distinct. */
  lemma DistinctInsert(nodes: seq<int>, k: int, ff: int, nodes': seq<int>)
    requires Distinct(nodes) && 0 <= k <= |nodes| && nodes' == nodes[..k] + [ff] + nodes[k..]
    requires forall i | 0 <= i < |nodes| :: nodes[i] != ff
    ensures Distinct(nodes')
  {
    assert forall i | 0 <= i < |nodes'| :: nodes'[i] == if i < k then nodes[i] else if i == k then ff else nodes[i - 1];
  }

  /** Dropping one slot keeps the rest distinct. */
  lemma DistinctRemove(nodes: seq<int>, k: int, nodes': seq<int>)
    requires Distinct(nodes) && 0 <= k < |nodes| && nodes' == nodes[..k] + nodes[k + 1..]
    ensures Distinct(nodes')
  {
    assert forall i | 0 <= i < |nodes'| :: nodes'[i] == if i < k then nodes[i] else nodes[i + 1];
  }

  /** Unlinking the k-th slot, k >= 1, by pointing slot k-1 past it. */
  lemma RemoveLaterLinks(next: seq<int>, head: int, nodes: seq<int>, k: int, next': seq<int>, nodes': seq<int>)
    requires Links(next, head, nodes) && Distinct(nodes) && 1 <= k < |nodes|
    requires next' == next[nodes[k - 1] := next[nodes[k]]][nodes[k] := -1]
    requires nodes' == nodes[..k] + nodes[k + 1..]
    ensures Links(next', head, nodes')
  {
    assert forall i | 0 <= i < |nodes'| :: nodes'[i] == if i < k then nodes[i] else nodes[i + 1];
    forall i | 0 <= i < |nodes'| - 1
      ensures next'[nodes'[i]] == nodes'[i + 1]
    {
      if i < k - 1 {
        assert nodes[i] != nodes[k] && nodes[i] != nodes[k - 1];
      } else if i == k - 1 {
        assert nodes[k - 1] != nodes[k];
      } else {
        assert nodes[i + 1] != nodes[k] && nodes[i + 1] != nodes[k - 1];
      }
    }
    if k < |nodes| - 1 {
      assert nodes[|nodes| - 1] != nodes[k] && nodes[|nodes| - 1] != nodes[k - 1];
    } else {
      assert nodes[k - 1] != nodes[k];
    }
  }

  /** set's update: slot nodes[k] holds e. */
  lemma ChainSet(data: seq<int>, next: seq<int>, head: int, ff: int, nodes: seq<int>, elems: seq<int>, k: int, e: int,
                 data': seq<int>, elems': seq<int>)
    requires Chain(data, next, head, ff, nodes, elems) && 0 <= k < |nodes|
    requires data' == data[nodes[k] := e] && elems' == elems[k := e]
    ensures Chain(data', next, head, ff, nodes, elems')
  {
  }

  class LinkedListSim {
    const n: int
    var data: seq<int>
    var next: seq<int>
    var head: int
    var firstFree: int
    var length: int
    ghost var nodes: seq<int>
    ghost var elems: seq<int>

    /** The fields hold the chain nodes with data elems, length counts it, and both vectors have N slots. */
    ghost predicate Valid()
      reads this
    {
      |data| == n && length == |nodes| && Chain(data, next, head, firstFree, nodes, elems)
    }

    /** The constructor: N slots of data, every next -1, head -1, firstFree 1 and length 0. */
    constructor (size: int)
      requires size >= 1
      ensures Valid() && n == size && elems == [] && firstFree == 1
    {
      n := size;
      data := seq(size, _ => 0);
      next := seq(size, _ => -1);
      head := -1;
      firstFree := 1;
      length := 0;
      nodes := [];
      elems := [];
    }

    /** getNewNode(): runtime_error when firstFree has reached N; otherwise firstFree, which then grows by one. */
    method GetNewNode() returns (r: Result<int>)
      requires Valid()
      modifies this`firstFree
      ensures r.Err? <==> old(firstFree) >= n
      ensures r.Err? ==> r.error == RuntimeError(NoSpace) && firstFree == old(firstFree)
      ensures r.Ok? ==> r.value == old(firstFree) && firstFree == old(firstFree) + 1
      ensures Valid()
    {
      if firstFree >= n {
        return Err(RuntimeError(NoSpace));
      }
      ChainGrow(data, next, head, firstFree, nodes, elems);
      var pos := firstFree;
      firstFree := firstFree + 1;
      return Ok(pos);
    }

    /** insertHead(element): a fresh slot holding element becomes the head; runtime_error when no slot is left. */
    method InsertHead(element: int) returns (r: Outcome)
      requires Valid()
      modifies this
      ensures Valid()
      ensures r.Fail? <==> old(firstFree) >= n
      ensures r.Fail? ==> r.error == RuntimeError(NoSpace) && elems == old(elems) && firstFree == old(firstFree)
      ensures r.Done? ==> elems == [element] + old(elems) && firstFree == old(firstFree) + 1
    {
      ghost var data0, next0, head0, nodes0, elems0 := data, next, head, nodes, elems;
      var got := GetNewNode();
      if got.Err? {
        return Fail(got.error);
      }
      var pos := got.value;
      data := data[pos := element];
      next := next[pos := head];
      head := pos;
      length := length + 1;
      nodes := [pos] + nodes;
      elems := [element] + elems;
      ChainPush(data0, next0, head0, pos, nodes0, elems0, element, data, next, nodes, elems);
      return Done;
    }

    /** append(element): false when firstFree has reached N; otherwise a fresh slot holding element ends the chain. */
    method Append(element: int) returns (ok: bool)
      requires Valid()
      modifies this
      ensures Valid()
      ensures ok <==> old(firstFree) < n
      ensures elems == if ok then old(elems) + [element] else old(elems)
      ensures firstFree == if ok then old(firstFree) + 1 else old(firstFree)
    {
      if firstFree >= n {
        return false;
      }
      ghost var data0, next0, head0, nodes0, elems0 := data, next, head, nodes, elems;
      var got := GetNewNode();
      var pos := got.value;
      data := data[pos := element];
      next := next[pos := -1];
      if head == -1 {
        head := pos;
      } else {
        LinksOffChain(next0, head, nodes, pos, -1);
        var p := LastSlot();
        next := next[p := pos];
      }
      length := length + 1;
      nodes := nodes + [pos];
      elems := elems + [element];
      if nodes0 == [] {
        ChainAppendFirst(data0, next0, pos, element, data, next);
      } else {
        ChainAppendLast(data0, next0, head0, pos, nodes0, elems0, element, data, next, nodes, elems);
      }
      return true;
    }

    /** append's walk: from head along next to the slot whose next is -1, the last of the chain. */
    method LastSlot() returns (p: int)
      requires Links(next, head, nodes) && |nodes| > 0
      ensures p == nodes[|nodes| - 1]
    {
      p := head;
      ghost var j := 0;
      while next[p] != -1
        invariant 0 <= j < |nodes| && p == nodes[j]
        invariant next[p] == if j < |nodes| - 1 then nodes[j + 1] else -1
        decreases |nodes| - j
      {
        p := next[p];
        j := j + 1;
      }
    }

    /** The walk of insert, remove, get and set: k steps along next from head reach the slot of element k+1. */
    method SlotAt(k: int) returns (p: int)
      requires Links(next, head, nodes) && 0 <= k < |nodes|
      ensures p == nodes[k]
    {
      p := head;
      for i := 0 to k
        invariant p == nodes[i]
      {
        p := next[p];
      }
    }

    /**
     * insert(index, element): false unless 1 <= index <= length+1;
     * otherwise element becomes element index (through insertHead when index
     * is 1), or runtime_error when no slot is left.
     */
    method Insert(index: int, element: int) returns (r: Result<bool>)
      requires Valid()
      modifies this
      ensures Valid()
      ensures r == Ok(false) <==> !(1 <= index <= old(length) + 1)
      ensures r.Err? <==> 1 <= index <= old(length) + 1 && old(firstFree) >= n
      ensures r.Err? ==> r.error == RuntimeError(NoSpace)
      ensures r == Ok(true) ==> elems == old(elems)[..index - 1] + [element] + old(elems)[index - 1..]
      ensures r == Ok(true) ==> firstFree == old(firstFree) + 1
      ensures r != Ok(true) ==> elems == old(elems) && firstFree == old(firstFree)
    {
      if index < 1 || index > length + 1 {
        return Ok(false);
      }
      if index == 1 {
        var o := InsertHead(element);
        if o.Fail? {
          return Err(o.error);
        }
        return Ok(true);
      }
      ghost var ff := firstFree;
      var got := GetNewNode();
      if got.Err? {
        return Err(got.error);
      }
      assert Chain(data, next, head, got.value, nodes, elems);
      LinkNew(index, got.value, element);
      return Ok(true);
    }

    /** The second half of insert for index >= 2: slot pos, just handed out, is linked in after element index-1. */
    method LinkNew(index: int, pos: int, element: int)
      requires Valid() && 2 <= index <= length + 1 && pos < |next|
      requires Chain(data, next, head, pos, nodes, elems) && firstFree == pos + 1
      modifies this`data, this`next, this`length, this`nodes, this`elems
      ensures Valid()
      ensures elems == old(elems)[..index - 1] + [element] + old(elems)[index - 1..]
    {
      ghost var data0, next0, nodes0, elems0 := data, next, nodes, elems;
      data := data[pos := element];
      var p := SlotAt(index - 2);
      next := next[pos := next[p]];
      next := next[p := pos];
      length := length + 1;
      nodes := nodes[..index - 1] + [pos] + nodes[index - 1..];
      elems := elems[..index - 1] + [element] + elems[index - 1..];
      ChainInsert(data0, next0, head, pos, nodes0, elems0, index - 1, element, data, next, nodes, elems);
    }

    /**
     * remove(index, element): false unless 1 <= index <= length; otherwise
     * element gets element index, whose slot leaves the chain with next -1
     * and is not reused.
     */
    method Remove(index: int, element: int) returns (ok: bool, removed: int)
      requires Valid()
      modifies this
      ensures Valid() && firstFree == old(firstFree)
      ensures ok <==> 1 <= index <= old(length)
      ensures ok ==> removed == old(elems)[index - 1] && elems == old(elems)[..index - 1] + old(elems)[index..]
      ensures !ok ==> removed == element && elems == old(elems)
    {
      if index < 1 || index > length {
        return false, element;
      }
      ghost var next0, head0, nodes0, elems0 := next, head, nodes, elems;
      var toDelete;
      if index == 1 {
        toDelete := head;
        head := next[head];
      } else {
        var p := SlotAt(index - 2);
        assert next[p] == nodes[index - 1];
        toDelete := next[p];
        next := next[p := next[toDelete]];
      }
      removed := data[toDelete];
      next := next[toDelete := -1];
      length := length - 1;
      nodes := nodes[..index - 1] + nodes[index..];
      elems := elems[..index - 1] + elems[index..];
      if index == 1 {
        RemoveFirstLinks(next0, head0, nodes0, next, head, nodes);
      } else {
        RemoveLaterLinks(next0, head0, nodes0, index - 1, next, nodes);
      }
      DistinctRemove(nodes0, index - 1, nodes);
      ChainRemove(data, next0, head0, firstFree, nodes0, elems0, index - 1, next, head, nodes, elems);
      return true, removed;
    }

    /** get(index, element): false unless 1 <= index <= length; otherwise element index. */
    method Get(index: int, element: int) returns (ok: bool, value: int)
      requires Valid()
      ensures ok <==> 1 <= index <= length
      ensures value == if ok then elems[index - 1] else element
    {
      if index < 1 || index > length {
        return false, element;
      }
      var p := SlotAt(index - 1);
      return true, data[p];
    }

    /** set(index, element): false unless 1 <= index <= length; otherwise element index becomes element. */
    method Set(index: int, element: int) returns (ok: bool)
      requires Valid()
      modifies this`data, this`elems
      ensures Valid()
      ensures ok <==> 1 <= index <= length
      ensures elems == if ok then old(elems)[index - 1 := element] else old(elems)
    {
      if index < 1 || index > length {
        return false;
      }
      var p := SlotAt(index - 1);
      ghost var data0, elems0 := data, elems;
      data := data[p := element];
      elems := elems[index - 1 := element];
      ChainSet(data0, next, head, firstFree, nodes, elems0, index - 1, element, data, elems);
      return true;
    }

    /** locate(element): the 1-based position of the first element equal to it, or 0. */
    method Locate(element: int) returns (r: int)
      requires Valid()
      ensures r == Position(elems, element)
    {
      var p := head;
      var index := 1;
      while p != -1
        invariant 1 <= index <= length + 1
        invariant p == if index <= length then nodes[index - 1] else -1
        invariant element !in elems[..index - 1]
        decreases length + 1 - index
      {
        if data[p] == element {
          PositionFirst(elems, element, index);
          return index;
        }
        assert elems[..index] == elems[..index - 1] + [elems[index - 1]];
        p := next[p];
        index := index + 1;
      }
      assert elems[..index - 1] == elems;
      return 0;
    }

    /** size() */
    method Size() returns (s: int)
      requires Valid()
      ensures s == |elems|
    {
      return length;
    }

    /** empty() */
    method Empty() returns (b: bool)
      requires Valid()
      ensures b <==> elems == []
    {
      return length == 0;
    }

    /** full(): no slot is left for a new element. */
    method Full() returns (b: bool)
      requires Valid()
      ensures b <==> firstFree >= n
    {
      return firstFree >= n;
    }

    /** clear(): head -1, firstFree 1, length 0 and every next -1, so all slots are free again. */
    method Clear()
      requires Valid()
      modifies this
      ensures Valid() && elems == [] && firstFree == 1
      ensures forall i | 0 <= i < n :: next[i] == -1
    {
      head := -1;
      firstFree := 1;
      length := 0;
      next := seq(n, _ => -1);
      nodes := [];
      elems := [];
    }
  }

  /** Head insertion of 3, 2 and 1 gives the list 1, 2, 3. */
  method HeadInsertionExample() returns (l: LinkedListSim)
    ensures l.Valid() && l.elems == [1, 2, 3]
  {
    l := new LinkedListSim(100000);
    var o := l.InsertHead(3);
    o := l.InsertHead(2);
    o := l.InsertHead(1);
  }

  /**
   * With N = 5 only four appends succeed: slot 0 is never used, so after
   * four elements the list is full and a fifth append returns false (the
   * repository's unit test counts capacity differently).
   */
  method CapacityExample() returns (fullAfterFour: bool, fifth: bool)
    ensures fullAfterFour && !fifth
  {
    var l := new LinkedListSim(5);
    var i := 1;
    while i <= 4
      invariant 1 <= i <= 5 && l.Valid() && l.n == 5 && l.firstFree == i
    {
      var ok := l.Append(i);
      i := i + 1;
    }
    fullAfterFour := l.Full();
    fifth := l.Append(5);
  }

  /** After clear, appends start from slot 1 again: two appends to any cleared list leave exactly those two elements. */
  method ClearExample(l: LinkedListSim)
    requires l.Valid() && l.n >= 3
    modifies l
    ensures l.Valid() && l.elems == [4, 5]
  {
    l.Clear();
    var ok := l.Append(4);
    ok := l.Append(5);
  }
}
