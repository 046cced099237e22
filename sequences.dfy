/**
 * Sequence facts shared by the containers: reversal, which the stack-based
 * traversals and the list reversals produce, and the first position of an
 * element, which the locate operations return.
 */
module Sequences {

  /** The sequence back to front: the order in which a stack pops what was pushed. */
  function Reverse<T>(s: seq<T>): (r: seq<T>)
    ensures |r| == |s|
  {
    if s == [] then [] else [s[|s| - 1]] + Reverse(s[..|s| - 1])
  }

  lemma {:induction false} ReverseAppend<T>(a: seq<T>, b: seq<T>)
    ensures Reverse(a + b) == Reverse(b) + Reverse(a)
    decreases |b|
  {
    if b == [] {
      assert a + b == a;
    } else {
      var front, x := b[..|b| - 1], b[|b| - 1];
      ReverseAppend(a, front);
      var ab := a + b;
      assert ab[..|ab| - 1] == a + front;
      assert ab[|ab| - 1] == x;
      assert Reverse(ab) == [x] + Reverse(a + front);
      assert Reverse(b) == [x] + Reverse(front);
      assert [x] + Reverse(front) + Reverse(a) == [x] + (Reverse(front) + Reverse(a));
    }
  }

  lemma ReverseSingle<T>(x: T)
    ensures Reverse([x]) == [x]
  {
    assert [x][..0] == [];
  }

  /** Element k of the reversal is element |s|-1-k of the sequence. */
  lemma {:induction false} ReverseAt<T>(s: seq<T>, k: int)
    requires 0 <= k < |s|
    ensures Reverse(s)[k] == s[|s| - 1 - k]
    decreases |s|
  {
    if k > 0 {
      ReverseAt(s[..|s| - 1], k - 1);
    }
  }

  /** Reversing twice gives the sequence back. */
  lemma ReverseReverse<T>(s: seq<T>)
    ensures Reverse(Reverse(s)) == s
  {
    forall k | 0 <= k < |s|
      ensures Reverse(Reverse(s))[k] == s[k]
    {
      ReverseAt(Reverse(s), k);
      ReverseAt(s, |s| - 1 - k);
    }
  }

  /**
   * The 1-based position of the first occurrence of x in s, or 0 when x does
   * not occur: what the locate operations of the lists return.
   */
  function Position<T(==)>(s: seq<T>, x: T): (p: nat)
    ensures p <= |s|
    ensures p == 0 <==> x !in s
    ensures p > 0 ==> s[p - 1] == x && x !in s[..p - 1]
  {
    if s == [] then 0
    else if s[0] == x then 1
    else
      var p := Position(s[1..], x);
      assert s[1..][..p] == s[1..p + 1];
      if p == 0 then 0 else p + 1
  }

  /** An occurrence with no earlier occurrence is the first one. */
  lemma PositionFirst<T>(s: seq<T>, x: T, p: int)
    requires 0 < p <= |s| && s[p - 1] == x && x !in s[..p - 1]
    ensures Position(s, x) == p
  {
  }
}
