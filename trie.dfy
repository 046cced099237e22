/**
 * Trie of Trie/Trie.hpp: a tree of nodes, each with a map from a character
 * to a child and a count of the strings that end there. Here the nodes live
 * in an arena: node k is children[k] (its child map, child nodes named by
 * index) and count[k]; the root is node 0. The ghost sequence path names the
 * string that spells each node, and the ghost multiset bag is every string
 * inserted so far, so that query(s) can be stated as bag[s].
 */
module Trie {

  datatype Option<T> = None | Some(value: T)

  /** Following s from node m through the child maps: the node reached, or None when a character has no child. */
  ghost function Walk(children: seq<map<char, int>>, m: int, s: string): Option<int>
    requires Arena(children) && 0 <= m < |children|
    decreases |s|
  {
    if s == [] then Some(m)
    else if s[0] in children[m] then Walk(children, children[m][s[0]], s[1..])
    else None
  }

  /** Every child index names a later node of the arena. */
  ghost predicate Arena(children: seq<map<char, int>>)
  {
    forall k, c | 0 <= k < |children| && c in children[k] :: k < children[k][c] < |children|
  }

  /**
   * The arena is a trie spelled by path: the root spells the empty string,
   * the child of k under c spells path[k] + [c], and walking a node's string
   * from the root reaches that node.
   */
  ghost predicate Spelled(children: seq<map<char, int>>, path: seq<string>)
  {
    Arena(children) && |path| == |children| >= 1 && path[0] == [] &&
    (forall k, c | 0 <= k < |children| && c in children[k] :: path[children[k][c]] == path[k] + [c]) &&
    (forall k | 0 <= k < |path| :: Walk(children, 0, path[k]) == Some(k))
  }

  /** Each node counts the insertions of its own string, and every inserted string has a node. */
  ghost predicate Counted(count: seq<int>, path: seq<string>, bag: multiset<string>)
  {
    |count| == |path| &&
    (forall k | 0 <= k < |count| :: count[k] == bag[path[k]]) &&
    (forall s | s in bag :: s in path)
  }

  /** The node a walk reaches spells the walk's start followed by the string walked. */
  lemma {:induction false} WalkSpells(children: seq<map<char, int>>, path: seq<string>, m: int, s: string)
    requires Spelled(children, path) && 0 <= m < |children|
    requires Walk(children, m, s).Some?
    ensures 0 <= Walk(children, m, s).value < |path|
    ensures path[Walk(children, m, s).value] == path[m] + s
    decreases |s|
  {
    if s == [] {
      assert path[m] + s == path[m];
    } else {
      var n := children[m][s[0]];
      WalkSpells(children, path, n, s[1..]);
      assert path[m] + s == (path[m] + [s[0]]) + s[1..];
    }
  }

  /** A walk of t + u goes through the node t reaches. */
  lemma {:induction false} WalkAppend(children: seq<map<char, int>>, m: int, t: string, u: string)
    requires Arena(children) && 0 <= m < |children|
    requires Walk(children, m, t).Some?
    ensures 0 <= Walk(children, m, t).value < |children|
    ensures Walk(children, m, t + u) == Walk(children, Walk(children, m, t).value, u)
    decreases |t|
  {
    if t == [] {
      assert t + u == u;
    } else {
      assert (t + u)[0] == t[0] && (t + u)[1..] == t[1..] + u;
      WalkAppend(children, children[m][t[0]], t[1..], u);
    }
  }

  /** Adding a child under a character that had none keeps every walk that used to succeed. */
  lemma {:induction false} WalkGrow(children: seq<map<char, int>>, children': seq<map<char, int>>, k: int, c: char, m: int, s: string)
    requires Arena(children) && 0 <= k < |children| && c !in children[k]
    requires children' == children[k := children[k][c := |children|]] + [map[]]
    requires 0 <= m < |children| && Walk(children, m, s).Some?
    ensures Arena(children')
    ensures Walk(children', m, s) == Walk(children, m, s)
    decreases |s|
  {
    GrowArena(children, children', k, c);
    if s != [] {
      assert children'[m] == if m == k then children[k][c := |children|] else children[m];
      WalkGrow(children, children', k, c, children[m][s[0]], s[1..]);
    }
  }

  lemma GrowArena(children: seq<map<char, int>>, children': seq<map<char, int>>, k: int, c: char)
    requires Arena(children) && 0 <= k < |children| && c !in children[k]
    requires children' == children[k := children[k][c := |children|]] + [map[]]
    ensures Arena(children')
  {
    forall j, d | 0 <= j < |children'| && d in children'[j]
      ensures j < children'[j][d] < |children'|
    {
      if j < |children| && !(j == k && d == c) {
        assert children'[j][d] == children[j][d];
      }
    }
  }

  /** Adding node |children| as the child of k under c, spelling path[k] + [c], keeps the arena a trie. */
  lemma GrowSpelled(children: seq<map<char, int>>, path: seq<string>, k: int, c: char, children': seq<map<char, int>>, path': seq<string>)
    requires Spelled(children, path) && 0 <= k < |children| && c !in children[k]
    requires children' == children[k := children[k][c := |children|]] + [map[]]
    requires path' == path + [path[k] + [c]]
    ensures Spelled(children', path')
  {
    GrowArena(children, children', k, c);
    forall j, d | 0 <= j < |children'| && d in children'[j]
      ensures path'[children'[j][d]] == path'[j] + [d]
    {
      if j < |children| && !(j == k && d == c) {
        assert children'[j][d] == children[j][d];
      }
    }
    forall j | 0 <= j < |path'|
      ensures Walk(children', 0, path'[j]) == Some(j)
    {
      if j < |path| {
        WalkGrow(children, children', k, c, 0, path[j]);
      } else {
        WalkGrow(children, children', k, c, 0, path[k]);
        WalkAppend(children', 0, path[k], [c]);
        assert children'[k] == children[k][c := |children|];
        assert Walk(children', k, [c]) == Walk(children', |children|, []);
      }
    }
  }

  /** A string no walk reaches spells no node, so no insertion of it is counted. */
  lemma Unreached(children: seq<map<char, int>>, path: seq<string>, count: seq<int>, bag: multiset<string>, s: string)
    requires Spelled(children, path) && Counted(count, path, bag)
    requires Walk(children, 0, s).None?
    ensures bag[s] == 0
  {
    forall j | 0 <= j < |path|
      ensures path[j] != s
    {
      assert Walk(children, 0, path[j]) == Some(j);
    }
  }

  /** Adding a fresh node for path[k] + [c], a string with no node yet, keeps the trie and its counts, the new node counting 0. */
  lemma GrowStep(children: seq<map<char, int>>, path: seq<string>, count: seq<int>, bag: multiset<string>, k: int, c: char,
                 children': seq<map<char, int>>, path': seq<string>, count': seq<int>)
    requires Spelled(children, path) && Counted(count, path, bag) && 0 <= k < |children| && c !in children[k]
    requires children' == children[k := children[k][c := |children|]] + [map[]]
    requires path' == path + [path[k] + [c]]
    requires count' == count + [0]
    ensures Spelled(children', path') && Counted(count', path', bag)
  {
    GrowSpelled(children, path, k, c, children', path');
    WalkAppend(children, 0, path[k], [c]);
    Unreached(children, path, count, bag, path[k] + [c]);
  }

  /** Following the next character of str from the node that spells its first i characters reaches the node spelling i + 1. */
  lemma Descend(children: seq<map<char, int>>, path: seq<string>, node: int, str: string, i: int)
    requires Spelled(children, path) && 0 <= node < |children| && 0 <= i < |str|
    requires path[node] == str[..i] && str[i] in children[node]
    ensures 0 <= children[node][str[i]] < |children| && path[children[node][str[i]]] == str[..i + 1]
  {
    assert str[..i + 1] == str[..i] + [str[i]];
  }

  /** One more insertion of the string node spells adds one to that node's count and to no other. */
  lemma BumpStep(children: seq<map<char, int>>, path: seq<string>, count: seq<int>, bag: multiset<string>, node: int,
                 count': seq<int>, bag': multiset<string>)
    requires Spelled(children, path) && Counted(count, path, bag) && 0 <= node < |path|
    requires count' == count[node := count[node] + 1] && bag' == bag + multiset{path[node]}
    ensures Counted(count', path, bag')
  {
    forall k | 0 <= k < |count'|
      ensures count'[k] == bag'[path[k]]
    {
      if k != node {
        assert Walk(children, 0, path[k]) == Some(k);
      }
    }
  }

  class Trie {
    var children: seq<map<char, int>>
    var count: seq<int>
    ghost var path: seq<string>
    ghost var bag: multiset<string>

    /** The arena is a trie spelled by path, and the counts are the insertions of each node's string. */
    ghost predicate Valid()
      reads this
    {
      Spelled(children, path) && Counted(count, path, bag)
    }

    /** Trie(): the root alone, with count 0. */
    constructor ()
      ensures Valid() && bag == multiset{}
    {
      children := [map[]];
      count := [0];
      path := [[]];
      bag := multiset{};
    }

    /**
     * insert(str): walk down from the root, adding a fresh child wherever a
     * character has none, then add one to the count of the node reached.
     */
    method Insert(str: string)
      requires Valid()
      modifies this
      ensures Valid() && bag == old(bag) + multiset{str}
    {
      var node := 0;
      var i := 0;
      while i < |str|
        invariant 0 <= i <= |str| && Valid() && bag == old(bag)
        invariant 0 <= node < |children| && path[node] == str[..i]
      {
        node := Child(node, str, i);
        i := i + 1;
      }
      assert str[..i] == str;
      Bump(node);
    }

    /** The end of insert: one more insertion of the string node spells. */
    method Bump(node: int)
      requires Valid() && 0 <= node < |children|
      modifies this
      ensures Valid() && bag == old(bag) + multiset{old(path)[node]}
      ensures children == old(children) && path == old(path)
    {
      ghost var ct, b := count, bag;
      count := count[node := count[node] + 1];
      bag := bag + multiset{path[node]};
      BumpStep(children, path, ct, b, node, count, bag);
    }

    /** One step of insert's walk: the child of node under str[i], made fresh (counting 0) when there was none. */
    method Child(node: int, str: string, i: int) returns (next: int)
      requires Valid() && 0 <= node < |children| && 0 <= i < |str| && path[node] == str[..i]
      modifies this
      ensures Valid() && bag == old(bag)
      ensures 0 <= next < |children| && path[next] == str[..i + 1]
    {
      var c := str[i];
      if c !in children[node] {
        ghost var ch, ps, ct := children, path, count;
        children := children[node := children[node][c := |children|]] + [map[]];
        count := count + [0];
        path := path + [path[node] + [c]];
        GrowStep(ch, ps, ct, bag, node, c, children, path, count);
      }
      Descend(children, path, node, str, i);
      next := children[node][c];
    }

    /** query(str): walk down from the root; 0 when a character has no child, otherwise the count of the node reached. */
    method Query(str: string) returns (r: int)
      requires Valid()
      ensures r == bag[str]
    {
      var node := 0;
      var i := 0;
      while i < |str|
        invariant 0 <= i <= |str| && 0 <= node < |children|
        invariant Walk(children, 0, str) == Walk(children, node, str[i..])
      {
        var c := str[i];
        if c !in children[node] {
          Unreached(children, path, count, bag, str);
          return 0;
        }
        node := children[node][c];
        i := i + 1;
      }
      assert str[i..] == [];
      assert Walk(children, node, str[i..]) == Some(node);
      WalkSpells(children, path, 0, str);
      assert path[0] + str == str;
      return count[node];
    }
  }

  /**
   * The unit test's insert-and-query run: "hello" twice and "world" once
   * are counted as 2 and 1, and the prefixes "hel" and "worl", never
   * inserted themselves, as 0.
   */
  method InsertQueryExample() returns (hello: int, world: int, hel: int, worl: int)
    ensures hello == 2 && world == 1 && hel == 0 && worl == 0
  {
    var t := new Trie();
    ghost var b0 := t.bag;
    t.Insert("hello");
    ghost var b1 := t.bag;
    t.Insert("hello");
    ghost var b2 := t.bag;
    t.Insert("world");
    HelloWorldCounts(b0, b1, b2, t.bag);
    hello := t.Query("hello");
    world := t.Query("world");
    hel := t.Query("hel");
    worl := t.Query("worl");
  }

  /** The counts after the test's three insertions into an empty trie. */
  lemma HelloWorldCounts(b0: multiset<string>, b1: multiset<string>, b2: multiset<string>, b3: multiset<string>)
    requires b0 == multiset{}
    requires b1 == b0 + multiset{"hello"} && b2 == b1 + multiset{"hello"} && b3 == b2 + multiset{"world"}
    ensures b3["hello"] == 2 && b3["world"] == 1 && b3["hel"] == 0 && b3["worl"] == 0
  {
    assert "hello" != "world" && "hel" != "hello" && "hel" != "world";
    assert "worl" != "hello" && "worl" != "world";
  }

  /** The unit test's empty-string cases: a fresh trie counts the empty string 0, and 1 once it is inserted. */
  method EmptyStringExample() returns (before: int, after: int)
    ensures before == 0 && after == 1
  {
    var t := new Trie();
    before := t.Query("");
    t.Insert("");
    after := t.Query("");
  }
}
