/**
 * KmpMatcher of String/Kmp.cpp: the Knuth-Morris-Pratt matcher of a pattern
 * p in a text s. The constructor fills two tables over p: Partial_Match,
 * the length of the longest proper border of each prefix, and Next, the
 * "nextval" resume positions; match_withPM scans s with Partial_Match.
 *
 * A border of length k of the prefix p[..n] is a proper prefix of it that is
 * also a suffix of it.
 */
module Kmp {

  /** p[..k] is a proper border of p[..n]: 0 <= k < n and the first k characters equal the last k. */
  ghost predicate Border(p: string, n: int, k: int)
  {
    0 <= k < n <= |p| && p[..k] == p[n - k..n]
  }

  /** k is the longest proper border of p[..n]. */
  ghost predicate Longest(p: string, n: int, k: int)
  {
    Border(p, n, k) && forall j | k < j < n :: !Border(p, n, j)
  }

  /** No border of p[..n] is longer than now + 1. */
  ghost predicate Capped(p: string, n: int, now: int)
  {
    forall k | now + 1 < k < n :: !Border(p, n, k)
  }

  /**
   * Where to resume after a mismatch at p[x]: the longest border j of
   * p[..x] whose next character p[j] differs from p[x], or -1 when there is
   * none.
   */
  ghost predicate NextVal(p: string, x: int, v: int)
  {
    0 <= x < |p| && -1 <= v < x &&
    (v == -1 || (Border(p, x, v) && p[v] != p[x])) &&
    forall j | v < j < x :: Border(p, x, j) ==> p[j] == p[x]
  }

  /** Partial_Match: entry x is the longest proper border of p[..x+1]. */
  ghost predicate PartialMatchTable(p: string, pm: seq<int>)
  {
    |pm| == |p| && forall x | 0 <= x < |p| :: Longest(p, x + 1, pm[x])
  }

  /** Next: entry x is the nextval resume position for a mismatch at p[x]. */
  ghost predicate NextTable(p: string, nx: seq<int>)
  {
    |nx| == |p| && forall x | 0 <= x < |p| :: NextVal(p, x, nx[x])
  }

  /** The first n entries of t are right. */
  ghost predicate NextPrefix(p: string, t: seq<int>, n: int)
  {
    0 <= n <= |t| && forall y | 0 <= y < n :: NextVal(p, y, t[y])
  }

  /** Filling entry n rightly extends the right prefix by one. */
  lemma NextPrefixGrow(p: string, t: seq<int>, n: int, v: int)
    requires NextPrefix(p, t, n) && n < |t| && NextVal(p, n, v)
    ensures NextPrefix(p, t[n := v], n + 1)
  {
  }

  /** p occurs in s starting at index i. */
  ghost predicate Occurs(p: string, s: string, i: int)
  {
    0 <= i && i + |p| <= |s| && s[i..i + |p|] == p
  }

  // Border lemmas

  lemma BorderEmpty(p: string, n: int)
    requires 1 <= n <= |p|
    ensures Border(p, n, 0)
  {
    assert p[..0] == [] == p[n..n];
  }

  /** A border followed by the character after the prefix grows into a border one longer. */
  lemma BorderExtend(p: string, n: int, k: int)
    requires Border(p, n, k) && n < |p| && p[k] == p[n]
    ensures Border(p, n + 1, k + 1)
  {
    assert p[..k + 1] == p[..k] + [p[k]];
    assert p[n + 1 - (k + 1)..n + 1] == p[n - k..n] + [p[n]];
  }

  /** A non-empty border of p[..n+1] is a border of p[..n] followed by p[n]. */
  lemma BorderShrink(p: string, n: int, k: int)
    requires Border(p, n + 1, k) && k >= 1
    ensures Border(p, n, k - 1) && p[k - 1] == p[n]
  {
    assert p[..k] == p[..k - 1] + [p[k - 1]];
    assert p[n + 1 - k..n + 1] == p[n + 1 - k..n] + [p[n]];
    assert p[..k - 1] == p[..k][..k - 1];
    assert p[n + 1 - k..n] == p[n + 1 - k..n + 1][..k - 1];
  }

  /** Below a border of length m, the borders of p[..m] are exactly the borders of p[..n]. */
  lemma BorderOfBorder(p: string, n: int, m: int, j: int)
    requires Border(p, n, m) && 0 <= j < m
    ensures Border(p, m, j) <==> Border(p, n, j)
  {
    assert forall i | 0 <= i < m :: p[i] == p[n - m + i];
    if Border(p, m, j) {
      forall i | 0 <= i < j
        ensures p[i] == p[n - j + i]
      {
        assert p[i] == p[..j][i] == p[m - j..m][i] == p[m - j + i];
      }
      assert p[..j] == p[n - j..n];
    }
    if Border(p, n, j) {
      forall i | 0 <= i < j
        ensures p[i] == p[m - j + i]
      {
        assert p[i] == p[..j][i] == p[n - j..n][i] == p[n - j + i];
      }
      assert p[..j] == p[m - j..m];
    }
  }

  /** The longest border of p[..n] caps the borders of p[..n+1] at one more. */
  lemma CapFromLongest(p: string, n: int, m: int)
    requires Longest(p, n, m)
    ensures Capped(p, n + 1, m)
  {
    var n1 := n + 1;
    forall k | m + 1 < k < n1
      ensures !Border(p, n1, k)
    {
      if Border(p, n1, k) {
        BorderShrink(p, n, k);
      }
    }
  }

  /** A table entry the spec pins down: the longest border is unique. */
  lemma LongestUnique(p: string, n: int, a: int, b: int)
    requires Longest(p, n, a) && Longest(p, n, b)
    ensures a == b
  {
  }

  /** The nextval position is unique. */
  lemma NextValUnique(p: string, x: int, a: int, b: int)
    requires NextVal(p, x, a) && NextVal(p, x, b)
    ensures a == b
  {
  }

  // Steps of buildPartial_Match's loop

  /** p[now] == p[x]: now + 1 is the longest border of p[..x+1], and caps the next prefix. */
  lemma MatchStep(p: string, x: int, now: int)
    requires 1 <= x < |p| && 0 <= now && Border(p, x, now) && Capped(p, x + 1, now) && p[now] == p[x]
    ensures Longest(p, x + 1, now + 1) && Capped(p, x + 2, now + 1)
  {
    BorderExtend(p, x, now);
    CapFromLongest(p, x + 1, now + 1);
  }

  /** p[now] != p[x] and now > 0: the longest border v of p[..now] is a border of p[..x] that still caps. */
  lemma FallbackStep(p: string, x: int, now: int, v: int)
    requires 1 <= x < |p| && 0 < now && Border(p, x, now) && Capped(p, x + 1, now) && p[now] != p[x]
    requires Longest(p, now, v)
    ensures Border(p, x, v) && Capped(p, x + 1, v)
  {
    BorderOfBorder(p, x, now, v);
    var x1 := x + 1;
    forall k | v + 1 < k < x1
      ensures !Border(p, x1, k)
    {
      if Border(p, x1, k) {
        FallbackCap(p, x, now, v, k);
      }
    }
  }

  /** A border k of p[..x+1] after the fallback: k - 1 is a border of p[..now], so k is at most v + 1. */
  lemma FallbackCap(p: string, x: int, now: int, v: int, k: int)
    requires 1 <= x < |p| && 0 < now && Border(p, x, now) && Capped(p, x + 1, now) && p[now] != p[x]
    requires Longest(p, now, v) && Border(p, x + 1, k)
    ensures k <= v + 1
  {
    if k > v + 1 {
      BorderShrink(p, x, k);
      BorderOfBorder(p, x, now, k - 1);
    }
  }

  /** p[0] != p[x] with now == 0: p[..x+1] has no non-empty border. */
  lemma ZeroStep(p: string, x: int)
    requires 1 <= x < |p| && Capped(p, x + 1, 0) && p[0] != p[x]
    ensures Longest(p, x + 1, 0) && Capped(p, x + 2, 0)
  {
    BorderEmpty(p, x + 1);
    if Border(p, x + 1, 1) {
      BorderShrink(p, x, 1);
    }
    CapFromLongest(p, x + 1, 0);
  }

  // Steps of buildNext's loop

  /**
   * After advancing to x with now the longest border of p[..x], Next[x]
   * is now when p[now] != p[x], and otherwise copies Next[now].
   */
  lemma NextAdvance(p: string, x: int, now: int, vNow: int, v: int)
    requires 1 <= x < |p| && Longest(p, x, now)
    requires NextVal(p, now, vNow)
    requires v == if p[now] == p[x] then vNow else now
    ensures NextVal(p, x, v)
  {
    if p[now] == p[x] {
      if vNow != -1 {
        BorderOfBorder(p, x, now, vNow);
      }
      forall j | v < j < x && Border(p, x, j)
        ensures p[j] == p[x]
      {
        if j < now {
          BorderOfBorder(p, x, now, j);
        }
      }
    }
  }

  /** p[now] != p[x] (now >= 0): the resume position v = Next[now] is -1 or a border of p[..x] that still caps. */
  lemma NextFallback(p: string, x: int, now: int, v: int)
    requires 0 <= now < x < |p| && Border(p, x, now) && Capped(p, x + 1, now) && p[now] != p[x]
    requires NextVal(p, now, v)
    ensures v == -1 || Border(p, x, v)
    ensures Capped(p, x + 1, v)
  {
    if v != -1 {
      BorderOfBorder(p, x, now, v);
    }
    var x1 := x + 1;
    forall k | v + 1 < k < x1
      ensures !Border(p, x1, k)
    {
      if Border(p, x1, k) {
        BorderShrink(p, x, k);
        BorderOfBorder(p, x, now, k - 1);
      }
    }
  }

  /** now == -1 or p[now] == p[x]: now + 1 is the longest border of p[..x+1], and caps the next prefix. */
  lemma NextMatch(p: string, x: int, now: int)
    requires 0 <= x < |p| - 1 && -1 <= now < x && (now == -1 || Border(p, x, now)) && Capped(p, x + 1, now)
    requires now == -1 || p[now] == p[x]
    ensures Longest(p, x + 1, now + 1) && Capped(p, x + 2, now + 1)
  {
    if now == -1 {
      BorderEmpty(p, x + 1);
    } else {
      BorderExtend(p, x, now);
    }
    CapFromLongest(p, x + 1, now + 1);
  }

  // Steps of match_withPM's loop

  /** An occurrence starting inside a partial match that fails at p[pos] makes the matched part overlap itself: a border of p[..pos]. */
  lemma OccursBorder(p: string, s: string, tar: int, pos: int, i: int)
    requires 0 < pos < |p| && pos <= tar < |s| && s[tar - pos..tar] == p[..pos] && s[tar] != p[pos]
    requires tar - pos <= i < tar
    ensures Occurs(p, s, i) ==> Border(p, pos, tar - i)
  {
    if Occurs(p, s, i) {
      var l := tar - i;
      assert s[tar] == s[i..i + |p|][l] == p[l];
      assert l < pos;
      forall t | 0 <= t < l
        ensures p[t] == p[pos - l + t]
      {
        assert p[t] == s[i..i + |p|][t] == s[i + t];
        assert s[i + t] == s[tar - pos..tar][pos - l + t] == p[..pos][pos - l + t];
      }
      assert p[..l] == p[pos - l..pos];
    }
  }

  /** After a mismatch at p[pos] with pos > 0, no occurrence starts before tar - pm, and p[..pm] is still matched. */
  lemma SkipStep(p: string, s: string, tar: int, pos: int, pm: int)
    requires 0 < pos < |p| && pos <= tar < |s| && s[tar - pos..tar] == p[..pos] && s[tar] != p[pos]
    requires Longest(p, pos, pm)
    ensures forall i | tar - pos <= i < tar - pm :: !Occurs(p, s, i)
    ensures s[tar - pm..tar] == p[..pm]
  {
    forall i | tar - pos <= i < tar - pm
      ensures !Occurs(p, s, i)
    {
      OccursBorder(p, s, tar, pos, i);
    }
    forall t | 0 <= t < pm
      ensures s[tar - pm + t] == p[t]
    {
      assert s[tar - pm + t] == s[tar - pos..tar][pos - pm + t] == p[pos - pm + t];
      assert p[t] == p[..pm][t] == p[pos - pm..pos][t];
    }
  }

  /** No occurrence starts where the text differs from the pattern's first character. */
  lemma NoStartHere(p: string, s: string, tar: int)
    requires 0 < |p| && 0 <= tar < |s| && s[tar] != p[0]
    ensures !Occurs(p, s, tar)
  {
    if tar + |p| <= |s| {
      assert s[tar..tar + |p|][0] == s[tar];
    }
  }

  /** Extending a match by one equal character. */
  lemma MatchOne(p: string, s: string, tar: int, pos: int)
    requires 0 <= pos < |p| && pos <= tar < |s| && s[tar - pos..tar] == p[..pos] && s[tar] == p[pos]
    ensures s[tar - pos..tar + 1] == p[..pos + 1]
  {
    assert s[tar - pos..tar + 1] == s[tar - pos..tar] + [s[tar]];
    assert p[..pos + 1] == p[..pos] + [p[pos]];
  }

  class KmpMatcher {
    const s: string
    const p: string
    const partialMatch: array<int>
    const next: array<int>

    /** Both tables are filled for a non-empty pattern. */
    ghost predicate Valid()
      reads this, partialMatch, next
    {
      |p| >= 1 && partialMatch != next &&
      PartialMatchTable(p, partialMatch[..]) && NextTable(p, next[..])
    }

    /** KmpMatcher(s, p): store both strings and build both tables over p. */
    constructor (s: string, p: string)
      requires |p| >= 1
      ensures Valid() && this.s == s && this.p == p
    {
      this.s := s;
      this.p := p;
      partialMatch := new int[|p|];
      next := new int[|p|];
      new;
      BuildPartialMatch();
      BuildNext();
    }

    /**
     * buildPartial_Match(): entry 0 is 0; then for each x, now falls back
     * through the table until p[now] == p[x] or now is 0.
     */
    method BuildPartialMatch()
      requires |p| >= 1 && partialMatch.Length == |p|
      modifies partialMatch
      ensures PartialMatchTable(p, partialMatch[..])
    {
      partialMatch[0] := 0;
      BorderEmpty(p, 1);
      var now, x := 0, 1;
      while x < |p|
        invariant 1 <= x <= |p| && 0 <= now < x
        invariant forall y | 0 <= y < x :: Longest(p, y + 1, partialMatch[y])
        invariant Border(p, x, now) && Capped(p, x + 1, now)
        decreases |p| - x, now
      {
        if p[now] == p[x] {
          MatchStep(p, x, now);
          now := now + 1;
          partialMatch[x] := now;
          x := x + 1;
        } else if now != 0 {
          FallbackStep(p, x, now, partialMatch[now - 1]);
          now := partialMatch[now - 1];
        } else {
          ZeroStep(p, x);
          partialMatch[x] := 0;
          x := x + 1;
        }
      }
    }

    /**
     * buildNext(): entry 0 is -1; now and x advance together while
     * p[now] == p[x] (or now is -1), Next[x] copying Next[now] when the
     * characters after them agree; on a mismatch now falls back to Next[now].
     */
    method BuildNext()
      requires |p| >= 1 && next.Length == |p|
      modifies next
      ensures NextTable(p, next[..])
    {
      var now, x := -1, 0;
      ghost var start := next[..];
      next[0] := -1;
      NextPrefixGrow(p, start, 0, -1);
      assert next[..] == start[0 := -1];
      while x < |p| - 1
        invariant 0 <= x < |p| && -1 <= now < x
        invariant NextPrefix(p, next[..], x + 1)
        invariant (now == -1 || Border(p, x, now)) && Capped(p, x + 1, now)
        decreases |p| - x, now + 1
      {
        if now == -1 || p[now] == p[x] {
          NextMatch(p, x, now);
          now := now + 1;
          x := x + 1;
          ghost var before := next[..];
          if p[now] == p[x] {
            next[x] := next[now];
          } else {
            next[x] := now;
          }
          assert next[..] == before[x := next[x]];
          NextAdvance(p, x, now, before[now], next[x]);
          NextPrefixGrow(p, before, x, next[x]);
        } else {
          NextFallback(p, x, now, next[..][now]);
          now := next[now];
        }
      }
    }

    /**
     * The scan of match_withPM(): tar walks s, pos counts the matched
     * characters of p, falling back through Partial_Match on a mismatch.
     * It stops at the end of s or with all of p matched; when p is matched,
     * it ends at the leftmost occurrence, and otherwise p does not occur.
     */
    method Scan() returns (tar: int, pos: int)
      requires Valid()
      ensures 0 <= pos <= |p| && pos <= tar <= |s|
      ensures pos == |p| ==> Occurs(p, s, tar - pos) && forall i | 0 <= i < tar - pos :: !Occurs(p, s, i)
      ensures pos < |p| ==> forall i | 0 <= i :: !Occurs(p, s, i)
    {
      tar, pos := 0, 0;
      while tar < |s| && pos < |p|
        invariant 0 <= pos <= |p| && pos <= tar <= |s|
        invariant s[tar - pos..tar] == p[..pos]
        invariant forall i | 0 <= i < tar - pos :: !Occurs(p, s, i)
        decreases |s| - tar, pos
      {
        if s[tar] == p[pos] {
          MatchOne(p, s, tar, pos);
          tar, pos := tar + 1, pos + 1;
        } else if pos != 0 {
          SkipStep(p, s, tar, pos, partialMatch[pos - 1]);
          pos := partialMatch[pos - 1];
        } else {
          NoStartHere(p, s, tar);
          tar := tar + 1;
        }
      }
      if pos == |p| {
        assert p[..pos] == p;
      } else {
        forall i | tar - pos <= i
          ensures !Occurs(p, s, i)
        {
        }
      }
    }

    /** match_withPM() as written: |p| - 1 when p occurs in s, -1 when it does not. */
    method MatchWithPM() returns (r: int)
      requires Valid()
      ensures r == -1 <==> forall i | 0 <= i :: !Occurs(p, s, i)
      ensures r != -1 ==> r == |p| - 1
    {
      var tar, pos := Scan();
      if pos == |p| {
        return pos - 1;
      } else {
        return -1;
      }
    }

    /** match_withPM() with the index it evidently means: where the leftmost occurrence of p in s starts, or -1. */
    method MatchStart() returns (r: int)
      requires Valid()
      ensures r == -1 <==> forall i | 0 <= i :: !Occurs(p, s, i)
      ensures r != -1 ==> Occurs(p, s, r) && forall i | 0 <= i < r :: !Occurs(p, s, i)
    {
      var tar, pos := Scan();
      if pos == |p| {
        return tar - pos;
      } else {
        return -1;
      }
    }
  }

  /**
   * The as-written result is not where the match starts: "ab" occurs in
   * "xxab" only at 2, yet match_withPM returns 1.
   */
  method WrongIndexExample() returns (asWritten: int, start: int)
    ensures asWritten == 1 && start == 2
  {
    var m := new KmpMatcher("xxab", "ab");
    assert Occurs("ab", "xxab", 2);
    asWritten := m.MatchWithPM();
    start := m.MatchStart();
    NoStartHere("ab", "xxab", 0);
    NoStartHere("ab", "xxab", 1);
  }

  /** The tables the demonstration pattern "aaaab" must get: the borders of "aaaa" grow one by one and the final "b" has none. */
  lemma AaaabTables(pm: seq<int>, nx: seq<int>)
    requires PartialMatchTable("aaaab", pm) && NextTable("aaaab", nx)
    ensures pm == [0, 1, 2, 3, 0]
    ensures nx == [-1, -1, -1, -1, 3]
  {
    var p := "aaaab";
    forall n, k | 0 <= k < n <= 4
      ensures Border(p, n, k)
    {
      assert p[..k] == p[n - k..n];
    }
    forall j | 0 < j < 5
      ensures !Border(p, 5, j)
    {
      assert p[..j][j - 1] == 'a' && p[5 - j..5][j - 1] == 'b';
    }
    assert Longest(p, 1, 0) && Longest(p, 2, 1) && Longest(p, 3, 2) && Longest(p, 4, 3) && Longest(p, 5, 0);
    LongestUnique(p, 1, pm[0], 0);
    LongestUnique(p, 2, pm[1], 1);
    LongestUnique(p, 3, pm[2], 2);
    LongestUnique(p, 4, pm[3], 3);
    LongestUnique(p, 5, pm[4], 0);
    assert NextVal(p, 0, -1) && NextVal(p, 1, -1) && NextVal(p, 2, -1) && NextVal(p, 3, -1) && NextVal(p, 4, 3);
    NextValUnique(p, 0, nx[0], -1);
    NextValUnique(p, 1, nx[1], -1);
    NextValUnique(p, 2, nx[2], -1);
    NextValUnique(p, 3, nx[3], -1);
    NextValUnique(p, 4, nx[4], 3);
  }

  /** "aaaab" does not occur in the demonstration text "ahjdfabcabciopahg", which has no two a's in a row. */
  lemma DemoNoOccurrence(i: int)
    requires 0 <= i
    ensures !Occurs("aaaab", "ahjdfabcabciopahg", i)
  {
    var s := "ahjdfabcabciopahg";
    if i + 5 <= |s| {
      assert s[i..i + 5][0] == s[i] && s[i..i + 5][1] == s[i + 1];
      assert s[i] != 'a' || s[i + 1] != 'a';
    }
  }

  /**
   * The demonstration in String/Kmp.cpp: for pattern "aaaab" the tables are
   * [0, 1, 2, 3, 0] and [-1, -1, -1, -1, 3], and the text
   * "ahjdfabcabciopahg" gives -1.
   */
  method DemoExample() returns (pm: seq<int>, nx: seq<int>, r: int)
    ensures pm == [0, 1, 2, 3, 0] && nx == [-1, -1, -1, -1, 3] && r == -1
  {
    var m := new KmpMatcher("ahjdfabcabciopahg", "aaaab");
    pm, nx := m.partialMatch[..], m.next[..];
    AaaabTables(pm, nx);
    r := m.MatchWithPM();
    forall i | 0 <= i
      ensures !Occurs("aaaab", "ahjdfabcabciopahg", i)
    {
      DemoNoOccurrence(i);
    }
  }
}
